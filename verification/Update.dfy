/**
 The UPDATE message body (RFC 4271, section 4.3): withdrawn routes, path attributes, announced routes.
 */
module Update {
  import opened Bytes
  import Nlri
  import PathAttributes

  datatype PathChange = PathChange(prefix: string, pathHash: nat)

  function Tag(prefixes: seq<string>, h: nat): (r: seq<PathChange>)
    ensures |r| == |prefixes|
  {
    seq(|prefixes|, i requires 0 <= i < |prefixes| => PathChange(prefixes[i], h))
  }

  function Changes(routes: seq<Byte>, h: nat): seq<PathChange> { Tag(Nlri.RenderAll(Nlri.Entries(routes)), h) }

  /** A field behind a two-octet length, and what follows it; a length that overruns the data reads as empty. */
  function Field(data: seq<Byte>): (seq<Byte>, seq<Byte>)
    requires |data| >= 2
  {
    var n := FromBe16(data[0], data[1]);
    if 2 + n <= |data| then (data[2..2 + n], data[2 + n..]) else ([], data[2..])
  }

  function PathHash(d: PathAttributes.Digests, attrs: seq<Byte>): nat {
    if attrs == [] then 0 else PathAttributes.Hash(d, attrs)
  }

  /** Announced prefixes carry the hash of the attributes in front of them, or 0 if there are none. */
  function Announced(d: PathAttributes.Digests, data: seq<Byte>): seq<PathChange> {
    if |data| < 2 then [] else Changes(Field(data).1, PathHash(d, Field(data).0))
  }

  /** Withdrawn prefixes come first and carry hash 0. */
  function Parsed(d: PathAttributes.Digests, payload: seq<Byte>): seq<PathChange> {
    if |payload| < 2 then [] else Changes(Field(payload).0, 0) + Announced(d, Field(payload).1)
  }

  method ParseUpdate(d: PathAttributes.Digests, payload: seq<Byte>) returns (results: seq<PathChange>)
    ensures results == Parsed(d, payload)
  {
    hide Nlri.RenderAll, Nlri.Entries, PathAttributes.Hash;
    results := [];
    var pos := 0;
    if pos + 2 > |payload| {
      return;
    }

    assert payload[pos..] == payload;
    FieldAt(payload, pos);
    ghost var (withdrawn, rest) := Field(payload);
    var withdrawnLength := FromBe16(payload[pos], payload[pos + 1]);
    pos := pos + 2;
    if withdrawnLength > 0 && pos + withdrawnLength <= |payload| {
      assert withdrawn == payload[pos..pos + withdrawnLength];
      var prefixes := Nlri.ParseNlri(payload[pos..pos + withdrawnLength]);
      results := Push(results, prefixes, 0);
      pos := pos + withdrawnLength;
    } else {
      assert withdrawn == [];
      NoRoutes(0);
    }
    assert payload[pos..] == rest;
    assert results == Changes(withdrawn, 0);

    if pos + 2 > |payload| {
      return;
    }
    FieldAt(payload, pos);
    ghost var (attrs, announced) := Field(rest);
    var attrLength := FromBe16(payload[pos], payload[pos + 1]);
    pos := pos + 2;
    var pathHash := 0;
    if attrLength > 0 && pos + attrLength <= |payload| {
      assert attrs == payload[pos..pos + attrLength] && |attrs| > 0;
      pathHash := PathAttributes.HashPathAttributes(d, payload[pos..pos + attrLength]);
      pos := pos + attrLength;
    } else {
      assert attrs == [];
    }
    assert payload[pos..] == announced;
    assert pathHash == PathHash(d, attrs);

    if pos < |payload| {
      var prefixes := Nlri.ParseNlri(payload[pos..]);
      results := Push(results, prefixes, pathHash);
    } else {
      assert announced == [];
      NoRoutes(pathHash);
    }
  }

  lemma FieldAt(data: seq<Byte>, pos: nat)
    requires pos + 2 <= |data|
    ensures var n := FromBe16(data[pos], data[pos + 1]);
            Field(data[pos..]) == if pos + 2 + n <= |data| then (data[pos + 2..pos + 2 + n], data[pos + 2 + n..])
                                  else ([], data[pos + 2..])
  {
    var n := FromBe16(data[pos], data[pos + 1]);
    if pos + 2 + n <= |data| {
      assert data[pos..][2..2 + n] == data[pos + 2..pos + 2 + n];
    }
  }

  lemma NoRoutes(h: nat)
    ensures Changes([], h) == []
  {
  }

  method Push(results: seq<PathChange>, prefixes: seq<string>, h: nat) returns (r: seq<PathChange>)
    ensures r == results + Tag(prefixes, h)
    ensures results == [] ==> r == Tag(prefixes, h)
  {
    r := results;
    for i := 0 to |prefixes|
      invariant r == results + Tag(prefixes[..i], h)
    {
      r := r + [PathChange(prefixes[i], h)];
    }
    assert prefixes[..|prefixes|] == prefixes;
  }

  // ---- Round trip

  datatype Message = Message(withdrawn: seq<Nlri.Entry>, attributes: seq<PathAttributes.Attribute>,
                             announced: seq<Nlri.Entry>) {
    predicate Valid() {
      && Nlri.AllValid(withdrawn) && Nlri.AllValid(announced) && PathAttributes.AllValid(attributes)
      && |Nlri.EncodeAll(withdrawn)| < 0x1_0000
      && |PathAttributes.EncodeAll(attributes)| < 0x1_0000
    }

    function AttributesHash(d: PathAttributes.Digests): nat
      requires Valid()
    {
      if attributes == [] then 0 else PathAttributes.Hash(d, PathAttributes.EncodeAll(attributes))
    }

    /** What the message says, route by route. */
    function Meaning(d: PathAttributes.Digests): seq<PathChange>
      requires Valid()
    {
      Tag(Nlri.RenderAll(withdrawn), 0) + Tag(Nlri.RenderAll(announced), AttributesHash(d))
    }
  }

  function WithLength(field: seq<Byte>): seq<Byte>
    requires |field| < 0x1_0000
  {
    Be16(|field|) + field
  }

  function Encode(m: Message): seq<Byte>
    requires m.Valid()
  {
    WithLength(Nlri.EncodeAll(m.withdrawn))
    + (WithLength(PathAttributes.EncodeAll(m.attributes)) + Nlri.EncodeAll(m.announced))
  }

  lemma FieldRoundTrip(field: seq<Byte>, rest: seq<Byte>)
    requires |field| < 0x1_0000
    ensures Field(WithLength(field) + rest) == (field, rest)
  {
  }

  lemma EntriesRoundTrip(es: seq<Nlri.Entry>, h: nat)
    requires Nlri.AllValid(es)
    ensures Changes(Nlri.EncodeAll(es), h) == Tag(Nlri.RenderAll(es), h)
  {
    assert Nlri.EncodeAll(es) + [] == Nlri.EncodeAll(es);
    Nlri.Recomposes(es, []);
  }

  /** Encoding and parsing returns every withdrawn route, then every announced one, in order. */
  lemma UpdateRoundTrip(d: PathAttributes.Digests, m: Message)
    requires m.Valid()
    ensures Parsed(d, Encode(m)) == m.Meaning(d)
  {
    var w, a, n := Nlri.EncodeAll(m.withdrawn), PathAttributes.EncodeAll(m.attributes), Nlri.EncodeAll(m.announced);
    FieldRoundTrip(w, WithLength(a) + n);
    FieldRoundTrip(a, n);
    EntriesRoundTrip(m.withdrawn, 0);
    EntriesRoundTrip(m.announced, PathHash(d, a));
  }

  /** Messages that differ only in the order and form of their attributes are reported identically. */
  lemma EquivalentAttributesSameMeaning(d: PathAttributes.Digests, m: Message, n: Message)
    requires m.Valid() && n.Valid()
    requires m.withdrawn == n.withdrawn && m.announced == n.announced
    requires multiset(PathAttributes.Pairs(m.attributes)) == multiset(PathAttributes.Pairs(n.attributes))
    ensures Parsed(d, Encode(m)) == Parsed(d, Encode(n))
  {
    PathAttributes.HashOfEncoding(d, m.attributes, n.attributes);
    PathAttributes.AttributesRoundTrip(m.attributes);
    PathAttributes.AttributesRoundTrip(n.attributes);
    var p, q := PathAttributes.Pairs(m.attributes), PathAttributes.Pairs(n.attributes);
    assert |multiset(p)| == |p| && |multiset(q)| == |q|;
    UpdateRoundTrip(d, m);
    UpdateRoundTrip(d, n);
  }

  // ---- Reading plain octets

  lemma ChangesAt(routes: seq<Byte>, h: nat, i: nat)
    requires i < |Nlri.Entries(routes)|
    ensures |Changes(routes, h)| == |Nlri.Entries(routes)|
    ensures Changes(routes, h)[i] == PathChange(Nlri.Render(Nlri.Entries(routes)[i]), h)
  {
    hide Nlri.Render, Nlri.Entries;
    Nlri.RenderAllAt(Nlri.Entries(routes), i);
  }

  lemma FieldOf(field: seq<Byte>, rest: seq<Byte>)
    requires |field| < 65536
    ensures Field([|field| / 256, |field| % 256] + field + rest) == (field, rest)
  {
    var data := [|field| / 256, |field| % 256] + field + rest;
    BigEndian16(|field|);
    assert data[..2] == [|field| / 256, |field| % 256];
    assert data[2..2 + |field|] == field && data[2 + |field|..] == rest;
  }

  lemma OverrunField(high: Byte, low: Byte, rest: seq<Byte>)
    requires 256 * high + low > |rest|
    ensures Field([high, low] + rest) == ([], rest)
  {
    FromBe16Is(high, low);
    assert ([high, low] + rest)[2..] == rest;
  }

  /** Two lengths, high octet first, each with its field, and announced routes to the end. */
  lemma ReadsSections(d: PathAttributes.Digests, w: seq<Byte>, a: seq<Byte>, n: seq<Byte>)
    requires |w| < 65536 && |a| < 65536
    ensures Parsed(d, [|w| / 256, |w| % 256] + w + ([|a| / 256, |a| % 256] + a + n))
         == Changes(w, 0) + Changes(n, if a == [] then 0 else PathAttributes.Hash(d, a))
  {
    hide Changes, Field;
    FieldOf(w, [|a| / 256, |a| % 256] + a + n);
    FieldOf(a, n);
  }

  /** Without room for a second length the message ends behind the withdrawn routes. */
  lemma ReadsWithdrawnOnly(d: PathAttributes.Digests, w: seq<Byte>, rest: seq<Byte>)
    requires |w| < 65536 && |rest| < 2
    ensures Parsed(d, [|w| / 256, |w| % 256] + w + rest) == Changes(w, 0)
    ensures Parsed(d, rest) == []
  {
    hide Changes, Field;
    FieldOf(w, rest);
  }

  /** A withdrawn length that overruns the message counts as 0. */
  lemma ReadsOverrun(d: PathAttributes.Digests, high: Byte, low: Byte, rest: seq<Byte>)
    requires 256 * high + low > |rest|
    ensures Parsed(d, [high, low] + rest) == Parsed(d, [0, 0] + rest)
  {
    hide Changes, Field;
    OverrunField(high, low, rest);
    FieldOf([], rest);
    assert [0, 0] + [] + rest == [0, 0] + rest;
  }

  /** So does an attribute length: what follows it is read as routes with hash 0. */
  lemma ReadsAttributeOverrun(d: PathAttributes.Digests, w: seq<Byte>, high: Byte, low: Byte, n: seq<Byte>)
    requires |w| < 65536 && 256 * high + low > |n|
    ensures Parsed(d, [|w| / 256, |w| % 256] + w + ([high, low] + n)) == Changes(w, 0) + Changes(n, 0)
  {
    hide Changes, Field;
    FieldOf(w, [high, low] + n);
    OverrunField(high, low, n);
  }
}
