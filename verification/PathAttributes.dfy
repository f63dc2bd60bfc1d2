/**
 The path attributes block of an UPDATE message (RFC 4271, section 4.3) and the hash that stands
 for it. `Digests` holds the two uses of the standard hasher, about which nothing is assumed.
 */
module PathAttributes {
  import opened Basics
  import opened Bytes
  import opened Sorting

  datatype TypeValue = TypeValue(code: Byte, value: seq<Byte>)

  datatype Digests = Digests(one: TypeValue -> nat, all: seq<nat> -> nat)

  /** The extended-length bit, 0x10, of an attribute's flags octet. */
  predicate Extended(flags: Byte) {
    var f: int := flags;
    f / 16 % 2 == 1
  }

  /** Octets before the value of the attribute that starts `data`. */
  function HeaderLength(flags: Byte): nat { if Extended(flags) then 4 else 3 }

  predicate HasHeader(data: seq<Byte>) { |data| >= 3 && |data| >= HeaderLength(data[0]) }

  /** The number of octets that value claims to have. */
  function Claimed(data: seq<Byte>): nat
    requires HasHeader(data)
  {
    if Extended(data[0]) then FromBe16(data[2], data[3]) else data[2]
  }

  /** Where that value ends: a value that claims more octets than there are is cut short. */
  function End(data: seq<Byte>): (end: nat)
    requires HasHeader(data)
    ensures HeaderLength(data[0]) <= end <= |data|
  {
    Min(HeaderLength(data[0]) + Claimed(data), |data|)
  }

  function Attributes(data: seq<Byte>): seq<TypeValue>
  {
    if !HasHeader(data) then []
    else [TypeValue(data[1], data[HeaderLength(data[0])..End(data)])] + Attributes(data[End(data)..])
  }

  function Map(h: TypeValue -> nat, tvs: seq<TypeValue>): (r: seq<nat>)
    ensures |r| == |tvs|
  {
    seq(|tvs|, i requires 0 <= i < |tvs| => h(tvs[i]))
  }

  function Hash(d: Digests, data: seq<Byte>): nat { d.all(Sorted(Map(d.one, Attributes(data)))) }

  method HashPathAttributes(d: Digests, attrs: seq<Byte>) returns (combined: nat)
    ensures combined == Hash(d, attrs)
  {
    var i := 0;
    var hashes: seq<nat> := [];
    ghost var seen: seq<TypeValue> := [];
    while i + 3 <= |attrs|
      invariant 0 <= i <= |attrs|
      invariant hashes == Map(d.one, seen) && Attributes(attrs) == seen + Attributes(attrs[i..])
      invariant |attrs| - i < 3 ==> Attributes(attrs) == seen
    {
      ghost var start := i;
      var flags := attrs[i];
      var code := attrs[i + 1];
      i := i + 2;
      var length;
      if Extended(flags) {
        if i + 2 > |attrs| {
          NothingAfter(attrs, start, seen);
          break;
        }
        length := FromBe16(attrs[i], attrs[i + 1]);
        i := i + 2;
      } else {
        length := attrs[i];
        i := i + 1;
      }
      var end := Min(i + length, |attrs|);
      var tv := TypeValue(code, attrs[i..end]);
      OneMore(attrs, start, i, end, seen);
      MapAppend(d.one, seen, tv);
      hashes := hashes + [d.one(tv)];
      seen := seen + [tv];
      i := end;
    }
    combined := d.all(Sorted(hashes));
  }

  /** The attribute found at `start`, with its value between `i` and `end`, is the next one of the list. */
  lemma AttributeAt(attrs: seq<Byte>, start: nat, i: nat, end: nat)
    requires start + 3 <= |attrs| && i == start + HeaderLength(attrs[start]) <= |attrs|
    requires end == start + End(attrs[start..])
    ensures Attributes(attrs[start..]) == [TypeValue(attrs[start + 1], attrs[i..end])] + Attributes(attrs[end..])
  {
    var tail := attrs[start..];
    assert tail[i - start..end - start] == attrs[i..end];
    assert tail[end - start..] == attrs[end..];
  }

  lemma OneMore(attrs: seq<Byte>, start: nat, i: nat, end: nat, seen: seq<TypeValue>)
    requires start + 3 <= |attrs| && i == start + HeaderLength(attrs[start]) <= |attrs|
    requires end == start + End(attrs[start..])
    requires Attributes(attrs) == seen + Attributes(attrs[start..])
    ensures var seen' := seen + [TypeValue(attrs[start + 1], attrs[i..end])];
            && Attributes(attrs) == seen' + Attributes(attrs[end..])
            && (|attrs| - end < 3 ==> Attributes(attrs) == seen')
  {
    AttributeAt(attrs, start, i, end);
    hide Attributes;
    var tv := TypeValue(attrs[start + 1], attrs[i..end]);
    Glue(seen, [tv], Attributes(attrs[end..]));
    if |attrs| - end < 3 {
      NothingAfter(attrs, end, seen + [tv]);
    }
  }

  lemma NothingAfter(attrs: seq<Byte>, start: nat, seen: seq<TypeValue>)
    requires start <= |attrs| && Attributes(attrs) == seen + Attributes(attrs[start..])
    requires |attrs| < start + 3 || |attrs| < start + HeaderLength(attrs[start])
    ensures Attributes(attrs) == seen
  {
  }

  lemma MapAppend(h: TypeValue -> nat, xs: seq<TypeValue>, x: TypeValue)
    ensures Map(h, xs + [x]) == Map(h, xs) + [h(x)]
  {
  }

  // ---- The hash sees a multiset of (type, value) pairs

  ghost predicate InjectiveOne(h: TypeValue -> nat) { forall x, y :: h(x) == h(y) ==> x == y }

  ghost predicate InjectiveAll(h: seq<nat> -> nat) { forall x, y :: h(x) == h(y) ==> x == y }

  lemma {:induction false} MapKeepsMultiset(h: TypeValue -> nat, xs: seq<TypeValue>, ys: seq<TypeValue>)
    requires multiset(xs) == multiset(ys)
    ensures multiset(Map(h, xs)) == multiset(Map(h, ys))
  {
    if xs == [] {
      assert |multiset(ys)| == |ys|;
    } else {
      assert xs[0] in multiset(ys);
      var i :| 0 <= i < |ys| && ys[i] == xs[0];
      RemoveOne(xs, ys, i);
      MapKeepsMultiset(h, xs[1..], ys[..i] + ys[i + 1..]);
      MapSplits(h, xs, 0);
      MapSplits(h, ys, i);
      assert xs[..0] + xs[1..] == xs[1..];
      hide Map;
      assert multiset(Map(h, xs)) == multiset(Map(h, ys));
    }
  }

  lemma RemoveOne(xs: seq<TypeValue>, ys: seq<TypeValue>, i: nat)
    requires i < |ys| && xs != [] && ys[i] == xs[0]
    ensures multiset(xs) == multiset(ys) <==> multiset(xs[1..]) == multiset(ys[..i] + ys[i + 1..])
  {
    assert xs == [xs[0]] + xs[1..] && ys == ys[..i] + [ys[i]] + ys[i + 1..];
    assert multiset(xs) == multiset(xs[1..]) + multiset{xs[0]};
    assert multiset(ys) == multiset(ys[..i] + ys[i + 1..]) + multiset{xs[0]};
    assert multiset(xs[1..]) == multiset(xs) - multiset{xs[0]};
    assert multiset(ys[..i] + ys[i + 1..]) == multiset(ys) - multiset{xs[0]};
  }

  lemma MapSplits(h: TypeValue -> nat, xs: seq<TypeValue>, i: nat)
    requires i < |xs|
    ensures multiset(Map(h, xs)) == multiset(Map(h, xs[..i] + xs[i + 1..])) + multiset{h(xs[i])}
  {
    var m, rest := Map(h, xs), Map(h, xs[..i] + xs[i + 1..]);
    assert m == m[..i] + [m[i]] + m[i + 1..] && rest == m[..i] + m[i + 1..];
  }

  lemma {:induction false} MapReflectsMultiset(h: TypeValue -> nat, xs: seq<TypeValue>, ys: seq<TypeValue>)
    requires InjectiveOne(h) && multiset(Map(h, xs)) == multiset(Map(h, ys))
    ensures multiset(xs) == multiset(ys)
  {
    assert |multiset(Map(h, xs))| == |xs| && |multiset(Map(h, ys))| == |ys|;
    if xs != [] {
      assert Map(h, xs)[0] in multiset(Map(h, ys));
      var i :| 0 <= i < |ys| && Map(h, ys)[i] == h(xs[0]);
      MapSplits(h, xs, 0);
      MapSplits(h, ys, i);
      var m := multiset{h(xs[0])};
      assert multiset(Map(h, xs[..0] + xs[1..])) == multiset(Map(h, xs)) - m;
      assert multiset(Map(h, ys[..i] + ys[i + 1..])) == multiset(Map(h, ys)) - m;
      assert xs[..0] + xs[1..] == xs[1..];
      MapReflectsMultiset(h, xs[1..], ys[..i] + ys[i + 1..]);
      RemoveOne(xs, ys, i);
    }
  }

  /** Attribute order never matters, whatever the hasher does. */
  lemma HashIgnoresOrder(d: Digests, a: seq<Byte>, b: seq<Byte>)
    requires multiset(Attributes(a)) == multiset(Attributes(b))
    ensures Hash(d, a) == Hash(d, b)
  {
    MapKeepsMultiset(d.one, Attributes(a), Attributes(b));
    SortedIffSameMultiset(Map(d.one, Attributes(a)), Map(d.one, Attributes(b)));
  }

  /** With a collision-free hasher, the multiset of pairs is also all that the hash forgets to tell apart. */
  lemma HashDistinguishes(d: Digests, a: seq<Byte>, b: seq<Byte>)
    requires InjectiveOne(d.one) && InjectiveAll(d.all)
    ensures Hash(d, a) == Hash(d, b) <==> multiset(Attributes(a)) == multiset(Attributes(b))
  {
    if Hash(d, a) == Hash(d, b) {
      SortedIffSameMultiset(Map(d.one, Attributes(a)), Map(d.one, Attributes(b)));
      MapReflectsMultiset(d.one, Attributes(a), Attributes(b));
    } else if multiset(Attributes(a)) == multiset(Attributes(b)) {
      HashIgnoresOrder(d, a, b);
    }
  }

  // ---- Encoded attributes

  datatype Attribute = Attribute(flags: Byte, code: Byte, value: seq<Byte>) {
    /** The value's length fits the length field that the flags select. */
    predicate Valid() { |value| < (if Extended(flags) then 0x1_0000 else 0x100) }

    function Pair(): TypeValue { TypeValue(code, value) }
  }

  function Encode(a: Attribute): seq<Byte>
    requires a.Valid()
  {
    [a.flags, a.code] + (if Extended(a.flags) then Be16(|a.value|) else [|a.value|]) + a.value
  }

  predicate AllValid(xs: seq<Attribute>) { forall i :: 0 <= i < |xs| ==> xs[i].Valid() }

  function EncodeAll(xs: seq<Attribute>): seq<Byte>
    requires AllValid(xs)
  {
    if xs == [] then [] else Encode(xs[0]) + EncodeAll(xs[1..])
  }

  function Pairs(xs: seq<Attribute>): seq<TypeValue> {
    if xs == [] then [] else [xs[0].Pair()] + Pairs(xs[1..])
  }

  lemma FirstAttribute(x: Attribute, rest: seq<Byte>)
    requires x.Valid()
    ensures Attributes(Encode(x) + rest) == [x.Pair()] + Attributes(rest)
  {
  }

  /** What is not a whole attribute: too little for a header, or a value that claims more octets than there are. */
  predicate Broken(data: seq<Byte>) { !HasHeader(data) || HeaderLength(data[0]) + Claimed(data) > |data| }

  /** A broken attribute counts with the octets it has, if it has a header. */
  function BrokenPair(data: seq<Byte>): seq<TypeValue> {
    if HasHeader(data) then [TypeValue(data[1], data[HeaderLength(data[0])..])] else []
  }

  /** Whole attributes are read as they are, whatever broken attribute follows them. */
  lemma {:induction false} AttributesOfEncoding(xs: seq<Attribute>, rest: seq<Byte>)
    requires AllValid(xs) && Broken(rest)
    ensures Attributes(EncodeAll(xs) + rest) == Pairs(xs) + BrokenPair(rest)
  {
    hide Broken, BrokenPair, Encode, Attribute.Pair;
    if xs == [] {
      assert EncodeAll(xs) + rest == rest;
      BrokenAttributes(rest);
    } else {
      AttributesOfEncoding(xs[1..], rest);
      FirstAttribute(xs[0], EncodeAll(xs[1..]) + rest);
      assert EncodeAll(xs) + rest == Encode(xs[0]) + (EncodeAll(xs[1..]) + rest);
    }
  }

  lemma BrokenAttributes(rest: seq<Byte>)
    requires Broken(rest)
    ensures Attributes(rest) == [] + BrokenPair(rest)
  {
    if HasHeader(rest) {
      assert End(rest) == |rest| && rest[End(rest)..] == [];
      assert rest[HeaderLength(rest[0])..End(rest)] == rest[HeaderLength(rest[0])..];
      assert Attributes([]) == [];
    }
  }

  /** The whole attributes at the start of a block, and what follows them. */
  function Split(data: seq<Byte>): (seq<Attribute>, seq<Byte>) {
    if Broken(data) then ([], data)
    else
      var (xs, rest) := Split(data[End(data)..]);
      ([Attribute(data[0], data[1], data[HeaderLength(data[0])..End(data)])] + xs, rest)
  }

  lemma {:induction false} Splits(data: seq<Byte>)
    ensures var (xs, rest) := Split(data);
            AllValid(xs) && Broken(rest) && data == EncodeAll(xs) + rest
  {
    if !Broken(data) {
      Splits(data[End(data)..]);
      FirstEncoded(data);
      var a := Attribute(data[0], data[1], data[HeaderLength(data[0])..End(data)]);
      var (xs, rest) := Split(data[End(data)..]);
      hide Encode, Split;
      assert ([a] + xs)[1..] == xs;
      assert Encode(a) + (EncodeAll(xs) + rest) == (Encode(a) + EncodeAll(xs)) + rest;
    }
  }

  lemma FirstEncoded(data: seq<Byte>)
    requires !Broken(data)
    ensures var a := Attribute(data[0], data[1], data[HeaderLength(data[0])..End(data)]);
            a.Valid() && data == Encode(a) + data[End(data)..]
  {
  }

  /** Every block is whole attributes and at most one broken one behind them, and is read as just that. */
  lemma AttributesExactly(data: seq<Byte>)
    ensures exists xs, rest ::
              && AllValid(xs) && Broken(rest) && data == EncodeAll(xs) + rest
              && Attributes(data) == Pairs(xs) + BrokenPair(rest)
  {
    Splits(data);
    var (xs, rest) := Split(data);
    AttributesOfEncoding(xs, rest);
  }

  lemma AttributesRoundTrip(xs: seq<Attribute>)
    requires AllValid(xs)
    ensures Attributes(EncodeAll(xs)) == Pairs(xs)
  {
    AttributesOfEncoding(xs, []);
    assert EncodeAll(xs) + [] == EncodeAll(xs) && Pairs(xs) + [] == Pairs(xs);
  }

  /** Reordering attributes, changing other flag bits or choosing the other length form leaves the hash alone. */
  lemma HashOfEncoding(d: Digests, xs: seq<Attribute>, ys: seq<Attribute>)
    requires AllValid(xs) && AllValid(ys) && multiset(Pairs(xs)) == multiset(Pairs(ys))
    ensures Hash(d, EncodeAll(xs)) == Hash(d, EncodeAll(ys))
  {
    AttributesRoundTrip(xs);
    AttributesRoundTrip(ys);
    HashIgnoresOrder(d, EncodeAll(xs), EncodeAll(ys));
  }

  // ---- Reading plain octets: the four forms a block can begin with

  /** Bit 0x10 of an octet: the upper half of each thirty-two values. */
  lemma ExtendedIsBit(flags: Byte)
    ensures Extended(flags) <==> flags % 32 >= 16
  {
  }

  /** Flag bit 0x10 clear: one length octet. */
  lemma ReadsShortForm(flags: Byte, code: Byte, v: seq<Byte>, rest: seq<Byte>)
    requires flags % 32 < 16 && |v| < 256
    ensures Attributes([flags, code, |v|] + v + rest) == [TypeValue(code, v)] + Attributes(rest)
  {
    ExtendedIsBit(flags);
    hide Extended;
    var data := [flags, code, |v|] + v + rest;
    assert data[..3] == [flags, code, |v|];
    assert End(data) == 3 + |v| && data[3..End(data)] == v && data[End(data)..] == rest;
  }

  /** Flag bit 0x10 set: two length octets, the high one first. */
  lemma ReadsExtendedForm(flags: Byte, code: Byte, v: seq<Byte>, rest: seq<Byte>)
    requires flags % 32 >= 16 && |v| < 65536
    ensures Attributes([flags, code, |v| / 256, |v| % 256] + v + rest) == [TypeValue(code, v)] + Attributes(rest)
  {
    ExtendedIsBit(flags);
    BigEndian16(|v|);
    hide Extended, FromBe16;
    var data := [flags, code, |v| / 256, |v| % 256] + v + rest;
    assert data[..4] == [flags, code, |v| / 256, |v| % 256];
    assert End(data) == 4 + |v| && data[4..End(data)] == v && data[End(data)..] == rest;
  }

  /** A value with fewer octets than its length says counts with those there are. */
  lemma ReadsCutShortForm(flags: Byte, code: Byte, low: Byte, v: seq<Byte>)
    requires flags % 32 < 16 && low > |v|
    ensures Attributes([flags, code, low] + v) == [TypeValue(code, v)]
  {
    ExtendedIsBit(flags);
    hide Extended, Attributes, End;
    var data := [flags, code, low] + v;
    assert data[..3] == [flags, code, low] && data[3..] == v;
    BrokenAttributes(data);
  }

  lemma ReadsCutExtendedForm(flags: Byte, code: Byte, high: Byte, low: Byte, v: seq<Byte>)
    requires flags % 32 >= 16 && 256 * high + low > |v|
    ensures Attributes([flags, code, high, low] + v) == [TypeValue(code, v)]
  {
    ExtendedIsBit(flags);
    FromBe16Is(high, low);
    hide Extended, FromBe16, Attributes, End;
    var data := [flags, code, high, low] + v;
    assert data[..4] == [flags, code, high, low] && data[4..] == v;
    BrokenAttributes(data);
  }

  /** Less than a header is nothing. */
  lemma ReadsNoHeader(data: seq<Byte>)
    requires |data| < 3 || (|data| == 3 && data[0] % 32 >= 16)
    ensures Attributes(data) == []
  {
    if |data| == 3 {
      ExtendedIsBit(data[0]);
    }
  }
}
