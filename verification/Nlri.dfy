/**
 Reachability lists of BGP UPDATE messages (RFC 4271, section 4.3): a list of entries, each one
 octet holding a prefix length in bits and as many octets as that length needs.
 */
module Nlri {
  import opened Basics
  import opened Bytes
  import opened Text

  datatype Entry = Entry(bits: Byte, addr: seq<Byte>) {
    predicate Valid() { |addr| == AddrBytes(bits) }
  }

  function AddrBytes(bits: Byte): nat {
    var b: int := bits;
    (b + 7) / 8
  }

  function Encode(e: Entry): seq<Byte> { [e.bits] + e.addr }

  function EncodeAll(es: seq<Entry>): seq<Byte> {
    if es == [] then [] else Encode(es[0]) + EncodeAll(es[1..])
  }

  predicate AllValid(es: seq<Entry>) { forall i :: 0 <= i < |es| ==> es[i].Valid() }

  /** What the parser cannot turn into an entry: nothing, or a length octet with too few octets after it. */
  predicate Truncated(data: seq<Byte>) { data == [] || |data| - 1 < AddrBytes(data[0]) }

  function Entries(data: seq<Byte>): seq<Entry> {
    if Truncated(data) then [] else
      var end := 1 + AddrBytes(data[0]);
      [Entry(data[0], data[1..end])] + Entries(data[end..])
  }

  function Remainder(data: seq<Byte>): seq<Byte> {
    if Truncated(data) then data else Remainder(data[1 + AddrBytes(data[0])..])
  }

  // ---- Rendering: the text an entry is reported as

  function Padded(addr: seq<Byte>, n: nat): (octets: seq<Byte>)
    ensures |octets| == n
  {
    seq(n, i requires 0 <= i => if i < |addr| then addr[i] else 0)
  }

  function Group(octets: seq<Byte>, i: nat): string
    requires 2 * i + 1 < |octets|
  {
    Hex(FromBe16(octets[2 * i], octets[2 * i + 1]))
  }

  /** Octets i..4 of an IPv4 address, then the prefix length. */
  function RenderV4(o: seq<Byte>, i: nat, bits: Byte): string
    requires |o| == 4 && i < 4
    decreases 4 - i
  {
    if i == 3 then Decimal(o[3]) + "/" + Decimal(bits)
    else Decimal(o[i]) + "." + RenderV4(o, i + 1, bits)
  }

  /** Groups i..8 of an IPv6 address, then the prefix length. */
  function RenderV6(o: seq<Byte>, i: nat, bits: Byte): string
    requires |o| == 16 && i < 8
    decreases 8 - i
  {
    if i == 7 then Group(o, 7) + "/" + Decimal(bits)
    else Group(o, i) + ":" + RenderV6(o, i + 1, bits)
  }

  /** Any length up to 32 is shown as IPv4, any longer one as IPv6, whatever the address family was. */
  function Render(e: Entry): string {
    if e.bits <= 32 then RenderV4(Padded(e.addr, 4), 0, e.bits) else RenderV6(Padded(e.addr, 16), 0, e.bits)
  }

  function RenderAll(es: seq<Entry>): seq<string> {
    if es == [] then [] else RenderAll(es[..|es| - 1]) + [Render(es[|es| - 1])]
  }

  // ---- The parser

  method ParseNlri(data: seq<Byte>) returns (prefixes: seq<string>)
    ensures prefixes == RenderAll(Entries(data))
  {
    hide Render;
    prefixes := [];
    var pos := 0;
    ghost var seen: seq<Entry> := [];
    while pos < |data|
      invariant 0 <= pos <= |data|
      invariant prefixes == RenderAll(seen) && Entries(data) == seen + Entries(data[pos..])
    {
      ghost var start := pos;
      var bits := data[pos];
      pos := pos + 1;
      var addrBytes := AddrBytes(bits);
      if pos + addrBytes > |data| {
        NothingAfter(data, start, seen);
        return;
      }
      var e := Entry(bits, data[pos..pos + addrBytes]);
      pos := pos + addrBytes;
      OneMore(data, start, pos, seen);
      RenderAllAppend(seen, e);
      prefixes := prefixes + [Render(e)];
      seen := seen + [e];
    }
    NothingAfter(data, pos, seen);
  }

  lemma OneMore(data: seq<Byte>, pos: nat, end: nat, seen: seq<Entry>)
    requires pos < |data| && end == pos + 1 + AddrBytes(data[pos]) <= |data|
    requires Entries(data) == seen + Entries(data[pos..])
    ensures Entries(data) == seen + [Entry(data[pos], data[pos + 1..end])] + Entries(data[end..])
  {
    EntryAt(data, pos, end);
  }

  lemma EntryAt(data: seq<Byte>, pos: nat, end: nat)
    requires pos < |data| && end == pos + 1 + AddrBytes(data[pos]) <= |data|
    ensures Entries(data[pos..]) == [Entry(data[pos], data[pos + 1..end])] + Entries(data[end..])
  {
    var tail := data[pos..];
    assert tail[1..end - pos] == data[pos + 1..end];
    assert tail[end - pos..] == data[end..];
  }

  lemma NothingAfter(data: seq<Byte>, pos: nat, seen: seq<Entry>)
    requires pos <= |data| && Truncated(data[pos..])
    requires Entries(data) == seen + Entries(data[pos..])
    ensures Entries(data) == seen
  {
  }

  lemma RenderAllAppend(es: seq<Entry>, e: Entry)
    ensures RenderAll(es + [e]) == RenderAll(es) + [Render(e)]
  {
  }

  // ---- Decoding is exact

  /** Nothing is invented, dropped or reordered: input and result determine each other. */
  lemma {:induction false} DecodeIsMaximal(data: seq<Byte>, es: seq<Entry>, rest: seq<Byte>)
    ensures Entries(data) == es && Remainder(data) == rest
            <==> data == EncodeAll(es) + rest && AllValid(es) && Truncated(rest)
    decreases |data|
  {
    if Entries(data) == es && Remainder(data) == rest {
      Decomposes(data);
    }
    if data == EncodeAll(es) + rest && AllValid(es) && Truncated(rest) {
      Recomposes(es, rest);
    }
  }

  lemma EncodeAllCons(e: Entry, es: seq<Entry>)
    ensures EncodeAll([e] + es) == Encode(e) + EncodeAll(es)
  {
  }

  lemma {:induction false} Decomposes(data: seq<Byte>)
    ensures data == EncodeAll(Entries(data)) + Remainder(data)
    ensures AllValid(Entries(data)) && Truncated(Remainder(data))
  {
    if !Truncated(data) {
      var end := 1 + AddrBytes(data[0]);
      var e, es := Entry(data[0], data[1..end]), Entries(data[end..]);
      Decomposes(data[end..]);
      EncodeAllCons(e, es);
      Glue(Encode(e), EncodeAll(es), Remainder(data[end..]));
      FirstOctets(data, end);
    }
  }

  lemma FirstOctets(data: seq<Byte>, end: nat)
    requires 1 <= end <= |data|
    ensures data == [data[0]] + data[1..end] + data[end..]
  {
  }

  lemma {:induction false} Recomposes(es: seq<Entry>, rest: seq<Byte>)
    requires AllValid(es) && Truncated(rest)
    ensures Entries(EncodeAll(es) + rest) == es && Remainder(EncodeAll(es) + rest) == rest
  {
    if es == [] {
      assert EncodeAll(es) + rest == rest;
    } else {
      Recomposes(es[1..], rest);
      var e, data := es[0], EncodeAll(es) + rest;
      var end := 1 + AddrBytes(e.bits);
      Glue(Encode(e), EncodeAll(es[1..]), rest);
      assert data[..end] == Encode(e) && data[end..] == EncodeAll(es[1..]) + rest;
      assert data[0] == e.bits && data[1..end] == data[..end][1..] == e.addr;
    }
  }

  lemma {:induction false} EncodeAllAppend(xs: seq<Entry>, ys: seq<Entry>)
    ensures EncodeAll(xs + ys) == EncodeAll(xs) + EncodeAll(ys)
  {
    if xs == [] {
      assert xs + ys == ys;
    } else {
      EncodeAllAppend(xs[1..], ys);
      assert (xs + ys)[1..] == xs[1..] + ys;
    }
  }

  /** A list that is consumed to its end can be cut off: what follows is parsed as if it stood alone. */
  lemma ParsingDistributes(left: seq<Byte>, right: seq<Byte>)
    requires Remainder(left) == []
    ensures Entries(left + right) == Entries(left) + Entries(right)
    ensures Remainder(left + right) == Remainder(right)
  {
    Decomposes(left);
    Decomposes(right);
    var xs, ys, rest := Entries(left), Entries(right), Remainder(right);
    EncodeAllAppend(xs, ys);
    Glue(EncodeAll(xs), EncodeAll(ys), rest);
    assert left == EncodeAll(xs);
    Recomposes(xs + ys, rest);
  }

  // ---- Rendered prefixes identify entries

  ghost predicate TextIdentifies(bits: Byte) {
    forall d: Entry, e: Entry ::
      d.Valid() && e.Valid() && d.bits == bits && Render(d) == Render(e) ==> d == e
  }

  /** A real prefix length is reported unambiguously; past 128 bits the octets after the sixteenth are lost. */
  lemma TextIdentifiesExactly(bits: Byte)
    ensures TextIdentifies(bits) <==> bits <= 128
  {
    hide Render;
    if bits <= 128 {
      forall d: Entry, e: Entry | d.Valid() && e.Valid() && d.bits == bits && Render(d) == Render(e)
        ensures d == e
      {
        RenderInjective(d, e);
      }
    } else {
      var n := AddrBytes(bits);
      var d := Entry(bits, seq(n, _ => 0));
      var e := Entry(bits, seq(n, i => if i == 16 then 1 else 0));
      assert d.addr[16] != e.addr[16];
      SameText(d, e);
    }
  }

  lemma SameText(d: Entry, e: Entry)
    requires d.bits == e.bits > 32 && |d.addr| >= 16 && |e.addr| >= 16 && d.addr[..16] == e.addr[..16]
    ensures Render(d) == Render(e)
  {
    forall i | 0 <= i < 16 ensures d.addr[i] == e.addr[i] {
      assert d.addr[..16][i] == e.addr[..16][i];
    }
    assert Padded(d.addr, 16) == Padded(e.addr, 16);
  }

  lemma RenderInjective(d: Entry, e: Entry)
    requires d.Valid() && e.Valid() && d.bits <= 128
    requires Render(d) == Render(e)
    ensures d == e
  {
    if d.bits <= 32 && e.bits <= 32 {
      RenderV4Injective(Padded(d.addr, 4), d.bits, Padded(e.addr, 4), e.bits, 0);
      PaddedInjective(d.addr, e.addr, 4);
    } else if d.bits > 32 && e.bits > 32 {
      RenderV6Injective(Padded(d.addr, 16), d.bits, Padded(e.addr, 16), e.bits, 0);
      PaddedInjective(d.addr, e.addr, 16);
    } else if d.bits <= 32 {
      FamiliesDiffer(d, e);
    } else {
      FamiliesDiffer(e, d);
    }
  }

  lemma FamiliesDiffer(v4: Entry, v6: Entry)
    requires v4.bits <= 32 < v6.bits
    ensures Render(v4) != Render(v6)
  {
    RenderV6HasNoDot(Padded(v6.addr, 16), 0, v6.bits);
    assert Render(v4)[|Decimal(Padded(v4.addr, 4)[0])|] == '.';
  }

  lemma PaddedInjective(a: seq<Byte>, b: seq<Byte>, n: nat)
    requires |a| == |b| <= n && Padded(a, n) == Padded(b, n)
    ensures a == b
  {
    forall i | 0 <= i < |a| ensures a[i] == b[i] {
      assert Padded(a, n)[i] == a[i] && Padded(b, n)[i] == b[i];
    }
  }

  /** The number before the first separator, and the rest, are read back uniquely. */
  lemma SplitNumber(m: nat, n: nat, base: Base, x: string, y: string, sep: char)
    requires !IsDigit(sep)
    requires Numeral(m, base) + [sep] + x == Numeral(n, base) + [sep] + y
    ensures m == n && x == y
  {
    SplitAtSeparator(Numeral(m, base), Numeral(n, base), x, y, sep);
    NumeralInjective(m, n, base);
  }

  lemma {:induction false} RenderV4Injective(a: seq<Byte>, m: Byte, b: seq<Byte>, n: Byte, i: nat)
    requires |a| == |b| == 4 && i < 4 && RenderV4(a, i, m) == RenderV4(b, i, n)
    ensures a[i..] == b[i..] && m == n
    decreases 4 - i
  {
    if i == 3 {
      SplitNumber(a[3], b[3], Ten, Decimal(m), Decimal(n), '/');
      NumeralInjective(m, n, Ten);
    } else {
      SplitNumber(a[i], b[i], Ten, RenderV4(a, i + 1, m), RenderV4(b, i + 1, n), '.');
      RenderV4Injective(a, m, b, n, i + 1);
      assert a[i..] == [a[i]] + a[i + 1..] && b[i..] == [b[i]] + b[i + 1..];
    }
  }

  lemma {:induction false} RenderV6Injective(a: seq<Byte>, m: Byte, b: seq<Byte>, n: Byte, i: nat)
    requires |a| == |b| == 16 && i < 8 && RenderV6(a, i, m) == RenderV6(b, i, n)
    ensures a[2 * i..] == b[2 * i..] && m == n
    decreases 8 - i
  {
    var g, h := FromBe16(a[2 * i], a[2 * i + 1]), FromBe16(b[2 * i], b[2 * i + 1]);
    if i == 7 {
      SplitNumber(g, h, Sixteen, Decimal(m), Decimal(n), '/');
      NumeralInjective(m, n, Ten);
    } else {
      SplitNumber(g, h, Sixteen, RenderV6(a, i + 1, m), RenderV6(b, i + 1, n), ':');
      RenderV6Injective(a, m, b, n, i + 1);
    }
    PrependPair(a, b, 2 * i);
  }

  lemma PrependPair(a: seq<Byte>, b: seq<Byte>, i: nat)
    requires i + 1 < |a| && i + 1 < |b| && a[i + 2..] == b[i + 2..]
    requires FromBe16(a[i], a[i + 1]) == FromBe16(b[i], b[i + 1])
    ensures a[i..] == b[i..]
  {
  }

  lemma {:induction false} RenderV6HasNoDot(o: seq<Byte>, i: nat, bits: Byte)
    requires |o| == 16 && i < 8
    ensures '.' !in RenderV6(o, i, bits)
    decreases 8 - i
  {
    if i < 7 {
      RenderV6HasNoDot(o, i + 1, bits);
    }
  }

  lemma {:induction false} RenderV4HasNoColon(o: seq<Byte>, i: nat, bits: Byte)
    requires |o| == 4 && i < 4
    ensures ':' !in RenderV4(o, i, bits)
    decreases 4 - i
  {
    if i < 3 {
      RenderV4HasNoColon(o, i + 1, bits);
    }
  }

  // ---- Reading plain octets

  /** A length octet and the least number of octets that hold so many bits. */
  lemma ReadsEntry(bits: Byte, addr: seq<Byte>, rest: seq<Byte>)
    requires 8 * |addr| - 8 < bits <= 8 * |addr|
    ensures Entries([bits] + addr + rest) == [Entry(bits, addr)] + Entries(rest)
  {
    var data := [bits] + addr + rest;
    assert data[1..1 + |addr|] == addr && data[1 + |addr|..] == rest;
  }

  /** With fewer octets nothing more is read. */
  lemma ReadsCutEntry(bits: Byte, addr: seq<Byte>)
    requires 8 * |addr| < bits
    ensures Entries([bits] + addr) == [] && Entries([]) == []
  {
  }

  /** Missing octets are shown as 0. */
  function Octet(addr: seq<Byte>, i: nat): Byte { if i < |addr| then addr[i] else 0 }

  lemma RendersV4(bits: Byte, addr: seq<Byte>)
    requires bits <= 32
    ensures Render(Entry(bits, addr))
         == Decimal(Octet(addr, 0)) + ("." + (Decimal(Octet(addr, 1)) + ("." + (Decimal(Octet(addr, 2)) + ("."
            + (Decimal(Octet(addr, 3)) + ("/" + Decimal(bits))))))))
  {
    var o := Padded(addr, 4);
    assert RenderV4(o, 3, bits) == Decimal(o[3]) + ("/" + Decimal(bits));
    assert RenderV4(o, 2, bits) == Decimal(o[2]) + ("." + RenderV4(o, 3, bits));
    assert RenderV4(o, 1, bits) == Decimal(o[1]) + ("." + RenderV4(o, 2, bits));
    assert RenderV4(o, 0, bits) == Decimal(o[0]) + ("." + RenderV4(o, 1, bits));
  }

  function HexGroup(addr: seq<Byte>, i: nat): string { Hex(Octet(addr, 2 * i) * 256 + Octet(addr, 2 * i + 1)) }

  /** Groups i..8 of the address, separated by colons, and the length. */
  function Groups(addr: seq<Byte>, i: nat, bits: Byte): string
    requires i < 8
    decreases 8 - i
  {
    HexGroup(addr, i) + if i == 7 then "/" + Decimal(bits) else ":" + Groups(addr, i + 1, bits)
  }

  lemma RendersV6(bits: Byte, addr: seq<Byte>)
    requires bits > 32
    ensures Render(Entry(bits, addr)) == Groups(addr, 0, bits)
  {
    RendersGroups(addr, 0, bits);
  }

  lemma GroupIs(addr: seq<Byte>, i: nat)
    requires i < 8
    ensures Group(Padded(addr, 16), i) == HexGroup(addr, i)
  {
    FromBe16Is(Octet(addr, 2 * i), Octet(addr, 2 * i + 1));
    hide FromBe16;
  }

  lemma {:induction false} RendersGroups(addr: seq<Byte>, i: nat, bits: Byte)
    requires i < 8
    ensures RenderV6(Padded(addr, 16), i, bits) == Groups(addr, i, bits)
    decreases 8 - i
  {
    hide Group, HexGroup;
    var o := Padded(addr, 16);
    GroupIs(addr, i);
    if i < 7 {
      RendersGroups(addr, i + 1, bits);
      Glue(Group(o, i), ":", RenderV6(o, i + 1, bits));
    } else {
      Glue(Group(o, i), "/", Decimal(bits));
    }
  }

  lemma {:induction false} RenderAllAt(es: seq<Entry>, i: nat)
    requires i < |es|
    ensures |RenderAll(es)| == |es| && RenderAll(es)[i] == Render(es[i])
  {
    hide Render;
    RenderAllLength(es);
    if i < |es| - 1 {
      RenderAllAt(es[..|es| - 1], i);
    } else {
      RenderAllLength(es[..|es| - 1]);
    }
  }

  lemma {:induction false} RenderAllLength(es: seq<Entry>)
    ensures |RenderAll(es)| == |es|
  {
    if es != [] {
      RenderAllLength(es[..|es| - 1]);
    }
  }
}
