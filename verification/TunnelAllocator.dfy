/**
 Assignment of tunnel addresses: the first unused address of a range given as base address and prefix length.
 Arithmetic is that of a release build, where subtraction of octets and shift amounts wrap.
 */
module TunnelAllocator {
  import opened Basics
  import opened Bits
  import opened Bytes
  import opened NodeTable
  import opened Text
  import Nlri

  /** 32 bits for IPv4, 128 for IPv6. */
  type Width = w: nat | w == 32 || w == 128 witness 32

  const MAX_IPV6_HOSTS := 65536

  /** The shift amount `width - prefix`, computed in an octet and reduced to the width. */
  function Shift(width: Width, prefix: Byte): (s: nat)
    ensures s < width
  {
    (width - prefix) % 256 % width
  }

  function Mask(width: Width, prefix: Byte): (m: nat)
    ensures m < Pow2(width)
  {
    Pow2Monotone(Shift(width, prefix), width);
    Not(Pow2(Shift(width, prefix)) - 1, width)
  }

  function Network(base: nat, width: Width, prefix: Byte): nat { And(base, Mask(width, prefix)) }

  function Broadcast(base: nat, width: Width, prefix: Byte): nat {
    Or(Network(base, width, prefix), Not(Mask(width, prefix), width))
  }

  /** The bit masks compute the block of 2^Shift addresses around the base address. */
  lemma MasksAreIntervals(base: nat, width: Width, prefix: Byte)
    requires base < Pow2(width)
    ensures var s := Shift(width, prefix);
            && Network(base, width, prefix) == BlockStart(base, s)
            && Broadcast(base, width, prefix) == BlockStart(base, s) + Pow2(s) - 1
            && Network(base, width, prefix) <= base <= Broadcast(base, width, prefix)
  {
    hide Pow2, And, Or, BlockStart, Shift;
    var s := Shift(width, prefix);
    Pow2Monotone(s, width);
    MaskIsBlockStart(base, s, width);
    FillIsBlockEnd(base, s);
    BlockContains(base, s);
    assert Mask(width, prefix) == Pow2(width) - Pow2(s);
    assert Not(Mask(width, prefix), width) == Pow2(s) - 1;
  }

  /** The range has the size its prefix length promises, except for length 0, which yields a single address. */
  lemma RangeSizeExactly(base: nat, width: Width, prefix: Byte)
    requires base < Pow2(width) && prefix <= width
    ensures Broadcast(base, width, prefix) - Network(base, width, prefix) + 1 == Pow2(width - prefix) <==> prefix >= 1
  {
    hide Network, Broadcast, Pow2, Shift;
    MasksAreIntervals(base, width, prefix);
    ShiftOf(width, prefix);
    Pow2AboveOne(width);
  }

  lemma ShiftOf(width: Width, prefix: Byte)
    requires prefix <= width
    ensures Shift(width, prefix) == if prefix == 0 then 0 else width - prefix
  {
  }

  /** For every prefix octet, also beyond the width: as many low bits as bring the prefix to a multiple of the width. */
  lemma ShiftExactly(width: Width, prefix: Byte)
    ensures Shift(width, prefix) < width && (Shift(width, prefix) + prefix as int) % width == 0
  {
    var w, p: int := width as int, prefix;
    assert (w - p) % 256 == if p <= w then w - p else w - p + 256;
    if w == 32 {
      assert Shift(width, prefix) == (w - p) % 256 % 32;
    } else {
      assert Shift(width, prefix) == (w - p) % 256 % 128;
    }
  }

  lemma Pow2AboveOne(n: nat)
    requires n > 0
    ensures Pow2(0) == 1 < Pow2(n)
  {
  }

  // ---- Address texts

  function Dotted(o: seq<Byte>, i: nat): (s: string)
    requires |o| == 4 && i < 4
    ensures |s| > 0
    decreases 4 - i
  {
    if i == 3 then Decimal(o[3]) else Decimal(o[i]) + "." + Dotted(o, i + 1)
  }

  function ShowV4(addr: nat): (s: string)
    ensures |s| > 0
  {
    Dotted(Be32(addr), 0)
  }

  /** Four octets, the highest first, separated by dots. */
  lemma ShowsOctets(a: Byte, b: Byte, c: Byte, d: Byte)
    ensures ShowV4(((a * 256 + b) * 256 + c) * 256 + d)
         == Decimal(a) + ("." + (Decimal(b) + ("." + (Decimal(c) + ("." + Decimal(d))))))
  {
    var n: nat := ((a as int * 256 + b) * 256 + c) * 256 + d;
    OctetsOf(a, b, c, d);
    hide Be32;
    var o := Be32(n);
    assert Dotted(o, 3) == Decimal(d);
    assert Dotted(o, 2) == Decimal(c) + ("." + Dotted(o, 3));
    assert Dotted(o, 1) == Decimal(b) + ("." + Dotted(o, 2));
    assert Dotted(o, 0) == Decimal(a) + ("." + Dotted(o, 1));
  }

  lemma {:induction false} DottedIsRendered(o: seq<Byte>, i: nat)
    requires |o| == 4 && i < 4
    ensures Nlri.RenderV4(o, i, 0) == Dotted(o, i) + ("/" + Decimal(0))
    decreases 4 - i
  {
    if i < 3 {
      DottedIsRendered(o, i + 1);
      assert Decimal(o[i]) + "." + (Dotted(o, i + 1) + ("/" + Decimal(0)))
          == (Decimal(o[i]) + "." + Dotted(o, i + 1)) + ("/" + Decimal(0));
    }
  }

  /** Different IPv4 addresses have different texts. */
  lemma ShowV4Injective(a: nat, b: nat)
    requires a < 0x1_0000_0000 && b < 0x1_0000_0000 && ShowV4(a) == ShowV4(b)
    ensures a == b
  {
    hide Dotted, Nlri.RenderV4, Be32;
    DottedIsRendered(Be32(a), 0);
    DottedIsRendered(Be32(b), 0);
    Nlri.RenderV4Injective(Be32(a), 0, Be32(b), 0, 0);
    Be32RoundTrip(a);
    Be32RoundTrip(b);
  }

  // ---- First fit

  function Candidate(show: nat -> string, network: nat, k: nat): string { show(network + k) }

  /** The text of the address at this offset is the lowest one that nobody uses. */
  ghost predicate FirstFree(network: nat, limit: nat, used: set<string>, show: nat -> string, r: Option<string>) {
    match r
    case None => forall k: nat :: 1 <= k < limit ==> Candidate(show, network, k) in used
    case Some(text) =>
      exists k: nat :: 1 <= k < limit && text == Candidate(show, network, k) && text !in used
        && forall j: nat :: 1 <= j < k ==> Candidate(show, network, j) in used
  }

  method FindFree(network: nat, limit: nat, used: set<string>, show: nat -> string) returns (r: Option<string>)
    ensures FirstFree(network, limit, used, show, r)
  {
    var offset := 1;
    while offset < limit
      invariant 1 <= offset
      invariant forall k: nat :: 1 <= k < offset ==> Candidate(show, network, k) in used
    {
      var candidate := show(network + offset);
      if candidate !in used {
        assert candidate == Candidate(show, network, offset);
        return Some(candidate);
      }
      offset := offset + 1;
    }
    r := None;
  }

  function NonEmpty(texts: seq<string>): set<string> { set i | 0 <= i < |texts| && texts[i] != "" :: texts[i] }

  function IpTexts(rows: seq<Node>): (texts: seq<string>)
    ensures |texts| == |rows| && forall i :: 0 <= i < |rows| ==> texts[i] == rows[i].tunnelIp
  {
    seq(|rows|, i requires 0 <= i < |rows| => rows[i].tunnelIp)
  }

  function Ipv6Texts(rows: seq<Node>): (texts: seq<string>)
    ensures |texts| == |rows| && forall i :: 0 <= i < |rows| ==> texts[i] == rows[i].tunnelIpv6
  {
    seq(|rows|, i requires 0 <= i < |rows| => rows[i].tunnelIpv6)
  }

  function UsedIps(rows: seq<Node>): set<string> { NonEmpty(IpTexts(rows)) }

  function UsedIpv6s(rows: seq<Node>): set<string> { NonEmpty(Ipv6Texts(rows)) }

  /** An address is in use if and only if it is some row's. */
  lemma UsedBySomeRow(rows: seq<Node>, text: string)
    ensures text in UsedIps(rows) <==> text != "" && exists i :: 0 <= i < |rows| && rows[i].tunnelIp == text
    ensures text in UsedIpv6s(rows) <==> text != "" && exists i :: 0 <= i < |rows| && rows[i].tunnelIpv6 == text
  {
    if i :| 0 <= i < |rows| && rows[i].tunnelIp == text {
      assert IpTexts(rows)[i] == text;
    }
    if i :| 0 <= i < |rows| && rows[i].tunnelIpv6 == text {
      assert Ipv6Texts(rows)[i] == text;
    }
  }

  /** The text of the lowest address strictly between `low` and `high` that is none of `texts`, if there is one. */
  ghost predicate LowestBetween(low: nat, high: int, texts: seq<string>, show: nat -> string, r: Option<string>) {
    match r
    case None => forall a: nat :: low < a < high ==> show(a) in texts
    case Some(text) =>
      && text !in texts
      && exists a: nat :: low < a < high && text == show(a) && forall b: nat :: low < b < a ==> show(b) in texts
  }

  lemma FirstFreeIsLowest(network: nat, limit: nat, texts: seq<string>, show: nat -> string, r: Option<string>)
    requires FirstFree(network, limit, NonEmpty(texts), show, r)
    requires forall a: nat :: show(a) != ""
    ensures LowestBetween(network, network + limit, texts, show, r)
  {
    if r.None? {
      forall a: nat | network < a < network + limit ensures show(a) in texts {
        assert Candidate(show, network, a - network) in NonEmpty(texts);
      }
    } else {
      var k: nat :| 1 <= k < limit && r.value == Candidate(show, network, k) && r.value !in NonEmpty(texts)
                    && forall j: nat :: 1 <= j < k ==> Candidate(show, network, j) in NonEmpty(texts);
      var a := network + k;
      assert r.value == show(a);
      forall b: nat | network < b < a ensures show(b) in texts {
        assert Candidate(show, network, b - network) in NonEmpty(texts);
      }
    }
  }

  function Limit(base: nat, width: Width, prefix: Byte): int {
    Broadcast(base, width, prefix) - Network(base, width, prefix)
  }

  lemma LimitIsNat(base: nat, width: Width, prefix: Byte)
    requires base < Pow2(width)
    ensures Limit(base, width, prefix) == Pow2(Shift(width, prefix)) - 1
  {
    MasksAreIntervals(base, width, prefix);
  }

  method AssignTunnelIp(repo: NodeRepository, base: nat, prefix: Byte) returns (r: Option<string>)
    requires base < Pow2(32)
    ensures FirstFree(Network(base, 32, prefix), Pow2(Shift(32, prefix)) - 1, UsedIps(repo.rows), ShowV4, r)
    ensures LowestBetween(Network(base, 32, prefix), Broadcast(base, 32, prefix), IpTexts(repo.rows), ShowV4, r)
  {
    hide Network, Broadcast, Pow2, NonEmpty, FirstFree, LowestBetween, ShowV4;
    LimitIsNat(base, 32, prefix);
    r := FindFree(Network(base, 32, prefix), Limit(base, 32, prefix), UsedIps(repo.rows), ShowV4);
    FirstFreeIsLowest(Network(base, 32, prefix), Limit(base, 32, prefix), IpTexts(repo.rows), ShowV4, r);
  }

  method AssignTunnelIpv6(repo: NodeRepository, base: nat, prefix: Byte,
        showV6: nat -> string) returns (r: Option<string>)
    requires base < Pow2(128)
    ensures FirstFree(Network(base, 128, prefix), Min(Pow2(Shift(128, prefix)) - 1, MAX_IPV6_HOSTS),
                      UsedIpv6s(repo.rows), showV6, r)
    ensures (forall a: nat :: showV6(a) != "") ==>
              LowestBetween(Network(base, 128, prefix), HighestTried(base, prefix), Ipv6Texts(repo.rows), showV6, r)
  {
    hide Network, Broadcast, Pow2, NonEmpty, FirstFree, LowestBetween;
    LimitIsNat(base, 128, prefix);
    r := FindFree(Network(base, 128, prefix), Min(Limit(base, 128, prefix), MAX_IPV6_HOSTS),
                  UsedIpv6s(repo.rows), showV6);
    if forall a: nat :: showV6(a) != "" {
      FirstFreeIsLowest(Network(base, 128, prefix), Min(Limit(base, 128, prefix), MAX_IPV6_HOSTS),
                        Ipv6Texts(repo.rows), showV6, r);
    }
  }

  /** The search stops before the last address of the range and before the 65536th. */
  function HighestTried(base: nat, prefix: Byte): int {
    var low, high := Network(base, 128, prefix), Broadcast(base, 128, prefix);
    if high < low + 65536 then high else low + 65536
  }

  // ---- Success is guaranteed while there are fewer rows than host addresses

  ghost predicate InjectiveFrom(network: nat, limit: nat, show: nat -> string) {
    forall j: nat, k: nat ::
      j < limit && k < limit && Candidate(show, network, j) == Candidate(show, network, k) ==> j == k
  }

  function Candidates(show: nat -> string, network: nat, limit: nat): set<string> {
    set k: nat | 1 <= k < limit :: Candidate(show, network, k)
  }

  lemma OneMoreCandidate(show: nat -> string, network: nat, limit: nat)
    requires limit > 1
    ensures Candidates(show, network, limit)
         == Candidates(show, network, limit - 1) + {Candidate(show, network, limit - 1)}
  {
  }

  lemma {:induction false} CandidateCount(show: nat -> string, network: nat, limit: nat)
    requires limit >= 1 && InjectiveFrom(network, limit, show)
    ensures |Candidates(show, network, limit)| == limit - 1
  {
    if limit == 1 {
      assert Candidates(show, network, limit) == {};
    } else {
      CandidateCount(show, network, limit - 1);
      OneMoreCandidate(show, network, limit);
      assert Candidate(show, network, limit - 1) !in Candidates(show, network, limit - 1);
    }
  }

  lemma {:induction false} FewTexts(texts: seq<string>)
    ensures |NonEmpty(texts)| <= |texts|
  {
    if texts == [] {
      assert NonEmpty(texts) == {};
    } else {
      var front, last := texts[..|texts| - 1], texts[|texts| - 1];
      FewTexts(front);
      forall t | t in NonEmpty(texts) ensures t in NonEmpty(front) + {last} {
        var i :| 0 <= i < |texts| && texts[i] == t && t != "";
        assert i < |front| ==> front[i] == t;
      }
      SubsetSize(NonEmpty(texts), NonEmpty(front) + {last});
    }
  }

  lemma EnoughHosts(network: nat, limit: nat, used: set<string>, show: nat -> string, r: Option<string>)
    requires FirstFree(network, limit, used, show, r) && InjectiveFrom(network, limit, show)
    requires |used| + 1 < limit
    ensures r.Some?
  {
    if r.None? {
      CandidateCount(show, network, limit);
      SubsetSize(Candidates(show, network, limit), used);
    }
  }

  /** Fewer rows than the range has host addresses: an IPv4 address is always found. */
  lemma AssignmentSucceeds(rows: seq<Node>, base: nat, prefix: Byte, r: Option<string>)
    requires base < Pow2(32) && 1 <= prefix <= 32
    requires FirstFree(Network(base, 32, prefix), Pow2(Shift(32, prefix)) - 1, UsedIps(rows), ShowV4, r)
    requires |rows| < Pow2(32 - prefix) - 2
    ensures r.Some?
  {
    hide Network, Pow2, FirstFree, UsedIps, ShowV4;
    var s := Shift(32, prefix);
    assert s == 32 - prefix;
    var network, limit := Network(base, 32, prefix), Pow2(s) - 1;
    MasksAreIntervals(base, 32, prefix);
    BlockBelow(base, s, 32);
    V4InjectiveFrom(network, limit);
    FewIps(rows);
    EnoughHosts(network, limit, UsedIps(rows), ShowV4, r);
  }

  lemma V4InjectiveFrom(network: nat, limit: nat)
    requires network + limit <= Pow2(32)
    ensures InjectiveFrom(network, limit, ShowV4)
  {
    hide ShowV4;
    Pow2Of32();
    forall j: nat, k: nat | j < limit && k < limit && Candidate(ShowV4, network, j) == Candidate(ShowV4, network, k)
      ensures j == k
    {
      ShowV4Injective(network + j, network + k);
    }
  }

  lemma FewIps(rows: seq<Node>)
    ensures |UsedIps(rows)| <= |rows| && |UsedIpv6s(rows)| <= |rows|
  {
    FewTexts(IpTexts(rows));
    FewTexts(Ipv6Texts(rows));
  }

  /** The same for IPv6, under the cap on the number of addresses that are tried. */
  lemma Ipv6AssignmentSucceeds(rows: seq<Node>, base: nat, prefix: Byte, showV6: nat -> string, r: Option<string>)
    requires base < Pow2(128) && 1 <= prefix <= 128
    requires var limit := Min(Pow2(Shift(128, prefix)) - 1, MAX_IPV6_HOSTS);
             && FirstFree(Network(base, 128, prefix), limit, UsedIpv6s(rows), showV6, r)
             && InjectiveFrom(Network(base, 128, prefix), limit, showV6)
    requires |rows| + 1 < Min(Pow2(128 - prefix) - 1, MAX_IPV6_HOSTS)
    ensures r.Some?
  {
    hide Network, Pow2, FirstFree, InjectiveFrom, UsedIpv6s;
    assert Shift(128, prefix) == 128 - prefix;
    FewIps(rows);
    EnoughHosts(Network(base, 128, prefix), Min(Pow2(128 - prefix) - 1, MAX_IPV6_HOSTS), UsedIpv6s(rows), showV6, r);
  }

  /** A block around an address below 2^width stays below 2^width. */
  lemma {:induction false} BlockBelow(a: nat, s: nat, width: nat)
    requires s <= width && a < Pow2(width)
    ensures BlockStart(a, s) + Pow2(s) <= Pow2(width)
    decreases s
  {
    if s > 0 {
      BlockBelow(a / 2, s - 1, width - 1);
    }
  }
}
