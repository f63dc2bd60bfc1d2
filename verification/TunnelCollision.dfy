/**
 Tunnel addresses across a cluster: every node picks the first address that its own table does not show in
 use, and gossip tells no table about the addresses of other nodes.
 */
module TunnelCollision {
  import opened Basics
  import opened Bits
  import opened Bytes
  import opened NodeTable
  import opened TunnelAllocator
  import Gossip

  lemma BlanksUseNothing(t: Table, r: Table)
    requires Gossip.AddsOnlyBlanks(t, r)
    ensures UsedIps(r.rows) == UsedIps(t.rows)
  {
    forall ip ensures ip in UsedIps(r.rows) <==> ip in UsedIps(t.rows) {
      UsedBySomeRow(r.rows, ip);
      UsedBySomeRow(t.rows, ip);
      if ip in UsedIps(t.rows) {
        var i :| 0 <= i < |t.rows| && t.rows[i].tunnelIp == ip;
        assert r.rows[i].tunnelIp == ip;
      }
    }
  }

  /** The lowest offset that is free in one set of used addresses is also the lowest that is free in the other. */
  ghost predicate SameFirst(network: nat, limit: nat, show: nat -> string, u: set<string>, v: set<string>) {
    exists k: nat :: 1 <= k < limit && Candidate(show, network, k) !in u + v
                     && forall j: nat :: 1 <= j < k ==> Candidate(show, network, j) in u * v
  }

  lemma CollideExactly(network: nat, limit: nat, show: nat -> string, u: set<string>, v: set<string>,
        r: Option<string>, q: Option<string>)
    requires FirstFree(network, limit, u, show, r) && FirstFree(network, limit, v, show, q)
    requires InjectiveFrom(network, limit, show)
    ensures r.Some? && r == q <==> SameFirst(network, limit, show, u, v)
  {
    if r.Some? && r == q {
      var k: nat :| 1 <= k < limit && r.value == Candidate(show, network, k) && r.value !in u
                    && forall j: nat :: 1 <= j < k ==> Candidate(show, network, j) in u;
      var m: nat :| 1 <= m < limit && q.value == Candidate(show, network, m) && q.value !in v
                    && forall j: nat :: 1 <= j < m ==> Candidate(show, network, j) in v;
      assert k == m;
    }
    if SameFirst(network, limit, show, u, v) {
      var k: nat :| 1 <= k < limit && Candidate(show, network, k) !in u + v
                    && forall j: nat :: 1 <= j < k ==> Candidate(show, network, j) in u * v;
      FirstIs(network, limit, show, u, r, k);
      FirstIs(network, limit, show, v, q, k);
    }
  }

  lemma FirstIs(network: nat, limit: nat, show: nat -> string, u: set<string>, r: Option<string>, k: nat)
    requires FirstFree(network, limit, u, show, r) && 1 <= k < limit && Candidate(show, network, k) !in u
    requires forall j: nat :: 1 <= j < k ==> Candidate(show, network, j) in u
    ensures r == Some(Candidate(show, network, k))
  {
    if r.Some? {
      var m: nat :| 1 <= m < limit && r.value == Candidate(show, network, m) && r.value !in u
                    && forall j: nat :: 1 <= j < m ==> Candidate(show, network, j) in u;
      assert m == k;
    }
  }

  /** What an allocation from the range of a site's table may return. */
  ghost predicate Assigned(rows: seq<Node>, base: nat, prefix: Byte, r: Option<string>)
    requires base < Pow2(32)
  {
    FirstFree(Network(base, 32, prefix), Pow2(Shift(32, prefix)) - 1, UsedIps(rows), ShowV4, r)
  }

  /**
   However many exchanges come before, two sites of one range assign themselves the same address if and only
   if the lowest address free by one table was also the lowest free by the other before any exchange.
   */
  lemma GossipCannotSeparate(sites: seq<Gossip.Site>, run: seq<Gossip.Exchange>, i: nat, j: nat,
        base: nat, prefix: Byte, r: Option<string>, q: Option<string>)
    requires Gossip.AllFit(sites, run) && i < |sites| && j < |sites| && base < Pow2(32)
    requires Assigned(Gossip.After(sites, run)[i].table.rows, base, prefix, r)
    requires Assigned(Gossip.After(sites, run)[j].table.rows, base, prefix, q)
    ensures r.Some? && r == q
            <==> SameFirst(Network(base, 32, prefix), Pow2(Shift(32, prefix)) - 1, ShowV4,
                           UsedIps(sites[i].table.rows), UsedIps(sites[j].table.rows))
  {
    hide FirstFree, Network, Pow2, UsedIps, SameFirst, Gossip.AddsOnlyBlanks, Gossip.After, ShowV4;
    Gossip.KeysNeverTravel(sites, run);
    BlanksUseNothing(sites[i].table, Gossip.After(sites, run)[i].table);
    BlanksUseNothing(sites[j].table, Gossip.After(sites, run)[j].table);
    RangeIsInjective(base, prefix);
    CollideExactly(Network(base, 32, prefix), Pow2(Shift(32, prefix)) - 1, ShowV4,
                   UsedIps(sites[i].table.rows), UsedIps(sites[j].table.rows), r, q);
  }

  lemma RangeIsInjective(base: nat, prefix: Byte)
    requires base < Pow2(32)
    ensures InjectiveFrom(Network(base, 32, prefix), Pow2(Shift(32, prefix)) - 1, ShowV4)
  {
    hide Network, Pow2, InjectiveFrom;
    MasksAreIntervals(base, 32, prefix);
    BlockBelow(base, Shift(32, prefix), 32);
    V4InjectiveFrom(Network(base, 32, prefix), Pow2(Shift(32, prefix)) - 1);
  }

  /** In particular, in a new cluster every node assigns itself the first host address of the range. */
  lemma NewClusterCollides(sites: seq<Gossip.Site>, run: seq<Gossip.Exchange>, i: nat, base: nat, prefix: Byte,
        r: Option<string>)
    requires Gossip.AllFit(sites, run) && i < |sites| && base < Pow2(32) && 1 <= prefix <= 30
    requires UsedIps(sites[i].table.rows) == {}
    requires Assigned(Gossip.After(sites, run)[i].table.rows, base, prefix, r)
    ensures r == Some(ShowV4(Network(base, 32, prefix) + 1))
  {
    hide FirstFree, Network, UsedIps, Gossip.AddsOnlyBlanks, Gossip.After, ShowV4;
    Gossip.KeysNeverTravel(sites, run);
    BlanksUseNothing(sites[i].table, Gossip.After(sites, run)[i].table);
    AtLeastTwoHosts(prefix);
    FirstIs(Network(base, 32, prefix), Pow2(Shift(32, prefix)) - 1, ShowV4, {}, r, 1);
  }

  lemma AtLeastTwoHosts(prefix: Byte)
    requires 1 <= prefix <= 30
    ensures Pow2(Shift(32, prefix)) >= 4
  {
    assert Pow2(2) == 4;
    Pow2Monotone(2, Shift(32, prefix));
  }
}
