/**
 Who anti-entropy talks to. Rows are inserted offline, and only the health check ever marks one online, so
 the two tasks depend on each other in a way that neither shows alone.
 */
module OnlinePeers {
  import opened NodeTable
  import Gossip
  import HealthCheck

  /** The peers one round may contact. */
  function Candidates(rows: seq<Node>, own: string): seq<Node> {
    if rows == [] then []
    else
      var n := rows[|rows| - 1];
      Candidates(rows[..|rows| - 1], own) + if n.online && n.listenAddr != own then [n] else []
  }

  /** Every statement of the program that writes the nodes table. */
  datatype Op =
    | Absorb(req: seq<Gossip.NodeInfo>)                  // another node's list arrives
    | Learn(own: string, reply: seq<Gossip.NodeInfo>)    // or an answer to our own
    | Insert(name: string, addr: string, asn: int, description: string)  // a configured or registered node
    | Restart(name: string, addr: string, asn: int)      // the process starts anew and enters this node
    | Edit(node: Node)                                   // an operator changes a node
    | Remove(id: nat, referenced: bool)                  // or deletes it
    | SetKeys(id: nat, publicKey: string, privateKey: string, ip: string, ipv6: string)  // start-up
    | Check(own: string, health: string -> bool)         // a health check tick
    | Expire(stale: Node -> bool)                        // rows not seen for a while go offline

  function Expired(rows: seq<Node>, stale: Node -> bool): seq<Node> {
    Mapped(rows, (n: Node) => if n.online && stale(n) then n.(online := false) else n)
  }

  function WithKeys(rows: seq<Node>, id: nat, publicKey: string, privateKey: string, ip: string,
        ipv6: string): seq<Node> {
    WithTunnelIpv6(WithPrivateKey(WithClusterFields(rows, id, publicKey, ip), id, privateKey), id, ipv6)
  }

  function Apply(s: HealthCheck.State, op: Op): HealthCheck.State {
    match op
    case Absorb(req) => s.(table := Gossip.AbsorbedAll(s.table, req))
    case Learn(own, reply) => s.(table := Gossip.LearnedAll(s.table, own, reply))
    case Insert(name, addr, asn, description) => s.(table := Created(s.table, name, addr, asn, description))
    case Restart(name, addr, asn) => HealthCheck.State(map[], SelfUpserted(s.table, name, addr, asn))
    case Edit(node) => s.(table := Updated(s.table, node))
    case Remove(id, referenced) => s.(table := Deleted(s.table, id, referenced))
    case SetKeys(id, publicKey, privateKey, ip, ipv6) =>
      s.(table := s.table.(rows := WithKeys(s.table.rows, id, publicKey, privateKey, ip, ipv6)))
    case Check(own, health) => HealthCheck.CheckedAll(s, s.table.rows, own, health)
    case Expire(stale) => s.(table := s.table.(rows := Expired(s.table.rows, stale)))
  }

  predicate RowRecovers(s: HealthCheck.State, n: Node, own: string, health: string -> bool) {
    n.name != own && health(n.listenAddr) && HealthCheck.StreakOf(s.streaks, n.listenAddr) >= 2
  }

  /** Some check of this tick succeeds after at least two failures in a row. */
  predicate Recovers(s: HealthCheck.State, op: Op) {
    op.Check? && exists i :: 0 <= i < |s.table.rows| && RowRecovers(s, s.table.rows[i], op.own, op.health)
  }

  predicate NobodyRecovers(s: HealthCheck.State, ops: seq<Op>)
    decreases |ops|
  {
    ops == [] || (!Recovers(s, ops[0]) && NobodyRecovers(Apply(s, ops[0]), ops[1..]))
  }

  function After(s: HealthCheck.State, ops: seq<Op>): HealthCheck.State
    decreases |ops|
  {
    if ops == [] then s else After(Apply(s, ops[0]), ops[1..])
  }

  predicate AllOffline(rows: seq<Node>) { forall i :: 0 <= i < |rows| ==> !rows[i].online }

  predicate Quiet(t: Table) { Valid(t) && AllOffline(t.rows) }

  lemma {:induction false} NoCandidates(rows: seq<Node>, own: string)
    requires AllOffline(rows)
    ensures Candidates(rows, own) == []
  {
    if rows != [] {
      NoCandidates(rows[..|rows| - 1], own);
    }
  }

  lemma {:induction false} CandidatesAre(rows: seq<Node>, own: string, n: Node)
    ensures n in Candidates(rows, own) <==> n in rows && n.online && n.listenAddr != own
  {
    if rows != [] {
      CandidatesAre(rows[..|rows| - 1], own, n);
      assert rows == rows[..|rows| - 1] + [rows[|rows| - 1]];
    }
  }

  lemma AbsorbStays(t: Table, ni: Gossip.NodeInfo)
    requires Quiet(t)
    ensures Quiet(Gossip.Absorbed(t, ni))
  {
    hide Gossip.FieldsSet;
    var up := Upserted(t, ni.name, ni.listenAddr, ni.localAsn, ni.description);
    UpsertKeepsValid(t, ni.name, ni.listenAddr, ni.localAsn, ni.description);
    var n := UpsertResult(t, ni.name, ni.listenAddr, ni.localAsn, ni.description);
    if n.Some? {
      Gossip.FieldsKeepIdentity(up, n.value, ni);
    }
  }

  lemma {:induction false} AbsorbAllStays(t: Table, req: seq<Gossip.NodeInfo>)
    requires Quiet(t)
    ensures Quiet(Gossip.AbsorbedAll(t, req))
  {
    hide Quiet;
    if req != [] {
      AbsorbAllStays(t, req[..|req| - 1]);
      AbsorbStays(Gossip.AbsorbedAll(t, req[..|req| - 1]), req[|req| - 1]);
    }
  }

  lemma CreateStays(t: Table, name: string, addr: string, asn: int, description: string)
    requires Quiet(t)
    ensures Quiet(Created(t, name, addr, asn, description))
  {
    CreateKeepsValid(t, name, addr, asn, description);
  }

  const BLANK := Fresh(0, "", "", 0, "")

  lemma EditsStay(t: Table, name: string, addr: string, asn: int, n: Node, id: nat,
        referenced: bool)
    requires Quiet(t)
    ensures var r := SelfUpserted(t, name, addr, asn); Quiet(r)
    ensures var r := Updated(t, n); Quiet(r)
    ensures var r := Deleted(t, id, referenced); Quiet(r)
  {
    EditsKeepValid(t, name, addr, asn, n, id, referenced);
  }

  lemma KeysStay(t: Table, id: nat, publicKey: string, privateKey: string, ip: string, ipv6: string)
    requires Quiet(t)
    ensures var r := t.(rows := WithKeys(t.rows, id, publicKey, privateKey, ip, ipv6)); Quiet(r)
  {
  }

  lemma {:induction false} LearnAllStays(t: Table, own: string, reply: seq<Gossip.NodeInfo>)
    requires Quiet(t)
    ensures Quiet(Gossip.LearnedAll(t, own, reply))
  {
    hide Quiet;
    if reply != [] {
      var ni := reply[|reply| - 1];
      LearnAllStays(t, own, reply[..|reply| - 1]);
      CreateStays(Gossip.LearnedAll(t, own, reply[..|reply| - 1]), ni.name, ni.listenAddr, ni.localAsn, ni.description);
    }
  }

  lemma CheckStays(s: HealthCheck.State, own: string, health: string -> bool)
    requires Quiet(s.table) && !Recovers(s, Check(own, health))
    ensures var r := Apply(s, Check(own, health)); Quiet(r.table)
  {
    HealthCheck.TickMarksExactly(s, own, health);
    var r := Apply(s, Check(own, health));
    forall i | 0 <= i < |r.table.rows|
      ensures !r.table.rows[i].online
    {
      assert !RowRecovers(s, s.table.rows[i], own, health);
    }
  }

  lemma ExpireStays(t: Table, stale: Node -> bool)
    requires Quiet(t)
    ensures var r := t.(rows := Expired(t.rows, stale)); Quiet(r)
  {
    assert Expired(t.rows, stale) == t.rows;
  }

  lemma StepStays(s: HealthCheck.State, op: Op)
    requires Quiet(s.table) && !Recovers(s, op)
    ensures Quiet(Apply(s, op).table)
  {
    hide Quiet, Recovers;
    match op
    case Absorb(req) => AbsorbAllStays(s.table, req);
    case Learn(self, reply) => LearnAllStays(s.table, self, reply);
    case Insert(name, addr, asn, description) => CreateStays(s.table, name, addr, asn, description);
    case Restart(name, addr, asn) => EditsStay(s.table, name, addr, asn, BLANK, 0, false);
    case Edit(node) => EditsStay(s.table, "", "", 0, node, 0, false);
    case Remove(id, referenced) => EditsStay(s.table, "", "", 0, BLANK, id, referenced);
    case SetKeys(id, publicKey, privateKey, ip, ipv6) => KeysStay(s.table, id, publicKey, privateKey, ip, ipv6);
    case Check(self, health) => CheckStays(s, self, health);
    case Expire(stale) => ExpireStays(s.table, stale);
  }

  /** Until some node recovers from two failed checks in a row, anti-entropy finds nobody to talk to. */
  lemma {:induction false} NobodyToGossipWith(s: HealthCheck.State, ops: seq<Op>, own: string)
    requires Quiet(s.table) && NobodyRecovers(s, ops)
    ensures Candidates(After(s, ops).table.rows, own) == []
    decreases |ops|
  {
    hide Recovers, Apply;
    if ops == [] {
      NoCandidates(s.table.rows, own);
    } else {
      StepStays(s, ops[0]);
      NobodyToGossipWith(Apply(s, ops[0]), ops[1..], own);
    }
  }

  ghost predicate AlwaysHealthy(ops: seq<Op>) {
    forall i, addr :: 0 <= i < |ops| && ops[i].Check? ==> ops[i].health(addr)
  }

  ghost predicate NoFailures(ss: HealthCheck.Streaks) { forall addr :: HealthCheck.StreakOf(ss, addr) == 0 }

  lemma {:induction false} HealthyTickKeepsZero(s: HealthCheck.State, nodes: seq<Node>, own: string,
        health: string -> bool)
    requires NoFailures(s.streaks) && forall addr :: health(addr)
    ensures NoFailures(HealthCheck.CheckedAll(s, nodes, own, health).streaks)
  {
    if nodes != [] {
      HealthyTickKeepsZero(s, nodes[..|nodes| - 1], own, health);
      var q, n := HealthCheck.CheckedAll(s, nodes[..|nodes| - 1], own, health), nodes[|nodes| - 1];
      assert health(n.listenAddr);
      forall addr ensures HealthCheck.StreakOf(HealthCheck.Checked(q, n, own, health).streaks, addr) == 0 {
        assert HealthCheck.StreakOf(q.streaks, addr) == 0;
      }
    }
  }

  lemma {:induction false} HealthyMeansNobodyRecovers(s: HealthCheck.State, ops: seq<Op>)
    requires NoFailures(s.streaks) && AlwaysHealthy(ops)
    ensures NobodyRecovers(s, ops)
    decreases |ops|
  {
    if ops != [] {
      var rest := ops[1..];
      assert forall i :: 0 <= i < |rest| ==> rest[i] == ops[i + 1];
      if ops[0].Check? {
        HealthyTickKeepsZero(s, s.table.rows, ops[0].own, ops[0].health);
      }
      HealthyMeansNobodyRecovers(Apply(s, ops[0]), rest);
    }
  }

  /** In a cluster in which no health check ever fails, the periodic task never starts an exchange. */
  lemma HealthyClusterNeverGossips(ops: seq<Op>, own: string)
    requires AlwaysHealthy(ops)
    ensures Candidates(After(HealthCheck.State(map[], Table([], 0)), ops).table.rows, own) == []
  {
    var s := HealthCheck.State(map[], Table([], 0));
    HealthyMeansNobodyRecovers(s, ops);
    NobodyToGossipWith(s, ops, own);
  }

  // ---- A recovery makes a peer

  /** While nobody is online, a tick leaves someone to talk to if and only if another node recovers in it. */
  lemma RecoveryMakesPeerExactly(s: HealthCheck.State, own: string, health: string -> bool, addr: string)
    requires Quiet(s.table)
    ensures Candidates(Apply(s, Check(own, health)).table.rows, addr) != []
            <==> exists i :: 0 <= i < |s.table.rows| && RowRecovers(s, s.table.rows[i], own, health)
                             && s.table.rows[i].listenAddr != addr
  {
    HealthCheck.TickMarksExactly(s, own, health);
    var rows, after := s.table.rows, Apply(s, Check(own, health)).table.rows;
    var peers := Candidates(after, addr);
    if peers != [] {
      CandidatesAre(after, addr, peers[0]);
      var i :| 0 <= i < |after| && after[i] == peers[0];
      assert RowRecovers(s, rows[i], own, health);
    }
    if i :| 0 <= i < |rows| && RowRecovers(s, rows[i], own, health) && rows[i].listenAddr != addr {
      CandidatesAre(after, addr, after[i]);
      assert after[i].online;
    }
  }

  /** Expiry puts the stale rows offline and changes nothing else. */
  lemma ExpiresRow(rows: seq<Node>, stale: Node -> bool, i: nat)
    requires i < |rows|
    ensures |Expired(rows, stale)| == |rows|
    ensures Expired(rows, stale)[i] == rows[i].(online := rows[i].online && !stale(rows[i]))
  {
  }

  // ---- Every write is the statement it stands for

  lemma WritesAre(s: HealthCheck.State, own: string, infos: seq<Gossip.NodeInfo>, name: string, addr: string, asn: int,
        description: string, node: Node, id: nat, referenced: bool, health: string -> bool)
    ensures Apply(s, Absorb(infos)) == HealthCheck.State(s.streaks, Gossip.AbsorbedAll(s.table, infos))
    ensures Apply(s, Learn(own, infos)) == HealthCheck.State(s.streaks, Gossip.LearnedAll(s.table, own, infos))
    ensures Apply(s, Insert(name, addr, asn, description))
         == HealthCheck.State(s.streaks, Created(s.table, name, addr, asn, description))
    ensures Apply(s, Restart(name, addr, asn)) == HealthCheck.State(map[], SelfUpserted(s.table, name, addr, asn))
    ensures Apply(s, Edit(node)) == HealthCheck.State(s.streaks, Updated(s.table, node))
    ensures Apply(s, Remove(id, referenced)) == HealthCheck.State(s.streaks, Deleted(s.table, id, referenced))
    ensures Apply(s, Check(own, health)) == HealthCheck.CheckedAll(s, s.table.rows, own, health)
  {
  }

  /** Expiry and start-up change the columns they name, of the rows they name. */
  lemma WritesColumns(s: HealthCheck.State, stale: Node -> bool, id: nat, publicKey: string, privateKey: string,
        ip: string, ipv6: string, i: nat)
    requires i < |s.table.rows|
    ensures var n, r := s.table.rows[i], Apply(s, Expire(stale));
            && |r.table.rows| == |s.table.rows| && r.streaks == s.streaks
            && r.table.rows[i] == n.(online := n.online && !stale(n))
    ensures var n, r := s.table.rows[i], Apply(s, SetKeys(id, publicKey, privateKey, ip, ipv6));
            && |r.table.rows| == |s.table.rows| && r.streaks == s.streaks
            && r.table.rows[i] == if n.id == id then n.(wgPubkey := publicKey, wgPrivateKey := privateKey,
                                                        tunnelIp := ip, tunnelIpv6 := ipv6) else n
  {
  }
}
