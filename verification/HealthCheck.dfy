/**
 The health check: a failure streak for each listen address, and the two table marks it leads to.
 The streak is a 32-bit counter, which wraps.
 */
module HealthCheck {
  import opened Basics
  import opened NodeTable

  type Streaks = map<string, nat>

  datatype Mark = Online | Offline

  function StreakOf(ss: Streaks, addr: string): nat { if addr in ss then ss[addr] else 0 }

  function NewStreak(prev: nat, healthy: bool): nat { if healthy then 0 else (prev + 1) % U32 }

  function MarkOf(prev: nat, healthy: bool): Option<Mark> {
    if healthy then (if prev >= 2 then Some(Online) else None)
    else if NewStreak(prev, false) >= 2 && prev < 2 then Some(Offline) else None
  }

  function Marked(rows: seq<Node>, id: nat, mark: Option<Mark>): seq<Node> {
    if mark.None? then rows else WithOnline(rows, id, mark.value.Online?)
  }

  datatype State = State(streaks: Streaks, table: Table)

  /** Checks one listed node; the local node is skipped. */
  function Checked(s: State, node: Node, own: string, health: string -> bool): State {
    if node.name == own then s
    else
      var prev, ok := StreakOf(s.streaks, node.listenAddr), health(node.listenAddr);
      State(s.streaks[node.listenAddr := NewStreak(prev, ok)],
            s.table.(rows := Marked(s.table.rows, node.id, MarkOf(prev, ok))))
  }

  function CheckedAll(s: State, nodes: seq<Node>, own: string, health: string -> bool): State {
    if nodes == [] then s
    else Checked(CheckedAll(s, nodes[..|nodes| - 1], own, health), nodes[|nodes| - 1], own, health)
  }

  class HealthChecker {
    var failStreaks: Streaks

    constructor ()
      ensures failStreaks == map[]
    {
      failStreaks := map[];
    }

    /** One tick: the nodes listed at its start are checked one by one. */
    method Tick(repo: NodeRepository, own: string, health: string -> bool)
      modifies this, repo
      ensures State(failStreaks, repo.Contents())
           == CheckedAll(State(old(failStreaks), old(repo.Contents())), old(repo.rows), own, health)
    {
      hide WithOnline;
      var nodes := repo.rows;
      for i := 0 to |nodes|
        invariant State(failStreaks, repo.Contents())
               == CheckedAll(State(old(failStreaks), old(repo.Contents())), nodes[..i], own, health)
      {
        assert nodes[..i + 1][..i] == nodes[..i];
        var node := nodes[i];
        if node.name == own {
          continue;
        }
        var prevFails := if node.listenAddr in failStreaks then failStreaks[node.listenAddr] else 0;
        if health(node.listenAddr) {
          if prevFails >= 2 {
            repo.MarkOnline(node.id);
          }
          failStreaks := failStreaks[node.listenAddr := 0];
        } else {
          var newFails := (prevFails + 1) % U32;
          failStreaks := failStreaks[node.listenAddr := newFails];
          if newFails >= 2 && prevFails < 2 {
            repo.MarkStaleNode(node.id);
          }
        }
      }
      assert nodes[..|nodes|] == nodes;
    }
  }

  // ---- One address over a run: its checks in order, whichever ticks they came from

  datatype Check = Check(addr: string, healthy: bool)

  function StreaksAfter(checks: seq<Check>): Streaks {
    if checks == [] then map[]
    else
      var ss, c := StreaksAfter(checks[..|checks| - 1]), checks[|checks| - 1];
      ss[c.addr := NewStreak(StreakOf(ss, c.addr), c.healthy)]
  }

  /** The results of the checks of one address. */
  function Results(checks: seq<Check>, addr: string): seq<bool> {
    if checks == [] then []
    else
      var c := checks[|checks| - 1];
      Results(checks[..|checks| - 1], addr) + if c.addr == addr then [c.healthy] else []
  }

  /** The number of failures since the last success. */
  function Trailing(results: seq<bool>): nat {
    if results == [] || results[|results| - 1] then 0 else Trailing(results[..|results| - 1]) + 1
  }

  lemma PushResult(rs: seq<bool>, healthy: bool)
    ensures Trailing(rs + [healthy]) == if healthy then 0 else Trailing(rs) + 1
  {
  }

  lemma PushCheck(front: seq<Check>, c: Check, addr: string)
    ensures Results(front + [c], addr)
         == if c.addr == addr then Results(front, addr) + [c.healthy] else Results(front, addr)
    ensures StreakOf(StreaksAfter(front + [c]), addr)
         == if c.addr == addr then NewStreak(StreakOf(StreaksAfter(front), addr), c.healthy)
            else StreakOf(StreaksAfter(front), addr)
  {
  }

  lemma {:induction false} StreakCountsTrailingFailures(checks: seq<Check>, addr: string)
    ensures StreakOf(StreaksAfter(checks), addr) == Trailing(Results(checks, addr)) % 4294967296
  {
    if checks != [] {
      var front, c := checks[..|checks| - 1], checks[|checks| - 1];
      hide Results, StreaksAfter, StreakOf;
      StreakCountsTrailingFailures(front, addr);
      PushResult(Results(front, addr), c.healthy);
      assert checks == front + [c];
      PushCheck(front, c, addr);
    }
  }

  /** The table marks that the checks of one address lead to, in order. */
  function Marks(checks: seq<Check>, addr: string): seq<Mark> {
    if checks == [] then []
    else
      var front, c := checks[..|checks| - 1], checks[|checks| - 1];
      var mark := MarkOf(StreakOf(StreaksAfter(front), addr), c.healthy);
      Marks(front, addr) + if c.addr == addr && mark.Some? then [mark.value] else []
  }

  /** What one more check does, told by the history of results alone. */
  lemma MarkExactly(checks: seq<Check>, addr: string, healthy: bool)
    ensures var failures := Trailing(Results(checks, addr)) % U32;
            Marks(checks + [Check(addr, healthy)], addr)
            == Marks(checks, addr) + if healthy && failures >= 2 then [Online]
                                     else if !healthy && failures == 1 then [Offline] else []
  {
    assert (checks + [Check(addr, healthy)])[..|checks|] == checks;
    StreakCountsTrailingFailures(checks, addr);
  }

  /** Marks come in turns, the first one being an offline mark. */
  predicate Alternating(marks: seq<Mark>) {
    forall i :: 0 <= i < |marks| ==> marks[i] == if i % 2 == 0 then Offline else Online
  }

  lemma NextTurn(marks: seq<Mark>, mark: Mark)
    requires Alternating(marks) && mark == if |marks| % 2 == 0 then Offline else Online
    ensures Alternating(marks + [mark])
  {
  }

  lemma SmallMod(n: nat)
    requires n < 2 * U32
    ensures n % U32 == if n < U32 then n else n - U32
  {
  }

  /** What one more check does to an alternating list of marks. */
  function Turn(failures: nat, healthy: bool): seq<Mark> {
    if healthy && failures >= 2 then [Online] else if !healthy && failures == 1 then [Offline] else []
  }

  /** Marks come in turns, and the last one is an offline mark exactly while the address keeps failing. */
  predicate InStep(marks: seq<Mark>, failures: nat) { Alternating(marks) && (|marks| % 2 == 1 <==> failures >= 2) }

  /** A check that the wrapped counter gets wrong. */
  predicate Misjudged(failures: nat, healthy: bool) { if healthy then failures >= U32 else failures == U32 + 1 }

  lemma TurnKeepsStep(marks: seq<Mark>, failures: nat, healthy: bool)
    requires InStep(marks, failures) && failures <= U32 + 1
    ensures InStep(marks + Turn(failures % U32, healthy), if healthy then 0 else failures + 1)
            <==> !Misjudged(failures, healthy)
  {
    SmallMod(failures);
    var turn := Turn(failures % U32, healthy);
    if turn == [] {
      assert marks + [] == marks;
    } else if failures == U32 + 1 {
      assert (marks + turn)[|marks|] == Offline;
    } else {
      NextTurn(marks, turn[0]);
    }
  }

  /** After each of the checks, the marks so far were in step. */
  predicate AlwaysInStep(checks: seq<Check>, addr: string) {
    && InStep(Marks(checks, addr), Trailing(Results(checks, addr)))
    && (checks == [] || AlwaysInStep(checks[..|checks| - 1], addr))
  }

  /** None of the checks of the address was misjudged. */
  predicate NeverMisjudged(checks: seq<Check>, addr: string) {
    checks == [] ||
    var front, c := checks[..|checks| - 1], checks[|checks| - 1];
    NeverMisjudged(front, addr) && (c.addr == addr ==> !Misjudged(Trailing(Results(front, addr)), c.healthy))
  }

  /**
   Over any run the marks of an address keep in step if and only if no check of it finds it healthy after 2^32
   or more failures in a row, or failing after exactly 2^32 + 1.
   */
  lemma {:induction false} MarksAlternateExactly(checks: seq<Check>, addr: string)
    ensures AlwaysInStep(checks, addr) <==> NeverMisjudged(checks, addr)
    ensures NeverMisjudged(checks, addr) ==> Trailing(Results(checks, addr)) <= U32 + 1
  {
    if checks != [] {
      var front, c := checks[..|checks| - 1], checks[|checks| - 1];
      hide Results, Marks, Trailing, InStep, Turn;
      var rs := Results(front, addr);
      assert checks == front + [c];
      PushCheck(front, c, addr);
      MarksAlternateExactly(front, addr);
      if NeverMisjudged(front, addr) {
        if c.addr == addr {
          MarkIsTurn(front, addr, c.healthy);
          PushResult(rs, c.healthy);
          TurnKeepsStep(Marks(front, addr), Trailing(rs), c.healthy);
        } else {
          OtherAddress(front, c, addr);
        }
      }
    }
  }

  lemma MarkIsTurn(checks: seq<Check>, addr: string, healthy: bool)
    ensures Marks(checks + [Check(addr, healthy)], addr)
         == Marks(checks, addr) + Turn(Trailing(Results(checks, addr)) % U32, healthy)
  {
    MarkExactly(checks, addr, healthy);
  }

  lemma OtherAddress(front: seq<Check>, c: Check, addr: string)
    requires c.addr != addr
    ensures Marks(front + [c], addr) == Marks(front, addr)
  {
  }

  /** The wrap is visible: after 2^32 + 2 failures in a row, the address is marked offline a second time. */
  lemma WrapMarksOfflineTwice(checks: seq<Check>, addr: string)
    requires |checks| == U32 + 2 && forall i :: 0 <= i < |checks| ==> checks[i] == Check(addr, false)
    ensures Marks(checks, addr) == [Offline, Offline]
  {
    FailingMarks(checks, addr);
  }

  function FailureMarks(failures: nat): seq<Mark> {
    if failures < 2 then [] else if failures < U32 + 2 then [Offline] else [Offline, Offline]
  }

  lemma OneMoreFailure(failures: nat)
    requires failures < U32 + 2
    ensures FailureMarks(failures + 1) == FailureMarks(failures) + Turn(failures % U32, false)
  {
  }

  lemma {:induction false} FailingMarks(checks: seq<Check>, addr: string)
    requires |checks| <= U32 + 2 && forall i :: 0 <= i < |checks| ==> checks[i] == Check(addr, false)
    ensures Trailing(Results(checks, addr)) == |checks|
    ensures Marks(checks, addr) == FailureMarks(|checks|)
  {
    if checks != [] {
      hide Results, Marks, Trailing, FailureMarks;
      var front := checks[..|checks| - 1];
      FailingMarks(front, addr);
      assert checks == front + [Check(addr, false)];
      MarkExactly(front, addr, false);
      PushCheck(front, Check(addr, false), addr);
      PushResult(Results(front, addr), false);
      OneMoreFailure(|front|);
    }
  }

  // ---- Ticks are runs of checks

  function ChecksOf(nodes: seq<Node>, own: string, health: string -> bool): seq<Check> {
    if nodes == [] then []
    else
      var n := nodes[|nodes| - 1];
      ChecksOf(nodes[..|nodes| - 1], own, health)
      + if n.name == own then [] else [Check(n.listenAddr, health(n.listenAddr))]
  }

  lemma CheckIsAppended(s: State, before: seq<Check>, n: Node, own: string, health: string -> bool)
    requires s.streaks == StreaksAfter(before)
    ensures Checked(s, n, own, health).streaks
         == StreaksAfter(before + if n.name == own then [] else [Check(n.listenAddr, health(n.listenAddr))])
  {
    if n.name == own {
      assert before + [] == before;
    } else {
      var all := before + [Check(n.listenAddr, health(n.listenAddr))];
      assert all[..|before|] == before;
    }
  }

  lemma {:induction false} TickIsItsChecks(s: State, before: seq<Check>, nodes: seq<Node>, own: string,
        health: string -> bool)
    requires s.streaks == StreaksAfter(before)
    ensures CheckedAll(s, nodes, own, health).streaks == StreaksAfter(before + ChecksOf(nodes, own, health))
  {
    if nodes == [] {
      assert before + [] == before;
    } else {
      hide StreaksAfter, Checked;
      var front, n := nodes[..|nodes| - 1], nodes[|nodes| - 1];
      TickIsItsChecks(s, before, front, own, health);
      var checks := ChecksOf(front, own, health);
      CheckIsAppended(CheckedAll(s, front, own, health), before + checks, n, own, health);
      var more := if n.name == own then [] else [Check(n.listenAddr, health(n.listenAddr))];
      assert before + (checks + more) == before + checks + more;
    }
  }

  function OnlineAfter(s: State, n: Node, own: string, health: string -> bool): bool {
    if n.name == own then n.online
    else match MarkOf(StreakOf(s.streaks, n.listenAddr), health(n.listenAddr))
      case None => n.online
      case Some(mark) => mark.Online?
  }

  /** A tick changes nothing but the online flags, and each one as the row's own streak and result say. */
  lemma TickMarksExactly(s: State, own: string, health: string -> bool)
    requires Valid(s.table)
    ensures var rows, t := s.table.rows, CheckedAll(s, s.table.rows, own, health).table;
            && |t.rows| == |rows| && t.nextId == s.table.nextId
            && forall i :: 0 <= i < |rows| ==> t.rows[i] == rows[i].(online := OnlineAfter(s, rows[i], own, health))
  {
    PartialTick(s, own, health, |s.table.rows|);
    assert s.table.rows[..|s.table.rows|] == s.table.rows;
  }

  lemma CheckMarksOne(q: State, i: nat, own: string, health: string -> bool)
    requires i < |q.table.rows|
    requires forall j :: 0 <= j < |q.table.rows| && j != i ==> q.table.rows[j].id != q.table.rows[i].id
    ensures var n, r := q.table.rows[i], Checked(q, q.table.rows[i], own, health);
            && r.table.nextId == q.table.nextId
            && r.table.rows == q.table.rows[i := n.(online := OnlineAfter(q, n, own, health))]
            && (forall addr :: addr != n.listenAddr ==> StreakOf(r.streaks, addr) == StreakOf(q.streaks, addr))
            && StreakOf(r.streaks, n.listenAddr) == StreakNow(q, n, own, health)
  {
  }

  function StreakNow(s: State, n: Node, own: string, health: string -> bool): nat {
    var prev := StreakOf(s.streaks, n.listenAddr);
    if n.name == own then prev else NewStreak(prev, health(n.listenAddr))
  }

  lemma {:induction false} PartialTick(s: State, own: string, health: string -> bool, n: nat)
    requires Valid(s.table) && n <= |s.table.rows|
    ensures var rows, q := s.table.rows, CheckedAll(s, s.table.rows[..n], own, health);
            && |q.table.rows| == |rows| && q.table.nextId == s.table.nextId
            && (forall i :: 0 <= i < n ==> q.table.rows[i] == rows[i].(online := OnlineAfter(s, rows[i], own, health)))
            && (forall i :: n <= i < |rows| ==> q.table.rows[i] == rows[i])
            && (forall i :: 0 <= i < |rows| ==>
                  StreakOf(q.streaks, rows[i].listenAddr)
                  == if i < n then StreakNow(s, rows[i], own, health) else StreakOf(s.streaks, rows[i].listenAddr))
  {
    if n > 0 {
      hide Checked, StreakOf, MarkOf, NewStreak;
      PartialTick(s, own, health, n - 1);
      var rows := s.table.rows;
      assert rows[..n][..n - 1] == rows[..n - 1];
      var q := CheckedAll(s, rows[..n - 1], own, health);
      CheckMarksOne(q, n - 1, own, health);
    }
  }

  /**
   What a tick does to one row and its streak: the node itself is left alone; a success after two or more
   failures puts the row online, the second failure in a row puts it offline.
   */
  lemma TickOnRow(s: State, own: string, health: string -> bool, i: nat)
    requires Valid(s.table) && i < |s.table.rows|
    ensures var n, r := s.table.rows[i], CheckedAll(s, s.table.rows, own, health);
            var failures := if n.listenAddr in s.streaks then s.streaks[n.listenAddr] else 0;
            var after := if n.listenAddr in r.streaks then r.streaks[n.listenAddr] else 0;
            && |r.table.rows| == |s.table.rows|
            && if n.name == own then r.table.rows[i] == n && after == failures
               else if health(n.listenAddr) then
                 r.table.rows[i] == n.(online := n.online || failures >= 2) && after == 0
               else
                 r.table.rows[i] == n.(online := n.online && failures != 1) && after == (failures + 1) % 4294967296
  {
    PartialTick(s, own, health, |s.table.rows|);
    assert s.table.rows[..|s.table.rows|] == s.table.rows;
  }
}
