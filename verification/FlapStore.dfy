/**
 The flap event table. Each operation is one SQL statement; `up` says whether the database carries it out.
 */
module FlapStore {
  import opened Basics

  datatype FlapEvent = FlapEvent(
    id: string, prefix: string, prefixType: string, nodeId: string, changeCount: nat,
    windowStart: int, windowEnd: int, source: string, active: bool, detectedAt: int, resolvedAt: Option<int>)

  predicate HasId(rows: seq<FlapEvent>, id: string) { exists i :: 0 <= i < |rows| && rows[i].id == id }

  predicate Matches(e: FlapEvent, prefix: string, nodeId: string) {
    e.active && e.prefix == prefix && e.nodeId == nodeId
  }

  function WithCount(e: FlapEvent, id: string, count: nat, end: int): FlapEvent {
    if e.id == id then e.(changeCount := count, windowEnd := end) else e
  }

  function Counted(rows: seq<FlapEvent>, id: string, count: nat, end: int): (r: seq<FlapEvent>)
    ensures |r| == |rows| && forall i :: 0 <= i < |r| ==> r[i] == WithCount(rows[i], id, count, end)
  {
    seq(|rows|, i requires 0 <= i < |rows| => WithCount(rows[i], id, count, end))
  }

  function Close(e: FlapEvent, id: string, now: int): FlapEvent {
    if e.id == id then e.(active := false, resolvedAt := Some(now)) else e
  }

  function Closed(rows: seq<FlapEvent>, id: string, now: int): (r: seq<FlapEvent>)
    ensures |r| == |rows| && forall i :: 0 <= i < |r| ==> r[i] == Close(rows[i], id, now)
  {
    seq(|rows|, i requires 0 <= i < |rows| => Close(rows[i], id, now))
  }

  function Placed(e: FlapEvent, es: seq<FlapEvent>): seq<FlapEvent> {
    if es == [] || es[0].detectedAt < e.detectedAt then [e] + es else [es[0]] + Placed(e, es[1..])
  }

  /** The active rows, latest detection first; rows detected at the same time stay in table order. */
  function Active(rows: seq<FlapEvent>): seq<FlapEvent> {
    if rows == [] then []
    else
      var front := Active(rows[..|rows| - 1]);
      if rows[|rows| - 1].active then Placed(rows[|rows| - 1], front) else front
  }

  /** The matching active row that was detected last. */
  function Latest(rows: seq<FlapEvent>, prefix: string, nodeId: string): (r: Option<FlapEvent>)
    ensures r.Some? ==> r.value in rows && Matches(r.value, prefix, nodeId)
    ensures r.Some? ==> forall i :: 0 <= i < |rows| && Matches(rows[i], prefix, nodeId) ==>
                          rows[i].detectedAt <= r.value.detectedAt
    ensures r.None? ==> forall i :: 0 <= i < |rows| ==> !Matches(rows[i], prefix, nodeId)
  {
    if rows == [] then None
    else
      var best, e := Latest(rows[..|rows| - 1], prefix, nodeId), rows[|rows| - 1];
      if Matches(e, prefix, nodeId) && (best.None? || best.value.detectedAt < e.detectedAt) then Some(e) else best
  }

  /** Without the resolved rows that are old by some measure. */
  function Purged(rows: seq<FlapEvent>, expired: FlapEvent -> bool): seq<FlapEvent> {
    if rows == [] then []
    else
      var e := rows[|rows| - 1];
      Purged(rows[..|rows| - 1], expired) + if !e.active && e.resolvedAt.Some? && expired(e) then [] else [e]
  }

  class FlapEventRepository {
    var rows: seq<FlapEvent>

    constructor ()
      ensures rows == []
    {
      rows := [];
    }

    /** The primary key refuses a second row with the same id. */
    method Create(e: FlapEvent, up: bool) returns (ok: bool)
      modifies this
      ensures ok == (up && !HasId(old(rows), e.id))
      ensures rows == if ok then old(rows) + [e] else old(rows)
    {
      ok := up && !HasId(rows, e.id);
      if ok {
        rows := rows + [e];
      }
    }

    method ListActive(up: bool) returns (r: Option<seq<FlapEvent>>)
      ensures r == if up then Some(Active(rows)) else None
    {
      r := if up then Some(Active(rows)) else None;
    }

    method UpdateChangeCount(id: string, count: nat, windowEnd: int, up: bool) returns (ok: bool)
      modifies this
      ensures ok == up && rows == if up then Counted(old(rows), id, count, windowEnd) else old(rows)
    {
      ok := up;
      if up {
        rows := Counted(rows, id, count, windowEnd);
      }
    }

    method Resolve(id: string, now: int, up: bool) returns (ok: bool)
      modifies this
      ensures ok == up && rows == if up then Closed(old(rows), id, now) else old(rows)
    {
      ok := up;
      if up {
        rows := Closed(rows, id, now);
      }
    }

    /** The hourly retention task. */
    method DeleteOld(expired: FlapEvent -> bool)
      modifies this
      ensures rows == Purged(old(rows), expired)
    {
      rows := Purged(rows, expired);
    }

    method FindActiveByPrefixNode(prefix: string, nodeId: string, up: bool) returns (r: Option<Option<FlapEvent>>)
      ensures r == if up then Some(Latest(rows, prefix, nodeId)) else None
    {
      r := if up then Some(Latest(rows, prefix, nodeId)) else None;
    }
  }

  // ---- Table invariants

  predicate UniqueIds(rows: seq<FlapEvent>) { forall i, j :: 0 <= i < j < |rows| ==> rows[i].id != rows[j].id }

  /** At most one active row for each prefix and node. */
  predicate OneActive(rows: seq<FlapEvent>) {
    forall i, j :: 0 <= i < j < |rows| && rows[i].active && rows[j].active ==>
      rows[i].prefix != rows[j].prefix || rows[i].nodeId != rows[j].nodeId
  }

  predicate Sound(rows: seq<FlapEvent>) { UniqueIds(rows) && OneActive(rows) }

  lemma CreateKeepsSound(rows: seq<FlapEvent>, e: FlapEvent)
    requires Sound(rows) && !HasId(rows, e.id) && Latest(rows, e.prefix, e.nodeId).None?
    ensures Sound(rows + [e])
  {
  }

  lemma {:induction false} PurgedRow(rows: seq<FlapEvent>, expired: FlapEvent -> bool, e: FlapEvent)
    ensures e in Purged(rows, expired) <==> e in rows && (e.active || e.resolvedAt.None? || !expired(e))
  {
    if rows != [] {
      PurgedRow(rows[..|rows| - 1], expired, e);
      assert rows == rows[..|rows| - 1] + [rows[|rows| - 1]];
    }
  }

  /** Retention keeps both invariants. */
  lemma {:induction false} PurgeKeepsSound(rows: seq<FlapEvent>, expired: FlapEvent -> bool)
    requires Sound(rows)
    ensures Sound(Purged(rows, expired))
  {
    if rows != [] {
      var front, e := rows[..|rows| - 1], rows[|rows| - 1];
      var r := Purged(front, expired);
      PurgeKeepsSound(front, expired);
      forall i | 0 <= i < |r|
        ensures r[i].id != e.id && (r[i].active && e.active ==> r[i].prefix != e.prefix || r[i].nodeId != e.nodeId)
      {
        PurgedRow(front, expired, r[i]);
        var j :| 0 <= j < |front| && front[j] == r[i];
        assert rows[j] == r[i];
      }
      assert r + [] == r;
    }
  }

  lemma UpdatesKeepSound(rows: seq<FlapEvent>, id: string, count: nat, now: int)
    requires Sound(rows)
    ensures Sound(Counted(rows, id, count, now)) && Sound(Closed(rows, id, now))
  {
  }

  predicate LatestFirst(es: seq<FlapEvent>) {
    forall i, j :: 0 <= i < j < |es| ==> es[i].detectedAt >= es[j].detectedAt
  }

  lemma {:induction false} PlacedAddsOne(e: FlapEvent, es: seq<FlapEvent>)
    ensures multiset(Placed(e, es)) == multiset(es) + multiset{e}
  {
    if es != [] {
      PlacedAddsOne(e, es[1..]);
      assert es == [es[0]] + es[1..];
    }
  }

  lemma {:induction false} PlacedKeepsOrder(e: FlapEvent, es: seq<FlapEvent>)
    requires LatestFirst(es)
    ensures LatestFirst(Placed(e, es))
  {
    if es != [] && es[0].detectedAt >= e.detectedAt {
      var rest := Placed(e, es[1..]);
      PlacedKeepsOrder(e, es[1..]);
      PlacedAddsOne(e, es[1..]);
      NoneLater(rest, es[1..], e, es[0].detectedAt);
    }
  }

  lemma NoneLater(rest: seq<FlapEvent>, es: seq<FlapEvent>, e: FlapEvent, latest: int)
    requires multiset(rest) == multiset(es) + multiset{e} && e.detectedAt <= latest
    requires forall i :: 0 <= i < |es| ==> es[i].detectedAt <= latest
    ensures forall i :: 0 <= i < |rest| ==> rest[i].detectedAt <= latest
  {
    forall i | 0 <= i < |rest| ensures rest[i].detectedAt <= latest {
      assert rest[i] in multiset(rest);
      assert rest[i] == e || rest[i] in multiset(es);
    }
  }

  /** The listing is in order and holds each active row as often as the table does, and nothing else. */
  lemma {:induction false} ActiveComplete(rows: seq<FlapEvent>, e: FlapEvent)
    ensures LatestFirst(Active(rows))
    ensures multiset(Active(rows))[e] == if e.active then multiset(rows)[e] else 0
    ensures e in Active(rows) <==> e in rows && e.active
  {
    if rows != [] {
      var front, last := rows[..|rows| - 1], rows[|rows| - 1];
      ActiveComplete(front, e);
      PlacedKeepsOrder(last, Active(front));
      PlacedAddsOne(last, Active(front));
      assert rows == front + [last];
    }
    assert e in Active(rows) <==> e in multiset(Active(rows));
    assert e in rows <==> e in multiset(rows);
  }
}
