/** What the flap detector guarantees over every run of changes and ticks. */
module FlapRuns {
  import opened Basics
  import opened FlapDetector
  import opened FlapStore

  // ---- One active event for each prefix and node

  lemma ReportKeepsSound(rows: seq<FlapEvent>, t: Tracker, nodeId: string, count: nat, now: int, id: string, a: Answers)
    requires Sound(rows)
    ensures Sound(Reported(rows, t, nodeId, count, now, id, a))
  {
    var found := Latest(rows, t.prefix, nodeId);
    if found.Some? {
      UpdatesKeepSound(rows, found.value.id, count, now);
    } else if !HasId(rows, id) {
      CreateKeepsSound(rows, Opened(t, nodeId, count, now, id));
    }
  }

  lemma {:induction false} SweepKeepsSound(rows: seq<FlapEvent>, active: seq<FlapEvent>, ts: Trackers,
        now: int, writes: nat)
    requires Sound(rows)
    ensures Sound(Swept(rows, active, ts, now, writes))
    decreases |active|
  {
    if active != [] {
      if !Stale(ts, active[0], now) {
        SweepKeepsSound(rows, active[1..], ts, now, writes);
      } else if writes > 0 {
        UpdatesKeepSound(rows, active[0].id, 0, now);
        SweepKeepsSound(Closed(rows, active[0].id, now), active[1..], ts, now, writes - 1);
      }
    }
  }

  /** Whatever the store fails to answer, a prefix never has two active events on one node. */
  lemma {:induction false} NeverTwoActive(nodeId: string, s: State, es: seq<Event>)
    requires Sound(s.rows)
    ensures Sound(After(nodeId, s, es).rows)
  {
    hide Sound;
    if es != [] {
      var before := After(nodeId, s, es[..|es| - 1]);
      NeverTwoActive(nodeId, s, es[..|es| - 1]);
      match es[|es| - 1]
      case Change(c, now, id, a) =>
        if Counts(before.trackers, c) {
          var t := before.trackers[Key(c.prefix, c.nodeId)];
          ReportKeepsSound(before.rows, t, nodeId, Count(before.trackers, c, now), now, id, a);
        }
      case Tick(resolveAt, _, _, writes) =>
        SweepKeepsSound(before.rows, Active(before.rows), before.trackers, resolveAt, writes);
      case Purge(_, expired) =>
        PurgeKeepsSound(before.rows, expired);
    }
  }

  // ---- The window is exactly the recent part of the full history

  /** A tracker that never forgets: every change time counted since it was created. */
  datatype Full = Full(prefix: string, history: seq<int>, lastPathHash: nat)

  type Fulls = map<string, Full>

  function FullObserved(fs: Fulls, c: PathChange, now: int): Fulls {
    var k := Key(c.prefix, c.nodeId);
    if k !in fs then fs[k := Full(c.prefix, [now], c.pathHash)]
    else if fs[k].lastPathHash == c.pathHash then fs
    else fs[k := fs[k].(history := fs[k].history + [now], lastPathHash := c.pathHash)]
  }

  function FullEvicted(fs: Fulls, now: int): Fulls {
    map k | k in fs && now - Last(fs[k].history) <= TRACKER_TTL_SECS :: fs[k]
  }

  function FullAfter(es: seq<Event>): Fulls {
    if es == [] then map[]
    else
      var fs := FullAfter(es[..|es| - 1]);
      match es[|es| - 1]
      case Change(c, now, _, _) => FullObserved(fs, c, now)
      case Tick(_, evictAt, _, _) => FullEvicted(fs, evictAt)
      case Purge(_, _) => fs
  }

  /** What a bounded tracker keeps of a full one. */
  function Recent(f: Full): Tracker {
    var last := Last(f.history);
    Tracker(f.prefix, PrefixType(f.prefix), Within(f.history, last), f.lastPathHash, last)
  }

  function Time(e: Event): int {
    match e
    case Change(_, now, _, _) => now
    case Tick(_, evictAt, _, _) => evictAt
    case Purge(at, _) => at
  }

  /** The clock never runs backwards. */
  predicate Timed(es: seq<Event>) { forall i, j :: 0 <= i < j < |es| ==> Time(es[i]) <= Time(es[j]) }

  function Clock(es: seq<Event>): int { if es == [] then 0 else Time(es[|es| - 1]) }

  predicate Sorted(times: seq<int>) { forall i, j :: 0 <= i < j < |times| ==> times[i] <= times[j] }

  predicate Historical(fs: Fulls, clock: int) {
    forall k :: k in fs ==> fs[k].history != [] && Sorted(fs[k].history) && Last(fs[k].history) <= clock
  }

  lemma {:induction false} WithinBounds(times: seq<int>, now: int)
    ensures forall i :: 0 <= i < |Within(times, now)| ==>
              now - Within(times, now)[i] <= WINDOW_SECS && Within(times, now)[i] in times
  {
    if times != [] {
      WithinBounds(times[..|times| - 1], now);
      assert times == times[..|times| - 1] + [times[|times| - 1]];
    }
  }

  /** Exactly the times at most sixty seconds old, each as often as it occurs. */
  lemma {:induction false} WithinExactly(times: seq<int>, now: int, t: int)
    ensures multiset(Within(times, now))[t] == if now - t <= 60 then multiset(times)[t] else 0
  {
    if times != [] {
      var front, last := times[..|times| - 1], times[|times| - 1];
      WithinExactly(front, now, t);
      assert times == front + [last];
      hide Within;
      assert multiset(times) == multiset(front) + multiset{last};
      WithinStep(front, last, now);
    }
  }

  lemma WithinStep(front: seq<int>, last: int, now: int)
    ensures multiset(Within(front + [last], now))
         == if now - last <= 60 then multiset(Within(front, now)) + multiset{last} else multiset(Within(front, now))
  {
    assert (front + [last])[..|front|] == front;
    assert Within(front, now) + [] == Within(front, now);
  }

  /** And in order. */
  lemma {:induction false} WithinKeepsOrder(times: seq<int>, now: int)
    requires Sorted(times)
    ensures Sorted(Within(times, now))
  {
    if times != [] {
      var front := times[..|times| - 1];
      WithinKeepsOrder(front, now);
      WithinBounds(front, now);
    }
  }

  lemma WithinPush(times: seq<int>, now: int)
    ensures Within(times + [now], now) == Within(times, now) + [now]
  {
  }

  /** What an earlier window has dropped, a later one would drop too. */
  lemma {:induction false} WithinTwice(times: seq<int>, earlier: int, later: int)
    requires earlier <= later
    ensures Within(Within(times, earlier), later) == Within(times, later)
  {
    if times != [] {
      var front, t := times[..|times| - 1], times[|times| - 1];
      WithinTwice(front, earlier, later);
      var w := Within(front, earlier);
      assert (w + [t])[..|w|] == w && w + [] == w;
    }
  }

  lemma BumpIsRecent(f: Full, hash: nat, now: int)
    requires f.history != [] && Last(f.history) <= now
    ensures Bumped(Recent(f), hash, now) == Recent(f.(history := f.history + [now], lastPathHash := hash))
  {
    WithinPush(Within(f.history, Last(f.history)), now);
    WithinPush(f.history, now);
    WithinTwice(f.history, Last(f.history), now);
  }

  function RecentAll(fs: Fulls): Trackers { map k | k in fs :: Recent(fs[k]) }

  lemma {:induction false} WindowRefinesHistory(nodeId: string, rows: seq<FlapEvent>, es: seq<Event>)
    requires Timed(es)
    ensures After(nodeId, State(map[], rows), es).trackers == RecentAll(FullAfter(es))
    ensures Historical(FullAfter(es), Clock(es))
  {
    hide Recent, Within, Bumped;
    if es != [] {
      var front, e := es[..|es| - 1], es[|es| - 1];
      WindowRefinesHistory(nodeId, rows, front);
      assert front != [] ==> Time(front[|front| - 1]) <= Time(e);
      var fs, ts := FullAfter(front), After(nodeId, State(map[], rows), front).trackers;
      match e
      case Change(c, now, _, _) => ObserveRefines(ts, fs, c, now);
      case Tick(_, evictAt, _, _) => EvictRefines(ts, fs, evictAt);
      case Purge(_, _) =>
    }
  }

  lemma ObserveRefines(ts: Trackers, fs: Fulls, c: PathChange, now: int)
    requires ts == RecentAll(fs) && Historical(fs, now)
    ensures Observed(ts, c, now) == RecentAll(FullObserved(fs, c, now)) && Historical(FullObserved(fs, c, now), now)
  {
    hide Recent, Within, Bumped, Created;
    var k := Key(c.prefix, c.nodeId);
    if k in fs {
      RecentKeepsHash(fs[k]);
      BumpIsRecent(fs[k], c.pathHash, now);
    } else {
      CreatedIsRecent(c, now);
    }
  }

  lemma CreatedIsRecent(c: PathChange, now: int)
    ensures Created(c, now) == Recent(Full(c.prefix, [now], c.pathHash))
  {
    WithinPush([], now);
    assert [] + [now] == [now];
  }

  lemma RecentKeepsHash(f: Full)
    ensures Recent(f).lastPathHash == f.lastPathHash && Recent(f).lastChangeTs == Last(f.history)
  {
  }

  lemma RecentKeepsType(f: Full)
    ensures Recent(f).prefix == f.prefix && Recent(f).prefixType == PrefixType(f.prefix)
  {
  }

  lemma EvictRefines(ts: Trackers, fs: Fulls, now: int)
    requires ts == RecentAll(fs)
    ensures Evicted(ts, now) == RecentAll(FullEvicted(fs, now))
  {
  }

  // ---- What is reported, and when

  lemma KeyIdentifiesPrefix(p: string, q: string, nodeId: string)
    requires Key(p, nodeId) == Key(q, nodeId)
    ensures p == q
  {
    assert Key(p, nodeId)[..|p|] == p && Key(q, nodeId)[..|q|] == q;
  }

  /** A prefix on another node has another tracker. */
  lemma KeyIdentifiesNode(prefix: string, m: string, n: string)
    requires Key(prefix, m) == Key(prefix, n)
    ensures m == n
  {
    assert Key(prefix, m)[|prefix| + 1..] == m && Key(prefix, n)[|prefix| + 1..] == n;
  }

  /** Every change of the run comes from the detector's own node, as the listener that feeds it ensures. */
  predicate Local(nodeId: string, es: seq<Event>) {
    forall i :: 0 <= i < |es| && es[i].Change? ==> es[i].change.nodeId == nodeId
  }

  predicate Keyed(nodeId: string, ts: Trackers) {
    forall k :: k in ts ==> k == Key(ts[k].prefix, nodeId) && ts[k].changes != []
                            && Last(ts[k].changes) == ts[k].lastChangeTs
  }

  lemma {:induction false} TrackersStayKeyed(nodeId: string, rows: seq<FlapEvent>, es: seq<Event>)
    requires Local(nodeId, es)
    ensures Keyed(nodeId, After(nodeId, State(map[], rows), es).trackers)
  {
    if es != [] {
      var front, e := es[..|es| - 1], es[|es| - 1];
      TrackersStayKeyed(nodeId, rows, front);
      var ts := After(nodeId, State(map[], rows), front).trackers;
      if e.Change? {
        var k := Key(e.change.prefix, e.change.nodeId);
        if k in ts {
          KeyIdentifiesPrefix(ts[k].prefix, e.change.prefix, nodeId);
          WithinPush(ts[k].changes, e.now);
        }
      }
    }
  }

  /** No row but the active events of the prefix on the node has changed, and at most one was added. */
  predicate SameBut(rows: seq<FlapEvent>, r: seq<FlapEvent>, prefix: string, nodeId: string) {
    && |rows| <= |r| <= |rows| + 1
    && (forall i :: 0 <= i < |rows| && !(rows[i].active && rows[i].prefix == prefix && rows[i].nodeId == nodeId) ==>
          r[i] == rows[i])
    && (forall i :: |rows| <= i < |r| ==> r[i].active && r[i].prefix == prefix && r[i].nodeId == nodeId)
  }

  /** The row at `i` is the active event of the prefix with a new count, or a new event if there was none. */
  predicate ReportedAt(rows: seq<FlapEvent>, r: seq<FlapEvent>, i: nat, prefix: string, nodeId: string, count: nat,
                       now: int, id: string)
    requires i < |r|
  {
    if i < |rows| then
      && rows[i].active && rows[i].prefix == prefix && rows[i].nodeId == nodeId
      && r[i] == rows[i].(changeCount := count, windowEnd := now)
    else
      && (forall j :: 0 <= j < |rows| ==> !(rows[j].active && rows[j].prefix == prefix && rows[j].nodeId == nodeId))
      && r[i] == FlapEvent(id, prefix, if ':' in prefix then "ipv6" else "ipv4", nodeId, count, now - 60, now, "ibgp",
                           true, now, None)
  }

  /** The active event of the prefix shows exactly this many changes, seen at `now`. */
  predicate ShowsCount(rows: seq<FlapEvent>, r: seq<FlapEvent>, prefix: string, nodeId: string, count: nat, now: int,
                       id: string) {
    exists i :: 0 <= i < |r| && ReportedAt(rows, r, i, prefix, nodeId, count, now, id)
  }

  lemma ReportExact(rows: seq<FlapEvent>, t: Tracker, nodeId: string, count: nat, now: int, id: string)
    requires Sound(rows) && !HasId(rows, id) && t.prefixType == PrefixType(t.prefix)
    ensures var r := Reported(rows, t, nodeId, count, now, id, Answers(true, true));
            ShowsCount(rows, r, t.prefix, nodeId, count, now, id) && SameBut(rows, r, t.prefix, nodeId)
  {
    var r := Reported(rows, t, nodeId, count, now, id, Answers(true, true));
    var found := Latest(rows, t.prefix, nodeId);
    if found.Some? {
      var i :| 0 <= i < |rows| && rows[i] == found.value;
      assert ReportedAt(rows, r, i, t.prefix, nodeId, count, now, id);
    } else {
      assert forall j :: 0 <= j < |rows| ==> !Matches(rows[j], t.prefix, nodeId);
      assert r[|rows|] == Opened(t, nodeId, count, now, id);
      assert ReportedAt(rows, r, |rows|, t.prefix, nodeId, count, now, id);
    }
  }

  /** If the store fails in either of its two parts, nothing is written. */
  lemma FailedReportWritesNothing(nodeId: string, s: State, c: PathChange, now: int, id: string, a: Answers)
    requires !a.find || !a.write
    ensures Next(nodeId, s, Change(c, now, id, a)).rows == s.rows
    ensures Next(nodeId, s, Change(c, now, id, a)).trackers
         == Next(nodeId, s, Change(c, now, id, Answers(true, true))).trackers
  {
  }

  /**
   After any run, one more change on a working store: from ten recent changes on, the prefix's only active
   event shows the number of changes of its full history within the last minute, and no other row is
   touched; below ten, the table stays as it is.
   */
  lemma ChangeIsReportedExactly(nodeId: string, rows: seq<FlapEvent>, es: seq<Event>, c: PathChange, now: int,
        id: string)
    requires Sound(rows) && Timed(es + [Change(c, now, id, Answers(true, true))])
    requires Local(nodeId, es) && c.nodeId == nodeId
    requires !HasId(After(nodeId, State(map[], rows), es).rows, id)
    ensures var s, k := After(nodeId, State(map[], rows), es), Key(c.prefix, nodeId);
            var r, fs := Next(nodeId, s, Change(c, now, id, Answers(true, true))).rows, FullAfter(es);
            && (Counts(s.trackers, c) <==> k in fs && fs[k].lastPathHash != c.pathHash)
            && Sound(r)
            && if Counts(s.trackers, c) && |Within(fs[k].history + [now], now)| >= 10
               then ShowsCount(s.rows, r, c.prefix, nodeId, |Within(fs[k].history + [now], now)|, now, id)
                    && SameBut(s.rows, r, c.prefix, nodeId)
               else r == s.rows
  {
    hide Recent, Within, Bumped, Reported, Sound, ShowsCount, SameBut;
    var s, k := After(nodeId, State(map[], rows), es), Key(c.prefix, nodeId);
    var all := es + [Change(c, now, id, Answers(true, true))];
    TimedPrefix(es, all[|es|]);
    WindowRefinesHistory(nodeId, rows, es);
    NeverTwoActive(nodeId, State(map[], rows), es);
    TrackersStayKeyed(nodeId, rows, es);
    if k in s.trackers {
      var f := FullAfter(es)[k];
      RecentKeepsHash(f);
      BumpIsRecent(f, c.pathHash, now);
      KeyIdentifiesPrefix(s.trackers[k].prefix, c.prefix, nodeId);
      RecentKeepsType(f);
      RecentCount(f, c.pathHash, now);
      var n := |Within(f.history + [now], now)|;
      ReportExact(s.rows, s.trackers[k], nodeId, n, now, id);
      ReportKeepsSound(s.rows, s.trackers[k], nodeId, n, now, id, Answers(true, true));
    }
  }

  lemma TimedPrefix(es: seq<Event>, e: Event)
    requires Timed(es + [e])
    ensures Timed(es) && (es != [] ==> Clock(es) <= Time(e))
  {
    var all := es + [e];
    assert forall i :: 0 <= i < |es| ==> all[i] == es[i];
    assert all[|es|] == e;
  }

  lemma RecentCount(f: Full, hash: nat, now: int)
    ensures Recent(f.(history := f.history + [now], lastPathHash := hash)).changes == Within(f.history + [now], now)
  {
  }

  // ---- Ticks

  predicate HitBy(active: seq<FlapEvent>, id: string, ts: Trackers, now: int) {
    exists j :: 0 <= j < |active| && active[j].id == id && Stale(ts, active[j], now)
  }

  lemma {:induction false} SweepHits(rows: seq<FlapEvent>, active: seq<FlapEvent>, ts: Trackers, now: int, writes: nat)
    requires writes >= |active|
    ensures var r := Swept(rows, active, ts, now, writes);
            && |r| == |rows|
            && forall i :: 0 <= i < |rows| ==>
                 r[i] == if HitBy(active, rows[i].id, ts, now) then Close(rows[i], rows[i].id, now) else rows[i]
    decreases |active|
  {
    hide Stale;
    if active != [] {
      var rest, hit := active[1..], Stale(ts, active[0], now);
      var next := if hit then Closed(rows, active[0].id, now) else rows;
      SweepHits(next, rest, ts, now, if hit then writes - 1 else writes);
      forall i | 0 <= i < |rows|
        ensures HitBy(active, rows[i].id, ts, now)
                <==> HitBy(rest, rows[i].id, ts, now) || (hit && active[0].id == rows[i].id)
      {
        if HitBy(active, rows[i].id, ts, now) {
          var j :| 0 <= j < |active| && active[j].id == rows[i].id && Stale(ts, active[j], now);
          assert j > 0 ==> rest[j - 1] == active[j];
        }
        if HitBy(rest, rows[i].id, ts, now) {
          var j :| 0 <= j < |rest| && rest[j].id == rows[i].id && Stale(ts, rest[j], now);
          assert active[j + 1] == rest[j];
        }
      }
    }
  }

  /** With a working store, a tick resolves every stale active event and leaves every other row alone. */
  lemma TickResolvesExactly(rows: seq<FlapEvent>, ts: Trackers, now: int, writes: nat)
    requires UniqueIds(rows) && writes >= |Active(rows)|
    ensures var r := Resolved(rows, ts, now, true, writes);
            && |r| == |rows|
            && forall i :: 0 <= i < |rows| ==>
                 r[i] == if rows[i].active && Stale(ts, rows[i], now) then Close(rows[i], rows[i].id, now) else rows[i]
  {
    hide Stale, Active;
    SweepHits(rows, Active(rows), ts, now, writes);
    forall i | 0 <= i < |rows|
      ensures HitBy(Active(rows), rows[i].id, ts, now) <==> rows[i].active && Stale(ts, rows[i], now)
    {
      ActiveComplete(rows, rows[i]);
      if HitBy(Active(rows), rows[i].id, ts, now) {
        var j :| 0 <= j < |Active(rows)| && Active(rows)[j].id == rows[i].id && Stale(ts, Active(rows)[j], now);
        ActiveComplete(rows, Active(rows)[j]);
        var m :| 0 <= m < |rows| && rows[m] == Active(rows)[j];
        assert m == i;
      }
    }
  }

  /** More than 300 seconds since the last change of its prefix, or, without a tracker, since its detection. */
  predicate Overdue(ts: Trackers, e: FlapEvent, now: int) {
    var k := Key(e.prefix, e.nodeId);
    && (k in ts && ts[k].changes != [] ==> now - ts[k].changes[|ts[k].changes| - 1] > 300)
    && (k in ts && ts[k].changes == [] ==> now > 300)
    && (k !in ts ==> now - e.detectedAt > 300)
  }

  /** A tick on a working store closes every overdue active event, as the trackers before it tell, and no other. */
  lemma TickClosesExactly(nodeId: string, s: State, at: int, evictAt: int, writes: nat)
    requires UniqueIds(s.rows) && writes >= |Active(s.rows)|
    ensures var r := Next(nodeId, s, Tick(at, evictAt, true, writes)).rows;
            && |r| == |s.rows|
            && forall i :: 0 <= i < |r| ==>
                 r[i] == if s.rows[i].active && Overdue(s.trackers, s.rows[i], at)
                         then s.rows[i].(active := false, resolvedAt := Some(at)) else s.rows[i]
  {
    TickResolvesExactly(s.rows, s.trackers, at, writes);
  }

  /**
   After any run, an active event whose tracker is gone is closed by the first tick that comes more than 300
   seconds after its detection, and by no earlier one.
   */
  lemma OrphanIsClosed(nodeId: string, rows: seq<FlapEvent>, es: seq<Event>, i: nat, at: int, evictAt: int, writes: nat)
    requires Sound(rows)
    requires var s := After(nodeId, State(map[], rows), es);
             && i < |s.rows| && s.rows[i].active && Key(s.rows[i].prefix, s.rows[i].nodeId) !in s.trackers
             && writes >= |Active(s.rows)|
    ensures var s := After(nodeId, State(map[], rows), es);
            var r := After(nodeId, State(map[], rows), es + [Tick(at, evictAt, true, writes)]).rows;
            && |r| == |s.rows|
            && r[i] == if at - s.rows[i].detectedAt > 300
                       then s.rows[i].(active := false, resolvedAt := Some(at)) else s.rows[i]
  {
    NeverTwoActive(nodeId, State(map[], rows), es);
    var tick := Tick(at, evictAt, true, writes);
    assert (es + [tick])[..|es|] == es;
    TickClosesExactly(nodeId, After(nodeId, State(map[], rows), es), at, evictAt, writes);
  }

  /** A tick forgets exactly the trackers whose last change is more than 600 seconds old. */
  lemma TickForgetsExactly(nodeId: string, s: State, tick: Event, k: string)
    requires tick.Tick?
    ensures var r := Next(nodeId, s, tick).trackers;
            && (k in r <==> k in s.trackers && tick.evictAt - s.trackers[k].lastChangeTs <= 600)
            && (k in r ==> r[k] == s.trackers[k])
  {
  }

  /** The retention task takes away exactly the closed rows that are old by its measure, and no tracker. */
  lemma PurgeTakesExactly(nodeId: string, s: State, at: int, expired: FlapEvent -> bool, e: FlapEvent)
    ensures var r := Next(nodeId, s, Purge(at, expired));
            && r.trackers == s.trackers
            && (e in r.rows <==> e in s.rows && !(!e.active && e.resolvedAt.Some? && expired(e)))
  {
    PurgedRow(s.rows, expired, e);
  }

  // ---- Ticks on a failing store

  function StaleOnes(active: seq<FlapEvent>, ts: Trackers, now: int): seq<FlapEvent> {
    if active == [] then []
    else (if Stale(ts, active[0], now) then [active[0]] else []) + StaleOnes(active[1..], ts, now)
  }

  function AllClosed(rows: seq<FlapEvent>, es: seq<FlapEvent>, now: int): seq<FlapEvent>
    decreases |es|
  {
    if es == [] then rows else AllClosed(Closed(rows, es[0].id, now), es[1..], now)
  }

  /** If only so many writes succeed, exactly that many stale events are closed, the latest ones first. */
  lemma {:induction false} SweepClosesFirst(rows: seq<FlapEvent>, active: seq<FlapEvent>, ts: Trackers, now: int,
        writes: nat)
    ensures var stale := StaleOnes(active, ts, now);
            Swept(rows, active, ts, now, writes) == AllClosed(rows, stale[..Min(writes, |stale|)], now)
    decreases |active|
  {
    if active != [] {
      var stale, rest := StaleOnes(active, ts, now), StaleOnes(active[1..], ts, now);
      if !Stale(ts, active[0], now) {
        SweepClosesFirst(rows, active[1..], ts, now, writes);
        assert [] + rest == rest;
      } else if writes > 0 {
        SweepClosesFirst(Closed(rows, active[0].id, now), active[1..], ts, now, writes - 1);
        var n := Min(writes, |stale|);
        assert stale[..n][0] == active[0] && stale[..n][1..] == rest[..n - 1];
      } else {
        assert stale[..0] == [];
      }
    }
  }

  /** If the listing itself fails, a tick writes nothing. */
  lemma FailedListingWritesNothing(nodeId: string, s: State, at: int, evictAt: int, writes: nat)
    ensures Next(nodeId, s, Tick(at, evictAt, false, writes)).rows == s.rows
  {
  }

  /** An event that is active after the tick has not lost its tracker in it. */
  predicate KeepsTracker(s: State, r: State) {
    forall i :: 0 <= i < |r.rows| && r.rows[i].active ==>
      var k := Key(r.rows[i].prefix, r.rows[i].nodeId); k in s.trackers ==> k in r.trackers
  }

  /** A tick on a working store, with `gap` seconds between its two clock readings. */
  predicate TickIsSafe(nodeId: string, s: State, at: int, gap: nat, writes: nat) {
    UniqueIds(s.rows) && Keyed(nodeId, s.trackers) && writes >= |Active(s.rows)| ==>
      KeepsTracker(s, Next(nodeId, s, Tick(at, at + gap, true, writes)))
  }

  /** No such tick takes the tracker of an event that stays active. */
  ghost predicate GapIsSafe(gap: nat) {
    forall nodeId: string, s: State, at: int, writes: nat :: TickIsSafe(nodeId, s, at, gap, writes)
  }

  /** Resolving after 300 seconds precedes eviction after 600 as long as resolving itself takes at most 300. */
  lemma TickKeepsTrackersExactly(gap: nat)
    ensures GapIsSafe(gap) <==> gap <= TRACKER_TTL_SECS - RESOLVE_AFTER_SECS
  {
    if gap <= TRACKER_TTL_SECS - RESOLVE_AFTER_SECS {
      forall nodeId: string, s: State, at: int, writes: nat
        ensures TickIsSafe(nodeId, s, at, gap, writes)
      {
        if UniqueIds(s.rows) && Keyed(nodeId, s.trackers) && writes >= |Active(s.rows)| {
          TickKeepsTracker(nodeId, s, at, gap, writes);
        }
      }
    } else {
      SlowTickLosesTracker(gap);
    }
  }

  lemma TickKeepsTracker(nodeId: string, s: State, at: int, gap: nat, writes: nat)
    requires UniqueIds(s.rows) && Keyed(nodeId, s.trackers) && writes >= |Active(s.rows)|
    requires gap <= TRACKER_TTL_SECS - RESOLVE_AFTER_SECS
    ensures KeepsTracker(s, Next(nodeId, s, Tick(at, at + gap, true, writes)))
  {
    hide Resolved;
    var r := Next(nodeId, s, Tick(at, at + gap, true, writes));
    TickResolvesExactly(s.rows, s.trackers, at, writes);
    forall i | 0 <= i < |r.rows| && r.rows[i].active
      ensures var k := Key(r.rows[i].prefix, r.rows[i].nodeId); k in s.trackers ==> k in r.trackers
    {
      assert !Stale(s.trackers, s.rows[i], at) && r.rows[i] == s.rows[i];
    }
  }

  /** The event and the one change that leads to a state in which a slow tick goes wrong. */
  const OLD_EVENT := FlapEvent("id", "p", "ipv4", "n", 10, -60, 0, "ibgp", true, 0, None)
  const ONE_CHANGE := Change(PathChange("p", 1, "n"), 0, "", Answers(true, true))

  lemma SlowTickLosesTracker(gap: nat)
    requires gap > TRACKER_TTL_SECS - RESOLVE_AFTER_SECS
    ensures var start := State(map[], [OLD_EVENT]);
            var tick := Tick(RESOLVE_AFTER_SECS, RESOLVE_AFTER_SECS + gap, true, 1);
            !KeepsTracker(After("n", start, [ONE_CHANGE]), After("n", start, [ONE_CHANGE, tick]))
    ensures !GapIsSafe(gap)
  {
    var start, at, k := State(map[], [OLD_EVENT]), RESOLVE_AFTER_SECS, Key("p", "n");
    var tick := Tick(at, at + gap, true, 1);
    var s := State(map[k := Created(ONE_CHANGE.change, 0)], [OLD_EVENT]);
    assert [ONE_CHANGE][..0] == [] && [ONE_CHANGE, tick][..1] == [ONE_CHANGE];
    assert After("n", start, [ONE_CHANGE]) == s;
    var r := Next("n", s, tick);
    assert s.rows[..0] == [] && Active(s.rows) == [OLD_EVENT] && [OLD_EVENT][1..] == [];
    assert !Stale(s.trackers, OLD_EVENT, at);
    assert r.rows == Swept(s.rows, [OLD_EVENT], s.trackers, at, 1) == Swept(s.rows, [], s.trackers, at, 1) == s.rows;
    assert r.rows[0].active && k in s.trackers && k !in r.trackers;
    assert !TickIsSafe("n", s, at, gap, 1);
  }
}
