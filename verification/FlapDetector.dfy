/**
 The route flap detector: a sliding window of change times for each prefix, and the events it opens,
 counts up and resolves. Clock readings are inputs.
 */
module FlapDetector {
  import opened Basics
  import opened FlapStore

  const WINDOW_SECS := 60
  const CHANGE_THRESHOLD := 10
  const RESOLVE_AFTER_SECS := 300
  const TRACKER_TTL_SECS := 600

  datatype PathChange = PathChange(prefix: string, pathHash: nat, nodeId: string)

  datatype Tracker = Tracker(prefix: string, prefixType: string, changes: seq<int>, lastPathHash: nat,
                             lastChangeTs: int)

  type Trackers = map<string, Tracker>

  /** Whether the store answers the lookup and the write that a change may need. */
  datatype Answers = Answers(find: bool, write: bool)

  function Key(prefix: string, nodeId: string): string { prefix + ":" + nodeId }

  function PrefixType(prefix: string): string { if ':' in prefix then "ipv6" else "ipv4" }

  /** The times that lie at most one window before `now`. */
  function Within(times: seq<int>, now: int): seq<int> {
    if times == [] then []
    else
      var t := times[|times| - 1];
      Within(times[..|times| - 1], now) + if now - t <= WINDOW_SECS then [t] else []
  }

  function Last(times: seq<int>): int { if times == [] then 0 else times[|times| - 1] }

  // ---- What one change does

  function Created(c: PathChange, now: int): Tracker {
    Tracker(c.prefix, PrefixType(c.prefix), [now], c.pathHash, now)
  }

  function Bumped(t: Tracker, hash: nat, now: int): Tracker {
    t.(changes := Within(t.changes + [now], now), lastPathHash := hash, lastChangeTs := now)
  }

  /** A change is counted when its prefix is tracked and its hash is not the last one seen. */
  predicate Counts(ts: Trackers, c: PathChange) {
    var k := Key(c.prefix, c.nodeId);
    k in ts && ts[k].lastPathHash != c.pathHash
  }

  function Observed(ts: Trackers, c: PathChange, now: int): Trackers {
    var k := Key(c.prefix, c.nodeId);
    if k !in ts then ts[k := Created(c, now)]
    else if Counts(ts, c) then ts[k := Bumped(ts[k], c.pathHash, now)]
    else ts
  }

  /** The number of changes in the window right after a counted change. */
  function Count(ts: Trackers, c: PathChange, now: int): nat
    requires Counts(ts, c)
  {
    |Bumped(ts[Key(c.prefix, c.nodeId)], c.pathHash, now).changes|
  }

  function Opened(t: Tracker, nodeId: string, count: nat, now: int, id: string): FlapEvent {
    FlapEvent(id, t.prefix, t.prefixType, nodeId, count, now - WINDOW_SECS, now, "ibgp", true, now, None)
  }

  /** The table after the detector has reported `count` changes of the prefix that `t` tracks. */
  function Reported(rows: seq<FlapEvent>, t: Tracker, nodeId: string, count: nat, now: int, id: string, a: Answers)
    : seq<FlapEvent>
  {
    if !a.find || !a.write then rows
    else match Latest(rows, t.prefix, nodeId)
      case Some(e) => Counted(rows, e.id, count, now)
      case None => if HasId(rows, id) then rows else rows + [Opened(t, nodeId, count, now, id)]
  }

  function Recorded(rows: seq<FlapEvent>, ts: Trackers, nodeId: string, c: PathChange, now: int, id: string, a: Answers)
    : seq<FlapEvent>
  {
    if Counts(ts, c) && Count(ts, c, now) >= CHANGE_THRESHOLD
    then Reported(rows, ts[Key(c.prefix, c.nodeId)], nodeId, Count(ts, c, now), now, id, a)
    else rows
  }

  // ---- What one tick does

  predicate Stale(ts: Trackers, e: FlapEvent, now: int) {
    var k := Key(e.prefix, e.nodeId);
    now - (if k in ts then Last(ts[k].changes) else e.detectedAt) > RESOLVE_AFTER_SECS
  }

  /** Resolves the stale ones of `active` in order; the first failed write ends the pass. */
  function Swept(rows: seq<FlapEvent>, active: seq<FlapEvent>, ts: Trackers, now: int, writes: nat): seq<FlapEvent>
    decreases |active|
  {
    if active == [] then rows
    else if !Stale(ts, active[0], now) then Swept(rows, active[1..], ts, now, writes)
    else if writes == 0 then rows
    else Swept(Closed(rows, active[0].id, now), active[1..], ts, now, writes - 1)
  }

  function Resolved(rows: seq<FlapEvent>, ts: Trackers, now: int, list: bool, writes: nat): seq<FlapEvent> {
    if list then Swept(rows, Active(rows), ts, now, writes) else rows
  }

  function Evicted(ts: Trackers, now: int): Trackers {
    map k | k in ts && now - ts[k].lastChangeTs <= TRACKER_TTL_SECS :: ts[k]
  }

  // ---- Runs

  datatype Event =
    | Change(change: PathChange, now: int, id: string, answers: Answers)
    | Tick(resolveAt: int, evictAt: int, list: bool, writes: nat)
    | Purge(at: int, expired: FlapEvent -> bool)  // the retention task, between two turns of the detector

  datatype State = State(trackers: Trackers, rows: seq<FlapEvent>)

  function Next(nodeId: string, s: State, e: Event): State {
    match e
    case Change(c, now, id, a) =>
      State(Observed(s.trackers, c, now), Recorded(s.rows, s.trackers, nodeId, c, now, id, a))
    case Tick(resolveAt, evictAt, list, writes) =>
      State(Evicted(s.trackers, evictAt), Resolved(s.rows, s.trackers, resolveAt, list, writes))
    case Purge(_, expired) => s.(rows := Purged(s.rows, expired))
  }

  function After(nodeId: string, s: State, es: seq<Event>): State {
    if es == [] then s else Next(nodeId, After(nodeId, s, es[..|es| - 1]), es[|es| - 1])
  }

  // ---- The detector

  class FlapDetector {
    const nodeId: string
    const repo: FlapEventRepository
    var trackers: Trackers

    constructor (nodeId: string, repo: FlapEventRepository)
      ensures this.nodeId == nodeId && this.repo == repo && trackers == map[]
    {
      this.nodeId := nodeId;
      this.repo := repo;
      trackers := map[];
    }

    ghost function Current(): State
      reads this, repo
    {
      State(trackers, repo.rows)
    }

    method EvictTrackers(now: int)
      modifies this
      ensures trackers == Evicted(old(trackers), now)
    {
      trackers := map k | k in trackers && now - trackers[k].lastChangeTs <= TRACKER_TTL_SECS :: trackers[k];
    }

    method ProcessChange(change: PathChange, now: int, newId: string, answers: Answers) returns (ok: bool)
      modifies this, repo
      ensures Current() == Next(nodeId, old(Current()), Change(change, now, newId, answers))
    {
      var key := Key(change.prefix, change.nodeId);
      var count := 0;
      var prefix, prefixType := "", "";
      if key in trackers {
        var tracker := trackers[key];
        if tracker.lastPathHash == change.pathHash {
          return true;
        }
        tracker := tracker.(lastPathHash := change.pathHash, lastChangeTs := now);
        tracker := tracker.(changes := tracker.changes + [now]);
        tracker := tracker.(changes := Within(tracker.changes, now));
        trackers := trackers[key := tracker];
        count := |tracker.changes|;
        prefix, prefixType := tracker.prefix, tracker.prefixType;
      } else {
        trackers := trackers[key := Tracker(change.prefix, PrefixType(change.prefix), [now], change.pathHash, now)];
      }

      if count < CHANGE_THRESHOLD {
        return true;
      }
      var existing := repo.FindActiveByPrefixNode(prefix, nodeId, answers.find);
      if existing.None? {
        return false;
      }
      match existing.value
      case Some(e) =>
        ok := repo.UpdateChangeCount(e.id, count, now, answers.write);
      case None =>
        var event := FlapEvent(newId, prefix, prefixType, nodeId, count, now - WINDOW_SECS, now, "ibgp",
                               true, now, None);
        ok := repo.Create(event, answers.write);
    }

    method ResolveStale(now: int, list: bool, writes: nat) returns (ok: bool)
      modifies repo
      ensures repo.rows == Resolved(old(repo.rows), trackers, now, list, writes)
    {
      var listed := repo.ListActive(list);
      if listed.None? {
        return false;
      }
      var active, left := listed.value, writes;
      for i := 0 to |active|
        invariant Swept(repo.rows, active[i..], trackers, now, left)
               == Swept(old(repo.rows), active, trackers, now, writes)
      {
        var event := active[i];
        assert active[i..][0] == event && active[i..][1..] == active[i + 1..];
        var key := Key(event.prefix, event.nodeId);
        var shouldResolve;
        if key in trackers {
          shouldResolve := now - Last(trackers[key].changes) > RESOLVE_AFTER_SECS;
        } else {
          shouldResolve := now - event.detectedAt > RESOLVE_AFTER_SECS;
        }
        if shouldResolve {
          if left == 0 {
            var failed := repo.Resolve(event.id, now, false);
            return false;
          }
          var done := repo.Resolve(event.id, now, true);
          left := left - 1;
        }
      }
      ok := true;
    }

    /**
     The receive loop: a tick resolves first and evicts afterwards, whether or not resolving worked. The retention
     task may come in between two turns.
     */
    method Run(events: seq<Event>)
      modifies this, repo
      ensures Current() == After(nodeId, old(Current()), events)
    {
      for i := 0 to |events|
        invariant Current() == After(nodeId, old(Current()), events[..i])
      {
        assert events[..i + 1][..i] == events[..i];
        match events[i]
        case Change(change, now, id, answers) =>
          var ok := ProcessChange(change, now, id, answers);
        case Tick(resolveAt, evictAt, list, writes) =>
          var ok := ResolveStale(resolveAt, list, writes);
          EvictTrackers(evictAt);
        case Purge(_, expired) =>
          repo.DeleteOld(expired);
      }
      assert events[..|events|] == events;
    }
  }
}
