/**
 Forgetting idle trackers costs almost nothing: on the same run, a detector that evicts and one that never
 does count the same changes, give or take one extra change after a tracker was forgotten and re-created.
 */
module FlapEviction {
  import opened Basics
  import opened FlapDetector
  import opened FlapRuns

  /** The trackers after a run, with eviction or without. */
  function TrackersAfter(es: seq<Event>, evicting: bool): Trackers {
    if es == [] then map[]
    else
      var ts := TrackersAfter(es[..|es| - 1], evicting);
      match es[|es| - 1]
      case Change(c, now, _, _) => Observed(ts, c, now)
      case Tick(_, evictAt, _, _) => if evicting then Evicted(ts, evictAt) else ts
      case Purge(_, _) => ts
  }

  lemma {:induction false} EvictingIsTheDetector(nodeId: string, s: State, es: seq<Event>)
    requires s.trackers == map[]
    ensures TrackersAfter(es, true) == After(nodeId, s, es).trackers
  {
    if es != [] {
      EvictingIsTheDetector(nodeId, s, es[..|es| - 1]);
    }
  }

  predicate Regular(t: Tracker) {
    && t.changes != [] && Last(t.changes) == t.lastChangeTs
    && forall i :: 0 <= i < |t.changes| ==> t.changes[i] <= t.lastChangeTs
  }

  /**
   When the tracker of `k` was last re-created after an eviction by a sighting of a hash already known: the
   change it begins with is one that the detector without eviction did not count.
   */
  function Restart(es: seq<Event>, k: string): Option<int> {
    if es == [] then None
    else
      var front, ev := es[..|es| - 1], es[|es| - 1];
      if !ev.Change? || Key(ev.change.prefix, ev.change.nodeId) != k then Restart(front, k)
      else NextRestart(TrackersAfter(front, true), TrackersAfter(front, false), k, Restart(front, k),
                       ev.change.pathHash, ev.now)
  }

  function NextRestart(e: Trackers, n: Trackers, k: string, r: Option<int>, hash: nat, now: int): Option<int> {
    if k in e then r else if k in n && n[k].lastPathHash == hash then Some(now) else None
  }

  /** The extra change, as long as it lies in the window. */
  function Extra(r: Option<int>, now: int): seq<int> {
    if r.Some? && now - r.value <= WINDOW_SECS then [r.value] else []
  }

  /**
   The evicting tracker `e` shows the window of `n` behind the extra change; right after a re-creation the
   window of `n` is still the one of long before.
   */
  predicate Shadows(e: Tracker, n: Tracker, r: Option<int>) {
    && Regular(e) && Regular(n) && e.lastPathHash == n.lastPathHash
    && (r.Some? ==> r.value <= e.lastChangeTs)
    && (|| (n.lastChangeTs == e.lastChangeTs && e.changes == Extra(r, e.lastChangeTs) + n.changes)
        || (r == Some(e.lastChangeTs) && e.changes == [e.lastChangeTs]
            && e.lastChangeTs - n.lastChangeTs > TRACKER_TTL_SECS))
  }

  predicate Related(e: Trackers, n: Trackers, r: Option<int>, k: string, clock: int) {
    && (k in e ==> k in n && e[k].lastChangeTs <= clock && Shadows(e[k], n[k], r))
    && (k in n && k !in e ==> Regular(n[k]) && clock - n[k].lastChangeTs > TRACKER_TTL_SECS)
  }

  lemma {:induction false} WithinAppend(a: seq<int>, b: seq<int>, now: int)
    ensures Within(a + b, now) == Within(a, now) + Within(b, now)
  {
    if b == [] {
      assert a + b == a;
    } else {
      WithinAppend(a, b[..|b| - 1], now);
      assert (a + b)[..|a + b| - 1] == a + b[..|b| - 1];
    }
  }

  lemma {:induction false} AllStale(times: seq<int>, now: int)
    requires forall i :: 0 <= i < |times| ==> now - times[i] > WINDOW_SECS
    ensures Within(times, now) == []
  {
    if times != [] {
      AllStale(times[..|times| - 1], now);
    }
  }

  lemma BumpStaysRegular(t: Tracker, hash: nat, now: int)
    requires Regular(t) && t.lastChangeTs <= now
    ensures Regular(Bumped(t, hash, now)) && Bumped(t, hash, now).lastChangeTs == now
  {
    var all := t.changes + [now];
    WithinPush(t.changes, now);
    WithinBounds(all, now);
  }

  /** Bumping keeps exactly the extra change that is still in the window. */
  lemma BumpKeepsShadow(e: Tracker, n: Tracker, r: Option<int>, hash: nat, now: int)
    requires Shadows(e, n, r) && e.lastChangeTs <= now
    ensures Shadows(Bumped(e, hash, now), Bumped(n, hash, now), r)
    ensures |Bumped(e, hash, now).changes| == |Bumped(n, hash, now).changes| + |Extra(r, now)|
  {
    BumpStaysRegular(e, hash, now);
    BumpStaysRegular(n, hash, now);
    WithinPush(e.changes, now);
    WithinPush(n.changes, now);
    var x := Extra(r, e.lastChangeTs);
    if e.changes == x + n.changes {
      WithinAppend(x, n.changes, now);
      ExtraFades(r, e.lastChangeTs, now);
    } else {
      AllStale(n.changes, now);
      ExtraFades(r, e.lastChangeTs, now);
    }
    Glue(Extra(r, now), Within(n.changes, now), [now]);
    assert Extra(r, now) + [] == Extra(r, now);
  }

  lemma ExtraFades(r: Option<int>, earlier: int, later: int)
    requires earlier <= later
    ensures Within(Extra(r, earlier), later) == Extra(r, later)
  {
    if Extra(r, earlier) != [] {
      WithinOne(r.value, later);
    }
  }

  lemma WithinOne(t: int, now: int)
    ensures Within([t], now) == if now - t <= WINDOW_SECS then [t] else []
  {
    assert [t][..0] == [];
  }

  lemma ChangeKeepsRelated(e: Trackers, n: Trackers, r: Option<int>, c: PathChange, clock: int, now: int)
    requires Related(e, n, r, Key(c.prefix, c.nodeId), clock) && clock <= now
    ensures var k := Key(c.prefix, c.nodeId);
            Related(Observed(e, c, now), Observed(n, c, now), NextRestart(e, n, k, r, c.pathHash, now), k, now)
  {
    hide Bumped;
    var k := Key(c.prefix, c.nodeId);
    if k in n && c.pathHash != n[k].lastPathHash {
      KeepsHash(n[k], c.pathHash, now);
      if k in e {
        KeepsHash(e[k], c.pathHash, now);
        BumpKeepsShadow(e[k], n[k], r, c.pathHash, now);
      } else {
        AllStale(n[k].changes, now);
        WithinPush(n[k].changes, now);
        BumpStaysRegular(n[k], c.pathHash, now);
        RestartsAlone(n[k], c.pathHash, now);
      }
    }
  }

  lemma KeepsHash(t: Tracker, hash: nat, now: int)
    ensures Bumped(t, hash, now).lastPathHash == hash && Bumped(t, hash, now).lastChangeTs == now
  {
  }

  lemma RestartsAlone(n: Tracker, hash: nat, now: int)
    requires Within(n.changes + [now], now) == Within(n.changes, now) + [now] && Within(n.changes, now) == []
    ensures Bumped(n, hash, now).changes == [now] && Bumped(n, hash, now).lastPathHash == hash
  {
  }

  lemma {:induction false} AlwaysRelated(es: seq<Event>, k: string)
    requires Timed(es)
    ensures Related(TrackersAfter(es, true), TrackersAfter(es, false), Restart(es, k), k, Clock(es))
  {
    hide Observed, Shadows, Regular;
    if es != [] {
      var front, ev := es[..|es| - 1], es[|es| - 1];
      AlwaysRelated(front, k);
      var e, n, r := TrackersAfter(front, true), TrackersAfter(front, false), Restart(front, k);
      var clock := if front == [] then Time(ev) else Clock(front);
      assert front != [] ==> Time(front[|front| - 1]) <= Time(ev);
      match ev
      case Change(c, now, _, _) =>
        if k == Key(c.prefix, c.nodeId) {
          ChangeKeepsRelated(e, n, r, c, clock, now);
        } else {
          OtherKey(e, c, k, now);
          OtherKey(n, c, k, now);
        }
      case Tick(_, evictAt, _, _) => EvictKeepsRelated(e, n, r, k, clock, evictAt);
      case Purge(_, _) => LaterStaysRelated(e, n, r, k, clock, Time(ev));
    }
  }

  lemma OtherKey(ts: Trackers, c: PathChange, k: string, now: int)
    requires k != Key(c.prefix, c.nodeId)
    ensures k in Observed(ts, c, now) <==> k in ts
    ensures k in ts ==> Observed(ts, c, now)[k] == ts[k]
  {
  }

  lemma LaterStaysRelated(e: Trackers, n: Trackers, r: Option<int>, k: string, clock: int, now: int)
    requires Related(e, n, r, k, clock) && clock <= now
    ensures Related(e, n, r, k, now)
  {
  }

  lemma EvictKeepsRelated(e: Trackers, n: Trackers, r: Option<int>, k: string, clock: int, now: int)
    requires Related(e, n, r, k, clock) && clock <= now
    ensures Related(Evicted(e, now), n, r, k, now)
  {
  }

  /**
   After any run, for any next change: what the evicting detector counts the other one counts too, and the
   counts differ by one exactly while the change that began a re-created tracker lies in the window; what
   only the other one counts is the first change of its window.
   */
  lemma EvictionCountsExactly(es: seq<Event>, ev: Event)
    requires ev.Change? && Timed(es + [ev])
    ensures var c, now := ev.change, ev.now;
            var e, n, r := TrackersAfter(es, true), TrackersAfter(es, false), Restart(es, Key(c.prefix, c.nodeId));
            && (Counts(e, c) ==>
                  Counts(n, c)
                  && Count(e, c, now) == Count(n, c, now) + if r.Some? && now - r.value <= WINDOW_SECS then 1 else 0)
            && (Counts(n, c) && !Counts(e, c) ==> Count(n, c, now) == 1)
  {
    hide Bumped;
    var c, now := ev.change, ev.now;
    var k := Key(c.prefix, c.nodeId);
    var e, n := TrackersAfter(es, true), TrackersAfter(es, false);
    TimedPrefix(es, ev);
    AlwaysRelated(es, k);
    if Counts(e, c) {
      BumpKeepsShadow(e[k], n[k], Restart(es, k), c.pathHash, now);
    } else if Counts(n, c) {
      AllStale(n[k].changes, now);
      WithinPush(n[k].changes, now);
      RestartsAlone(n[k], c.pathHash, now);
    }
  }

  /** Never fewer, and at most one more. */
  lemma EvictionIsTransparent(es: seq<Event>, ev: Event)
    requires ev.Change? && Timed(es + [ev])
    ensures var c, now := ev.change, ev.now;
            var e, n := TrackersAfter(es, true), TrackersAfter(es, false);
            && (Counts(e, c) ==> Counts(n, c) && Count(n, c, now) <= Count(e, c, now) <= Count(n, c, now) + 1)
            && (Counts(n, c) && !Counts(e, c) ==> Count(n, c, now) == 1)
  {
    EvictionCountsExactly(es, ev);
  }

  /** No flap is missed: whenever the detector without eviction reaches the threshold, so does the other. */
  lemma NoFlapIsMissed(es: seq<Event>, ev: Event)
    requires ev.Change? && Timed(es + [ev])
    requires var n := TrackersAfter(es, false);
             Counts(n, ev.change) && Count(n, ev.change, ev.now) >= CHANGE_THRESHOLD
    ensures var e := TrackersAfter(es, true);
            Counts(e, ev.change) && Count(e, ev.change, ev.now) >= CHANGE_THRESHOLD
  {
    EvictionCountsExactly(es, ev);
  }

  function Sighting(hash: nat, now: int): Event {
    Change(PathChange("p", hash, "n"), now, "", Answers(true, true))
  }

  /** The extra change is real: a route repeated unchanged after ten idle minutes is counted once too often. */
  lemma ExtraChangeHappens(hash: nat, other: nat)
    requires hash != other
    ensures var es := [Sighting(hash, 0), Tick(601, 601, true, 0), Sighting(hash, 601)];
            var e, n, c := TrackersAfter(es, true), TrackersAfter(es, false), Sighting(other, 602).change;
            && Timed(es + [Sighting(other, 602)]) && Counts(e, c) && Counts(n, c)
            && Count(e, c, 602) == 2 && Count(n, c, 602) == 1
  {
    var a, t, b := Sighting(hash, 0), Tick(601, 601, true, 0), Sighting(hash, 601);
    var k := Key("p", "n");
    assert [a][..0] == [] && [a, t][..1] == [a] && [a, t, b][..2] == [a, t];
    var one := map[k := Created(a.change, 0)];
    assert TrackersAfter([a], true) == TrackersAfter([a], false) == one;
    assert TrackersAfter([a, t], true) == Evicted(one, 601) == map[];
    assert TrackersAfter([a, t, b], true) == map[k := Created(b.change, 601)];
    assert TrackersAfter([a, t, b], false) == one;
    WithinPush([601], 602);
    WithinPush([0], 602);
    AllStale([0], 602);
    assert Within([601][..0], 602) == [] && Within([601], 602) == [601];
  }
}
