/**
 From listener to detector: what happens when a peer sends a message again. The listener forwards every
 route it parses; the detector counts those whose hash is not the last one it saw for the prefix.
 */
module Resend {
  import opened FlapDetector
  import FlapRuns
  import Nlri
  import PathAttributes
  import Update

  function Forwarded(nodeId: string, cs: seq<Update.PathChange>): (r: seq<PathChange>)
    ensures |r| == |cs| && forall i :: 0 <= i < |r| ==> r[i] == PathChange(cs[i].prefix, cs[i].pathHash, nodeId)
  {
    seq(|cs|, i requires 0 <= i < |cs| => PathChange(cs[i].prefix, cs[i].pathHash, nodeId))
  }

  /** The trackers after these changes; `clock` gives the time of each. */
  function ObservedAll(ts: Trackers, cs: seq<PathChange>, clock: nat -> int): Trackers {
    if cs == [] then ts
    else Observed(ObservedAll(ts, cs[..|cs| - 1], clock), cs[|cs| - 1], clock(|cs| - 1))
  }

  /** None of the changes is counted. */
  predicate Silent(ts: Trackers, cs: seq<PathChange>, clock: nat -> int)
    decreases |cs|
  {
    cs == [] ||
    var front := cs[..|cs| - 1];
    Silent(ts, front, clock) && !Counts(ObservedAll(ts, front, clock), cs[|cs| - 1])
  }

  predicate Tracked(ts: Trackers, c: PathChange) { Key(c.prefix, c.nodeId) in ts }

  /** The last hash seen for the prefix of this change is its own. */
  predicate Seen(ts: Trackers, c: PathChange) {
    Tracked(ts, c) && ts[Key(c.prefix, c.nodeId)].lastPathHash == c.pathHash
  }

  /** No prefix comes with two different hashes. */
  predicate OneHash(cs: seq<Update.PathChange>) {
    forall i, j :: 0 <= i < |cs| && 0 <= j < |cs| && cs[i].prefix == cs[j].prefix ==> cs[i].pathHash == cs[j].pathHash
  }

  lemma ObserveSees(ts: Trackers, c: PathChange, now: int)
    ensures Seen(Observed(ts, c, now), c)
  {
  }

  lemma {:induction false} AllSeen(ts: Trackers, nodeId: string, cs: seq<Update.PathChange>, clock: nat -> int)
    requires OneHash(cs)
    ensures forall i :: 0 <= i < |cs| ==> Seen(ObservedAll(ts, Forwarded(nodeId, cs), clock), Forwarded(nodeId, cs)[i])
  {
    hide Observed, Seen;
    if cs != [] {
      var front, ds := cs[..|cs| - 1], Forwarded(nodeId, cs);
      AllSeen(ts, nodeId, front, clock);
      assert ds[..|ds| - 1] == Forwarded(nodeId, front);
      var before := ObservedAll(ts, Forwarded(nodeId, front), clock);
      ObserveSees(before, ds[|ds| - 1], clock(|ds| - 1));
      forall i | 0 <= i < |cs|
        ensures Seen(ObservedAll(ts, ds, clock), ds[i])
      {
        if cs[i].prefix == cs[|cs| - 1].prefix {
          assert ds[i] == ds[|ds| - 1];
        } else {
          assert Forwarded(nodeId, front)[i] == ds[i];
          OtherPrefix(before, ds[|ds| - 1], ds[i], clock(|ds| - 1));
        }
      }
    }
  }

  /** The trackers after ticks at these times. */
  function Ticked(ts: Trackers, times: seq<int>): Trackers {
    if times == [] then ts else Evicted(Ticked(ts, times[..|times| - 1]), times[|times| - 1])
  }

  /** What is tracked at all was last seen with the hash of its change. */
  predicate SeenIfTracked(ts: Trackers, cs: seq<PathChange>) {
    forall i :: 0 <= i < |cs| && Tracked(ts, cs[i]) ==> Seen(ts, cs[i])
  }

  lemma {:induction false} TicksKeepSeen(ts: Trackers, cs: seq<PathChange>, times: seq<int>)
    requires SeenIfTracked(ts, cs)
    ensures SeenIfTracked(Ticked(ts, times), cs)
  {
    if times != [] {
      TicksKeepSeen(ts, cs, times[..|times| - 1]);
    }
  }

  /** Uncounted changes leave every tracker as it is, and were last seen when they are over. */
  lemma {:induction false} SilentLeavesSeen(ts: Trackers, cs: seq<PathChange>, clock: nat -> int)
    requires Silent(ts, cs, clock)
    ensures forall k :: k in ts ==> k in ObservedAll(ts, cs, clock) && ObservedAll(ts, cs, clock)[k] == ts[k]
    ensures forall i :: 0 <= i < |cs| ==> Seen(ObservedAll(ts, cs, clock), cs[i])
  {
    if cs != [] {
      var front := cs[..|cs| - 1];
      SilentLeavesSeen(ts, front, clock);
      assert forall i :: 0 <= i < |front| ==> front[i] == cs[i];
    }
  }

  lemma {:induction false} SeenStaysSilent(ts: Trackers, nodeId: string, cs: seq<Update.PathChange>, n: nat,
        clock: nat -> int)
    requires OneHash(cs) && n <= |cs| && SeenIfTracked(ts, Forwarded(nodeId, cs))
    ensures Silent(ts, Forwarded(nodeId, cs)[..n], clock)
    ensures SeenIfTracked(ObservedAll(ts, Forwarded(nodeId, cs)[..n], clock), Forwarded(nodeId, cs))
  {
    var ds := Forwarded(nodeId, cs);
    if n > 0 {
      SeenStaysSilent(ts, nodeId, cs, n - 1, clock);
      assert ds[..n][..n - 1] == ds[..n - 1];
      var before := ObservedAll(ts, ds[..n - 1], clock);
      forall i | 0 <= i < |ds| && Tracked(Observed(before, ds[n - 1], clock(n - 1)), ds[i])
        ensures Seen(Observed(before, ds[n - 1], clock(n - 1)), ds[i])
      {
        if ds[i].prefix == ds[n - 1].prefix {
          assert ds[i] == ds[n - 1];
        } else {
          OtherPrefix(before, ds[n - 1], ds[i], clock(n - 1));
        }
      }
    }
  }

  lemma OtherPrefix(ts: Trackers, c: PathChange, b: PathChange, now: int)
    requires b.nodeId == c.nodeId && b.prefix != c.prefix
    ensures Tracked(Observed(ts, c, now), b) <==> Tracked(ts, b)
    ensures Seen(Observed(ts, c, now), b) <==> Seen(ts, b)
  {
    if Key(b.prefix, b.nodeId) == Key(c.prefix, c.nodeId) {
      FlapRuns.KeyIdentifiesPrefix(b.prefix, c.prefix, c.nodeId);
    }
  }

  /**
   Sending routes a second time, after any number of ticks, is never counted if and only if no prefix comes
   with two different hashes.
   */
  lemma ResendIsSilentExactly(ts: Trackers, nodeId: string, cs: seq<Update.PathChange>,
        first: nat -> int, ticks: seq<int>, second: nat -> int)
    ensures var ds := Forwarded(nodeId, cs);
            Silent(Ticked(ObservedAll(ts, ds, first), ticks), ds, second) <==> OneHash(cs)
  {
    var ds := Forwarded(nodeId, cs);
    var after := ObservedAll(ts, ds, first);
    var later := Ticked(after, ticks);
    if OneHash(cs) {
      AllSeen(ts, nodeId, cs, first);
      TicksKeepSeen(after, ds, ticks);
      SeenStaysSilent(later, nodeId, cs, |cs|, second);
      assert ds[..|cs|] == ds;
    }
    if Silent(later, ds, second) {
      SilentLeavesSeen(later, ds, second);
      forall i, j | 0 <= i < |cs| && 0 <= j < |cs| && cs[i].prefix == cs[j].prefix
        ensures cs[i].pathHash == cs[j].pathHash
      {
        assert Seen(ObservedAll(later, ds, second), ds[i]) && Seen(ObservedAll(later, ds, second), ds[j]);
      }
    }
  }

  /** Some prefix is both withdrawn and announced by the message. */
  predicate Flips(m: Update.Message) {
    exists i, j :: 0 <= i < |Nlri.RenderAll(m.withdrawn)| && 0 <= j < |Nlri.RenderAll(m.announced)|
                   && Nlri.RenderAll(m.withdrawn)[i] == Nlri.RenderAll(m.announced)[j]
  }

  lemma OneHashUnlessFlipping(d: PathAttributes.Digests, m: Update.Message)
    requires m.Valid()
    ensures OneHash(m.Meaning(d)) <==> m.AttributesHash(d) == 0 || !Flips(m)
  {
    hide Nlri.RenderAll, PathAttributes.Hash, Update.Message.AttributesHash, Update.Message.Valid;
    var w, a, h := Nlri.RenderAll(m.withdrawn), Nlri.RenderAll(m.announced), m.AttributesHash(d);
    var cs := m.Meaning(d);
    assert forall i :: 0 <= i < |w| ==> cs[i] == Update.PathChange(w[i], 0);
    assert forall j :: 0 <= j < |a| ==> cs[|w| + j] == Update.PathChange(a[j], h);
    if Flips(m) {
      var i, j :| 0 <= i < |w| && 0 <= j < |a| && w[i] == a[j];
      assert cs[i].prefix == cs[|w| + j].prefix;
    } else {
      assert forall i, j :: 0 <= i < |w| && 0 <= j < |a| ==> w[i] != a[j];
      assert forall k :: 0 <= k < |cs| ==>
                           cs[k] == if k < |w| then Update.PathChange(w[k], 0) else Update.PathChange(a[k - |w|], h);
    }
  }

  /**
   Sending an UPDATE again, however many ticks later and its attributes in any order and form, is never counted
   as a change if and only if it does not both withdraw and announce a prefix, or the announced hash is that of a
   withdrawal.
   */
  lemma RepeatedUpdateIsSilentExactly(d: PathAttributes.Digests, m: Update.Message, n: Update.Message, nodeId: string,
        ts: Trackers, first: nat -> int, ticks: seq<int>, second: nat -> int)
    requires m.Valid() && n.Valid() && m.withdrawn == n.withdrawn && m.announced == n.announced
    requires multiset(PathAttributes.Pairs(m.attributes)) == multiset(PathAttributes.Pairs(n.attributes))
    ensures var once := Forwarded(nodeId, Update.Parsed(d, Update.Encode(m)));
            var again := Forwarded(nodeId, Update.Parsed(d, Update.Encode(n)));
            Silent(Ticked(ObservedAll(ts, once, first), ticks), again, second)
            <==> m.AttributesHash(d) == 0 || !Flips(m)
  {
    hide Update.Parsed, Update.Message.Meaning, Silent, ObservedAll, Flips, OneHash;
    Update.EquivalentAttributesSameMeaning(d, m, n);
    Update.UpdateRoundTrip(d, m);
    OneHashUnlessFlipping(d, m);
    ResendIsSilentExactly(ts, nodeId, m.Meaning(d), first, ticks, second);
  }

  // ---- Address families, from the parser to the tracker

  /** A route is tracked as IPv6 if and only if its prefix is longer than 32 bits. */
  lemma TypeOfRoute(e: Nlri.Entry, now: int, hash: nat, nodeId: string)
    ensures Created(PathChange(Nlri.Render(e), hash, nodeId), now).prefixType == if e.bits > 32 then "ipv6" else "ipv4"
  {
    if e.bits > 32 {
      Nlri.RendersV6(e.bits, e.addr);
      var first := Nlri.HexGroup(e.addr, 0);
      assert Nlri.Groups(e.addr, 0, e.bits)[|first|] == ':';
    } else {
      Nlri.RenderV4HasNoColon(Nlri.Padded(e.addr, 4), 0, e.bits);
    }
  }
}
