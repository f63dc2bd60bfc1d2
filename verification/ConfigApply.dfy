/**
 Applying peer changes to WireGuard and BIRD: request handlers commit a change and then set a dirty flag;
 one task clears the flag and applies; other callers apply on demand. All appliers share one lock. The
 steps below interleave freely. A version of the database is the list of interface files its enabled peers
 ask for, and an installed file is the number of the version it was generated from.
 */
module ConfigApply {
  import opened Basics

  type Tid = nat

  /** The debounce task; every other thread applies only on request. */
  const DEBOUNCE: Tid := 0

  datatype Phase =
    | Idle
    | Waiting  // wants the lock
    | Holding  // has it
    | Marked   // and has announced a pending apply
    | Loaded(snapshot: nat, todo: seq<string>, seen: set<nat>)
               // and has read the peers; these interface files are still to be written, and these
               // writes had set the flag by then
    | Leaving  // and is done with BIRD, one way or the other
    | Left     // and has withdrawn the announcement

  datatype State = State(
    versions: seq<seq<string>>,            // every committed version; the last one is current
    written: map<nat, Option<string>>,     // writes that have not set the flag yet, with a file still to remove
    flagged: set<nat>, dirty: bool,
    lock: Option<Tid>, phases: map<Tid, Phase>, pending: bool,
    newest: nat,                           // the newest snapshot any apply has read
    files: map<string, nat>, bird: nat,    // the installed configuration
    gone: map<string, nat>,                // removed files that are not back, with the write that removed them
    settled: set<nat>)                     // what the apply behind bird.conf had seen flagged

  datatype Action =
    | Write(ifaces: seq<string>, removes: Option<string>)  // a handler commits a peer change
    | RemoveFile(version: nat)              // after a delete, it removes the peer's file, outside the lock
    | SetDirty(version: nat)                // and then sets the flag
    | Tick                                  // the debounce task finds the flag set and clears it
    | Request(t: Tid)                       // someone asks for an apply
    | Cancel(t: Tid)                        // and goes away before it has the lock
    | Acquire(t: Tid)
    | Announce(t: Tid)
    | Load(t: Tid)
    | LoadFails(t: Tid)
    | Install(t: Tid)                       // the next interface file is replaced
    | InstallFails(t: Tid)                  // settings, file or interface error: early return
    | Reload(t: Tid)                        // all of them done: bird.conf replaced and reloaded
    | ReloadFails(t: Tid, replaced: bool)   // an error before or after bird.conf was replaced
    | Withdraw(t: Tid)
    | Release(t: Tid)

  const INIT := State([[]], map[], {}, false, None, map[], false, 0, map[], 0, map[], {})

  function Db(s: State): int { |s.versions| - 1 }

  function PhaseOf(s: State, t: Tid): Phase { if t in s.phases then s.phases[t] else Idle }

  function At(s: State, t: Tid, p: Phase): State { s.(phases := s.phases[t := p]) }

  predicate ReadyForBird(p: Phase) { p.Loaded? && p.todo == [] }

  predicate Enabled(s: State, a: Action) {
    match a
    case Write(_, _) => true
    case RemoveFile(v) => v in s.written && s.written[v].Some?
    case SetDirty(v) => v in s.written
    case Tick => PhaseOf(s, DEBOUNCE).Idle? && s.dirty
    case Request(t) => t != DEBOUNCE && PhaseOf(s, t).Idle?
    case Cancel(t) => t != DEBOUNCE && PhaseOf(s, t).Waiting?
    case Acquire(t) => PhaseOf(s, t).Waiting? && s.lock.None?
    case Announce(t) => PhaseOf(s, t).Holding?
    case Load(t) => PhaseOf(s, t).Marked? && s.versions != []
    case LoadFails(t) => PhaseOf(s, t).Marked?
    case Install(t) => PhaseOf(s, t).Loaded? && PhaseOf(s, t).todo != []
    case InstallFails(t) => PhaseOf(s, t).Loaded?
    case Reload(t) => ReadyForBird(PhaseOf(s, t))
    case ReloadFails(t, _) => ReadyForBird(PhaseOf(s, t))
    case Withdraw(t) => PhaseOf(s, t).Leaving?
    case Release(t) => PhaseOf(s, t).Left?
  }

  function Step(s: State, a: Action): State
    requires Enabled(s, a)
  {
    match a
    case Write(ifaces, removes) =>
      s.(versions := s.versions + [ifaces], written := s.written[|s.versions| := removes])
    case RemoveFile(v) =>
      var path := s.written[v].value;
      s.(files := s.files - {path}, gone := s.gone[path := v], written := s.written[v := None])
    case SetDirty(v) => s.(written := s.written - {v}, flagged := s.flagged + {v}, dirty := true)
    case Tick => At(s.(dirty := false), DEBOUNCE, Waiting)
    case Request(t) => At(s, t, Waiting)
    case Cancel(t) => At(s, t, Idle)
    case Acquire(t) => At(s.(lock := Some(t)), t, Holding)
    case Announce(t) => At(s.(pending := true), t, Marked)
    case Load(t) => At(s.(newest := Db(s)), t, Loaded(Db(s), s.versions[Db(s)], s.flagged))
    case LoadFails(t) => At(s.(lock := None), t, Idle)
    case Install(t) =>
      var p := PhaseOf(s, t);
      At(s.(files := s.files[p.todo[0] := p.snapshot], gone := s.gone - {p.todo[0]}), t, p.(todo := p.todo[1..]))
    case InstallFails(t) => At(s.(lock := None), t, Idle)
    case Reload(t) => At(Replaced(s, PhaseOf(s, t)), t, Leaving)
    case ReloadFails(t, replaced) => At(if replaced then Replaced(s, PhaseOf(s, t)) else s, t, Leaving)
    case Withdraw(t) => At(s.(pending := false), t, Left)
    case Release(t) => At(s.(lock := None), t, Idle)
  }

  function Replaced(s: State, p: Phase): State
    requires p.Loaded?
  {
    s.(bird := p.snapshot, settled := p.seen)
  }

  predicate CanRun(s: State, run: seq<Action>)
    decreases |run|
  {
    run == [] || (Enabled(s, run[0]) && CanRun(Step(s, run[0]), run[1..]))
  }

  function Run(s: State, run: seq<Action>): State
    requires CanRun(s, run)
    decreases |run|
  {
    if run == [] then s else Run(Step(s, run[0]), run[1..])
  }

  lemma RunOne(s: State, a: Action, run: seq<Action>)
    requires Enabled(s, a) && CanRun(Step(s, a), run)
    ensures CanRun(s, [a] + run) && Run(s, [a] + run) == Run(Step(s, a), run)
  {
    assert ([a] + run)[1..] == run;
  }

  lemma RunLast(s: State, a: Action)
    requires Enabled(s, a)
    ensures CanRun(s, [a]) && Run(s, [a]) == Step(s, a)
  {
    assert [a][1..] == [];
  }

  // ---- Invariant

  predicate Critical(p: Phase) { !p.Idle? && !p.Waiting? }

  predicate Announced(p: Phase) { p.Marked? || p.Loaded? || p.Leaving? }

  /** The file is there at this version or a later one, or was removed by a write not in `seen`. */
  predicate Present(s: State, path: string, version: nat, seen: set<nat>) {
    (path in s.files && s.files[path] >= version) || (path in s.gone && s.gone[path] !in seen)
  }

  /** An apply in the middle of its interface files: what is not to be written any more has been. */
  predicate UnderWay(s: State, p: Phase)
    requires p.Loaded?
  {
    && p.snapshot == s.newest < |s.versions| && s.settled <= p.seen <= s.flagged
    && (forall v :: v in p.seen ==> v <= p.snapshot)
    && forall path :: path in s.versions[p.snapshot] && path !in p.todo ==> Present(s, path, p.snapshot, p.seen)
  }

  predicate ThreadInv(s: State, t: Tid) {
    && (Critical(PhaseOf(s, t)) <==> s.lock == Some(t))
    && (Announced(PhaseOf(s, t)) ==> s.pending)
    && (PhaseOf(s, t).Loaded? ==> UnderWay(s, PhaseOf(s, t)))
  }

  /** Every version but the first has been written, and its write has set the flag or has yet to do so. */
  predicate Accounted(s: State) {
    && (forall v :: 1 <= v < |s.versions| ==> v in s.written || v in s.flagged)
    && (forall v :: v in s.written ==> 1 <= v < |s.versions| && v !in s.flagged)
    && (forall v :: v in s.flagged ==> 1 <= v < |s.versions|)
    && (forall p :: p in s.gone ==> s.gone[p] in s.written || s.gone[p] in s.flagged)
  }

  /** The installed configuration: bird.conf, and every interface file it goes with. */
  predicate Consistent(s: State) {
    && s.bird <= s.newest < |s.versions| && s.settled <= s.flagged
    && (forall v :: v in s.settled ==> v <= s.bird)
    && (forall p :: p in s.files ==> s.files[p] <= s.newest)
    && (forall p :: p in s.versions[s.bird] ==> Present(s, p, s.bird, s.settled))
  }

  ghost predicate Inv(s: State) {
    && Accounted(s) && Consistent(s)
    && forall t: Tid {:trigger PhaseOf(s, t)} :: ThreadInv(s, t)
  }

  lemma InitialInv()
    ensures Inv(INIT) && TaskCovered(INIT) && !INIT.dirty && !INIT.pending
  {
    forall t: Tid ensures ThreadInv(INIT, t) {
    }
  }

  /** The thread an action belongs to, if it belongs to an applier. */
  function Actor(a: Action): Option<Tid> {
    match a
    case Write(_, _) => None
    case RemoveFile(_) => None
    case SetDirty(_) => None
    case Tick => Some(DEBOUNCE)
    case _ => Some(a.t)
  }

  lemma SameThread(s: State, a: Action, t: Tid)
    requires Enabled(s, a) && Actor(a) != Some(t)
    ensures PhaseOf(Step(s, a), t) == PhaseOf(s, t)
  {
  }

  /** One apply at a time, a running one announced; no file newer than the newest snapshot; bird.conf last. */
  lemma StepKeepsInv(s: State, a: Action)
    requires Inv(s) && Enabled(s, a)
    ensures Inv(Step(s, a))
  {
    StepKeepsAccounts(s, a);
    StepKeepsConsistent(s, a);
    forall t: Tid
      ensures ThreadInv(Step(s, a), t)
    {
      ThreadKeepsInv(s, a, t);
    }
  }

  lemma StepKeepsAccounts(s: State, a: Action)
    requires Inv(s) && Enabled(s, a)
    ensures Accounted(Step(s, a))
  {
  }

  lemma StepKeepsConsistent(s: State, a: Action)
    requires Inv(s) && Enabled(s, a)
    ensures Consistent(Step(s, a))
  {
    if Actor(a).Some? {
      var before := PhaseOf(s, Actor(a).value);
      if ReadyForBird(before) {
        ReplacedIsConsistent(s, before);
      }
    }
    PresentStays(s, a, s.bird, s.settled);
    hide Present;
  }

  lemma ReplacedIsConsistent(s: State, p: Phase)
    requires Consistent(s) && ReadyForBird(p) && UnderWay(s, p)
    ensures Consistent(Replaced(s, p))
  {
  }

  /** No step takes away what a version needs, other than a removal by a write that had not been seen. */
  lemma PresentStays(s: State, a: Action, version: nat, seen: set<nat>)
    requires Inv(s) && Enabled(s, a) && version <= s.newest && seen <= s.flagged
    ensures forall path :: Present(s, path, version, seen) ==> Present(Step(s, a), path, version, seen)
  {
    if a.Install? {
      var before := PhaseOf(s, a.t);
    }
  }

  lemma ThreadKeepsInv(s: State, a: Action, t: Tid)
    requires Inv(s) && Enabled(s, a)
    ensures ThreadInv(Step(s, a), t)
  {
    if Actor(a) == Some(t) {
      OwnStepKeepsInv(s, a, t);
    } else {
      OtherStepKeepsInv(s, a, t);
    }
  }

  lemma OwnStepKeepsInv(s: State, a: Action, t: Tid)
    requires Inv(s) && Enabled(s, a) && Actor(a) == Some(t)
    ensures ThreadInv(Step(s, a), t)
  {
    hide UnderWay;
    assert ThreadInv(s, t) by { var before := PhaseOf(s, t); }
    if PhaseOf(Step(s, a), t).Loaded? {
      LoadOrInstall(s, a, t);
    }
  }

  lemma OtherStepKeepsInv(s: State, a: Action, t: Tid)
    requires Inv(s) && Enabled(s, a) && Actor(a) != Some(t)
    ensures ThreadInv(Step(s, a), t)
  {
    hide UnderWay;
    assert ThreadInv(s, t) by { var before := PhaseOf(s, t); }
    SameThread(s, a, t);
    if Actor(a).Some? {
      assert ThreadInv(s, Actor(a).value) by { var other := PhaseOf(s, Actor(a).value); }
    }
    if PhaseOf(s, t).Loaded? {
      UnderWayStays(s, a, t);
    }
  }

  lemma LoadOrInstall(s: State, a: Action, t: Tid)
    requires Inv(s) && Enabled(s, a) && a in {Load(t), Install(t)}
    ensures UnderWay(Step(s, a), PhaseOf(Step(s, a), t))
  {
    var before := PhaseOf(s, t);
    if before.Loaded? {
      PresentStays(s, a, before.snapshot, before.seen);
    }
  }

  /** What another thread or a handler does in the meantime. */
  lemma UnderWayStays(s: State, a: Action, t: Tid)
    requires Inv(s) && Enabled(s, a) && Actor(a) != Some(t) && PhaseOf(s, t).Loaded?
    ensures UnderWay(Step(s, a), PhaseOf(s, t))
  {
    var before := PhaseOf(s, t);
    PresentStays(s, a, before.snapshot, before.seen);
    if Actor(a).Some? {
      var other := PhaseOf(s, Actor(a).value);
    }
    hide Present;
  }

  lemma {:induction false} RunKeepsInv(s: State, run: seq<Action>)
    requires Inv(s) && CanRun(s, run)
    ensures Inv(Run(s, run))
    decreases |run|
  {
    hide Inv;
    if run != [] {
      StepKeepsInv(s, run[0]);
      RunKeepsInv(Step(s, run[0]), run[1..]);
    }
  }

  // ---- Installed configuration never goes backwards

  /** Every file of `r` is the one `s` had, or comes from a snapshot no older than the newest `s` knew. */
  ghost predicate NoOlder(s: State, r: State) {
    && s.newest <= r.newest
    && (r.bird == s.bird || s.newest <= r.bird)
    && forall p :: p in r.files ==> (p in s.files && r.files[p] == s.files[p]) || s.newest <= r.files[p]
  }

  lemma StepIsNoOlder(s: State, a: Action)
    requires Inv(s) && Enabled(s, a)
    ensures NoOlder(s, Step(s, a))
  {
    if Actor(a).Some? {
      var before := PhaseOf(s, Actor(a).value);
    }
  }

  lemma NoOlderTransitive(s: State, q: State, r: State)
    requires NoOlder(s, q) && NoOlder(q, r)
    ensures NoOlder(s, r)
  {
  }

  /** Across any interleaving of appliers, failed applies and file removals. */
  lemma {:induction false} NeverBackwards(s: State, run: seq<Action>)
    requires Inv(s) && CanRun(s, run)
    ensures var r := Run(s, run);
            && NoOlder(s, r) && s.bird <= r.bird
            && forall p :: p in s.files && p in r.files ==> s.files[p] <= r.files[p]
    decreases |run|
  {
    if run != [] {
      var q := Step(s, run[0]);
      StepKeepsInv(s, run[0]);
      StepIsNoOlder(s, run[0]);
      NeverBackwards(q, run[1..]);
      NoOlderTransitive(s, q, Run(q, run[1..]));
    }
  }

  // ---- When an update is lost

  /** An apply in this phase is going to put version `v` into bird.conf, unless it fails. */
  predicate Brings(p: Phase, v: nat) {
    p.Waiting? || p.Holding? || p.Marked? || (p.Loaded? && p.snapshot >= v)
  }

  /** Version `v` is in bird.conf, or someone is still going to bring it there. */
  ghost predicate Owed(s: State, v: nat) {
    s.dirty || s.bird >= v || exists t: Tid :: Brings(PhaseOf(s, t), v)
  }

  /** The apply of the acting thread ends here without version `v`, or its request is withdrawn. */
  predicate GivesUp(s: State, a: Action, v: nat)
    requires Enabled(s, a)
  {
    match a
    case Cancel(_) => true
    case LoadFails(_) => true
    case InstallFails(_) => true
    case ReloadFails(t, replaced) => !replaced || PhaseOf(s, t).snapshot < v
    case _ => false
  }

  /** An apply fails with the flag clear, before bird.conf has `v`, and no other apply is about to bring it. */
  ghost predicate Drops(s: State, a: Action, v: nat)
    requires Enabled(s, a)
  {
    GivesUp(s, a, v) && !s.dirty && s.bird < v && forall t: Tid :: Some(t) != Actor(a) ==> !Brings(PhaseOf(s, t), v)
  }

  lemma StepDropsExactly(s: State, a: Action, v: nat)
    requires Inv(s) && Enabled(s, a) && Owed(s, v) && v <= Db(s)
    ensures Owed(Step(s, a), v) <==> !Drops(s, a, v)
  {
    var r := Step(s, a);
    if Actor(a).Some? {
      var t := Actor(a).value;
      var before, after := PhaseOf(s, t), PhaseOf(r, t);
    }
    forall u: Tid | Some(u) != Actor(a)
      ensures PhaseOf(r, u) == PhaseOf(s, u)
    {
      SameThread(s, a, u);
    }
    if !s.dirty && s.bird < v {
      var u: Tid :| Brings(PhaseOf(s, u), v);
      var brought := PhaseOf(r, u);
    }
  }

  ghost predicate OwedThroughout(s: State, run: seq<Action>, v: nat)
    requires CanRun(s, run)
    decreases |run|
  {
    Owed(s, v) && (run == [] || OwedThroughout(Step(s, run[0]), run[1..], v))
  }

  ghost predicate NeverDrops(s: State, run: seq<Action>, v: nat)
    requires CanRun(s, run)
    decreases |run|
  {
    run == [] || (!Drops(s, run[0], v) && NeverDrops(Step(s, run[0]), run[1..], v))
  }

  /** Over every interleaving: an update stays owed or installed all along if and only if no step drops it. */
  lemma {:induction false} LostExactly(s: State, run: seq<Action>, v: nat)
    requires Inv(s) && CanRun(s, run) && Owed(s, v) && v <= Db(s)
    ensures OwedThroughout(s, run, v) <==> NeverDrops(s, run, v)
    decreases |run|
  {
    hide Inv, Owed, Drops;
    if run != [] {
      StepKeepsInv(s, run[0]);
      StepDropsExactly(s, run[0], v);
      if Owed(Step(s, run[0]), v) {
        LostExactly(Step(s, run[0]), run[1..], v);
      } else {
        assert !OwedThroughout(Step(s, run[0]), run[1..], v);
      }
    }
  }

  // ---- When the task has covered every update

  /** An apply in this phase reads the peers after write `v` has set the flag, or has done so. */
  predicate Settles(p: Phase, v: nat) {
    p.Waiting? || p.Holding? || p.Marked? || (p.Loaded? && v in p.seen)
  }

  /** Every flagged write is settled by an apply that read the peers after the flag, or going to be by the task. */
  predicate TaskCovered(s: State) {
    forall v :: v in s.flagged ==> s.dirty || v in s.settled || Settles(PhaseOf(s, DEBOUNCE), v)
  }

  /** The apply that the debounce task started gives up before bird.conf is replaced. */
  predicate DebounceFails(a: Action) {
    match a
    case LoadFails(t) => t == DEBOUNCE
    case InstallFails(t) => t == DEBOUNCE
    case ReloadFails(t, replaced) => t == DEBOUNCE && !replaced
    case _ => false
  }

  /** That happens with the flag clear and some flagged write not settled. */
  predicate Breaks(s: State, a: Action) { DebounceFails(a) && !s.dirty && !(s.flagged <= s.settled) }

  /** The flag is set again, or bird.conf is replaced by an apply that read the peers after every flagged write. */
  predicate Heals(s: State, a: Action)
    requires Enabled(s, a)
  {
    match a
    case SetDirty(_) => true
    case Reload(t) => s.flagged <= PhaseOf(s, t).seen
    case ReloadFails(t, replaced) => replaced && s.flagged <= PhaseOf(s, t).seen
    case _ => false
  }

  lemma StepCoversExactly(s: State, a: Action)
    requires Inv(s) && Enabled(s, a)
    ensures TaskCovered(Step(s, a)) <==> Heals(s, a) || (TaskCovered(s) && !Breaks(s, a))
  {
    hide UnderWay;
    var before := PhaseOf(s, DEBOUNCE);
    if Actor(a).Some? {
      var acting := PhaseOf(s, Actor(a).value);
      assert acting.Loaded? ==> s.settled <= acting.seen by { LoadedHasSeen(s, Actor(a).value); }
    }
    if Actor(a) != Some(DEBOUNCE) {
      SameThread(s, a, DEBOUNCE);
    }
  }

  lemma LoadedHasSeen(s: State, t: Tid)
    requires Inv(s)
    ensures PhaseOf(s, t).Loaded? ==> s.settled <= PhaseOf(s, t).seen
  {
  }

  /** No failed debounced apply is left unhealed after these steps, `covered` being the answer before them. */
  predicate Healed(s: State, run: seq<Action>, covered: bool)
    requires CanRun(s, run)
    decreases |run|
  {
    if run == [] then covered
    else Healed(Step(s, run[0]), run[1..], Heals(s, run[0]) || (covered && !Breaks(s, run[0])))
  }

  /** Over every interleaving: all flagged writes are covered if and only if no failure is left unhealed. */
  lemma {:induction false} CoveredExactly(s: State, run: seq<Action>)
    requires Inv(s) && CanRun(s, run)
    ensures TaskCovered(Run(s, run)) <==> Healed(s, run, TaskCovered(s))
    decreases |run|
  {
    hide Inv, TaskCovered, Heals, Breaks;
    if run != [] {
      StepKeepsInv(s, run[0]);
      StepCoversExactly(s, run[0]);
      CoveredExactly(Step(s, run[0]), run[1..]);
    }
  }

  lemma {:induction false} HealedSplits(s: State, front: seq<Action>, rest: seq<Action>, covered: bool)
    requires CanRun(s, front + rest)
    ensures CanRun(s, front) && CanRun(Run(s, front), rest)
    ensures Healed(s, front + rest, covered) == Healed(Run(s, front), rest, Healed(s, front, covered))
    decreases |front|
  {
    hide Heals, Breaks, Step, Enabled;
    var all := front + rest;
    if front == [] {
      assert all == rest;
    } else {
      assert all[0] == front[0] && all[1..] == front[1..] + rest;
      HealedSplits(Step(s, front[0]), front[1..], rest, Heals(s, front[0]) || (covered && !Breaks(s, front[0])));
    }
  }

  lemma {:induction false} NoFailureKeepsHealed(s: State, run: seq<Action>)
    requires CanRun(s, run) && forall i :: 0 <= i < |run| ==> !DebounceFails(run[i])
    ensures Healed(s, run, true)
    decreases |run|
  {
    if run != [] {
      NoFailureKeepsHealed(Step(s, run[0]), run[1..]);
    }
  }

  /** Whatever has failed before, setting the flag heals it, as long as no debounced apply fails afterwards. */
  lemma NextFlagHeals(s: State, front: seq<Action>, v: nat, rest: seq<Action>)
    requires CanRun(s, front + ([SetDirty(v)] + rest)) && forall i :: 0 <= i < |rest| ==> !DebounceFails(rest[i])
    ensures forall covered :: Healed(s, front + ([SetDirty(v)] + rest), covered)
  {
    var tail := [SetDirty(v)] + rest;
    assert tail[1..] == rest;
    forall covered
      ensures Healed(s, front + tail, covered)
    {
      HealedSplits(s, front, tail, covered);
      NoFailureKeepsHealed(Step(Run(s, front), SetDirty(v)), rest);
    }
  }

  /**
   With no failure left unhealed, the flag clear and the task idle, every flagged write is in bird.conf, and
   with it every interface file, unless a delete that has not set the flag yet has removed it.
   */
  lemma QuietMeansInstalled(run: seq<Action>)
    requires CanRun(INIT, run) && Healed(INIT, run, true)
    ensures var r := Run(INIT, run);
            !r.dirty && PhaseOf(r, DEBOUNCE).Idle? ==>
              && r.bird < |r.versions| && (forall v :: v in r.flagged ==> v <= r.bird)
              && (forall p :: p in r.versions[r.bird] ==>
                    (p in r.files && r.files[p] >= r.bird) || (p in r.gone && r.gone[p] in r.written))
  {
    InitialInv();
    RunKeepsInv(INIT, run);
    CoveredExactly(INIT, run);
  }

  /** When, besides, no handler is between its commit and the flag, the installed configuration is the database. */
  lemma AtRestInstalledIsCurrent(run: seq<Action>)
    requires CanRun(INIT, run) && Healed(INIT, run, true)
    ensures var r := Run(INIT, run);
            !r.dirty && PhaseOf(r, DEBOUNCE).Idle? && r.written == map[] ==>
              && r.bird == Db(r) && r.versions != []
              && forall p :: p in r.versions[r.bird] ==> p in r.files && r.files[p] == r.bird
  {
    InitialInv();
    RunKeepsInv(INIT, run);
    QuietMeansInstalled(run);
    var r := Run(INIT, run);
    assert Db(r) >= 1 ==> Db(r) in r.written || Db(r) in r.flagged;
  }

  /** The one step that must not fail: a failed read leaves a flagged change uninstalled, and nothing to retry it. */
  lemma FailedReadLosesUpdate(ifaces: seq<string>)
    ensures var run := [Write(ifaces, None), SetDirty(1), Tick, Acquire(DEBOUNCE), Announce(DEBOUNCE),
                        LoadFails(DEBOUNCE)];
            && CanRun(INIT, run)
            && var r := Run(INIT, run);
               1 in r.flagged && r.bird == 0 && !r.dirty && r.lock.None? && r.pending
               && forall t: Tid :: PhaseOf(r, t).Idle?
  {
    hide CanRun, Run;
    var s1 := Step(INIT, Write(ifaces, None));
    var s2 := Step(s1, SetDirty(1));
    var s3 := Step(s2, Tick);
    var s4 := Step(s3, Acquire(DEBOUNCE));
    var s5 := Step(s4, Announce(DEBOUNCE));
    var r6: seq<Action> := [LoadFails(DEBOUNCE)];
    var r5 := [Announce(DEBOUNCE)] + r6;
    var r4 := [Acquire(DEBOUNCE)] + r5;
    var r3 := [Tick] + r4;
    var r2 := [SetDirty(1)] + r3;
    RunLast(s5, LoadFails(DEBOUNCE));
    RunOne(s4, Announce(DEBOUNCE), r6);
    RunOne(s3, Acquire(DEBOUNCE), r5);
    RunOne(s2, Tick, r4);
    RunOne(s1, SetDirty(1), r3);
    RunOne(INIT, Write(ifaces, None), r2);
    assert [Write(ifaces, None)] + r2 == [Write(ifaces, None), SetDirty(1), Tick, Acquire(DEBOUNCE),
                                          Announce(DEBOUNCE), LoadFails(DEBOUNCE)];
  }

  // ---- A removed file can come back

  /** Some run ends with a file at `path` that was generated before version `v`. */
  ghost predicate CanReturnStale(s: State, path: string, v: nat) {
    exists run :: CanRun(s, run) && path in Run(s, run).files && Run(s, run).files[path] < v
  }

  /** This apply has read a snapshot older than `v` and has yet to write the file of that snapshot. */
  predicate HoldsOlder(p: Phase, path: string, v: nat) { p.Loaded? && p.snapshot < v && path in p.todo }

  /**
   After a delete has committed version `v` and removed the peer's file, a stale file can reappear if and
   only if some apply has read an older snapshot and not yet come to that file: removal does not take the lock.
   */
  lemma RemovedFileReturnsExactly(s: State, path: string, v: nat)
    requires Inv(s) && v <= Db(s) && path !in s.files
    ensures CanReturnStale(s, path, v) <==> exists t: Tid :: HoldsOlder(PhaseOf(s, t), path, v)
  {
    if t: Tid :| HoldsOlder(PhaseOf(s, t), path, v) {
      InstallsUpTo(s, t, path, v);
    } else {
      forall run | CanRun(s, run)
        ensures path in Run(s, run).files ==> Run(s, run).files[path] >= v
      {
        StaysFresh(s, run, path, v);
      }
    }
  }

  lemma {:induction false} InstallsUpTo(s: State, t: Tid, path: string, v: nat)
    requires HoldsOlder(PhaseOf(s, t), path, v)
    ensures CanReturnStale(s, path, v)
    decreases |PhaseOf(s, t).todo|
  {
    var a := Install(t);
    var q := Step(s, a);
    var rest: seq<Action> := [];
    if PhaseOf(s, t).todo[0] != path {
      InstallsUpTo(q, t, path, v);
      rest :| CanRun(q, rest) && path in Run(q, rest).files && Run(q, rest).files[path] < v;
    }
    RunOne(s, a, rest);
    assert Run(q, rest).files[path] < v;
  }

  lemma {:induction false} StaysFresh(s: State, run: seq<Action>, path: string, v: nat)
    requires CanRun(s, run) && Fresh(s, path, v)
    ensures path in Run(s, run).files ==> Run(s, run).files[path] >= v
    decreases |run|
  {
    if run != [] {
      StepStaysFresh(s, run[0], path, v);
      hide Step, Fresh;
      StaysFresh(Step(s, run[0]), run[1..], path, v);
    }
  }

  ghost predicate Fresh(s: State, path: string, v: nat) {
    && v <= Db(s) && (path in s.files ==> s.files[path] >= v)
    && forall t: Tid :: !HoldsOlder(PhaseOf(s, t), path, v)
  }

  lemma StepStaysFresh(s: State, a: Action, path: string, v: nat)
    requires Enabled(s, a) && Fresh(s, path, v)
    ensures Fresh(Step(s, a), path, v)
  {
    forall t: Tid
      ensures !HoldsOlder(PhaseOf(Step(s, a), t), path, v)
    {
      var before := PhaseOf(s, t);
      if Actor(a) != Some(t) {
        SameThread(s, a, t);
      }
    }
  }

  /** An apply that has read the peers, the only one of which asks for this interface file. */
  function HasRead(path: string): State {
    State([[], [path]], map[1 := None], {}, false, Some(1), map[1 := Loaded(1, [path], {})], true,
          1, map[], 0, map[], {})
  }

  lemma ReadsPeers(path: string)
    ensures var run := [Write([path], None), Request(1), Acquire(1), Announce(1), Load(1)];
            CanRun(INIT, run) && Run(INIT, run) == HasRead(path)
  {
    var s1 := Step(INIT, Write([path], None));
    var s2 := Step(s1, Request(1));
    var s3 := Step(s2, Acquire(1));
    var s4 := Step(s3, Announce(1));
    assert Step(s4, Load(1)) == HasRead(path);
    var r5: seq<Action> := [Load(1)];
    var r4 := [Announce(1)] + r5;
    var r3 := [Acquire(1)] + r4;
    var r2 := [Request(1)] + r3;
    hide CanRun, Run, Step;
    RunLast(s4, Load(1));
    RunOne(s3, Announce(1), r5);
    RunOne(s2, Acquire(1), r4);
    RunOne(s1, Request(1), r3);
    RunOne(INIT, Write([path], None), r2);
    assert [Write([path], None)] + r2 == [Write([path], None), Request(1), Acquire(1), Announce(1), Load(1)];
  }

  /** It happens: the peer is deleted and its file removed, and then the apply goes on. */
  lemma RemovedFileReturns(path: string)
    ensures var run := [Write([], Some(path)), RemoveFile(2), Install(1)];
            && CanRun(HasRead(path), run)
            && var r := Run(HasRead(path), run);
               Db(r) == 2 && path !in r.versions[2] && path in r.files && r.files[path] == 1 && path !in r.gone
  {
    var s5 := HasRead(path);
    var s6 := Step(s5, Write([], Some(path)));
    var s7 := Step(s6, RemoveFile(2));
    var r8: seq<Action> := [Install(1)];
    var r7 := [RemoveFile(2)] + r8;
    RunLast(s7, Install(1));
    RunOne(s6, RemoveFile(2), r8);
    RunOne(s5, Write([], Some(path)), r7);
    assert [Write([], Some(path))] + r7 == [Write([], Some(path)), RemoveFile(2), Install(1)];
  }
}
