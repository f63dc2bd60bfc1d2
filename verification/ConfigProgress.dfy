/**
 What appliers can do, as opposed to what they never do: an apply in which nothing fails gets to its end and
 installs the database, each failure the program knows is possible, and no state is a dead end.
 */
module ConfigProgress {
  import opened Basics
  import opened ConfigApply

  // ---- An apply can finish

  lemma {:induction false} RunJoined(s: State, front: seq<Action>, rest: seq<Action>)
    requires CanRun(s, front) && CanRun(Run(s, front), rest)
    ensures CanRun(s, front + rest) && Run(s, front + rest) == Run(Run(s, front), rest)
    decreases |front|
  {
    hide Step, Enabled;
    if front == [] {
      assert front + rest == rest;
    } else {
      RunJoined(Step(s, front[0]), front[1..], rest);
      assert (front + rest)[0] == front[0] && (front + rest)[1..] == front[1..] + rest;
    }
  }

  function Installs(t: Tid, n: nat): seq<Action> { if n == 0 then [] else [Install(t)] + Installs(t, n - 1) }

  /** These files are at this version, back if they were gone; the others are as before. */
  predicate FilesInstalled(files: map<string, nat>, gone: map<string, nat>, after: map<string, nat>,
                           stillGone: map<string, nat>, paths: seq<string>, version: nat) {
    && after.Keys == files.Keys + (set p | p in paths) && stillGone == gone - (set p | p in paths)
    && forall p :: p in after ==> after[p] == if p in paths then version else files[p]
  }

  /** `r` is `s` with these files at this version, and the thread in this phase. */
  predicate Installed(s: State, r: State, t: Tid, paths: seq<string>, version: nat, phase: Phase) {
    && r == s.(files := r.files, gone := r.gone, phases := s.phases[t := phase])
    && FilesInstalled(s.files, s.gone, r.files, r.gone, paths, version)
  }

  /** From a snapshot with files still to write, one step per file writes them all and nothing else. */
  lemma {:induction false} InstallsAll(s: State, t: Tid)
    requires PhaseOf(s, t).Loaded? && t in s.phases
    ensures var p := PhaseOf(s, t);
            CanRun(s, Installs(t, |p.todo|))
            && Installed(s, Run(s, Installs(t, |p.todo|)), t, p.todo, p.snapshot, p.(todo := []))
    decreases |PhaseOf(s, t).todo|
  {
    var p := PhaseOf(s, t);
    if p.todo == [] {
      assert s.phases[t := p] == s.phases;
    } else {
      var q := Step(s, Install(t));
      InstallsAll(q, t);
      RunOne(s, Install(t), Installs(t, |p.todo| - 1));
      InstalledAfterOne(s, q, Run(q, Installs(t, |p.todo| - 1)), t);
    }
  }

  lemma InstalledAfterOne(s: State, q: State, r: State, t: Tid)
    requires PhaseOf(s, t).Loaded? && PhaseOf(s, t).todo != [] && t in s.phases && q == Step(s, Install(t))
    requires var p := PhaseOf(q, t); Installed(q, r, t, p.todo, p.snapshot, p.(todo := []))
    ensures var p := PhaseOf(s, t); Installed(s, r, t, p.todo, p.snapshot, p.(todo := []))
  {
    var p := PhaseOf(s, t);
    assert p.todo == [p.todo[0]] + p.todo[1..];
    assert (set x | x in p.todo) == {p.todo[0]} + (set x | x in p.todo[1..]);
    assert s.phases[t := p.(todo := p.todo[1..])][t := p.(todo := [])] == s.phases[t := p.(todo := [])];
  }

  /** The steps of an apply that has the lock to come by, when nothing fails. */
  function Apply(t: Tid, files: nat): seq<Action> {
    [Acquire(t), Announce(t), Load(t)] + (Installs(t, files) + [Reload(t), Withdraw(t), Release(t)])
  }

  /** The current version is installed, and the thread, the lock and the announcement are given back. */
  predicate Completed(s: State, r: State, t: Tid)
    requires s.versions != []
  {
    var db := |s.versions| - 1;
    && Installed(s.(newest := db, bird := db, settled := s.flagged, pending := false), r, t, s.versions[db], db, Idle)
    && r.lock.None?
  }

  lemma ThreeSteps(s: State, a: Action, b: Action, c: Action)
    requires Enabled(s, a) && Enabled(Step(s, a), b) && Enabled(Step(Step(s, a), b), c)
    ensures CanRun(s, [a, b, c]) && Run(s, [a, b, c]) == Step(Step(Step(s, a), b), c)
  {
    hide Step, Enabled;
    RunLast(Step(Step(s, a), b), c);
    RunOne(Step(s, a), b, [c]);
    RunOne(s, a, [b, c]);
    assert [b] + [c] == [b, c] && [a] + [b, c] == [a, b, c];
  }

  lemma Begins(s: State, t: Tid)
    requires PhaseOf(s, t).Waiting? && s.lock.None? && s.versions != []
    ensures var db := |s.versions| - 1; var steps := [Acquire(t), Announce(t), Load(t)];
            && CanRun(s, steps)
            && Run(s, steps) == s.(lock := Some(t), pending := true, newest := db,
                                   phases := s.phases[t := Loaded(db, s.versions[db], s.flagged)])
  {
    ThreeSteps(s, Acquire(t), Announce(t), Load(t));
    var db := |s.versions| - 1;
    assert s.phases[t := Holding][t := Marked][t := Loaded(db, s.versions[db], s.flagged)]
        == s.phases[t := Loaded(db, s.versions[db], s.flagged)];
  }

  lemma Ends(s: State, t: Tid)
    requires ReadyForBird(PhaseOf(s, t))
    ensures var p := PhaseOf(s, t); var steps := [Reload(t), Withdraw(t), Release(t)];
            && CanRun(s, steps)
            && Run(s, steps) == s.(bird := p.snapshot, settled := p.seen, pending := false, lock := None,
                                   phases := s.phases[t := Idle])
  {
    ThreeSteps(s, Reload(t), Withdraw(t), Release(t));
    assert s.phases[t := Leaving][t := Left][t := Idle] == s.phases[t := Idle];
  }

  /** Whoever waits while the lock is free can apply: bird.conf and every interface file come from the database. */
  lemma ApplyFinishes(s: State, t: Tid)
    requires PhaseOf(s, t).Waiting? && s.lock.None? && s.versions != []
    ensures var steps := Apply(t, |s.versions[|s.versions| - 1]|);
            CanRun(s, steps) && Completed(s, Run(s, steps), t)
  {
    hide CanRun, Run, Installed, Completed;
    var files := s.versions[|s.versions| - 1];
    Begins(s, t);
    var loaded := Run(s, [Acquire(t), Announce(t), Load(t)]);
    InstallsAll(loaded, t);
    var installed := Run(loaded, Installs(t, |files|));
    Ends(installed, t);
    RunJoined(loaded, Installs(t, |files|), [Reload(t), Withdraw(t), Release(t)]);
    RunJoined(s, [Acquire(t), Announce(t), Load(t)], Installs(t, |files|) + [Reload(t), Withdraw(t), Release(t)]);
    PartsComplete(s, loaded, installed, Run(installed, [Reload(t), Withdraw(t), Release(t)]), t);
  }

  lemma PartsComplete(s: State, loaded: State, installed: State, r: State, t: Tid)
    requires s.lock.None? && s.versions != []
    requires var db := |s.versions| - 1;
             && loaded == s.(lock := Some(t), pending := true, newest := db,
                             phases := s.phases[t := Loaded(db, s.versions[db], s.flagged)])
             && Installed(loaded, installed, t, s.versions[db], db, Loaded(db, [], s.flagged))
             && r == installed.(bird := db, settled := s.flagged, pending := false, lock := None,
                                phases := installed.phases[t := Idle])
    ensures Completed(s, r, t)
  {
    hide FilesInstalled;
    var db, files := |s.versions| - 1, s.versions[|s.versions| - 1];
    assert s.phases[t := Loaded(db, files, s.flagged)][t := Loaded(db, [], s.flagged)][t := Idle]
        == s.phases[t := Idle];
  }

  lemma WaitingIsForgotten(s: State, q: State, r: State, t: Tid)
    requires s.versions != [] && q == s.(phases := s.phases[t := Waiting]) && Completed(q, r, t)
    ensures Completed(s, r, t)
  {
    hide FilesInstalled;
    assert s.phases[t := Waiting][t := Idle] == s.phases[t := Idle];
  }

  /** With the flag set, the task idle and the lock free, the task's next turn installs the database. */
  lemma TaskFinishes(s: State)
    requires s.dirty && PhaseOf(s, DEBOUNCE).Idle? && s.lock.None? && s.versions != []
    ensures var steps := [Tick] + Apply(DEBOUNCE, |s.versions[|s.versions| - 1]|);
            && CanRun(s, steps)
            && Completed(s.(dirty := false), Run(s, steps), DEBOUNCE)
  {
    hide Completed, Apply;
    var q := Step(s, Tick);
    ApplyFinishes(q, DEBOUNCE);
    RunOne(s, Tick, Apply(DEBOUNCE, |s.versions[|s.versions| - 1]|));
    WaitingIsForgotten(s.(dirty := false), q, Run(q, Apply(DEBOUNCE, |s.versions[|s.versions| - 1]|)), DEBOUNCE);
  }

  /** So does an apply on demand. */
  lemma RequestFinishes(s: State, t: Tid)
    requires t != DEBOUNCE && PhaseOf(s, t).Idle? && s.lock.None? && s.versions != []
    ensures var steps := [Request(t)] + Apply(t, |s.versions[|s.versions| - 1]|);
            CanRun(s, steps) && Completed(s, Run(s, steps), t)
  {
    hide Completed, Apply;
    var q := Step(s, Request(t));
    ApplyFinishes(q, t);
    RunOne(s, Request(t), Apply(t, |s.versions[|s.versions| - 1]|));
    WaitingIsForgotten(s, q, Run(q, Apply(t, |s.versions[|s.versions| - 1]|)), t);
  }

  // ---- What a handler does

  /** Creating, changing or toggling a peer: the new version is current, then flagged. */
  lemma WriteIsFlagged(s: State, ifaces: seq<string>)
    requires |s.versions| !in s.written
    ensures var v := |s.versions|; var steps := [Write(ifaces, None), SetDirty(v)];
            && CanRun(s, steps)
            && Run(s, steps) == s.(versions := s.versions + [ifaces], flagged := s.flagged + {v}, dirty := true)
  {
    var v := |s.versions|;
    RunLast(Step(s, Write(ifaces, None)), SetDirty(v));
    RunOne(s, Write(ifaces, None), [SetDirty(v)]);
    assert [Write(ifaces, None)] + [SetDirty(v)] == [Write(ifaces, None), SetDirty(v)];
    assert s.written[v := None] - {v} == s.written;
  }

  /** Deleting one: the new version is current, the peer's file is removed, then the version is flagged. */
  lemma DeleteIsFlagged(s: State, ifaces: seq<string>, path: string)
    requires |s.versions| !in s.written
    ensures var v := |s.versions|; var steps := [Write(ifaces, Some(path)), RemoveFile(v), SetDirty(v)];
            && CanRun(s, steps)
            && Run(s, steps) == s.(versions := s.versions + [ifaces], files := s.files - {path},
                                   gone := s.gone[path := v], flagged := s.flagged + {v}, dirty := true)
  {
    var v := |s.versions|;
    ThreeSteps(s, Write(ifaces, Some(path)), RemoveFile(v), SetDirty(v));
    assert s.written[v := Some(path)][v := None] - {v} == s.written;
  }

  /** The file is removed once. */
  lemma RemovesOnce(s: State, v: nat)
    requires Enabled(s, RemoveFile(v))
    ensures !Enabled(Step(s, RemoveFile(v)), RemoveFile(v)) && Enabled(Step(s, RemoveFile(v)), SetDirty(v))
  {
  }

  // ---- What a failure leaves behind

  /** A failed read or a failed interface file gives the lock back, and leaves the announcement. */
  lemma EarlyFailuresLeave(s: State, t: Tid)
    ensures var left := s.(lock := None, phases := s.phases[t := Idle]);
            && (PhaseOf(s, t).Marked? ==> CanRun(s, [LoadFails(t)]) && Run(s, [LoadFails(t)]) == left)
            && (PhaseOf(s, t).Loaded? ==> CanRun(s, [InstallFails(t)]) && Run(s, [InstallFails(t)]) == left)
  {
    hide CanRun, Run;
    if PhaseOf(s, t).Marked? {
      RunLast(s, LoadFails(t));
    } else if PhaseOf(s, t).Loaded? {
      RunLast(s, InstallFails(t));
    }
  }

  /** Who waits on demand may go away. */
  lemma CancelLeaves(s: State, t: Tid)
    requires t != DEBOUNCE && PhaseOf(s, t).Waiting?
    ensures CanRun(s, [Cancel(t)]) && Run(s, [Cancel(t)]) == s.(phases := s.phases[t := Idle])
  {
    RunLast(s, Cancel(t));
  }

  /** An error around bird.conf withdraws the announcement, with the file replaced or not. */
  lemma BirdFailureLeaves(s: State, t: Tid, replaced: bool)
    requires ReadyForBird(PhaseOf(s, t))
    ensures var p, steps := PhaseOf(s, t), [ReloadFails(t, replaced), Withdraw(t), Release(t)];
            var left := s.(pending := false, lock := None, phases := s.phases[t := Idle]);
            && CanRun(s, steps)
            && Run(s, steps) == if replaced then left.(bird := p.snapshot, settled := p.seen) else left
  {
    hide CanRun, Run;
    ThreeSteps(s, ReloadFails(t, replaced), Withdraw(t), Release(t));
    assert s.phases[t := Leaving][t := Left][t := Idle] == s.phases[t := Idle];
  }

  // ---- No state is a dead end

  ghost predicate Reaches(s: State, r: State) { exists run :: CanRun(s, run) && Run(s, run) == r }

  lemma RunReaches(s: State, run: seq<Action>)
    requires CanRun(s, run)
    ensures Reaches(s, Run(s, run))
  {
  }

  lemma StepReaches(s: State, a: Action)
    requires Enabled(s, a)
    ensures Reaches(s, Step(s, a))
  {
    RunLast(s, a);
  }

  lemma ReachesOn(s: State, q: State, r: State)
    requires Reaches(s, q) && Reaches(q, r)
    ensures Reaches(s, r)
  {
    hide CanRun, Run;
    var front :| CanRun(s, front) && Run(s, front) == q;
    var rest :| CanRun(q, rest) && Run(q, rest) == r;
    RunJoined(s, front, rest);
  }

  /** What `r` has in common with `s` when thread `t` has come to its end. */
  predicate Finished(s: State, r: State, t: Tid) {
    && r.lock.None? && r.versions == s.versions
    && PhaseOf(r, DEBOUNCE) == if t == DEBOUNCE then Idle else PhaseOf(s, DEBOUNCE)
  }

  lemma LoadedFinishes(s: State, t: Tid) returns (r: State)
    requires PhaseOf(s, t).Loaded?
    ensures Reaches(s, r) && Finished(s, r, t)
  {
    hide CanRun, Run, Reaches;
    var n := |PhaseOf(s, t).todo|;
    InstallsAll(s, t);
    RunReaches(s, Installs(t, n));
    var q := Run(s, Installs(t, n));
    Ends(q, t);
    RunReaches(q, [Reload(t), Withdraw(t), Release(t)]);
    r := Run(q, [Reload(t), Withdraw(t), Release(t)]);
    ReachesOn(s, q, r);
  }

  function Remaining(p: Phase): nat {
    match p
    case Holding => 4
    case Marked => 3
    case Loaded(_, _, _) => 2
    case Leaving => 1
    case _ => 0
  }

  /** The next step of a holder that has no interface file to write. */
  function NextOf(t: Tid, p: Phase): Action {
    match p
    case Holding => Announce(t)
    case Marked => Load(t)
    case Leaving => Withdraw(t)
    case _ => Release(t)
  }

  lemma HolderSteps(s: State, t: Tid)
    requires Critical(PhaseOf(s, t)) && !PhaseOf(s, t).Loaded? && s.versions != []
    ensures var a := NextOf(t, PhaseOf(s, t));
            && Enabled(s, a)
            && var q := Step(s, a);
               && q.versions == s.versions && (t != DEBOUNCE ==> PhaseOf(q, DEBOUNCE) == PhaseOf(s, DEBOUNCE))
               && if PhaseOf(s, t).Left? then Finished(s, q, t)
                  else Critical(PhaseOf(q, t)) && Remaining(PhaseOf(q, t)) < Remaining(PhaseOf(s, t))
  {
  }

  /** The holder of the lock can always get to its end. */
  lemma HolderFinishes(s: State, t: Tid) returns (r: State)
    requires Critical(PhaseOf(s, t)) && s.versions != []
    ensures Reaches(s, r) && Finished(s, r, t)
    decreases Remaining(PhaseOf(s, t))
  {
    hide Reaches, Step, Enabled, Critical, Remaining;
    if PhaseOf(s, t).Loaded? {
      r := LoadedFinishes(s, t);
    } else {
      var a := NextOf(t, PhaseOf(s, t));
      HolderSteps(s, t);
      StepReaches(s, a);
      r := Step(s, a);
      if !PhaseOf(s, t).Left? {
        var q := r;
        r := HolderFinishes(q, t);
        ReachesOn(s, q, r);
      }
    }
  }

  lemma {:induction false} AllFlagged(s: State) returns (r: State)
    requires Inv(s)
    ensures Reaches(s, r) && Inv(r) && r.written == map[] && r.versions == s.versions && r.lock == s.lock
    ensures r.phases == s.phases
    decreases |s.written|
  {
    if s.written == map[] {
      r := s;
      RunReaches(s, []);
    } else {
      var v :| v in s.written;
      var q := Step(s, SetDirty(v));
      StepKeepsInv(s, SetDirty(v));
      StepReaches(s, SetDirty(v));
      assert q.written.Keys == s.written.Keys - {v};
      assert |q.written| == |q.written.Keys| && |s.written| == |s.written.Keys|;
      r := AllFlagged(q);
      ReachesOn(s, q, r);
    }
  }

  /** Nothing is under way, and the installed configuration is the database. */
  predicate AtRest(s: State) {
    && s.versions != [] && !s.dirty && s.written == map[] && s.lock.None? && PhaseOf(s, DEBOUNCE).Idle?
    && s.bird == |s.versions| - 1 && s.settled == s.flagged
    && forall p :: p in s.versions[s.bird] ==> p in s.files && s.files[p] == s.bird
  }

  lemma CompletedInstalls(s: State, r: State, t: Tid)
    requires s.versions != [] && Completed(s, r, t)
    ensures r.versions == s.versions && r.bird == |s.versions| - 1 && r.settled == r.flagged == s.flagged
    ensures r.dirty == s.dirty && r.written == s.written && r.lock.None? && PhaseOf(r, t).Idle?
    ensures forall u: Tid :: u != t ==> PhaseOf(r, u) == PhaseOf(s, u)
    ensures forall p :: p in r.versions[r.bird] ==> p in r.files && r.files[p] == r.bird
  {
  }

  /** Somebody who has not asked for anything yet. */
  lemma SomeIdleThread(s: State) returns (t: Tid)
    ensures t != DEBOUNCE && PhaseOf(s, t).Idle?
  {
    var bound := AboveAll(s.phases.Keys);
    t := bound + 1;
  }

  lemma {:induction false} AboveAll(ts: set<Tid>) returns (bound: nat)
    ensures forall t :: t in ts ==> t <= bound
  {
    bound := 0;
    if ts != {} {
      var t :| t in ts;
      var rest := AboveAll(ts - {t});
      bound := rest + t;
      assert forall u :: u in ts ==> u == t || u in ts - {t};
    }
  }

  /** From every reachable state, without any failure, rest with the database installed can be reached. */
  lemma RestIsReachable(s: State) returns (r: State)
    requires Inv(s)
    ensures Reaches(s, r) && AtRest(r) && r.versions == s.versions
  {
    hide CanRun, Run, Step, Enabled, Completed;
    var free := LockIsFreed(s);
    var idle := TaskIsIdled(free);
    ReachesOn(s, free, idle);
    var flagged := AllFlagged(idle);
    ReachesOn(s, idle, flagged);
    r := TaskRests(flagged);
    ReachesOn(s, flagged, r);
  }

  lemma ReachesKeepsInv(s: State, r: State)
    requires Inv(s) && Reaches(s, r)
    ensures Inv(r)
  {
    hide Inv;
    var run :| CanRun(s, run) && Run(s, run) == r;
    RunKeepsInv(s, run);
  }

  lemma LockIsFreed(s: State) returns (r: State)
    requires Inv(s)
    ensures Reaches(s, r) && Inv(r) && r.lock.None? && r.versions == s.versions != []
  {
    if s.lock.Some? {
      assert Critical(PhaseOf(s, s.lock.value));
      r := HolderFinishes(s, s.lock.value);
      ReachesKeepsInv(s, r);
    } else {
      r := s;
      RunReaches(s, []);
    }
  }

  lemma TaskIsIdled(s: State) returns (r: State)
    requires Inv(s) && s.lock.None? && s.versions != []
    ensures Reaches(s, r) && Inv(r) && r.lock.None? && r.versions == s.versions && PhaseOf(r, DEBOUNCE).Idle?
  {
    assert !Critical(PhaseOf(s, DEBOUNCE));
    if PhaseOf(s, DEBOUNCE).Waiting? {
      var steps := Apply(DEBOUNCE, |s.versions[|s.versions| - 1]|);
      ApplyFinishes(s, DEBOUNCE);
      RunReaches(s, steps);
      r := Run(s, steps);
      CompletedInstalls(s, r, DEBOUNCE);
      ReachesKeepsInv(s, r);
    } else {
      r := s;
      RunReaches(s, []);
    }
  }

  lemma TaskRests(s: State) returns (r: State)
    requires s.lock.None? && s.versions != [] && PhaseOf(s, DEBOUNCE).Idle? && s.written == map[]
    ensures Reaches(s, r) && AtRest(r) && r.versions == s.versions
  {
    hide Completed, Apply;
    var files := |s.versions[|s.versions| - 1]|;
    if s.dirty {
      TaskFinishes(s);
      RunReaches(s, [Tick] + Apply(DEBOUNCE, files));
      r := Run(s, [Tick] + Apply(DEBOUNCE, files));
      CompletedInstalls(s.(dirty := false), r, DEBOUNCE);
    } else {
      var t := SomeIdleThread(s);
      RequestFinishes(s, t);
      RunReaches(s, [Request(t)] + Apply(t, files));
      r := Run(s, [Request(t)] + Apply(t, files));
      CompletedInstalls(s, r, t);
    }
  }
}
