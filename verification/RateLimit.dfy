/**
 The login rate limiter: for each address a 32-bit attempt counter and the instant its window began.
 Instants are nanoseconds on a clock that does not run backwards.
 */
module RateLimit {
  import opened Basics

  const SECOND := 1_000_000_000
  const WINDOW_SECS := 60
  const MAX_ATTEMPTS := 5

  datatype Entry = Entry(count: nat, start: nat)

  datatype Verdict = Admitted | RetryAfter(secs: nat)

  /** Whole seconds between two instants, 0 if they are out of order. */
  function Secs(now: nat, start: nat): nat { if now >= start then (now - start) / SECOND else 0 }

  /** The entry after an attempt. */
  function Bumped(e: Entry, now: nat): Entry {
    var f := if Secs(now, e.start) >= WINDOW_SECS then Entry(0, now) else e;
    f.(count := (f.count + 1) % U32)
  }

  function Answer(e: Entry, now: nat): Verdict {
    if e.count > MAX_ATTEMPTS
    then RetryAfter(if Secs(now, e.start) <= WINDOW_SECS then WINDOW_SECS - Secs(now, e.start) else 0)
    else Admitted
  }

  type Attempts = map<string, Entry>

  function EntryFor(attempts: Attempts, ip: string, now: nat): Entry {
    if ip in attempts then attempts[ip] else Entry(0, now)
  }

  function Checked(attempts: Attempts, ip: string, now: nat): Attempts {
    attempts[ip := Bumped(EntryFor(attempts, ip, now), now)]
  }

  class LoginRateLimiter {
    var attempts: Attempts

    constructor ()
      ensures attempts == map[]
    {
      attempts := map[];
    }

    method Check(ip: string, now: nat) returns (r: Verdict)
      modifies this
      ensures attempts == Checked(old(attempts), ip, now) && r == Answer(attempts[ip], now)
    {
      var entry := if ip in attempts then attempts[ip] else Entry(0, now);
      if Secs(now, entry.start) >= WINDOW_SECS {
        entry := Entry(0, now);
      }
      entry := entry.(count := (entry.count + 1) % U32);
      attempts := attempts[ip := entry];
      if entry.count > MAX_ATTEMPTS {
        var elapsed := Secs(now, entry.start);
        r := RetryAfter(if elapsed <= WINDOW_SECS then WINDOW_SECS - elapsed else 0);
      } else {
        r := Admitted;
      }
    }
  }

  // ---- Addresses do not influence each other

  datatype Attempt = Attempt(ip: string, at: nat)

  function AttemptsAfter(run: seq<Attempt>): Attempts {
    if run == [] then map[]
    else Checked(AttemptsAfter(run[..|run| - 1]), run[|run| - 1].ip, run[|run| - 1].at)
  }

  /** The instants of one address's attempts. */
  function TimesOf(run: seq<Attempt>, ip: string): seq<nat> {
    if run == [] then []
    else
      TimesOf(run[..|run| - 1], ip) + if run[|run| - 1].ip == ip then [run[|run| - 1].at] else []
  }

  /** The entry of an address that has made attempts at these instants. */
  function After(ts: seq<nat>): Entry {
    if ts == [] then Entry(0, 0)
    else
      var front, now := ts[..|ts| - 1], ts[|ts| - 1];
      Bumped(if front == [] then Entry(0, now) else After(front), now)
  }

  lemma {:induction false} AddressesAreIndependent(run: seq<Attempt>, ip: string)
    ensures ip in AttemptsAfter(run) <==> TimesOf(run, ip) != []
    ensures ip in AttemptsAfter(run) ==> AttemptsAfter(run)[ip] == After(TimesOf(run, ip))
  {
    if run != [] {
      var front, a := run[..|run| - 1], run[|run| - 1];
      AddressesAreIndependent(front, ip);
      if a.ip == ip {
        var ts := TimesOf(front, ip);
        assert (ts + [a.at])[..|ts|] == ts;
      } else {
        assert TimesOf(run, ip) == TimesOf(front, ip);
      }
    }
  }

  // ---- Windows, counted without bound

  predicate Ordered(ts: seq<nat>) { forall i, j :: 0 <= i < j < |ts| ==> ts[i] <= ts[j] }

  /** The current window: when it began and how many attempts it has seen. */
  function Window(ts: seq<nat>): Entry {
    if ts == [] then Entry(0, 0)
    else
      var front, now := ts[..|ts| - 1], ts[|ts| - 1];
      var w := Window(front);
      if front == [] || Secs(now, w.start) >= WINDOW_SECS then Entry(1, now) else Entry(w.count + 1, w.start)
  }

  lemma {:induction false} WindowBegan(ts: seq<nat>)
    requires Ordered(ts) && ts != []
    ensures Window(ts).start <= ts[|ts| - 1] && 1 <= Window(ts).count <= |ts|
  {
    var front := ts[..|ts| - 1];
    if front != [] {
      WindowBegan(front);
    }
  }

  /** The stored counter is the window's count modulo 2^32; the stored start is the window's start. */
  lemma {:induction false} EntryIsWindow(ts: seq<nat>)
    requires Ordered(ts)
    ensures After(ts).count == Window(ts).count % 4294967296 && After(ts).start == Window(ts).start
  {
    hide Secs;
    if ts != [] {
      EntryIsWindow(ts[..|ts| - 1]);
      NextCount(Window(ts[..|ts| - 1]).count);
    }
  }

  lemma NextCount(n: nat)
    ensures (n % U32 + 1) % U32 == (n + 1) % U32
  {
  }

  function Decision(ts: seq<nat>): Verdict
    requires ts != []
  {
    Answer(After(ts), ts[|ts| - 1])
  }

  /** Which attempts are admitted, told by the window alone. */
  lemma AdmittedExactly(ts: seq<nat>)
    requires Ordered(ts) && ts != []
    ensures Decision(ts).Admitted? <==> Window(ts).count % 4294967296 <= 5
  {
    EntryIsWindow(ts);
  }

  // ---- Sliding bound

  /** No window ever counts 2^32 attempts. */
  predicate NeverWraps(ts: seq<nat>) { ts == [] || (NeverWraps(ts[..|ts| - 1]) && Window(ts).count < U32) }

  datatype Grant = Grant(window: nat, at: nat)

  /** The admitted attempts, each with the start of its window. */
  function Grants(ts: seq<nat>): seq<Grant> {
    if ts == [] then []
    else
      Grants(ts[..|ts| - 1])
      + if Decision(ts).Admitted? then [Grant(Window(ts).start, ts[|ts| - 1])] else []
  }

  predicate Spaced(a: Grant, start: nat) { a.at <= start && a.window + WINDOW_SECS * SECOND <= start }

  /** Grants five apart lie in different windows, at least sixty seconds apart. */
  predicate FiveApart(gs: seq<Grant>) {
    forall i :: 0 <= i < |gs| - MAX_ATTEMPTS ==> Spaced(gs[i], gs[i + MAX_ATTEMPTS].window)
  }

  /** The last `recent` grants fall into the current window; grants five apart fall into different windows. */
  predicate WellSpaced(gs: seq<Grant>, w: Entry, now: nat) {
    var recent := Min(w.count, MAX_ATTEMPTS);
    && recent <= |gs|
    && (forall i :: 0 <= i < |gs| ==> gs[i].window <= gs[i].at <= now && gs[i].window <= w.start)
    && (forall i :: |gs| - recent <= i < |gs| ==> gs[i].window == w.start)
    && (forall i :: 0 <= i < |gs| - recent ==> Spaced(gs[i], w.start))
    && FiveApart(gs)
  }

  lemma NewWindow(gs: seq<Grant>, w: Entry, before: nat, now: nat)
    requires WellSpaced(gs, w, before) && before <= now && Secs(now, w.start) >= WINDOW_SECS
    ensures WellSpaced(gs + [Grant(now, now)], Entry(1, now), now)
  {
  }

  lemma SameWindow(gs: seq<Grant>, w: Entry, before: nat, now: nat)
    requires WellSpaced(gs, w, before) && before <= now && w.start <= before
    ensures w.count < MAX_ATTEMPTS ==> WellSpaced(gs + [Grant(w.start, now)], Entry(w.count + 1, w.start), now)
    ensures w.count >= MAX_ATTEMPTS ==> WellSpaced(gs, Entry(w.count + 1, w.start), now)
  {
  }

  lemma {:induction false} GrantsAreSpaced(ts: seq<nat>)
    requires Ordered(ts) && ts != [] && NeverWraps(ts)
    ensures WellSpaced(Grants(ts), Window(ts), ts[|ts| - 1])
  {
    hide WellSpaced, Decision;
    var front, now := ts[..|ts| - 1], ts[|ts| - 1];
    AdmittedExactly(ts);
    if front == [] {
      assert Grants(front) == [];
      FirstGrant(now);
    } else {
      GrantsAreSpaced(front);
      WindowBegan(front);
      var w, gs := Window(front), Grants(front);
      if Secs(now, w.start) >= WINDOW_SECS {
        NewWindow(gs, w, front[|front| - 1], now);
      } else {
        SameWindow(gs, w, front[|front| - 1], now);
        assert gs + [] == gs;
      }
    }
  }

  lemma FirstGrant(now: nat)
    ensures WellSpaced([] + [Grant(now, now)], Entry(1, now), now)
  {
  }

  /** Grants are spaced like that if and only if no window counts 2^32 attempts. */
  lemma SpacedExactly(ts: seq<nat>)
    requires Ordered(ts)
    ensures FiveApart(Grants(ts)) <==> NeverWraps(ts)
  {
    hide NeverWraps, FiveApart, WellSpaced, Grants;
    if !NeverWraps(ts) {
      var n := FirstWrap(ts);
      assert ts[..n][..n - 1] == ts[..n - 1];
      WrapBreaksSpacing(ts[..n]);
      GrantsGrow(ts, n);
      FewerGrants(Grants(ts[..n]), Grants(ts));
    } else {
      NoWrapKeepsSpacing(ts);
    }
  }

  lemma NoWrapKeepsSpacing(ts: seq<nat>)
    requires Ordered(ts) && NeverWraps(ts)
    ensures FiveApart(Grants(ts))
  {
    hide NeverWraps, FiveApart, Window;
    if ts == [] {
      FewestGrants();
    } else {
      GrantsAreSpaced(ts);
    }
  }

  lemma FewestGrants()
    ensures FiveApart([])
  {
  }

  lemma FewerGrants(a: seq<Grant>, b: seq<Grant>)
    requires a <= b && !FiveApart(a)
    ensures !FiveApart(b)
  {
    var i :| 0 <= i < |a| - MAX_ATTEMPTS && !Spaced(a[i], a[i + MAX_ATTEMPTS].window);
    assert a[i] == b[i] && a[i + MAX_ATTEMPTS] == b[i + MAX_ATTEMPTS];
  }

  lemma WindowGrows(ts: seq<nat>)
    requires ts != []
    ensures Window(ts).count <= Window(ts[..|ts| - 1]).count + 1
  {
    hide Secs;
  }

  /** The counter of a window goes up by ones, so it comes to 2^32 before it goes beyond. */
  lemma {:induction false} FirstWrap(ts: seq<nat>) returns (n: nat)
    requires !NeverWraps(ts)
    ensures 0 < n <= |ts| && NeverWraps(ts[..n - 1]) && Window(ts[..n]).count == U32
  {
    hide Window;
    var front := ts[..|ts| - 1];
    if NeverWraps(front) {
      n := |ts|;
      assert ts[..n] == ts;
      WindowGrows(ts);
      assert front == [] || Window(front).count < U32;
      NoWindow();
    } else {
      n := FirstWrap(front);
      assert front[..n] == ts[..n] && front[..n - 1] == ts[..n - 1];
    }
  }

  lemma NoWindow()
    ensures Window([]).count == 0
  {
  }

  lemma {:induction false} GrantsGrow(ts: seq<nat>, n: nat)
    requires n <= |ts|
    ensures Grants(ts[..n]) <= Grants(ts)
  {
    if n == |ts| {
      assert ts[..n] == ts;
    } else {
      GrantsGrow(ts[..|ts| - 1], n);
      assert ts[..|ts| - 1][..n] == ts[..n];
    }
  }

  /** The attempt that wraps the counter is granted in the window of the five grants before it. */
  lemma WrapBreaksSpacing(ts: seq<nat>)
    requires Ordered(ts) && ts != [] && NeverWraps(ts[..|ts| - 1]) && Window(ts).count == U32
    ensures !FiveApart(Grants(ts))
  {
    var front := ts[..|ts| - 1];
    AdmittedExactly(ts);
    GrantsAreSpaced(front);
    var gs := Grants(ts);
    assert gs == Grants(front) + [Grant(Window(front).start, ts[|ts| - 1])];
    assert !Spaced(gs[|gs| - 1 - MAX_ATTEMPTS], gs[|gs| - 1].window);
  }

  /** At most ten attempts of an address are admitted within any sixty seconds. */
  lemma SlidingBound(ts: seq<nat>, i: nat)
    requires Ordered(ts) && NeverWraps(ts) && i + 10 < |Grants(ts)|
    ensures Grants(ts)[i + 10].at - Grants(ts)[i].at >= 60_000_000_000
  {
    GrantsAreSpaced(ts);
    var gs := Grants(ts);
    assert Spaced(gs[i], gs[i + MAX_ATTEMPTS].window);
    assert Spaced(gs[i + MAX_ATTEMPTS], gs[i + 2 * MAX_ATTEMPTS].window);
  }

  /** The admitted ones among this many attempts at one instant. */
  function Flooded(attempts: nat): nat {
    Min(attempts, MAX_ATTEMPTS) + if attempts < U32 then 0 else attempts - U32 + 1
  }

  /** Without the counter bound the limit fails: of 2^32 + 5 attempts at one instant, eleven are admitted. */
  lemma FloodIsAdmittedAgain(ts: seq<nat>)
    requires |ts| == 4294967301 && forall i :: 0 <= i < |ts| ==> ts[i] == ts[0]
    ensures var gs := Grants(ts);
            |gs| == 11 && gs[10].at - gs[0].at == 0
  {
    FloodGrants(ts);
  }

  lemma {:induction false} FloodGrants(ts: seq<nat>)
    requires 0 < |ts| <= U32 + MAX_ATTEMPTS && forall i :: 0 <= i < |ts| ==> ts[i] == ts[0]
    ensures Window(ts) == Entry(|ts|, ts[0]) && |Grants(ts)| == Flooded(|ts|)
    ensures forall i :: 0 <= i < |Grants(ts)| ==> Grants(ts)[i].at == ts[0]
  {
    hide Decision, Flooded;
    var front := ts[..|ts| - 1];
    if front != [] {
      assert front[0] == ts[0];
      FloodGrants(front);
    }
    AdmittedExactly(ts);
    OneMoreAttempt(|front|);
  }

  lemma OneMoreAttempt(attempts: nat)
    requires attempts < U32 + MAX_ATTEMPTS
    ensures Flooded(0) == 0
    ensures Flooded(attempts + 1) == Flooded(attempts) + if (attempts + 1) % U32 <= MAX_ATTEMPTS then 1 else 0
  {
  }

  // ---- The advice given to a rejected caller

  /** An address that waits `secs` seconds after a rejection and then tries once more. */
  function Retried(ts: seq<nat>, secs: nat): seq<nat>
    requires ts != []
  {
    ts + [ts[|ts| - 1] + secs * SECOND]
  }

  /** The advice is the least number of whole seconds after which a retry is admitted. */
  ghost predicate AdviceIsLeast(ts: seq<nat>)
    requires ts != [] && Decision(ts).RetryAfter?
  {
    forall secs: nat :: Decision(Retried(ts, secs)).Admitted? <==> secs >= Decision(ts).secs
  }

  /**
   `retry_after` lies between 1 and 60, and it is the least number of whole seconds that is worth waiting if
   and only if the next attempt would not wrap the counter.
   */
  lemma RetryAfterIsExact(ts: seq<nat>)
    requires Ordered(ts) && ts != [] && Decision(ts).RetryAfter?
    ensures 1 <= Decision(ts).secs <= 60
    ensures AdviceIsLeast(ts) <==> (Window(ts).count + 1) % 4294967296 > 5
  {
    hide Decision, Window;
    forall secs: nat
      ensures Decision(Retried(ts, secs)).Admitted?
              <==> secs >= Decision(ts).secs || (Window(ts).count + 1) % U32 <= MAX_ATTEMPTS
    {
      RetryAdmittedExactly(ts, secs);
    }
    AdviceIsInRange(ts);
    if (Window(ts).count + 1) % U32 <= MAX_ATTEMPTS {
      assert Decision(Retried(ts, 0)).Admitted?;
    }
  }

  lemma AdviceIsInRange(ts: seq<nat>)
    requires Ordered(ts) && ts != [] && Decision(ts).RetryAfter?
    ensures 1 <= Decision(ts).secs <= WINDOW_SECS
    ensures Decision(ts).secs == WINDOW_SECS - Secs(ts[|ts| - 1], Window(ts).start)
  {
    hide After, Window, Bumped;
    EntryIsWindow(ts);
    RejectedInWindow(ts);
  }

  /** When a retry is admitted: after the advised time, or whenever it wraps the counter. */
  lemma RetryAdmittedExactly(ts: seq<nat>, secs: nat)
    requires Ordered(ts) && ts != [] && Decision(ts).RetryAfter?
    ensures Decision(Retried(ts, secs)).Admitted?
            <==> secs >= Decision(ts).secs || (Window(ts).count + 1) % U32 <= MAX_ATTEMPTS
  {
    hide Decision, Window;
    var now, w := ts[|ts| - 1], Window(ts);
    AdviceIsInRange(ts);
    WindowBegan(ts);
    SecsLater(now, w.start, secs);
    NextWindow(ts, now + secs * SECOND);
    AdmittedExactly(Retried(ts, secs));
  }

  lemma NextWindow(ts: seq<nat>, now: nat)
    requires ts != []
    ensures Window(ts + [now])
         == if Secs(now, Window(ts).start) >= WINDOW_SECS then Entry(1, now)
            else Entry(Window(ts).count + 1, Window(ts).start)
  {
  }

  /** A new window always admits, so a rejection happens within the first sixty seconds of one. */
  lemma RejectedInWindow(ts: seq<nat>)
    requires Ordered(ts) && ts != [] && Decision(ts).RetryAfter?
    ensures Secs(ts[|ts| - 1], Window(ts).start) < WINDOW_SECS
  {
  }

  lemma SecsLater(now: nat, start: nat, secs: nat)
    requires start <= now
    ensures Secs(now + secs * SECOND, start) == Secs(now, start) + secs
  {
  }

  // ---- In nanoseconds

  /** An attempt begins a new window exactly if the last one began at least sixty seconds before. */
  lemma WindowRestartsExactly(ts: seq<nat>, now: nat)
    ensures Window([now]) == Entry(1, now)
    ensures ts != [] ==>
              Window(ts + [now])
              == if now - Window(ts).start >= 60_000_000_000 then Entry(1, now)
                 else Entry(Window(ts).count + 1, Window(ts).start)
  {
    if ts != [] {
      NextWindow(ts, now);
    }
  }

  /** The advice is the rest of the sixty seconds, in whole seconds, rounded up. */
  lemma AdviceExactly(ts: seq<nat>)
    requires Ordered(ts) && ts != [] && Decision(ts).RetryAfter?
    ensures var waited, advice := ts[|ts| - 1] - Window(ts).start, Decision(ts).secs * 1_000_000_000;
            60_000_000_000 - waited <= advice < 61_000_000_000 - waited
  {
    hide After, Window, Bumped, Decision;
    AdviceIsInRange(ts);
    WindowBegan(ts);
  }
}
