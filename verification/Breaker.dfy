/** The circuit breaker (internal/embed/circuit.go) as a state machine over its locked
    steps. Time is a parameter of each step; calls in flight may resolve in any order,
    late, or never (a cancelled call records nothing). */
module Breaker {
  import opened Basics

  datatype Config = Config(threshold: int, cooldown: int) {
    ghost predicate Valid() {
      threshold > 0 && cooldown > 0
    }
  }

  /** newCircuitBreaker: 3 failures and 30 s (in nanoseconds) stand in for missing settings. */
  function Configure(threshold: int, cooldown: int): (c: Config)
    ensures c.Valid()
    ensures (threshold > 0 ==> c.threshold == threshold) && (threshold <= 0 ==> c.threshold == 3)
    ensures (cooldown > 0 ==> c.cooldown == cooldown) && (cooldown <= 0 ==> c.cooldown == 30 * 1000 * 1000 * 1000)
  {
    Config(if threshold <= 0 then 3 else threshold, if cooldown <= 0 then 30_000_000_000 else cooldown)
  }

  /** The zero time, always past, is Never. */
  datatype Deadline = Never | At(time: int)

  datatype State = State(failures: nat, openUntil: Deadline, probing: bool)

  const CLOSED := State(0, Never, false)

  datatype Event = Allow(now: int) | Success(now: int) | Failure(now: int)

  // -------- one step

  predicate Grants(c: Config, s: State, now: int) {
    !(s.openUntil.At? && s.openUntil.time > now) && !(s.failures >= c.threshold && s.probing)
  }

  function Step(c: Config, s: State, e: Event): State {
    match e
    case Allow(now) =>
      if Grants(c, s, now) && s.failures >= c.threshold then s.(probing := true, openUntil := Never) else s
    case Success(_) => CLOSED
    case Failure(now) =>
      State(s.failures + 1, if s.failures + 1 >= c.threshold then At(now + c.cooldown) else s.openUntil, false)
  }

  class CircuitBreaker {
    var failures: nat
    var openUntil: Deadline
    var probing: bool
    const config: Config

    constructor (threshold: int, cooldown: int)
      ensures View() == CLOSED && config == Configure(threshold, cooldown)
    {
      failures, openUntil, probing := 0, Never, false;
      config := Configure(threshold, cooldown);
    }

    ghost function View(): State
      reads this
    {
      State(failures, openUntil, probing)
    }

    method Allow(now: int) returns (ok: bool, remaining: int)
      modifies this
      ensures View() == Step(config, old(View()), Event.Allow(now))
      ensures ok == Grants(config, old(View()), now)
      ensures remaining == if ok then 0
        else if old(openUntil).At? && old(openUntil).time > now then old(openUntil).time - now else config.cooldown
    {
      if openUntil.At? && openUntil.time - now > 0 {
        return false, openUntil.time - now;
      }
      if failures >= config.threshold {
        if probing {
          return false, config.cooldown;
        }
        probing := true;
        openUntil := Never;
      }
      return true, 0;
    }

    method RecordSuccess(ghost now: int)
      modifies this
      ensures View() == Step(config, old(View()), Success(now))
    {
      failures := 0;
      openUntil := Never;
      probing := false;
    }

    method RecordFailure(now: int)
      modifies this
      ensures View() == Step(config, old(View()), Failure(now))
    {
      failures := failures + 1;
      probing := false;
      if failures >= config.threshold {
        openUntil := At(now + config.cooldown);
      }
    }
  }

  // -------- runs: every interleaving of steps, with a clock that never runs back

  ghost predicate Clocked(run: seq<Event>) {
    forall i, j :: 0 <= i < j < |run| ==> run[i].now <= run[j].now
  }

  function Steps(c: Config, s: State, run: seq<Event>): State {
    if run == [] then s else Step(c, Steps(c, s, run[..|run| - 1]), run[|run| - 1])
  }

  ghost function After(c: Config, run: seq<Event>): State {
    Steps(c, CLOSED, run)
  }

  ghost predicate Resolves(e: Event) {
    e.Success? || e.Failure?
  }

  /** Failures since the last success. */
  ghost function FailuresSince(run: seq<Event>): nat {
    if run == [] then 0
    else match run[|run| - 1]
      case Success(_) => 0
      case Failure(_) => FailuresSince(run[..|run| - 1]) + 1
      case Allow(_) => FailuresSince(run[..|run| - 1])
  }

  /** The time of the last failure. */
  ghost function LastFailure(run: seq<Event>): int {
    if run == [] then 0
    else if run[|run| - 1].Failure? then run[|run| - 1].now
    else LastFailure(run[..|run| - 1])
  }

  /** A probe: a call let through while the breaker is at or above its threshold. */
  ghost predicate Probe(c: Config, run: seq<Event>, i: nat)
    requires i < |run|
  {
    run[i].Allow? && Grants(c, After(c, run[..i]), run[i].now) && FailuresSince(run[..i]) >= c.threshold
  }

  /** A probe that no success or failure has followed. */
  ghost predicate Unresolved(c: Config, run: seq<Event>) {
    exists i :: 0 <= i < |run| && Probe(c, run, i) && forall j :: i < j < |run| ==> !Resolves(run[j])
  }

  /** The three fields, read off the run: the count since the last success, the deadline since the
      last failure unless a probe is out, and the probe that is out. */
  ghost predicate Meaning(c: Config, run: seq<Event>, s: State) {
    && s.failures == FailuresSince(run)
    && (s.probing <==> Unresolved(c, run))
    && s.openUntil == if FailuresSince(run) >= c.threshold && !Unresolved(c, run) then At(LastFailure(run) + c.cooldown) else Never
  }

  lemma ProbePrefix(c: Config, run: seq<Event>, i: nat)
    requires i < |run| - 1
    ensures Probe(c, run, i) <==> Probe(c, run[..|run| - 1], i)
  {
    assert run[..|run| - 1][..i] == run[..i];
  }

  lemma UnresolvedStep(c: Config, run: seq<Event>)
    requires run != []
    ensures Unresolved(c, run) <==>
      Probe(c, run, |run| - 1) || (Unresolved(c, run[..|run| - 1]) && !Resolves(run[|run| - 1]))
  {
    var front := run[..|run| - 1];
    if Unresolved(c, run) {
      var i :| 0 <= i < |run| && Probe(c, run, i) && forall j :: i < j < |run| ==> !Resolves(run[j]);
      if i < |front| {
        ProbePrefix(c, run, i);
        assert forall j :: i < j < |front| ==> front[j] == run[j];
        assert Unresolved(c, front) && !Resolves(run[|run| - 1]);
      }
    }
    if Unresolved(c, front) && !Resolves(run[|run| - 1]) {
      var i :| 0 <= i < |front| && Probe(c, front, i) && forall j :: i < j < |front| ==> !Resolves(front[j]);
      ProbePrefix(c, run, i);
      assert forall j :: i < j < |run| ==> !Resolves(run[j]) by {
        forall j | i < j < |run| ensures !Resolves(run[j]) { if j < |front| { assert front[j] == run[j]; } }
      }
    }
  }

  /** In every interleaving the breaker's state means what it should. */
  lemma {:induction false} StateMeaning(c: Config, run: seq<Event>)
    requires c.Valid()
    ensures Meaning(c, run, After(c, run))
    decreases |run|
  {
    if run != [] {
      StateMeaning(c, run[..|run| - 1]);
      UnresolvedStep(c, run);
      hide Unresolved;
    }
  }

  /** Exactly when a call is let through: below the threshold always; otherwise once the cooldown
      since the last failure is over, and only if no probe is still unresolved. */
  lemma GrantedIff(c: Config, run: seq<Event>, now: int)
    requires c.Valid()
    ensures Grants(c, After(c, run), now) <==>
      || FailuresSince(run) < c.threshold
      || (!Unresolved(c, run) && now >= LastFailure(run) + c.cooldown)
  {
    StateMeaning(c, run);
  }

  /** A probe that is cancelled, and so never resolves, closes the breaker to everyone from then on. */
  lemma {:induction false} AbandonedProbeBlocks(c: Config, run: seq<Event>, later: seq<Event>, now: int)
    requires c.Valid() && Unresolved(c, run) && FailuresSince(run) >= c.threshold
    requires forall i :: 0 <= i < |later| ==> later[i].Allow?
    ensures !Grants(c, After(c, run + later), now)
    ensures Unresolved(c, run + later) && FailuresSince(run + later) >= c.threshold
    decreases |later|
  {
    if later == [] {
      assert run + later == run;
    } else {
      var front := later[..|later| - 1];
      AbandonedProbeBlocks(c, run, front, now);
      assert (run + later)[..|run + later| - 1] == run + front;
      UnresolvedStep(c, run + later);
    }
    GrantedIff(c, run + later, now);
  }

  /** One failure, one probe after the cooldown that is cancelled: no later call is let through, at any time. */
  lemma CancelledProbe(now: int)
    ensures
      var c, run := Config(1, 10), [Failure(0), Event.Allow(10)];
      c.Valid() && Clocked(run) && Unresolved(c, run) && !Grants(c, After(c, run), now)
  {
    var c, run := Config(1, 10), [Failure(0), Event.Allow(10)];
    var first := run[..1];
    assert first == [] + [Failure(0)] && run == first + [Event.Allow(10)];
    StepsSnoc(c, CLOSED, [], Failure(0));
    StepsSnoc(c, CLOSED, first, Event.Allow(10));
    assert After(c, first) == State(1, At(10), false);
    assert FailuresSince(first) == FailuresSince(first[..0]) + 1;
    assert Probe(c, run, 1);
  }

  /** Between two probes something resolved. */
  lemma ProbesAreSeparated(c: Config, run: seq<Event>, i: nat, j: nat)
    requires c.Valid() && i < j < |run| && Probe(c, run, i) && Probe(c, run, j)
    ensures exists k :: i < k < j && Resolves(run[k])
  {
    if forall k :: i < k < j ==> !Resolves(run[k]) {
      var before := run[..j];
      assert before[..i] == run[..i] && before[i] == run[i];
      assert Probe(c, before, i) && Unresolved(c, before);
      GrantedIff(c, before, run[j].now);
    }
  }

  lemma {:induction false} LastFailureBound(run: seq<Event>, from: int, k: nat)
    requires Clocked(run) && k < |run| && run[k].Failure? && run[k].now >= from
    ensures LastFailure(run) >= from
    decreases |run|
  {
    if k < |run| - 1 && !run[|run| - 1].Failure? {
      var front := run[..|run| - 1];
      assert Clocked(front) && front[k] == run[k];
      LastFailureBound(front, from, k);
    }
  }

  /** Without a success in between, probes are at least a cooldown apart. */
  lemma ProbesAreSpaced(c: Config, run: seq<Event>, i: nat, j: nat)
    requires c.Valid() && Clocked(run) && i < j < |run| && Probe(c, run, i) && Probe(c, run, j)
    requires forall k :: i < k < j ==> !run[k].Success?
    ensures run[j].now >= run[i].now + c.cooldown
  {
    ProbesAreSeparated(c, run, i, j);
    var k :| i < k < j && Resolves(run[k]);
    var before := run[..j];
    assert before[k] == run[k] && Clocked(before);
    LastFailureBound(before, run[i].now, k);
    GrantedIff(c, before, run[j].now);
  }

  /** A list of probe positions in a stretch of the run without successes. */
  ghost predicate ProbeList(c: Config, run: seq<Event>, ps: seq<nat>) {
    && (forall n :: 0 <= n < |ps| ==> ps[n] < |run| && Probe(c, run, ps[n]))
    && (forall m, n :: 0 <= m < n < |ps| ==> ps[m] < ps[n])
    && (|ps| > 0 ==> forall k :: ps[0] < k < ps[|ps| - 1] ==> !run[k].Success?)
  }

  lemma {:induction false} ProbesTakeTime(c: Config, run: seq<Event>, ps: seq<nat>)
    requires c.Valid() && Clocked(run) && ProbeList(c, run, ps) && |ps| > 0
    ensures (|ps| - 1) * c.cooldown <= run[ps[|ps| - 1]].now - run[ps[0]].now
    decreases |ps|
  {
    if |ps| > 1 {
      var front := ps[..|ps| - 1];
      assert ProbeList(c, run, front);
      ProbesTakeTime(c, run, front);
      ProbesAreSpaced(c, run, ps[|ps| - 2], ps[|ps| - 1]);
      assert (|ps| - 1) * c.cooldown == (|ps| - 2) * c.cooldown + c.cooldown;
    }
  }

  /** While a provider keeps failing, a window of length T sees at most 1 + T / cooldown probes. */
  lemma ProbeRate(c: Config, run: seq<Event>, ps: seq<nat>, window: nat)
    requires c.Valid() && Clocked(run) && ProbeList(c, run, ps) && |ps| > 0
    requires run[ps[|ps| - 1]].now - run[ps[0]].now <= window
    ensures |ps| <= 1 + window / c.cooldown
  {
    ProbesTakeTime(c, run, ps);
    QuotientBound(|ps| - 1, c.cooldown, window);
  }

  // -------- the calls that drive the breaker

  datatype Outcome = Ok | Transient | Fatal

  /** One provider attempt, and whether the caller's context was cancelled by its end. */
  datatype Attempt = Attempt(outcome: Outcome, cancelled: bool)

  datatype CallResult = Done | Cancelled | Failed

  /** How a call ended: every attempt before the last was transient, and neither it nor the wait after it
      cancelled; the last one, or the wait after it, decides. waits[i] says the context was cancelled during backoff i. */
  ghost predicate EndsAs(attempts: seq<Attempt>, waits: seq<bool>, r: CallResult, tries: nat) {
    && |attempts| == |waits| + 1 && 1 <= tries <= |attempts|
    && (forall i :: 0 <= i < tries - 1 ==> attempts[i] == Attempt(Transient, false) && !waits[i])
    && var last := attempts[tries - 1];
       match r
       case Done => last.outcome == Ok
       case Cancelled => last.outcome != Ok && (last.cancelled || (last.outcome == Transient && tries <= |waits| && waits[tries - 1]))
       case Failed => !last.cancelled && (last.outcome == Fatal || (last.outcome == Transient && tries == |attempts|))
  }

  /** retryTransient: the first attempt and one more per backoff. */
  method RetryTransient(attempts: seq<Attempt>, waits: seq<bool>) returns (r: CallResult, tries: nat)
    requires |attempts| == |waits| + 1
    ensures EndsAs(attempts, waits, r, tries)
  {
    tries := 1;
    if attempts[0].outcome == Ok { return Done, tries; }
    if attempts[0].cancelled { return Cancelled, tries; }
    if attempts[0].outcome != Transient { return Failed, tries; }
    for k := 0 to |waits|
      invariant tries == k + 1
      invariant forall i :: 0 <= i <= k ==> attempts[i] == Attempt(Transient, false)
      invariant forall i :: 0 <= i < k ==> !waits[i]
    {
      if waits[k] { return Cancelled, tries; }
      tries := tries + 1;
      var attempt := attempts[k + 1];
      if attempt.outcome == Ok { return Done, tries; }
      if attempt.cancelled { return Cancelled, tries; }
      if attempt.outcome != Transient { return Failed, tries; }
    }
    return Failed, tries;
  }

  /** What other calls do to the breaker while this one waits for its provider. */
  method Elsewhere(cb: CircuitBreaker, others: seq<Event>)
    modifies cb
    ensures cb.View() == Steps(cb.config, old(cb.View()), others)
  {
    assert others[..0] == [];
    for i := 0 to |others|
      invariant cb.View() == Steps(cb.config, old(cb.View()), others[..i])
    {
      assert others[..i + 1][..i] == others[..i];
      match others[i]
      case Allow(now) => var _, _ := cb.Allow(now);
      case Success(now) => cb.RecordSuccess(now);
      case Failure(now) => cb.RecordFailure(now);
    }
    assert others[..|others|] == others;
  }

  /** The steps one call of circuitEmbedder.Embed contributes: its request and, unless refused or cancelled, one
      resolution, with those of other calls in between. */
  function CallEvents(granted: bool, r: CallResult, now: int, others: seq<Event>, later: int): seq<Event> {
    var resolution := match r case Cancelled => [] case Done => [Success(later)] case Failed => [Failure(later)];
    [Event.Allow(now)] + if granted then others + resolution else []
  }

  method Embed(cb: CircuitBreaker, now: int, later: int, attempts: seq<Attempt>, waits: seq<bool>, others: seq<Event>)
    returns (granted: bool, r: CallResult, tries: nat)
    requires |attempts| == |waits| + 1
    modifies cb
    ensures granted == Grants(cb.config, old(cb.View()), now)
    // A refused call leaves the breaker alone and is not attempted.
    ensures !granted ==> cb.View() == old(cb.View()) && tries == 0
    // Otherwise success closes the breaker, failure counts once and ends the probe, and cancellation records nothing.
    ensures granted ==> EndsAs(attempts, waits, r, tries)
    ensures granted && r.Done? ==> cb.failures == 0 && !cb.probing && cb.openUntil.Never?
    ensures granted ==>
      var before := Steps(cb.config, Step(cb.config, old(cb.View()), Event.Allow(now)), others);
      && (r.Failed? ==> cb.failures == before.failures + 1 && !cb.probing)
      && (r.Cancelled? ==> cb.View() == before)
    ensures cb.View() == Steps(cb.config, old(cb.View()), CallEvents(granted, r, now, others, later))
  {
    ghost var s, c := cb.View(), cb.config;
    var ok, _ := cb.Allow(now);
    granted := ok;
    r, tries := Cancelled, 0;
    StepsSnoc(c, s, [], Event.Allow(now));
    assert [] + [Event.Allow(now)] == [Event.Allow(now)];
    if !ok {
      assert [Event.Allow(now)] + [] == [Event.Allow(now)];
      return;
    }
    r, tries := RetryTransient(attempts, waits);
    Elsewhere(cb, others);
    StepsConcat(c, s, [Event.Allow(now)], others);
    ghost var sofar := [Event.Allow(now)] + others;
    if r == Done {
      cb.RecordSuccess(later);
      StepsSnoc(c, s, sofar, Success(later));
      assert sofar + [Success(later)] == CallEvents(true, r, now, others, later);
    } else if r != Cancelled {
      cb.RecordFailure(later);
      StepsSnoc(c, s, sofar, Failure(later));
      assert sofar + [Failure(later)] == CallEvents(true, r, now, others, later);
    } else {
      assert sofar == CallEvents(true, r, now, others, later);
    }
  }

  lemma StepsSnoc(c: Config, s: State, run: seq<Event>, e: Event)
    ensures Steps(c, s, run + [e]) == Step(c, Steps(c, s, run), e)
  {
    assert (run + [e])[..|run|] == run;
  }

  lemma {:induction false} StepsConcat(c: Config, s: State, a: seq<Event>, b: seq<Event>)
    ensures Steps(c, s, a + b) == Steps(c, Steps(c, s, a), b)
    decreases |b|
  {
    if b == [] {
      assert a + b == a;
    } else {
      StepsConcat(c, s, a, b[..|b| - 1]);
      assert (a + b)[..|a + b| - 1] == a + b[..|b| - 1];
    }
  }
}
