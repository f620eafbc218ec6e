/** The three states both circuit breakers move between. */
module CircuitStates {
  datatype CircuitState = Closed | Open | HalfOpen
}

/** The circuit breaker of the HTTP resilience client: HALF_OPEN admits a bounded number of probes. */
module HttpBreaker {
  import opened CircuitStates

  datatype Config = Config(failureThreshold: nat, recoveryTimeout: real,
                           halfOpenMaxCalls: nat, halfOpenSuccessThreshold: nat)
  {
    predicate Valid() {
      failureThreshold >= 1 && recoveryTimeout > 0.0 && halfOpenMaxCalls >= 1 && halfOpenSuccessThreshold >= 1
    }
  }

  datatype Breaker = Breaker(state: CircuitState, consecutiveFailures: nat, lastStateChange: real,
                             halfOpenCalls: nat, halfOpenSuccesses: nat)

  function Fresh(now: real): Breaker {
    Breaker(Closed, 0, now, 0, 0)
  }

  function TransitionedTo(state: CircuitState, now: real): Breaker {
    Breaker(state, 0, now, 0, 0)
  }

  function Updated(cfg: Config, b: Breaker, now: real): Breaker {
    if b.state == Open && now - b.lastStateChange >= cfg.recoveryTimeout then TransitionedTo(HalfOpen, now) else b
  }

  /** The breaker after before_call, and whether the call is admitted. */
  function Admission(cfg: Config, b: Breaker, now: real): (Breaker, bool) {
    var u := Updated(cfg, b, now);
    match u.state
    case Closed => (u, true)
    case Open => (u, false)
    case HalfOpen =>
      if u.halfOpenCalls >= cfg.halfOpenMaxCalls then (u, false)
      else (u.(halfOpenCalls := u.halfOpenCalls + 1), true)
  }

  /** The effect of an outcome once the timeout has been checked. */
  function WithOutcome(cfg: Config, b: Breaker, now: real, success: bool): Breaker {
    match b.state
    case Open => b
    case Closed =>
      if success then b.(consecutiveFailures := 0)
      else if b.consecutiveFailures + 1 >= cfg.failureThreshold then TransitionedTo(Open, now)
      else b.(consecutiveFailures := b.consecutiveFailures + 1)
    case HalfOpen =>
      if !success then TransitionedTo(Open, now)
      else if b.halfOpenSuccesses + 1 >= cfg.halfOpenSuccessThreshold then TransitionedTo(Closed, now)
      else b.(halfOpenSuccesses := b.halfOpenSuccesses + 1)
  }

  /** The breaker after after_call, which reads the clock for the timeout and again for the transition. */
  function Recorded(cfg: Config, b: Breaker, checkedAt: real, now: real, success: bool): Breaker {
    WithOutcome(cfg, Updated(cfg, b, checkedAt), now, success)
  }

  class CircuitBreaker {
    const config: Config
    var state: CircuitState
    var consecutiveFailures: nat
    var lastStateChange: real
    var halfOpenCalls: nat
    var halfOpenSuccesses: nat

    function View(): Breaker
      reads this
    {
      Breaker(state, consecutiveFailures, lastStateChange, halfOpenCalls, halfOpenSuccesses)
    }

    constructor (config: Config, now: real)
      requires config.Valid()
      ensures this.config == config && View() == Fresh(now)
    {
      this.config := config;
      state, consecutiveFailures, lastStateChange, halfOpenCalls, halfOpenSuccesses := Closed, 0, now, 0, 0;
    }

    method TransitionTo(newState: CircuitState, now: real)
      modifies this
      ensures View() == TransitionedTo(newState, now)
    {
      state := newState;
      lastStateChange := now;
      consecutiveFailures, halfOpenCalls, halfOpenSuccesses := 0, 0, 0;
    }

    method UpdateStateIfNeeded(now: real)
      modifies this
      ensures View() == Updated(config, old(View()), now)
    {
      if state == Open {
        if now - lastStateChange >= config.recoveryTimeout {
          TransitionTo(HalfOpen, now);
        }
      }
    }

    method ReadState(now: real) returns (seen: CircuitState)
      modifies this
      ensures View() == Updated(config, old(View()), now) && seen == state
    {
      UpdateStateIfNeeded(now);
      seen := state;
    }

    /** Raises a circuit-open error exactly when admitted is false. */
    method BeforeCall(now: real) returns (admitted: bool)
      modifies this
      ensures (View(), admitted) == Admission(config, old(View()), now)
    {
      UpdateStateIfNeeded(now);
      if state == Open {
        return false;
      }
      if state == HalfOpen {
        if halfOpenCalls >= config.halfOpenMaxCalls {
          return false;
        }
        halfOpenCalls := halfOpenCalls + 1;
      }
      admitted := true;
    }

    method AfterCall(checkedAt: real, now: real, success: bool)
      modifies this
      ensures View() == Recorded(config, old(View()), checkedAt, now, success)
    {
      UpdateStateIfNeeded(checkedAt);
      if success {
        if state == Closed {
          consecutiveFailures := 0;
        } else if state == HalfOpen {
          halfOpenSuccesses := halfOpenSuccesses + 1;
          if halfOpenSuccesses >= config.halfOpenSuccessThreshold {
            TransitionTo(Closed, now);
          }
        }
      } else {
        if state == Closed {
          consecutiveFailures := consecutiveFailures + 1;
          if consecutiveFailures >= config.failureThreshold {
            TransitionTo(Open, now);
          }
        } else if state == HalfOpen {
          TransitionTo(Open, now);
        }
      }
    }
  }
}

/** The general-purpose circuit breaker: HALF_OPEN does not limit calls, and outcomes are recorded
    without first checking the timeout. */
module SimpleBreaker {
  import opened CircuitStates

  datatype Config = Config(failureThreshold: nat, recoveryTimeout: real, successThreshold: nat)

  datatype Breaker = Breaker(state: CircuitState, failureCount: nat, successCount: nat, openedAt: real)

  const FRESH := Breaker(Closed, 0, 0, 0.0)

  function MaybeHalfOpen(cfg: Config, b: Breaker, now: real): Breaker {
    if b.state == Open && now - b.openedAt >= cfg.recoveryTimeout then b.(state := HalfOpen, successCount := 0) else b
  }

  function Admission(cfg: Config, b: Breaker, now: real): (Breaker, bool) {
    var u := MaybeHalfOpen(cfg, b, now);
    (u, u.state != Open)
  }

  function Succeeded(cfg: Config, b: Breaker): Breaker {
    if b.state == HalfOpen then
      if b.successCount + 1 >= cfg.successThreshold then b.(state := Closed, failureCount := 0, successCount := 0)
      else b.(successCount := b.successCount + 1)
    else b.(failureCount := 0)
  }

  function Failed(cfg: Config, b: Breaker, now: real): Breaker {
    var failures := b.failureCount + 1;
    if b.state == HalfOpen then Breaker(Open, failures, 0, now)
    else if failures >= cfg.failureThreshold then b.(state := Open, failureCount := failures, openedAt := now)
    else b.(failureCount := failures)
  }

  class CircuitBreaker {
    const config: Config
    var state: CircuitState
    var failureCount: nat
    var successCount: nat
    var openedAt: real

    function View(): Breaker
      reads this
    {
      Breaker(state, failureCount, successCount, openedAt)
    }

    constructor (config: Config)
      ensures this.config == config && View() == FRESH
    {
      this.config := config;
      state, failureCount, successCount, openedAt := Closed, 0, 0, 0.0;
    }

    method MaybeTransitionToHalfOpen(now: real)
      modifies this
      ensures View() == MaybeHalfOpen(config, old(View()), now)
    {
      if state == Open && now - openedAt >= config.recoveryTimeout {
        state := HalfOpen;
        successCount := 0;
      }
    }

    method BeforeCall(now: real) returns (admitted: bool)
      modifies this
      ensures (View(), admitted) == Admission(config, old(View()), now)
    {
      MaybeTransitionToHalfOpen(now);
      admitted := state != Open;
    }

    method OnSuccess()
      modifies this
      ensures View() == Succeeded(config, old(View()))
    {
      if state == HalfOpen {
        successCount := successCount + 1;
        if successCount >= config.successThreshold {
          state, failureCount, successCount := Closed, 0, 0;
        }
      } else {
        failureCount := 0;
      }
    }

    method OnFailure(now: real)
      modifies this
      ensures View() == Failed(config, old(View()), now)
    {
      failureCount := failureCount + 1;
      if state == HalfOpen {
        state, openedAt, successCount := Open, now, 0;
      } else if failureCount >= config.failureThreshold {
        state, openedAt := Open, now;
      }
    }

    method Reset()
      modifies this
      ensures View() == FRESH.(openedAt := old(openedAt))
    {
      state, failureCount, successCount := Closed, 0, 0;
    }
  }
}

/** Under sequential calls the two breakers are indistinguishable exactly when the number of successes
    that closes the circuit does not exceed the number of probes the HTTP breaker admits. */
module BreakerEquivalence {
  import opened CircuitStates
  import H = HttpBreaker
  import S = SimpleBreaker

  /** A call runs to completion before the next operation begins; checkedAt is the extra clock read
      of the HTTP breaker's after_call. */
  datatype Op =
    | Call(beforeAt: real, checkedAt: real, afterAt: real, success: bool)
    | ReadState(at: real)

  datatype Observation = Observation(admitted: bool, state: CircuitState)

  function SimpleConfig(cfg: H.Config): S.Config {
    S.Config(cfg.failureThreshold, cfg.recoveryTimeout, cfg.halfOpenSuccessThreshold)
  }

  function HttpStep(cfg: H.Config, b: H.Breaker, op: Op): (H.Breaker, Observation) {
    match op
    case ReadState(at) =>
      var u := H.Updated(cfg, b, at);
      (u, Observation(false, u.state))
    case Call(beforeAt, checkedAt, afterAt, success) =>
      var (u, admitted) := H.Admission(cfg, b, beforeAt);
      var b' := if admitted then H.Recorded(cfg, u, checkedAt, afterAt, success) else u;
      (b', Observation(admitted, b'.state))
  }

  function SimpleStep(cfg: S.Config, b: S.Breaker, op: Op): (S.Breaker, Observation) {
    match op
    case ReadState(at) =>
      var u := S.MaybeHalfOpen(cfg, b, at);
      (u, Observation(false, u.state))
    case Call(beforeAt, _, afterAt, success) =>
      var (u, admitted) := S.Admission(cfg, b, beforeAt);
      var b' := if !admitted then u else if success then S.Succeeded(cfg, u) else S.Failed(cfg, u, afterAt);
      (b', Observation(admitted, b'.state))
  }

  function HttpRun(cfg: H.Config, b: H.Breaker, ops: seq<Op>): (r: (H.Breaker, seq<Observation>))
    ensures |r.1| == |ops|
    decreases |ops|
  {
    if ops == [] then (b, []) else
    var (b1, o) := HttpStep(cfg, b, ops[0]);
    var (b2, os) := HttpRun(cfg, b1, ops[1..]);
    (b2, [o] + os)
  }

  function SimpleRun(cfg: S.Config, b: S.Breaker, ops: seq<Op>): (r: (S.Breaker, seq<Observation>))
    ensures |r.1| == |ops|
    decreases |ops|
  {
    if ops == [] then (b, []) else
    var (b1, o) := SimpleStep(cfg, b, ops[0]);
    var (b2, os) := SimpleRun(cfg, b1, ops[1..]);
    (b2, [o] + os)
  }

  /** What relates the two between calls: the failure counters agree only while CLOSED. */
  ghost predicate Related(cfg: H.Config, h: H.Breaker, s: S.Breaker) {
    && h.state == s.state
    && match h.state
       case Closed => h.consecutiveFailures == s.failureCount < cfg.failureThreshold && s.successCount == 0
       case Open => h.lastStateChange == s.openedAt
       case HalfOpen => h.halfOpenCalls == h.halfOpenSuccesses == s.successCount < cfg.halfOpenSuccessThreshold
  }

  lemma StepPreservesRelation(cfg: H.Config, h: H.Breaker, s: S.Breaker, op: Op)
    requires cfg.Valid() && cfg.halfOpenSuccessThreshold <= cfg.halfOpenMaxCalls
    requires Related(cfg, h, s)
    ensures
      var (h', ho) := HttpStep(cfg, h, op);
      var (s', so) := SimpleStep(SimpleConfig(cfg), s, op);
      Related(cfg, h', s') && ho == so
  {
  }

  lemma {:induction false} RelatedRunsAgree(cfg: H.Config, h: H.Breaker, s: S.Breaker, ops: seq<Op>)
    requires cfg.Valid() && cfg.halfOpenSuccessThreshold <= cfg.halfOpenMaxCalls
    requires Related(cfg, h, s)
    ensures HttpRun(cfg, h, ops).1 == SimpleRun(SimpleConfig(cfg), s, ops).1
    decreases |ops|
  {
    if ops != [] {
      StepPreservesRelation(cfg, h, s, ops[0]);
      RelatedRunsAgree(cfg, HttpStep(cfg, h, ops[0]).0, SimpleStep(SimpleConfig(cfg), s, ops[0]).0, ops[1..]);
    }
  }

  /** The clock never runs backwards, within an operation or between two. */
  predicate OnOneClock(from: real, ops: seq<Op>)
    decreases |ops|
  {
    ops == [] ||
    match ops[0]
    case ReadState(at) => from <= at && OnOneClock(at, ops[1..])
    case Call(beforeAt, checkedAt, afterAt, _) =>
      from <= beforeAt <= checkedAt <= afterAt && OnOneClock(afterAt, ops[1..])
  }

  /******* When a closed circuit opens *******/

  datatype Report = Report(checkedAt: real, at: real, success: bool)

  /** The failures at the end, since the last success. */
  function Streak(reports: seq<Report>): nat {
    if reports == [] || reports[|reports| - 1].success then 0 else Streak(reports[..|reports| - 1]) + 1
  }

  function HttpReports(cfg: H.Config, b: H.Breaker, reports: seq<Report>): H.Breaker {
    if reports == [] then b
    else
      var last := reports[|reports| - 1];
      H.Recorded(cfg, HttpReports(cfg, b, reports[..|reports| - 1]), last.checkedAt, last.at, last.success)
  }

  function SimpleReports(cfg: S.Config, b: S.Breaker, reports: seq<Report>): S.Breaker {
    if reports == [] then b
    else
      var last, before := reports[|reports| - 1], SimpleReports(cfg, b, reports[..|reports| - 1]);
      if last.success then S.Succeeded(cfg, before) else S.Failed(cfg, before, last.at)
  }

  /** A fresh circuit opens with the report that makes failure_threshold failures in a row, and not before; until then
      it counts the failures since the last success. */
  lemma {:induction false} OpensOnStreak(cfg: H.Config, start: real, reports: seq<Report>)
    requires cfg.Valid()
    requires forall k :: 0 <= k < |reports| ==> Streak(reports[..k]) < cfg.failureThreshold
    ensures
      var (h, s) := (HttpReports(cfg, H.Fresh(start), reports), SimpleReports(SimpleConfig(cfg), S.FRESH, reports));
      if Streak(reports) < cfg.failureThreshold then
        && h.state == s.state == Closed
        && h.consecutiveFailures == s.failureCount == Streak(reports)
      else
        && reports != [] && h.state == s.state == Open
        && h.lastStateChange == s.openedAt == reports[|reports| - 1].at
  {
    if reports != [] {
      var before := reports[..|reports| - 1];
      assert forall k :: 0 <= k < |before| ==> before[..k] == reports[..k];
      OpensOnStreak(cfg, start, before);
    }
  }

  ghost predicate Indistinguishable(cfg: H.Config, start: real) {
    forall ops | OnOneClock(start, ops) ::
      HttpRun(cfg, H.Fresh(start), ops).1 == SimpleRun(SimpleConfig(cfg), S.FRESH, ops).1
  }

  /******* The run that tells them apart when fewer probes are admitted than successes needed *******/

  function Calls(n: nat, at: real, success: bool): seq<Op> {
    if n == 0 then [] else [Call(at, at, at, success)] + Calls(n - 1, at, success)
  }

  lemma {:induction false} RunsConcat(cfg: H.Config, h: H.Breaker, s: S.Breaker, a: seq<Op>, b: seq<Op>)
    ensures
      var (h1, ho1) := HttpRun(cfg, h, a);
      var (h2, ho2) := HttpRun(cfg, h1, b);
      HttpRun(cfg, h, a + b) == (h2, ho1 + ho2)
    ensures
      var (s1, so1) := SimpleRun(SimpleConfig(cfg), s, a);
      var (s2, so2) := SimpleRun(SimpleConfig(cfg), s1, b);
      SimpleRun(SimpleConfig(cfg), s, a + b) == (s2, so1 + so2)
    decreases |a|
  {
    if a == [] {
      assert a + b == b;
      assert [] + HttpRun(cfg, h, b).1 == HttpRun(cfg, h, b).1;
      assert [] + SimpleRun(SimpleConfig(cfg), s, b).1 == SimpleRun(SimpleConfig(cfg), s, b).1;
    } else {
      assert (a + b)[0] == a[0] && (a + b)[1..] == a[1..] + b;
      var (h1, ho) := HttpStep(cfg, h, a[0]);
      var (s1, so) := SimpleStep(SimpleConfig(cfg), s, a[0]);
      RunsConcat(cfg, h1, s1, a[1..], b);
      var hs, ss := HttpRun(cfg, h1, a[1..]), SimpleRun(SimpleConfig(cfg), s1, a[1..]);
      assert [ho] + (hs.1 + HttpRun(cfg, hs.0, b).1) == ([ho] + hs.1) + HttpRun(cfg, hs.0, b).1;
      assert [so] + (ss.1 + SimpleRun(SimpleConfig(cfg), ss.0, b).1) ==
             ([so] + ss.1) + SimpleRun(SimpleConfig(cfg), ss.0, b).1;
    }
  }

  lemma {:induction false} FailuresTrip(cfg: H.Config, h: H.Breaker, s: S.Breaker, n: nat, at: real)
    requires cfg.Valid() && h.state == s.state == Closed
    requires h.consecutiveFailures == s.failureCount && s.failureCount + n == cfg.failureThreshold && n >= 1
    ensures HttpRun(cfg, h, Calls(n, at, false)).0 == H.TransitionedTo(Open, at)
    ensures
      var s' := SimpleRun(SimpleConfig(cfg), s, Calls(n, at, false)).0;
      s'.state == Open && s'.openedAt == at
    decreases n
  {
    var op, rest := Call(at, at, at, false), Calls(n - 1, at, false);
    assert Calls(n, at, false)[1..] == rest;
    var h1, s1 := HttpStep(cfg, h, op).0, SimpleStep(SimpleConfig(cfg), s, op).0;
    assert HttpRun(cfg, h, Calls(n, at, false)).0 == HttpRun(cfg, h1, rest).0;
    assert SimpleRun(SimpleConfig(cfg), s, Calls(n, at, false)).0 == SimpleRun(SimpleConfig(cfg), s1, rest).0;
    if n > 1 {
      FailuresTrip(cfg, h1, s1, n - 1, at);
    } else {
      assert rest == [];
    }
  }

  lemma {:induction false} ProbesFillUp(cfg: H.Config, h: H.Breaker, s: S.Breaker, n: nat, at: real)
    requires cfg.halfOpenMaxCalls < cfg.halfOpenSuccessThreshold
    requires h.state == s.state == HalfOpen
    requires h.halfOpenCalls == h.halfOpenSuccesses == s.successCount
    requires h.halfOpenCalls + n == cfg.halfOpenMaxCalls
    ensures
      var h' := HttpRun(cfg, h, Calls(n, at, true)).0;
      h'.state == HalfOpen && h'.halfOpenCalls == h'.halfOpenSuccesses == cfg.halfOpenMaxCalls
    ensures SimpleRun(SimpleConfig(cfg), s, Calls(n, at, true)).0.state == HalfOpen
    decreases n
  {
    if n > 0 {
      ProbesFillUp(cfg, HttpStep(cfg, h, Call(at, at, at, true)).0,
                   SimpleStep(SimpleConfig(cfg), s, Call(at, at, at, true)).0, n - 1, at);
    }
  }

  lemma {:induction false} CallsOnOneClock(from: real, n: nat, at: real, success: bool, rest: seq<Op>)
    requires from <= at && (if n == 0 then OnOneClock(from, rest) else OnOneClock(at, rest))
    ensures OnOneClock(from, Calls(n, at, success) + rest)
    decreases n
  {
    if n == 0 {
      assert [] + rest == rest;
    } else {
      assert (Calls(n, at, success) + rest)[1..] == Calls(n - 1, at, success) + rest;
      CallsOnOneClock(at, n - 1, at, success, rest);
    }
  }

  /** Trip, wait out the timeout and spend every probe. */
  function ExhaustingRun(cfg: H.Config, start: real): seq<Op> {
    var later := start + cfg.recoveryTimeout;
    Calls(cfg.failureThreshold, start, false) + [ReadState(later)] + Calls(cfg.halfOpenMaxCalls, later, true)
  }

  /** That run leaves both HALF_OPEN, the HTTP breaker without a probe: it refuses any next call, the other admits
      it. */
  lemma ExhaustingRunEnds(cfg: H.Config, start: real, next: Op)
    requires cfg.Valid() && cfg.halfOpenMaxCalls < cfg.halfOpenSuccessThreshold
    ensures
      var h := HttpRun(cfg, H.Fresh(start), ExhaustingRun(cfg, start)).0;
      && h.state == HalfOpen && h.halfOpenCalls == cfg.halfOpenMaxCalls
      && (next.Call? ==> !HttpStep(cfg, h, next).1.admitted)
    ensures
      var s := SimpleRun(SimpleConfig(cfg), S.FRESH, ExhaustingRun(cfg, start)).0;
      s.state == HalfOpen && (next.Call? ==> SimpleStep(SimpleConfig(cfg), s, next).1.admitted)
  {
    var h0, s0 := H.Fresh(start), S.FRESH;
    var later := start + cfg.recoveryTimeout;
    var trip, wake := Calls(cfg.failureThreshold, start, false), [ReadState(later)];
    var probes := Calls(cfg.halfOpenMaxCalls, later, true);
    FailuresTrip(cfg, h0, s0, cfg.failureThreshold, start);
    RunsConcat(cfg, h0, s0, trip, wake);
    RunsConcat(cfg, h0, s0, trip + wake, probes);
    var h1, s1 := HttpRun(cfg, h0, trip).0, SimpleRun(SimpleConfig(cfg), s0, trip).0;
    var h2, s2 := HttpStep(cfg, h1, wake[0]).0, SimpleStep(SimpleConfig(cfg), s1, wake[0]).0;
    assert HttpRun(cfg, h1, wake).0 == h2 && SimpleRun(SimpleConfig(cfg), s1, wake).0 == s2;
    ProbesFillUp(cfg, h2, s2, cfg.halfOpenMaxCalls, later);
  }

  lemma ExhaustingRunOnOneClock(cfg: H.Config, start: real, last: Op)
    requires cfg.Valid() && OnOneClock(start + cfg.recoveryTimeout, [last])
    ensures OnOneClock(start, ExhaustingRun(cfg, start) + [last])
  {
    var later := start + cfg.recoveryTimeout;
    var probes := Calls(cfg.halfOpenMaxCalls, later, true) + [last];
    CallsOnOneClock(later, cfg.halfOpenMaxCalls, later, true, [last]);
    assert ([ReadState(later)] + probes)[1..] == probes;
    CallsOnOneClock(start, cfg.failureThreshold, start, false, [ReadState(later)] + probes);
    assert ExhaustingRun(cfg, start) + [last] ==
           Calls(cfg.failureThreshold, start, false) + ([ReadState(later)] + probes);
  }

  /** The two breakers give the same state and the same answer at every step of every sequential run
      iff the success threshold is at most the number of probes. */
  lemma IndistinguishableIff(cfg: H.Config, start: real)
    requires cfg.Valid()
    ensures Indistinguishable(cfg, start) <==> cfg.halfOpenSuccessThreshold <= cfg.halfOpenMaxCalls
  {
    if cfg.halfOpenSuccessThreshold <= cfg.halfOpenMaxCalls {
      forall ops | OnOneClock(start, ops)
        ensures HttpRun(cfg, H.Fresh(start), ops).1 == SimpleRun(SimpleConfig(cfg), S.FRESH, ops).1
      {
        RelatedRunsAgree(cfg, H.Fresh(start), S.FRESH, ops);
      }
    } else {
      var later := start + cfg.recoveryTimeout;
      var run, last := ExhaustingRun(cfg, start), Call(later, later, later, true);
      ExhaustingRunEnds(cfg, start, last);
      ExhaustingRunOnOneClock(cfg, start, last);
      RunsConcat(cfg, H.Fresh(start), S.FRESH, run, [last]);
      var h, s := HttpRun(cfg, H.Fresh(start), run), SimpleRun(SimpleConfig(cfg), S.FRESH, run);
      assert HttpRun(cfg, h.0, [last]).1[0].admitted == false;
      assert SimpleRun(SimpleConfig(cfg), s.0, [last]).1[0].admitted;
      assert HttpRun(cfg, H.Fresh(start), run + [last]).1[|run|] !=
             SimpleRun(SimpleConfig(cfg), S.FRESH, run + [last]).1[|run|];
    }
  }
}
