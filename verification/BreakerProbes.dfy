/** What the two breakers do when calls overlap, and how many probes the general-purpose one lets through. */
module BreakerProbes {
  import opened CircuitStates
  import E = BreakerEquivalence
  import H = HttpBreaker
  import S = SimpleBreaker

  /******* Overlapping calls *******/

  /** A call is two steps here, its admission and the report of its outcome, with anything in between. */
  datatype Half = Begin(at: real) | End(checkedAt: real, at: real, success: bool)

  /** The breaker after a step, and the answer if the step asks to be admitted. */
  function HttpHalf(cfg: H.Config, b: H.Breaker, half: Half): (H.Breaker, seq<bool>) {
    match half
    case Begin(at) =>
      var (b', admitted) := H.Admission(cfg, b, at);
      (b', [admitted])
    case End(checkedAt, at, success) => (H.Recorded(cfg, b, checkedAt, at, success), [])
  }

  function SimpleHalf(cfg: S.Config, b: S.Breaker, half: Half): (S.Breaker, seq<bool>) {
    match half
    case Begin(at) =>
      var (b', admitted) := S.Admission(cfg, b, at);
      (b', [admitted])
    case End(_, at, success) => (if success then S.Succeeded(cfg, b) else S.Failed(cfg, b, at), [])
  }

  /** The breaker after the steps, and the answers to all that ask. */
  function HttpHalves(cfg: H.Config, b: H.Breaker, halves: seq<Half>): (H.Breaker, seq<bool>)
    decreases |halves|
  {
    if halves == [] then (b, [])
    else
      var (b1, answer) := HttpHalf(cfg, b, halves[0]);
      var (b2, answers) := HttpHalves(cfg, b1, halves[1..]);
      (b2, answer + answers)
  }

  function SimpleHalves(cfg: S.Config, b: S.Breaker, halves: seq<Half>): (S.Breaker, seq<bool>)
    decreases |halves|
  {
    if halves == [] then (b, [])
    else
      var (b1, answer) := SimpleHalf(cfg, b, halves[0]);
      var (b2, answers) := SimpleHalves(cfg, b1, halves[1..]);
      (b2, answer + answers)
  }

  lemma HttpReport(cfg: H.Config, b: H.Breaker, halves: seq<Half>)
    requires halves != [] && halves[0].End?
    ensures HttpHalves(cfg, b, halves) == HttpHalves(cfg, HttpHalf(cfg, b, halves[0]).0, halves[1..])
  {
    var rest := HttpHalves(cfg, HttpHalf(cfg, b, halves[0]).0, halves[1..]);
    assert [] + rest.1 == rest.1;
  }

  lemma SimpleReport(cfg: S.Config, b: S.Breaker, halves: seq<Half>)
    requires halves != [] && halves[0].End?
    ensures SimpleHalves(cfg, b, halves) == SimpleHalves(cfg, SimpleHalf(cfg, b, halves[0]).0, halves[1..])
  {
    var rest := SimpleHalves(cfg, SimpleHalf(cfg, b, halves[0]).0, halves[1..]);
    assert [] + rest.1 == rest.1;
  }

  /******* When overlapping calls are answered alike *******/

  /** What relates the two while calls overlap. */
  ghost predicate Matched(cfg: H.Config, h: H.Breaker, s: S.Breaker) {
    && h.state == s.state
    && match h.state
       case Closed => h.consecutiveFailures == s.failureCount < cfg.failureThreshold
       case Open => h.lastStateChange == s.openedAt
       case HalfOpen => h.halfOpenSuccesses == s.successCount < cfg.halfOpenSuccessThreshold
  }

  /** A call in HALF_OPEN is harmless while a probe is left. An outcome reported while OPEN is harmless in these cases:
      a success before the waiting period is over; a failure after it, which opens both again; and a failure before it
      that the simple breaker does not count up to its threshold, because a success reported while OPEN made it forget
      the failures that opened it. */
  predicate Harmless(cfg: H.Config, h: H.Breaker, s: S.Breaker, half: Half) {
    match half
    case Begin(at) =>
      var u := H.Updated(cfg, h, at);
      u.state == HalfOpen ==> u.halfOpenCalls < cfg.halfOpenMaxCalls
    case End(checkedAt, at, success) =>
      var over := checkedAt - h.lastStateChange >= cfg.recoveryTimeout;
      h.state == Open ==>
        if success then !over
        else (over <==> s.failureCount + 1 >= cfg.failureThreshold) || at == h.lastStateChange
  }

  /** One step of overlapping calls is answered alike and keeps the breakers matched if and only if it is harmless. */
  lemma HalfKeepsMatchedIff(cfg: H.Config, h: H.Breaker, s: S.Breaker, half: Half)
    requires cfg.Valid() && Matched(cfg, h, s)
    ensures
      var (h', ha) := HttpHalf(cfg, h, half);
      var (s', sa) := SimpleHalf(E.SimpleConfig(cfg), s, half);
      ha == sa && Matched(cfg, h', s') <==> Harmless(cfg, h, s, half)
  {
    if half.Begin? {
      var ha, sa := HttpHalf(cfg, h, half).1, SimpleHalf(E.SimpleConfig(cfg), s, half).1;
      assert ha == sa <==> ha[0] == sa[0];
    }
  }

  predicate AllHarmless(cfg: H.Config, h: H.Breaker, s: S.Breaker, halves: seq<Half>)
    decreases |halves|
  {
    halves == [] ||
    (Harmless(cfg, h, s, halves[0]) &&
     AllHarmless(cfg, HttpHalf(cfg, h, halves[0]).0, SimpleHalf(E.SimpleConfig(cfg), s, halves[0]).0, halves[1..]))
  }

  /** The two breakers answer every interleaving of overlapping calls alike as long as every step is harmless. */
  lemma {:induction false} OverlappingRunsAgree(cfg: H.Config, h: H.Breaker, s: S.Breaker, halves: seq<Half>)
    requires cfg.Valid() && Matched(cfg, h, s) && AllHarmless(cfg, h, s, halves)
    ensures
      var (h', ha) := HttpHalves(cfg, h, halves);
      var (s', sa) := SimpleHalves(E.SimpleConfig(cfg), s, halves);
      ha == sa && Matched(cfg, h', s')
    decreases |halves|
  {
    if halves != [] {
      HalfKeepsMatchedIff(cfg, h, s, halves[0]);
      OverlappingRunsAgree(cfg, HttpHalf(cfg, h, halves[0]).0, SimpleHalf(E.SimpleConfig(cfg), s, halves[0]).0,
                           halves[1..]);
    }
  }

  /** No outcome is reported while OPEN, and no HALF_OPEN episode is asked for more calls than it has probes. */
  predicate Orderly(cfg: H.Config, b: H.Breaker, halves: seq<Half>)
    decreases |halves|
  {
    halves == [] ||
    ((match halves[0]
      case Begin(at) => var u := H.Updated(cfg, b, at); u.state == HalfOpen ==> u.halfOpenCalls < cfg.halfOpenMaxCalls
      case End(_, _, _) => b.state != Open) &&
     Orderly(cfg, HttpHalf(cfg, b, halves[0]).0, halves[1..]))
  }

  lemma {:induction false} OrderlyIsHarmless(cfg: H.Config, h: H.Breaker, s: S.Breaker, halves: seq<Half>)
    requires Orderly(cfg, h, halves)
    ensures AllHarmless(cfg, h, s, halves)
    decreases |halves|
  {
    if halves != [] {
      OrderlyIsHarmless(cfg, HttpHalf(cfg, h, halves[0]).0, SimpleHalf(E.SimpleConfig(cfg), s, halves[0]).0,
                        halves[1..]);
    }
  }

  /** In particular from fresh, whatever the configuration, when no outcome is reported while OPEN and every HALF_OPEN
      episode is asked for no more calls than it has probes. */
  lemma OrderlyRunsAgree(cfg: H.Config, start: real, halves: seq<Half>)
    requires cfg.Valid() && Orderly(cfg, H.Fresh(start), halves)
    ensures HttpHalves(cfg, H.Fresh(start), halves).1 == SimpleHalves(E.SimpleConfig(cfg), S.FRESH, halves).1
  {
    OrderlyIsHarmless(cfg, H.Fresh(start), S.FRESH, halves);
    OverlappingRunsAgree(cfg, H.Fresh(start), S.FRESH, halves);
  }

  /******* When they are not *******/

  function Begins(n: nat, at: real): seq<Half> {
    if n == 0 then [] else [Begin(at)] + Begins(n - 1, at)
  }

  function Failures(n: nat, at: real): seq<Half> {
    if n == 0 then [] else [End(at, at, false)] + Failures(n - 1, at)
  }

  function Yes(n: nat): seq<bool> {
    seq(n, _ => true)
  }

  lemma YesMore(n: nat, answers: seq<bool>)
    requires n > 0
    ensures [true] + (Yes(n - 1) + answers) == Yes(n) + answers
  {
  }

  lemma {:induction false} HttpBeginsWhileClosed(cfg: H.Config, b: H.Breaker, n: nat, at: real, rest: seq<Half>)
    requires b.state == Closed
    ensures
      var r := HttpHalves(cfg, b, rest);
      HttpHalves(cfg, b, Begins(n, at) + rest) == (r.0, Yes(n) + r.1)
    decreases n
  {
    var r := HttpHalves(cfg, b, rest);
    if n == 0 {
      assert Begins(n, at) + rest == rest && Yes(0) + r.1 == r.1;
    } else {
      assert (Begins(n, at) + rest)[1..] == Begins(n - 1, at) + rest;
      HttpBeginsWhileClosed(cfg, b, n - 1, at, rest);
      YesMore(n, r.1);
    }
  }

  lemma {:induction false} SimpleBeginsWhileClosed(cfg: S.Config, b: S.Breaker, n: nat, at: real, rest: seq<Half>)
    requires b.state == Closed
    ensures
      var r := SimpleHalves(cfg, b, rest);
      SimpleHalves(cfg, b, Begins(n, at) + rest) == (r.0, Yes(n) + r.1)
    decreases n
  {
    var r := SimpleHalves(cfg, b, rest);
    if n == 0 {
      assert Begins(n, at) + rest == rest && Yes(0) + r.1 == r.1;
    } else {
      assert (Begins(n, at) + rest)[1..] == Begins(n - 1, at) + rest;
      SimpleBeginsWhileClosed(cfg, b, n - 1, at, rest);
      YesMore(n, r.1);
    }
  }

  /** The failures that are left trip both breakers at the same moment. */
  lemma {:induction false} FailuresOpen(cfg: H.Config, h: H.Breaker, s: S.Breaker, n: nat, at: real, rest: seq<Half>)
    requires cfg.Valid() && h.state == s.state == Closed && n >= 1 && s.successCount == 0
    requires h.consecutiveFailures == s.failureCount && s.failureCount + n == cfg.failureThreshold
    ensures HttpHalves(cfg, h, Failures(n, at) + rest) == HttpHalves(cfg, H.TransitionedTo(Open, at), rest)
    ensures SimpleHalves(E.SimpleConfig(cfg), s, Failures(n, at) + rest) ==
            SimpleHalves(E.SimpleConfig(cfg), S.Breaker(Open, cfg.failureThreshold, 0, at), rest)
    decreases n
  {
    assert (Failures(n, at) + rest)[1..] == Failures(n - 1, at) + rest;
    HttpReport(cfg, h, Failures(n, at) + rest);
    SimpleReport(E.SimpleConfig(cfg), s, Failures(n, at) + rest);
    if n > 1 {
      FailuresOpen(cfg, H.Recorded(cfg, h, at, at, false), S.Failed(E.SimpleConfig(cfg), s, at), n - 1, at, rest);
    } else {
      assert Failures(0, at) + rest == rest;
    }
  }

  /** Enough calls to trip the breaker are begun at once, and one more; all but one fail at once, and the one more fails
      late, while the circuit is OPEN. */
  function LateFailureRun(cfg: H.Config, start: real, late: real): seq<Half> {
    Begins(cfg.failureThreshold + 1, start) + (Failures(cfg.failureThreshold, start) + [End(late, late, false)])
  }

  /** A failure reported while OPEN, within the timeout, restarts the waiting period of the simple breaker and is
      ignored by the HTTP breaker. In every valid configuration this happens to calls that both admitted while CLOSED,
      and the next call is answered differently if and only if it comes after the first waiting period has ended and
      before the restarted one has. */
  lemma LateFailureTellsThemApart(cfg: H.Config, start: real, late: real, next: real)
    requires cfg.Valid() && start <= late < start + cfg.recoveryTimeout && late <= next
    ensures
      var run := LateFailureRun(cfg, start, late) + [Begin(next)];
      var http := HttpHalves(cfg, H.Fresh(start), run).1;
      var simple := SimpleHalves(E.SimpleConfig(cfg), S.FRESH, run).1;
      && http == Yes(cfg.failureThreshold + 1) + [next >= start + cfg.recoveryTimeout]
      && simple == Yes(cfg.failureThreshold + 1) + [next >= late + cfg.recoveryTimeout]
      && (http != simple <==> start + cfg.recoveryTimeout <= next < late + cfg.recoveryTimeout)
  {
    var n, h, s := cfg.failureThreshold, H.Fresh(start), S.FRESH;
    var last := [Begin(next)];
    var end := [End(late, late, false)] + last;
    assert LateFailureRun(cfg, start, late) + last == Begins(n + 1, start) + (Failures(n, start) + end);
    HttpBeginsWhileClosed(cfg, h, n + 1, start, Failures(n, start) + end);
    SimpleBeginsWhileClosed(E.SimpleConfig(cfg), s, n + 1, start, Failures(n, start) + end);
    FailuresOpen(cfg, h, s, n, start, end);
    AfterLateFailure(cfg, start, late, next);
    var answered := Yes(n + 1);
    assert (answered + [next >= start + cfg.recoveryTimeout])[n + 1] == (next >= start + cfg.recoveryTimeout);
    assert (answered + [next >= late + cfg.recoveryTimeout])[n + 1] == (next >= late + cfg.recoveryTimeout);
  }

  lemma AfterLateFailure(cfg: H.Config, start: real, late: real, next: real)
    requires cfg.Valid() && start <= late < start + cfg.recoveryTimeout && late <= next
    ensures
      var end := [End(late, late, false)] + [Begin(next)];
      && HttpHalves(cfg, H.TransitionedTo(Open, start), end).1 == [next >= start + cfg.recoveryTimeout]
      && SimpleHalves(E.SimpleConfig(cfg), S.Breaker(Open, cfg.failureThreshold, 0, start), end).1 ==
         [next >= late + cfg.recoveryTimeout]
  {
    var last: seq<Half> := [Begin(next)];
    var end := [End(late, late, false)] + last;
    assert end[1..] == last && last[1..] == [];
    HttpReport(cfg, H.TransitionedTo(Open, start), end);
    SimpleReport(E.SimpleConfig(cfg), S.Breaker(Open, cfg.failureThreshold, 0, start), end);
    var s := S.Breaker(Open, cfg.failureThreshold + 1, 0, late);
    assert S.Failed(E.SimpleConfig(cfg), S.Breaker(Open, cfg.failureThreshold, 0, start), late) == s;
    assert SimpleHalves(E.SimpleConfig(cfg), s, last).1 == [S.Admission(E.SimpleConfig(cfg), s, next).1] + [];
    assert HttpHalves(cfg, H.TransitionedTo(Open, start), last).1 ==
           [H.Admission(cfg, H.TransitionedTo(Open, start), next).1] + [];
  }

  /******* "Allow a single probe call" *******/

  /** Failures that trip a fresh simple breaker, whatever its configuration. */
  function ToTrip(cfg: S.Config, failures: nat): nat {
    if cfg.failureThreshold > failures then cfg.failureThreshold - failures else 1
  }

  lemma {:induction false} FailuresTripSimple(cfg: S.Config, b: S.Breaker, at: real, rest: seq<Half>)
    requires b.state == Closed && b.successCount == 0
    ensures exists failures: nat ::
              SimpleHalves(cfg, b, Failures(ToTrip(cfg, b.failureCount), at) + rest) ==
              SimpleHalves(cfg, S.Breaker(Open, failures, 0, at), rest)
    decreases cfg.failureThreshold - b.failureCount
  {
    var n, after := ToTrip(cfg, b.failureCount), S.Failed(cfg, b, at);
    assert (Failures(n, at) + rest)[1..] == Failures(n - 1, at) + rest;
    SimpleReport(cfg, b, Failures(n, at) + rest);
    if b.failureCount + 1 < cfg.failureThreshold {
      FailuresTripSimple(cfg, after, at, rest);
    } else {
      assert Failures(0, at) + rest == rest;
      assert after == S.Breaker(Open, b.failureCount + 1, 0, at);
    }
  }

  lemma {:induction false} HalfOpenAdmitsAll(cfg: S.Config, b: S.Breaker, n: nat, at: real)
    requires b.state == HalfOpen
    ensures SimpleHalves(cfg, b, Begins(n, at)) == (b, Yes(n))
    decreases n
  {
    if n > 0 {
      assert Begins(n, at)[1..] == Begins(n - 1, at);
      HalfOpenAdmitsAll(cfg, b, n - 1, at);
      assert Yes(n) == [true] + Yes(n - 1);
    } else {
      assert Yes(0) == [];
    }
  }

  /** HALF_OPEN of the simple breaker does not limit calls that overlap: in every configuration, and for every n, a
      breaker that has tripped admits n calls begun after the timeout, none of which has reported. */
  lemma AnyNumberOfProbes(cfg: S.Config, start: real, later: real, n: nat)
    requires later - start >= cfg.recoveryTimeout
    ensures
      var r := SimpleHalves(cfg, S.FRESH, Failures(ToTrip(cfg, 0), start) + Begins(n, later));
      r.1 == Yes(n) && (n > 0 ==> r.0.state == HalfOpen)
  {
    FailuresTripSimple(cfg, S.FRESH, start, Begins(n, later));
    var failures: nat :|
      SimpleHalves(cfg, S.FRESH, Failures(ToTrip(cfg, S.FRESH.failureCount), start) + Begins(n, later)) ==
      SimpleHalves(cfg, S.Breaker(Open, failures, 0, start), Begins(n, later));
    if n > 0 {
      assert Begins(n, later)[1..] == Begins(n - 1, later);
      HalfOpenAdmitsAll(cfg, S.Breaker(HalfOpen, failures, 0, start), n - 1, later);
      assert Yes(n) == [true] + Yes(n - 1);
    }
  }

  /** The HTTP breaker in the same place admits as many as it has probes left. */
  lemma {:induction false} HttpAdmitsProbesLeft(cfg: H.Config, b: H.Breaker, n: nat, at: real)
    requires b.state == HalfOpen && b.halfOpenCalls <= cfg.halfOpenMaxCalls
    ensures
      var answers := HttpHalves(cfg, b, Begins(n, at)).1;
      |answers| == n && forall i :: 0 <= i < n ==> (answers[i] <==> i < cfg.halfOpenMaxCalls - b.halfOpenCalls)
    decreases n
  {
    if n > 0 {
      assert Begins(n, at)[1..] == Begins(n - 1, at);
      HttpAdmitsProbesLeft(cfg, H.Admission(cfg, b, at).0, n - 1, at);
    }
  }

  /** For every call that a run of sequential calls makes in HALF_OPEN, its number within its HALF_OPEN episode; used
      counts the calls the current episode has had. */
  function ProbeNumbers(cfg: S.Config, b: S.Breaker, used: nat, ops: seq<E.Op>): seq<nat>
    decreases |ops|
  {
    if ops == [] then []
    else
      var next := E.SimpleStep(cfg, b, ops[0]).0;
      if ops[0].Call? && S.MaybeHalfOpen(cfg, b, ops[0].beforeAt).state == HalfOpen then
        [used + 1] + ProbeNumbers(cfg, next, if next.state == HalfOpen then used + 1 else 0, ops[1..])
      else ProbeNumbers(cfg, next, used, ops[1..])
  }

  /** Under sequential calls every HALF_OPEN episode has a single call, whatever the run. */
  ghost predicate SingleProbe(cfg: S.Config, start: real) {
    forall ops, k | E.OnOneClock(start, ops) && 0 <= k < |ProbeNumbers(cfg, S.FRESH, 0, ops)| ::
      ProbeNumbers(cfg, S.FRESH, 0, ops)[k] == 1
  }

  lemma {:induction false} OneSuccessEnds(cfg: S.Config, b: S.Breaker, ops: seq<E.Op>, k: nat)
    requires cfg.successThreshold <= 1 && k < |ProbeNumbers(cfg, b, 0, ops)|
    ensures ProbeNumbers(cfg, b, 0, ops)[k] == 1
    decreases |ops|
  {
    var next := E.SimpleStep(cfg, b, ops[0]).0;
    if ops[0].Call? && S.MaybeHalfOpen(cfg, b, ops[0].beforeAt).state == HalfOpen {
      if k > 0 {
        OneSuccessEnds(cfg, next, ops[1..], k - 1);
      }
    } else {
      OneSuccessEnds(cfg, next, ops[1..], k);
    }
  }

  /** Failing calls on a closed breaker are no probes. */
  lemma {:induction false} TrippingCalls(cfg: S.Config, b: S.Breaker, at: real, rest: seq<E.Op>) returns (failures: nat)
    requires b.state == Closed && b.successCount == 0
    ensures ProbeNumbers(cfg, b, 0, E.Calls(ToTrip(cfg, b.failureCount), at, false) + rest) ==
            ProbeNumbers(cfg, S.Breaker(Open, failures, 0, at), 0, rest)
    decreases cfg.failureThreshold - b.failureCount
  {
    var n, op := ToTrip(cfg, b.failureCount), E.Call(at, at, at, false);
    var all := E.Calls(n, at, false) + rest;
    assert all[0] == op && all[1..] == E.Calls(n - 1, at, false) + rest;
    var after := E.SimpleStep(cfg, b, op).0;
    failures := b.failureCount + 1;
    if failures < cfg.failureThreshold {
      failures := TrippingCalls(cfg, after, at, rest);
    } else {
      assert E.Calls(0, at, false) + rest == rest;
      assert after == S.Breaker(Open, failures, 0, at);
    }
  }

  /** The documented single probe is kept under sequential calls if and only if one success closes the circuit. */
  lemma SingleProbeIff(cfg: S.Config, start: real)
    ensures SingleProbe(cfg, start) <==> cfg.successThreshold <= 1
  {
    if cfg.successThreshold <= 1 {
      forall ops, k | E.OnOneClock(start, ops) && 0 <= k < |ProbeNumbers(cfg, S.FRESH, 0, ops)|
        ensures ProbeNumbers(cfg, S.FRESH, 0, ops)[k] == 1
      {
        OneSuccessEnds(cfg, S.FRESH, ops, k);
      }
    } else {
      var later := if cfg.recoveryTimeout > 0.0 then start + cfg.recoveryTimeout else start;
      var probe := E.Call(later, later, later, true);
      var n, probes := ToTrip(cfg, 0), [probe] + [probe];
      var run := E.Calls(n, start, false) + probes;
      assert probes[1..] == [probe] && [probe][1..] == [];
      E.CallsOnOneClock(start, n, start, false, probes);
      var failures := TrippingCalls(cfg, S.FRESH, start, probes);
      assert ProbeNumbers(cfg, S.FRESH, 0, run)[1] == 2;
    }
  }

}
