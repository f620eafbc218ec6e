/** Safety and progress of the HTTP breaker over every interleaving of before and after calls. */
module BreakerHistory {
  import opened Prelude
  import opened CircuitStates
  import opened HttpBreaker

  /** One atomic step of some caller; calls may overlap freely. */
  datatype Event =
    | Before(at: real)
    | After(checkedAt: real, at: real, success: bool)
    | Read(at: real)

  /** What an observer records. */
  datatype Mark =
    | Admitted(at: real)
    | Rejected(at: real)
    | Tripped(at: real)
    | HalfOpened(at: real)
    | Recovered(at: real)

  /** The breaker, what was observed so far, the latest clock value and the admitted calls not yet reported. */
  datatype World = World(breaker: Breaker, log: seq<Mark>, now: real, inFlight: nat)

  function Start(now: real): World {
    World(Fresh(now), [], now, 0)
  }

  ghost predicate Timely(w: World, e: Event) {
    w.now <= e.at && (e.After? ==> w.now <= e.checkedAt <= e.at)
  }

  /** Only admitted calls report an outcome. */
  ghost predicate Paired(w: World, e: Event) {
    e.After? ==> w.inFlight > 0
  }

  /** What moving from one state to another shows. */
  function Transition(from: CircuitState, to: CircuitState, at: real): seq<Mark> {
    if from == to then []
    else match to
      case Closed => [Recovered(at)]
      case Open => [Tripped(at)]
      case HalfOpen => [HalfOpened(at)]
  }

  function Step(cfg: Config, w: World, e: Event): World {
    var checkedAt := if e.After? then e.checkedAt else e.at;
    var u := Updated(cfg, w.breaker, checkedAt);
    var log := w.log + Transition(w.breaker.state, u.state, checkedAt);
    match e
    case Read(at) => World(u, log, at, w.inFlight)
    case Before(at) =>
      var (b, admitted) := Admission(cfg, w.breaker, at);
      if admitted then World(b, log + [Admitted(at)], at, w.inFlight + 1)
      else World(b, log + [Rejected(at)], at, w.inFlight)
    case After(_, at, success) =>
      var b := Recorded(cfg, w.breaker, checkedAt, at, success);
      World(b, log + Transition(u.state, b.state, at), at, if w.inFlight > 0 then w.inFlight - 1 else 0)
  }

  /** w is reached from a fresh breaker by the given events; all of them timely. */
  ghost predicate Reaches(cfg: Config, start: real, events: seq<Event>, w: World) {
    if events == [] then w == Start(start)
    else exists v :: Reaches(cfg, start, Init(events), v) && Timely(v, Last(events)) && w == Step(cfg, v, Last(events))
  }

  /** As Reaches, where in addition only admitted calls report. */
  ghost predicate ReachesPaired(cfg: Config, start: real, events: seq<Event>, w: World) {
    if events == [] then w == Start(start)
    else exists v ::
      ReachesPaired(cfg, start, Init(events), v) && Timely(v, Last(events)) && Paired(v, Last(events)) &&
        w == Step(cfg, v, Last(events))
  }

  /******* Reading the log *******/

  predicate ChangesState(m: Mark) {
    m.Tripped? || m.HalfOpened? || m.Recovered?
  }

  /** The state an observer deduces from the log. */
  function ObservedState(log: seq<Mark>): CircuitState {
    if log == [] then Closed
    else match Last(log)
      case Tripped(_) => Open
      case HalfOpened(_) => HalfOpen
      case Recovered(_) => Closed
      case _ => ObservedState(Init(log))
  }

  /** The calls admitted since the state last changed. */
  function AdmittedInEpisode(log: seq<Mark>): nat {
    if log == [] || ChangesState(Last(log)) then 0
    else AdmittedInEpisode(Init(log)) + if Last(log).Admitted? then 1 else 0
  }

  /** At every moment, the current HALF_OPEN episode has admitted at most max calls. */
  ghost predicate ProbesBounded(log: seq<Mark>, max: nat) {
    forall k :: 0 <= k <= |log| && ObservedState(log[..k]) == HalfOpen ==> AdmittedInEpisode(log[..k]) <= max
  }

  /** Nothing is admitted, and the breaker does not trip again, within timeout of a trip. */
  ghost predicate QuietAfterTrips(log: seq<Mark>, timeout: real) {
    forall i, j :: 0 <= i < j < |log| && log[i].Tripped? && (log[j].Admitted? || log[j].Tripped?) ==>
      log[j].at - log[i].at >= timeout
  }

  ghost predicate InOrder(log: seq<Mark>) {
    forall i, j :: 0 <= i < j < |log| ==> log[i].at <= log[j].at
  }

  function Trips(log: seq<Mark>): nat {
    if log == [] then 0 else Trips(Init(log)) + if Last(log).Tripped? then 1 else 0
  }

  /******* Safety *******/

  ghost predicate Invariant(cfg: Config, w: World) {
    var b := w.breaker;
    && InOrder(w.log)
    && (forall i :: 0 <= i < |w.log| ==> w.log[i].at <= w.now)
    && ObservedState(w.log) == b.state
    && ProbesBounded(w.log, cfg.halfOpenMaxCalls)
    && QuietAfterTrips(w.log, cfg.recoveryTimeout)
    && (b.state == Open ==> b.lastStateChange <= w.now)
    && (forall i :: 0 <= i < |w.log| && w.log[i].Tripped? ==>
         if b.state == Open then w.log[i].at <= b.lastStateChange else w.log[i].at + cfg.recoveryTimeout <= w.now)
    && (b.state == HalfOpen ==>
         AdmittedInEpisode(w.log) == b.halfOpenCalls <= cfg.halfOpenMaxCalls &&
           b.halfOpenSuccesses < cfg.halfOpenSuccessThreshold)
    && (b.state == Closed ==>
         b.consecutiveFailures < cfg.failureThreshold && b.halfOpenCalls == b.halfOpenSuccesses == 0)
  }

  lemma ProbesBoundedSnoc(log: seq<Mark>, m: Mark, max: nat)
    requires ProbesBounded(log, max)
    requires ObservedState(log + [m]) == HalfOpen ==> AdmittedInEpisode(log + [m]) <= max
    ensures ProbesBounded(log + [m], max)
  {
    var log' := log + [m];
    forall k | 0 <= k <= |log'| && ObservedState(log'[..k]) == HalfOpen
      ensures AdmittedInEpisode(log'[..k]) <= max
    {
      if k <= |log| {
        assert log'[..k] == log[..k];
      } else {
        assert log'[..k] == log';
      }
    }
  }

  /** The timeout check alone keeps the invariant. */
  lemma UpdateKeepsInvariant(cfg: Config, w: World, at: real)
    requires cfg.Valid() && Invariant(cfg, w) && w.now <= at
    ensures
      var u := Updated(cfg, w.breaker, at);
      Invariant(cfg, World(u, w.log + Transition(w.breaker.state, u.state, at), at, w.inFlight))
  {
    var u := Updated(cfg, w.breaker, at);
    if u.state == w.breaker.state {
      assert w.log + [] == w.log;
    } else {
      ProbesBoundedSnoc(w.log, HalfOpened(at), cfg.halfOpenMaxCalls);
    }
  }

  /** Appending one mark to a world whose timeout has been checked. */
  lemma MarkKeepsInvariant(cfg: Config, w: World, b: Breaker, m: Mark, inFlight: nat)
    requires cfg.Valid() && Invariant(cfg, w) && w.now <= m.at
    requires match m
             case Admitted(_) =>
               w.breaker.state != Open &&
               b == if w.breaker.state == Closed then w.breaker
                    else w.breaker.(halfOpenCalls := w.breaker.halfOpenCalls + 1)
             case Rejected(_) => b == w.breaker
             case Tripped(at) => w.breaker.state != Open && b == TransitionedTo(Open, at)
             case Recovered(at) => w.breaker.state == HalfOpen && b == TransitionedTo(Closed, at)
             case HalfOpened(_) => false
    requires b.state == HalfOpen ==> b.halfOpenCalls <= cfg.halfOpenMaxCalls
    ensures Invariant(cfg, World(b, w.log + [m], m.at, inFlight))
  {
    assert Init(w.log + [m]) == w.log;
    ProbesBoundedSnoc(w.log, m, cfg.halfOpenMaxCalls);
  }

  lemma OutcomeKeepsInvariant(cfg: Config, w: World, at: real, success: bool, inFlight: nat)
    requires cfg.Valid() && Invariant(cfg, w) && w.now <= at
    ensures
      var b := WithOutcome(cfg, w.breaker, at, success);
      Invariant(cfg, World(b, w.log + Transition(w.breaker.state, b.state, at), at, inFlight))
  {
    var b := WithOutcome(cfg, w.breaker, at, success);
    if b.state != w.breaker.state {
      MarkKeepsInvariant(cfg, w, b, Transition(w.breaker.state, b.state, at)[0], inFlight);
    } else {
      assert w.log + [] == w.log;
    }
  }

  lemma StepKeepsInvariant(cfg: Config, w: World, e: Event)
    requires cfg.Valid() && Invariant(cfg, w) && Timely(w, e)
    ensures Invariant(cfg, Step(cfg, w, e))
  {
    var checkedAt := if e.After? then e.checkedAt else e.at;
    UpdateKeepsInvariant(cfg, w, checkedAt);
    var u := Updated(cfg, w.breaker, checkedAt);
    var v := World(u, w.log + Transition(w.breaker.state, u.state, checkedAt), checkedAt, w.inFlight);
    var next := Step(cfg, w, e);
    match e
    case Read(_) =>
    case Before(at) =>
      MarkKeepsInvariant(cfg, v, next.breaker, Last(next.log), next.inFlight);
    case After(_, at, success) =>
      OutcomeKeepsInvariant(cfg, v, at, success, next.inFlight);
  }

  lemma {:induction false} ReachableInvariant(cfg: Config, start: real, events: seq<Event>, w: World)
    requires cfg.Valid() && Reaches(cfg, start, events, w)
    ensures Invariant(cfg, w)
    decreases |events|
  {
    if events != [] {
      var v :| Reaches(cfg, start, Init(events), v) && Timely(v, Last(events)) && w == Step(cfg, v, Last(events));
      ReachableInvariant(cfg, start, Init(events), v);
      StepKeepsInvariant(cfg, v, Last(events));
    }
  }

  /** Over every interleaving: each HALF_OPEN episode admits at most half_open_max_calls, nothing is admitted
      within the recovery timeout of a trip, and consecutive trips are at least that far apart. */
  lemma Safety(cfg: Config, start: real, events: seq<Event>, w: World)
    requires cfg.Valid() && Reaches(cfg, start, events, w)
    ensures ObservedState(w.log) == w.breaker.state
    ensures ProbesBounded(w.log, cfg.halfOpenMaxCalls)
    ensures QuietAfterTrips(w.log, cfg.recoveryTimeout)
    ensures w.breaker.state == Closed ==>
              w.breaker.consecutiveFailures < cfg.failureThreshold &&
                w.breaker.halfOpenCalls == w.breaker.halfOpenSuccesses == 0
  {
    ReachableInvariant(cfg, start, events, w);
  }

  function Times(n: nat, d: real): real {
    if n == 0 then 0.0 else Times(n - 1, d) + d
  }

  lemma {:induction false} TimesIsProduct(n: nat, d: real)
    ensures Times(n, d) == n as real * d
  {
    if n > 0 {
      TimesIsProduct(n - 1, d);
      assert n as real * d == (n - 1) as real * d + d;
    }
  }

  lemma TimesFit(n: nat, d: real, gap: real)
    requires Times(n, d) <= gap
    ensures n as real * d <= gap
  {
    TimesIsProduct(n, d);
  }

  /** The last of the trips in a log lies Trips - 1 timeouts after the beginning. */
  lemma {:induction false} SpacedTrips(log: seq<Mark>, timeout: real) returns (k: nat)
    requires InOrder(log) && QuietAfterTrips(log, timeout) && Trips(log) >= 1
    ensures k < |log| && log[k].Tripped? && Times(Trips(log) - 1, timeout) <= log[k].at - log[0].at
    decreases |log|
  {
    var before := Init(log);
    assert forall i :: 0 <= i < |before| ==> before[i] == log[i];
    if !Last(log).Tripped? {
      k := SpacedTrips(before, timeout);
    } else {
      k := |log| - 1;
      if Trips(before) >= 1 {
        var k0 := SpacedTrips(before, timeout);
        assert log[k].at - log[k0].at >= timeout;
      } else {
        assert k == 0 || log[0].at <= log[k].at;
      }
    }
  }

  /** The trips in a log fit into its duration (the division of 1 + T / timeout multiplied out). */
  ghost predicate TripsFit(log: seq<Mark>, timeout: real) {
    Trips(log) >= 1 ==> (Trips(log) - 1) as real * timeout <= Last(log).at - log[0].at
  }

  lemma SpacedTripsFit(log: seq<Mark>, timeout: real)
    requires timeout > 0.0 && InOrder(log) && QuietAfterTrips(log, timeout)
    ensures TripsFit(log, timeout)
  {
    if Trips(log) >= 1 {
      var k := SpacedTrips(log, timeout);
      assert log[k].at <= Last(log).at || k == |log| - 1;
      TimesFit(Trips(log) - 1, timeout, Last(log).at - log[0].at);
    }
  }

  lemma StretchIsSpaced(log: seq<Mark>, i: nat, j: nat, timeout: real)
    requires InOrder(log) && QuietAfterTrips(log, timeout) && i <= j <= |log|
    ensures InOrder(log[i..j]) && QuietAfterTrips(log[i..j], timeout)
  {
    var part := log[i..j];
    assert forall k :: 0 <= k < |part| ==> part[k] == log[i + k];
  }

  /** In any stretch of a run that lasts T, the breaker trips at most 1 + T / recovery_timeout times. */
  lemma TripRate(cfg: Config, start: real, events: seq<Event>, w: World)
    requires cfg.Valid() && Reaches(cfg, start, events, w)
    ensures forall i, j :: 0 <= i <= j <= |w.log| ==> TripsFit(w.log[i..j], cfg.recoveryTimeout)
  {
    ReachableInvariant(cfg, start, events, w);
    forall i, j | 0 <= i <= j <= |w.log|
      ensures TripsFit(w.log[i..j], cfg.recoveryTimeout)
    {
      StretchIsSpaced(w.log, i, j, cfg.recoveryTimeout);
      SpacedTripsFit(w.log[i..j], cfg.recoveryTimeout);
    }
  }

  /******* Progress *******/

  /** Every probe of this episode either succeeded in it or is still out. */
  ghost predicate ProbesAccounted(cfg: Config, w: World) {
    w.breaker.state == HalfOpen ==>
      w.breaker.halfOpenCalls <= w.breaker.halfOpenSuccesses + w.inFlight &&
        w.breaker.halfOpenSuccesses < cfg.halfOpenSuccessThreshold
  }

  lemma StepKeepsAccount(cfg: Config, w: World, e: Event)
    requires cfg.Valid() && ProbesAccounted(cfg, w) && Paired(w, e)
    ensures ProbesAccounted(cfg, Step(cfg, w, e))
  {
  }

  lemma {:induction false} ReachableProbesAccounted(cfg: Config, start: real, events: seq<Event>, w: World)
    requires cfg.Valid() && ReachesPaired(cfg, start, events, w)
    ensures ProbesAccounted(cfg, w)
    decreases |events|
  {
    if events != [] {
      var v :|
        ReachesPaired(cfg, start, Init(events), v) && Timely(v, Last(events)) && Paired(v, Last(events)) &&
          w == Step(cfg, v, Last(events));
      ReachableProbesAccounted(cfg, start, Init(events), v);
      StepKeepsAccount(cfg, v, Last(events));
    }
  }

  /** No call is out, the breaker is HALF_OPEN, and it refuses the next call. */
  ghost predicate Stuck(cfg: Config, w: World) {
    w.inFlight == 0 && w.breaker.state == HalfOpen && w.breaker.halfOpenCalls >= cfg.halfOpenMaxCalls
  }

  /** The world after further events. */
  function Run(cfg: Config, w: World, events: seq<Event>): World {
    if events == [] then w else Step(cfg, Run(cfg, w, Init(events)), Last(events))
  }

  /** In all of them only admitted calls report. */
  ghost predicate RunsPaired(cfg: Config, w: World, events: seq<Event>) {
    events == [] || (RunsPaired(cfg, w, Init(events)) && Paired(Run(cfg, w, Init(events)), Last(events)))
  }

  /** A rejection for every attempt, and nothing else. */
  function Rejections(events: seq<Event>): seq<Mark> {
    if events == [] then []
    else Rejections(Init(events)) + if Last(events).Before? then [Rejected(Last(events).at)] else []
  }

  /** A stuck breaker stays as it is for ever: whatever events follow, and whenever, it is unchanged at the end, every
      attempt has been rejected, and nothing else was observed. */
  lemma {:induction false} StuckForEver(cfg: Config, w: World, events: seq<Event>)
    requires Stuck(cfg, w) && RunsPaired(cfg, w, events)
    ensures
      var end := Run(cfg, w, events);
      Stuck(cfg, end) && end.breaker == w.breaker && end.log == w.log + Rejections(events)
  {
    if events == [] {
      assert w.log + [] == w.log;
    } else {
      StuckForEver(cfg, w, Init(events));
      assert w.log + (Rejections(Init(events)) + Rejections([Last(events)])) ==
             (w.log + Rejections(Init(events))) + Rejections([Last(events)]);
    }
  }

  ghost predicate CanGetStuck(cfg: Config, start: real) {
    exists events, w :: ReachesPaired(cfg, start, events, w) && Stuck(cfg, w)
  }

  /** n calls made one after the other, all at the same instant. */
  function Calls(n: nat, at: real, success: bool): seq<Event> {
    if n == 0 then [] else Calls(n - 1, at, success) + [Before(at), After(at, at, success)]
  }

  lemma OneCall(cfg: Config, start: real, events: seq<Event>, w: World, at: real, success: bool) returns (next: World)
    requires ReachesPaired(cfg, start, events, w) && w.now <= at
    requires Admission(cfg, w.breaker, at).1
    ensures next == Step(cfg, Step(cfg, w, Before(at)), After(at, at, success))
    ensures ReachesPaired(cfg, start, events + [Before(at), After(at, at, success)], next)
  {
    var mid := Step(cfg, w, Before(at));
    next := Step(cfg, mid, After(at, at, success));
    var all := events + [Before(at), After(at, at, success)];
    assert Init(events + [Before(at)]) == events;
    assert ReachesPaired(cfg, start, events + [Before(at)], mid);
    assert Init(all) == events + [Before(at)];
  }

  lemma {:induction false} FailUntilTripped(cfg: Config, start: real, n: nat) returns (w: World)
    requires cfg.Valid() && n <= cfg.failureThreshold
    ensures ReachesPaired(cfg, start, Calls(n, start, false), w) && w.now == start && w.inFlight == 0
    ensures w.breaker == if n < cfg.failureThreshold then Fresh(start).(consecutiveFailures := n)
            else TransitionedTo(Open, start)
    decreases n
  {
    if n == 0 {
      w := Start(start);
    } else {
      w := FailUntilTripped(cfg, start, n - 1);
      w := OneCall(cfg, start, Calls(n - 1, start, false), w, start, false);
    }
  }

  lemma {:induction false} SpendProbes(cfg: Config, start: real, n: nat) returns (events: seq<Event>, w: World)
    requires cfg.Valid() && n <= cfg.halfOpenMaxCalls < cfg.halfOpenSuccessThreshold
    ensures ReachesPaired(cfg, start, events, w) && w.now == start + cfg.recoveryTimeout && w.inFlight == 0
    ensures w.breaker.state == HalfOpen && w.breaker.halfOpenCalls == w.breaker.halfOpenSuccesses == n
    decreases n
  {
    var later := start + cfg.recoveryTimeout;
    if n == 0 {
      w := FailUntilTripped(cfg, start, cfg.failureThreshold);
      events := Calls(cfg.failureThreshold, start, false) + [Read(later)];
      assert Init(events) == Calls(cfg.failureThreshold, start, false);
      w := Step(cfg, w, Read(later));
    } else {
      events, w := SpendProbes(cfg, start, n - 1);
      w := OneCall(cfg, start, events, w, later, true);
      events := events + [Before(later), After(later, later, true)];
    }
  }

  /** The breaker can deadlock in HALF_OPEN iff it needs more successes than the probes it admits:
      a configuration the source accepts without complaint. */
  lemma CanGetStuckIff(cfg: Config, start: real)
    requires cfg.Valid()
    ensures CanGetStuck(cfg, start) <==> cfg.halfOpenMaxCalls < cfg.halfOpenSuccessThreshold
  {
    if cfg.halfOpenMaxCalls < cfg.halfOpenSuccessThreshold {
      var events, w := SpendProbes(cfg, start, cfg.halfOpenMaxCalls);
      assert Stuck(cfg, w);
    } else if CanGetStuck(cfg, start) {
      var events, w :| ReachesPaired(cfg, start, events, w) && Stuck(cfg, w);
      ReachableProbesAccounted(cfg, start, events, w);
      assert false;
    }
  }
}
