/** The resilient HTTP client: an attempt loop driving the HTTP circuit breaker. */
module RetryClient {
  import opened Prelude
  import opened CircuitStates
  import opened Reals
  import HttpBreaker

  datatype HttpMethod = GET | HEAD | OPTIONS | POST | PUT | PATCH | DELETE | UNRECOGNISED

  predicate IsIdempotent(m: HttpMethod) {
    m in {GET, HEAD, OPTIONS}
  }

  datatype Policy = Policy(maxAttempts: nat, baseDelay: real, maxDelay: real, jitterRatio: real,
                           retryableStatusCodes: set<int>, honorRetryAfter: bool, allowRetryNonIdempotent: bool)
  {
    predicate Valid() {
      maxAttempts >= 1 && baseDelay >= 0.0 && maxDelay > 0.0 && 0.0 <= jitterRatio <= 1.0
    }
  }

  /** What the port does: answer, with the Retry-After header when it is a number, or raise. */
  datatype Outcome =
    | Answer(status: int, retryAfter: Option<real>)
    | Raise(retryable: bool)
  {
    predicate IsSuccess() {
      Answer? && 200 <= status < 300
    }
  }

  /** Everything one attempt takes from outside: clock readings, the port's outcome and what the
      random generator draws for the delay. */
  datatype Attempt = Attempt(beforeAt: real, checkedAt: real, afterAt: real, outcome: Outcome, drawn: real)

  datatype Result = Returned(status: int) | RetryExhausted(lastStatus: Option<int>) | CircuitOpen

  datatype BreakerCall = Admitted | Refused | Reported(success: bool)

  /** How a request ends and what it did on the way. */
  datatype Trace = Trace(result: Result, breaker: HttpBreaker.Breaker, hits: nat, sleeps: seq<real>,
                         calls: seq<BreakerCall>)

  function BaseDelay(policy: Policy, attemptIndex: nat, retryAfter: Option<real>): real {
    if policy.honorRetryAfter && retryAfter.Some? then Min(retryAfter.value, policy.maxDelay)
    else Min(policy.baseDelay * Pow2(attemptIndex), policy.maxDelay)
  }

  /** x may be drawn for a delay: random.uniform draws from the jitter interval around it. */
  predicate InJitterInterval(policy: Policy, delay: real, x: real) {
    Max(0.0, delay * (1.0 - policy.jitterRatio)) <= x <= delay * (1.0 + policy.jitterRatio)
  }

  function CalculateDelay(policy: Policy, attemptIndex: nat, retryAfter: Option<real>, drawn: real): real {
    if policy.jitterRatio > 0.0 then drawn else BaseDelay(policy, attemptIndex, retryAfter)
  }

  /** The delay after a failed k-th attempt. */
  function DelayAfter(policy: Policy, a: Attempt, k: nat): real {
    CalculateDelay(policy, k, RetryAfterOf(a.outcome), a.drawn)
  }

  /** Exceptions are retried whatever the method; status codes only for idempotent or opted-in methods. */
  predicate MayRetry(policy: Policy, m: HttpMethod, optIn: Option<bool>, outcome: Outcome) {
    match outcome
    case Raise(retryable) => retryable
    case Answer(status, _) =>
      && status in policy.retryableStatusCodes
      && (IsIdempotent(m) || if optIn.Some? then optIn.value else policy.allowRetryNonIdempotent)
  }

  function RetryAfterOf(outcome: Outcome): Option<real> {
    match outcome case Answer(_, r) => r case Raise(_) => None
  }

  function StatusOf(outcome: Outcome): Option<int> {
    match outcome case Answer(s, _) => Some(s) case Raise(_) => None
  }

  /** A trace continued after some hits, sleeps and breaker calls. */
  function Joined(hits: nat, sleeps: seq<real>, calls: seq<BreakerCall>, rest: Trace): Trace {
    Trace(rest.result, rest.breaker, hits + rest.hits, sleeps + rest.sleeps, calls + rest.calls)
  }

  lemma JoinedNothing(rest: Trace)
    ensures Joined(0, [], [], rest) == rest
  {
    assert [] + rest.sleeps == rest.sleeps && [] + rest.calls == rest.calls;
  }

  lemma JoinedEnd(hits: nat, sleeps: seq<real>, calls: seq<BreakerCall>, rest: Trace)
    requires rest.sleeps == []
    ensures Joined(hits, sleeps, calls, rest) ==
            Trace(rest.result, rest.breaker, hits + rest.hits, sleeps, calls + rest.calls)
  {
    assert sleeps + [] == sleeps;
  }

  /** What one attempt comes to; the breaker is as the attempt leaves it. */
  datatype Verdict =
    | Refuse(breaker: HttpBreaker.Breaker)
    | Finish(breaker: HttpBreaker.Breaker, result: Result, success: bool)
    | Retry(breaker: HttpBreaker.Breaker)

  function OneAttempt(cfg: HttpBreaker.Config, policy: Policy, m: HttpMethod, optIn: Option<bool>,
                      a: Attempt, isLast: bool, b: HttpBreaker.Breaker): Verdict
  {
    var (b1, admitted) := HttpBreaker.Admission(cfg, b, a.beforeAt);
    var b2 := HttpBreaker.Recorded(cfg, b1, a.checkedAt, a.afterAt, a.outcome.IsSuccess());
    if !admitted then Refuse(b1)
    else if a.outcome.IsSuccess() then Finish(b2, Returned(a.outcome.status), true)
    else if isLast || !MayRetry(policy, m, optIn, a.outcome) then Finish(b2, RetryExhausted(StatusOf(a.outcome)), false)
    else Retry(b2)
  }

  /** The rest of a request from attempt k on. */
  function Attempts(cfg: HttpBreaker.Config, policy: Policy, m: HttpMethod, optIn: Option<bool>,
                    env: nat -> Attempt, k: nat, b: HttpBreaker.Breaker): Trace
    requires k < policy.maxAttempts
    decreases policy.maxAttempts - k
  {
    match OneAttempt(cfg, policy, m, optIn, env(k), k + 1 >= policy.maxAttempts, b)
    case Refuse(b') => Trace(CircuitOpen, b', 0, [], [Refused])
    case Finish(b', result, success) => Trace(result, b', 1, [], [Admitted, Reported(success)])
    case Retry(b') =>
      Joined(1, [DelayAfter(policy, env(k), k)], [Admitted, Reported(false)],
             Attempts(cfg, policy, m, optIn, env, k + 1, b'))
  }

  lemma UnfoldAttempt(cfg: HttpBreaker.Config, policy: Policy, m: HttpMethod, optIn: Option<bool>, env: nat -> Attempt,
                      k: nat, b: HttpBreaker.Breaker, hits: nat, sleeps: seq<real>, calls: seq<BreakerCall>)
    requires k < policy.maxAttempts
    ensures
      var t := Joined(hits, sleeps, calls, Attempts(cfg, policy, m, optIn, env, k, b));
      match OneAttempt(cfg, policy, m, optIn, env(k), k + 1 >= policy.maxAttempts, b)
      case Refuse(b') => t == Trace(CircuitOpen, b', hits, sleeps, calls + [Refused])
      case Finish(b', result, success) =>
        t == Trace(result, b', hits + 1, sleeps, calls + [Admitted, Reported(success)])
      case Retry(b') =>
        t == Joined(hits + 1, sleeps + [DelayAfter(policy, env(k), k)], calls + [Admitted, Reported(false)],
                    Attempts(cfg, policy, m, optIn, env, k + 1, b'))
  {
    match OneAttempt(cfg, policy, m, optIn, env(k), k + 1 >= policy.maxAttempts, b)
    case Refuse(_) => JoinedEnd(hits, sleeps, calls, Attempts(cfg, policy, m, optIn, env, k, b));
    case Finish(_, _, _) => JoinedEnd(hits, sleeps, calls, Attempts(cfg, policy, m, optIn, env, k, b));
    case Retry(b') =>
  }

  class ResilientSyncHttpClient {
    const policy: Policy
    const breaker: HttpBreaker.CircuitBreaker

    constructor (policy: Policy, breaker: HttpBreaker.CircuitBreaker)
      requires policy.Valid()
      ensures this.policy == policy && this.breaker == breaker
    {
      this.policy, this.breaker := policy, breaker;
    }

    method Request(m: HttpMethod, optIn: Option<bool>, env: nat -> Attempt)
      returns (result: Result, hits: nat, sleeps: seq<real>, calls: seq<BreakerCall>)
      requires policy.Valid()
      modifies breaker
      ensures Trace(result, breaker.View(), hits, sleeps, calls) ==
              Attempts(breaker.config, policy, m, optIn, env, 0, old(breaker.View()))
    {
      ghost var cfg := breaker.config;
      ghost var whole := Attempts(cfg, policy, m, optIn, env, 0, breaker.View());
      hits, sleeps, calls := 0, [], [];
      JoinedNothing(whole);
      for attempt := 0 to policy.maxAttempts
        invariant attempt < policy.maxAttempts
        invariant whole == Joined(hits, sleeps, calls, Attempts(cfg, policy, m, optIn, env, attempt, breaker.View()))
      {
        var a, isLast := env(attempt), attempt >= policy.maxAttempts - 1;
        UnfoldAttempt(cfg, policy, m, optIn, env, attempt, breaker.View(), hits, sleeps, calls);
        ghost var verdict := OneAttempt(cfg, policy, m, optIn, a, isLast, breaker.View());
        var admitted := breaker.BeforeCall(a.beforeAt);
        if !admitted {
          assert verdict == Refuse(breaker.View());
          return CircuitOpen, hits, sleeps, calls + [Refused];
        }
        if a.outcome.Raise? {
          breaker.AfterCall(a.checkedAt, a.afterAt, false);
          if !a.outcome.retryable || isLast {
            assert verdict == Finish(breaker.View(), RetryExhausted(None), false);
            return RetryExhausted(None), hits + 1, sleeps, calls + [Admitted, Reported(false)];
          }
          assert verdict == Retry(breaker.View());
          var delay := CalculateDelay(policy, attempt, None, a.drawn);
          hits, sleeps, calls := hits + 1, sleeps + [delay], calls + [Admitted, Reported(false)];
          continue;
        }
        if a.outcome.IsSuccess() {
          breaker.AfterCall(a.checkedAt, a.afterAt, true);
          assert verdict == Finish(breaker.View(), Returned(a.outcome.status), true);
          return Returned(a.outcome.status), hits + 1, sleeps, calls + [Admitted, Reported(true)];
        }
        var retryableStatus := a.outcome.status in policy.retryableStatusCodes;
        var allowed := if optIn.Some? then optIn.value else policy.allowRetryNonIdempotent;
        breaker.AfterCall(a.checkedAt, a.afterAt, false);
        if !retryableStatus || (!IsIdempotent(m) && !allowed) || isLast {
          assert verdict == Finish(breaker.View(), RetryExhausted(Some(a.outcome.status)), false);
          return RetryExhausted(Some(a.outcome.status)), hits + 1, sleeps, calls + [Admitted, Reported(false)];
        }
        assert verdict == Retry(breaker.View());
        var delay := CalculateDelay(policy, attempt, a.outcome.retryAfter, a.drawn);
        hits, sleeps, calls := hits + 1, sleeps + [delay], calls + [Admitted, Reported(false)];
      }
      assert false;
    }
  }

  /******* Properties of a request *******/

  /** Every admitted call is reported exactly once, before the next one; a refusal ends the request. */
  ghost predicate ReportedOnce(calls: seq<BreakerCall>, hits: nat, refused: bool)
    decreases hits
  {
    if hits == 0 then calls == if refused then [Refused] else []
    else |calls| >= 2 && calls[0] == Admitted && calls[1].Reported? && ReportedOnce(calls[2..], hits - 1, refused)
  }

  lemma {:induction false} AdmissionsAreReported(cfg: HttpBreaker.Config, policy: Policy, m: HttpMethod,
                                                 optIn: Option<bool>,
                                                 env: nat -> Attempt, k: nat, b: HttpBreaker.Breaker)
    requires k < policy.maxAttempts
    ensures
      var t := Attempts(cfg, policy, m, optIn, env, k, b);
      && ReportedOnce(t.calls, t.hits, t.result == CircuitOpen)
      && t.hits <= policy.maxAttempts - k
      && |t.sleeps| == (if t.result == CircuitOpen then t.hits else t.hits - 1)
    decreases policy.maxAttempts - k
  {
    match OneAttempt(cfg, policy, m, optIn, env(k), k + 1 >= policy.maxAttempts, b)
    case Refuse(_) =>
    case Finish(_, _, success) =>
      assert [Admitted, Reported(success)] + [] == [Admitted, Reported(success)];
    case Retry(b') =>
      AdmissionsAreReported(cfg, policy, m, optIn, env, k + 1, b');
      var rest := Attempts(cfg, policy, m, optIn, env, k + 1, b');
  }

  predicate Fails(env: nat -> Attempt, k: nat) {
    !env(k).outcome.IsSuccess()
  }

  /** The port is hit again only after a failure that may be retried; the last hit decides how the request ends. */
  lemma {:induction false} OnlyRetryableFailuresAreRetried(cfg: HttpBreaker.Config, policy: Policy, m: HttpMethod,
                                                           optIn: Option<bool>,
                                                           env: nat -> Attempt, k: nat, b: HttpBreaker.Breaker)
    requires k < policy.maxAttempts
    ensures
      var t := Attempts(cfg, policy, m, optIn, env, k, b);
      && (forall i :: k <= i < k + (if t.result == CircuitOpen then t.hits else t.hits - 1) ==>
            Fails(env, i) && MayRetry(policy, m, optIn, env(i).outcome))
      && (t.result != CircuitOpen ==>
            var last := env(k + t.hits - 1).outcome;
            if last.IsSuccess() then t.result == Returned(last.status)
            else
              t.result == RetryExhausted(StatusOf(last)) &&
              (!MayRetry(policy, m, optIn, last) || k + t.hits == policy.maxAttempts))
    decreases policy.maxAttempts - k
  {
    var verdict := OneAttempt(cfg, policy, m, optIn, env(k), k + 1 >= policy.maxAttempts, b);
    if verdict.Retry? {
      OnlyRetryableFailuresAreRetried(cfg, policy, m, optIn, env, k + 1, verdict.breaker);
      assert Fails(env, k);
    }
  }

  /** The breaker before attempt k if every attempt before it was admitted and failed. */
  function BreakerBefore(cfg: HttpBreaker.Config, env: nat -> Attempt, b: HttpBreaker.Breaker, k: nat):
    HttpBreaker.Breaker
  {
    if k == 0 then b
    else
      var a, before := env(k - 1), BreakerBefore(cfg, env, b, k - 1);
      HttpBreaker.Recorded(cfg, HttpBreaker.Admission(cfg, before, a.beforeAt).0, a.checkedAt, a.afterAt, false)
  }

  /** The breaker then admits attempt k. */
  predicate Admits(cfg: HttpBreaker.Config, env: nat -> Attempt, b: HttpBreaker.Breaker, k: nat) {
    HttpBreaker.Admission(cfg, BreakerBefore(cfg, env, b, k), env(k).beforeAt).1
  }

  /** From attempt k on, the attempts made are those that the breaker admits and that follow a failure which may be
      retried, as long as attempts are left. */
  lemma {:induction false} AttemptsGoOnIff(cfg: HttpBreaker.Config, policy: Policy, m: HttpMethod, optIn: Option<bool>,
                                           env: nat -> Attempt, b: HttpBreaker.Breaker, before: HttpBreaker.Breaker,
                                           k: nat, n: nat, i: nat)
    requires k < policy.maxAttempts && k <= i && before == BreakerBefore(cfg, env, b, k)
    requires n == k + Attempts(cfg, policy, m, optIn, env, k, before).hits
    ensures n > k <==> Admits(cfg, env, b, k)
    ensures n > i ==>
              (n > i + 1 <==>
               && i + 1 < policy.maxAttempts && Admits(cfg, env, b, i + 1)
               && Fails(env, i) && MayRetry(policy, m, optIn, env(i).outcome))
    decreases policy.maxAttempts - k
  {
    var verdict := OneAttempt(cfg, policy, m, optIn, env(k), k + 1 >= policy.maxAttempts, before);
    if verdict.Retry? {
      assert verdict.breaker == BreakerBefore(cfg, env, b, k + 1);
      AttemptsGoOnIff(cfg, policy, m, optIn, env, b, verdict.breaker, k + 1, n, if i == k then k + 1 else i);
    }
  }

  /** When a request that has been sent i + 1 times is sent once more: attempts are left, the breaker admits it, and the
      last time the port raised a retryable exception, or answered a status outside 200 to 299 that the policy lists, to
      GET, HEAD, OPTIONS, or any other method that the caller or, without a word from the caller, the policy opts in. */
  lemma SentAgainIff(cfg: HttpBreaker.Config, policy: Policy, m: HttpMethod, optIn: Option<bool>, env: nat -> Attempt,
                     b: HttpBreaker.Breaker, i: nat)
    requires policy.Valid() && Attempts(cfg, policy, m, optIn, env, 0, b).hits > i
    ensures
      Attempts(cfg, policy, m, optIn, env, 0, b).hits > i + 1 <==>
        && i + 1 < policy.maxAttempts && Admits(cfg, env, b, i + 1)
        && match env(i).outcome
           case Raise(retryable) => retryable
           case Answer(status, _) =>
             && (status < 200 || status >= 300) && status in policy.retryableStatusCodes
             && match m
                case GET => true
                case HEAD => true
                case OPTIONS => true
                case POST => optIn == Some(true) || (optIn == None && policy.allowRetryNonIdempotent)
                case PUT => optIn == Some(true) || (optIn == None && policy.allowRetryNonIdempotent)
                case PATCH => optIn == Some(true) || (optIn == None && policy.allowRetryNonIdempotent)
                case DELETE => optIn == Some(true) || (optIn == None && policy.allowRetryNonIdempotent)
                case UNRECOGNISED => optIn == Some(true) || (optIn == None && policy.allowRetryNonIdempotent)
  {
    AttemptsGoOnIff(cfg, policy, m, optIn, env, b, b, 0, Attempts(cfg, policy, m, optIn, env, 0, b).hits, i);
  }

  /** How a request ends after n attempts in all: the breaker refuses the next one, or the last answer or exception
      decides. */
  ghost predicate EndsAfter(cfg: HttpBreaker.Config, env: nat -> Attempt, b: HttpBreaker.Breaker, n: nat,
                            result: Result, breaker: HttpBreaker.Breaker)
  {
    if n == 0 || result == CircuitOpen then
      && result == CircuitOpen && !Admits(cfg, env, b, n)
      && breaker == HttpBreaker.Admission(cfg, BreakerBefore(cfg, env, b, n), env(n).beforeAt).0
    else
      var a, before := env(n - 1), BreakerBefore(cfg, env, b, n - 1);
      && breaker == HttpBreaker.Recorded(cfg, HttpBreaker.Admission(cfg, before, a.beforeAt).0, a.checkedAt, a.afterAt,
                                         result.Returned?)
      && match a.outcome
         case Raise(_) => result == RetryExhausted(None)
         case Answer(status, _) =>
           result == if 200 <= status < 300 then Returned(status) else RetryExhausted(Some(status))
  }

  lemma LastAttemptEnds(cfg: HttpBreaker.Config, policy: Policy, m: HttpMethod, optIn: Option<bool>,
                        env: nat -> Attempt, b: HttpBreaker.Breaker, k: nat, isLast: bool)
    ensures
      match OneAttempt(cfg, policy, m, optIn, env(k), isLast, BreakerBefore(cfg, env, b, k))
      case Refuse(b') => EndsAfter(cfg, env, b, k, CircuitOpen, b')
      case Finish(b', result, _) => result != CircuitOpen && EndsAfter(cfg, env, b, k + 1, result, b')
      case Retry(b') => b' == BreakerBefore(cfg, env, b, k + 1)
  {
  }

  lemma {:induction false} AttemptsEnd(cfg: HttpBreaker.Config, policy: Policy, m: HttpMethod, optIn: Option<bool>,
                                       env: nat -> Attempt, b: HttpBreaker.Breaker, before: HttpBreaker.Breaker,
                                       k: nat, n: nat)
    requires k < policy.maxAttempts && before == BreakerBefore(cfg, env, b, k)
    requires n == k + Attempts(cfg, policy, m, optIn, env, k, before).hits
    ensures n <= policy.maxAttempts
    ensures
      var t := Attempts(cfg, policy, m, optIn, env, k, before);
      EndsAfter(cfg, env, b, n, t.result, t.breaker)
    decreases policy.maxAttempts - k
  {
    LastAttemptEnds(cfg, policy, m, optIn, env, b, k, k + 1 >= policy.maxAttempts);
    var verdict := OneAttempt(cfg, policy, m, optIn, env(k), k + 1 >= policy.maxAttempts, before);
    if verdict.Retry? {
      AttemptsEnd(cfg, policy, m, optIn, env, b, verdict.breaker, k + 1, n);
    } else {
      assert n == if verdict.Finish? then k + 1 else k;
    }
  }

  /** So a request ends. */
  lemma RequestEnds(cfg: HttpBreaker.Config, policy: Policy, m: HttpMethod, optIn: Option<bool>, env: nat -> Attempt,
                    b: HttpBreaker.Breaker)
    requires policy.Valid()
    ensures
      var t := Attempts(cfg, policy, m, optIn, env, 0, b);
      t.hits <= policy.maxAttempts && EndsAfter(cfg, env, b, t.hits, t.result, t.breaker)
  {
    AttemptsEnd(cfg, policy, m, optIn, env, b, b, 0, Attempts(cfg, policy, m, optIn, env, 0, b).hits);
  }

  /** What the breaker is told: each attempt made is admitted and reported once, a success only at the end. */
  lemma {:induction false} CallsMade(cfg: HttpBreaker.Config, policy: Policy, m: HttpMethod, optIn: Option<bool>,
                                     env: nat -> Attempt, k: nat, b: HttpBreaker.Breaker, i: nat)
    requires k < policy.maxAttempts && i < Attempts(cfg, policy, m, optIn, env, k, b).hits
    ensures
      var t := Attempts(cfg, policy, m, optIn, env, k, b);
      && 2 * t.hits <= |t.calls| && t.calls[2 * i] == Admitted
      && t.calls[2 * i + 1] == Reported(i == t.hits - 1 && t.result.Returned?)
    decreases policy.maxAttempts - k
  {
    AdmissionsAreReported(cfg, policy, m, optIn, env, k, b);
    var verdict := OneAttempt(cfg, policy, m, optIn, env(k), k + 1 >= policy.maxAttempts, b);
    if verdict.Retry? {
      var rest := Attempts(cfg, policy, m, optIn, env, k + 1, verdict.breaker);
      var calls := Attempts(cfg, policy, m, optIn, env, k, b).calls;
      assert calls == [Admitted, Reported(false)] + rest.calls;
      if i > 0 {
        CallsMade(cfg, policy, m, optIn, env, k + 1, verdict.breaker, i - 1);
        assert calls[2 * i] == rest.calls[2 * (i - 1)] && calls[2 * i + 1] == rest.calls[2 * (i - 1) + 1];
      } else if rest.hits > 0 {
        CallsMade(cfg, policy, m, optIn, env, k + 1, verdict.breaker, 0);
      }
    }
  }

  /** A method that is neither idempotent nor opted in is never sent again after any response. */
  lemma NoResendAfterResponse(cfg: HttpBreaker.Config, policy: Policy, m: HttpMethod, optIn: Option<bool>,
                              env: nat -> Attempt, b: HttpBreaker.Breaker, i: nat)
    requires policy.Valid() && (m.POST? || m.PUT? || m.PATCH? || m.DELETE? || m.UNRECOGNISED?)
    requires if optIn.Some? then !optIn.value else !policy.allowRetryNonIdempotent
    requires env(i).outcome.Answer?
    ensures Attempts(cfg, policy, m, optIn, env, 0, b).hits <= i + 1
  {
    OnlyRetryableFailuresAreRetried(cfg, policy, m, optIn, env, 0, b);
    AdmissionsAreReported(cfg, policy, m, optIn, env, 0, b);
    var t := Attempts(cfg, policy, m, optIn, env, 0, b);
    assert i < t.hits - 1 ==> MayRetry(policy, m, optIn, env(i).outcome);
  }

  /** Such a method is documented not to be retried. It is sent a second time if and only if attempts are left, the
      first one raised a retryable exception, and the breaker admits the second. */
  lemma ResentIff(cfg: HttpBreaker.Config, policy: Policy, m: HttpMethod, optIn: Option<bool>, env: nat -> Attempt,
                  b: HttpBreaker.Breaker)
    requires policy.Valid() && (m.POST? || m.PUT? || m.PATCH? || m.DELETE? || m.UNRECOGNISED?)
    requires if optIn.Some? then !optIn.value else !policy.allowRetryNonIdempotent
    ensures
      var (before, first) := HttpBreaker.Admission(cfg, b, env(0).beforeAt);
      var after := HttpBreaker.Recorded(cfg, before, env(0).checkedAt, env(0).afterAt, false);
      Attempts(cfg, policy, m, optIn, env, 0, b).hits >= 2 <==>
        policy.maxAttempts > 1 && first && env(0).outcome == Raise(true) &&
          HttpBreaker.Admission(cfg, after, env(1).beforeAt).1
  {
    var (before, first) := HttpBreaker.Admission(cfg, b, env(0).beforeAt);
    var after := HttpBreaker.Recorded(cfg, before, env(0).checkedAt, env(0).afterAt, false);
    if policy.maxAttempts > 1 && first && env(0).outcome == Raise(true) {
      assert OneAttempt(cfg, policy, m, optIn, env(0), false, b) == Retry(after);
    }
  }

  /******* Delays *******/

  lemma {:induction false} Pow2Positive(n: nat)
    ensures Pow2(n) >= 1.0
  {
    if n > 0 {
      Pow2Positive(n - 1);
    }
  }

  ghost predicate HintsNonNegative(env: nat -> Attempt) {
    forall k :: RetryAfterOf(env(k).outcome).Some? ==> RetryAfterOf(env(k).outcome).value >= 0.0
  }

  ghost predicate DrawsInRange(policy: Policy, env: nat -> Attempt) {
    forall k :: InJitterInterval(policy, BaseDelay(policy, k, RetryAfterOf(env(k).outcome)), env(k).drawn)
  }

  lemma BaseDelayBounds(policy: Policy, k: nat, retryAfter: Option<real>)
    requires policy.Valid()
    requires retryAfter.Some? ==> retryAfter.value >= 0.0
    ensures 0.0 <= BaseDelay(policy, k, retryAfter) <= policy.maxDelay
  {
    Pow2Positive(k);
    NonNegativeProduct(policy.baseDelay, Pow2(k));
  }

  /** Without a hint the delay starts at base_delay_s and doubles from attempt to attempt, up to max_delay_s. */
  lemma BackoffDoubles(policy: Policy, k: nat)
    requires policy.Valid()
    ensures BaseDelay(policy, 0, None) == Min(policy.baseDelay, policy.maxDelay)
    ensures BaseDelay(policy, k + 1, None) == Min(2.0 * BaseDelay(policy, k, None), policy.maxDelay)
  {
    assert policy.baseDelay * Pow2(0) == policy.baseDelay;
    assert policy.baseDelay * Pow2(k + 1) == 2.0 * (policy.baseDelay * Pow2(k));
    Pow2Positive(k);
    NonNegativeProduct(policy.baseDelay, Pow2(k));
  }

  ghost predicate WithinCap(policy: Policy, delay: real) {
    0.0 <= delay <= policy.maxDelay * (1.0 + policy.jitterRatio)
  }

  lemma DrawWithinCap(policy: Policy, delay: real, x: real)
    requires policy.Valid() && 0.0 <= delay <= policy.maxDelay && InJitterInterval(policy, delay, x)
    ensures WithinCap(policy, x)
  {
    NonNegativeProduct(policy.maxDelay - delay, 1.0 + policy.jitterRatio);
  }

  /** No delay is negative or exceeds max_delay * (1 + jitter). */
  lemma DelayWithinCap(policy: Policy, k: nat, retryAfter: Option<real>, drawn: real)
    requires policy.Valid()
    requires retryAfter.Some? ==> retryAfter.value >= 0.0
    requires InJitterInterval(policy, BaseDelay(policy, k, retryAfter), drawn)
    ensures WithinCap(policy, CalculateDelay(policy, k, retryAfter, drawn))
  {
    BaseDelayBounds(policy, k, retryAfter);
    DrawWithinCap(policy, BaseDelay(policy, k, retryAfter), drawn);
  }

  /** The i-th sleep is the delay calculated for attempt from + i. */
  ghost predicate CalculatedDelays(policy: Policy, env: nat -> Attempt, from: nat, sleeps: seq<real>) {
    forall i {:trigger sleeps[i]} :: 0 <= i < |sleeps| ==> sleeps[i] == DelayAfter(policy, env(from + i), from + i)
  }

  lemma {:induction false} SleepsAreCalculatedDelays(cfg: HttpBreaker.Config, policy: Policy, m: HttpMethod,
                                                     optIn: Option<bool>,
                                                     env: nat -> Attempt, k: nat, b: HttpBreaker.Breaker)
    requires k < policy.maxAttempts
    ensures CalculatedDelays(policy, env, k, Attempts(cfg, policy, m, optIn, env, k, b).sleeps)
    decreases policy.maxAttempts - k
  {
    var verdict := OneAttempt(cfg, policy, m, optIn, env(k), k + 1 >= policy.maxAttempts, b);
    if verdict.Retry? {
      SleepsAreCalculatedDelays(cfg, policy, m, optIn, env, k + 1, verdict.breaker);
      var sleeps := Attempts(cfg, policy, m, optIn, env, k, b).sleeps;
      var later := Attempts(cfg, policy, m, optIn, env, k + 1, verdict.breaker).sleeps;
      forall i | 0 <= i < |sleeps|
        ensures sleeps[i] == DelayAfter(policy, env(k + i), k + i)
      {
        assert i > 0 ==> sleeps[i] == later[i - 1] == DelayAfter(policy, env(k + 1 + (i - 1)), k + 1 + (i - 1));
      }
    }
  }

  /** The sleep after attempt i: what was drawn, if there is jitter; else the hint, if it is honoured and there is one,
      or base_delay_s doubled i times; neither exceeds max_delay_s. */
  lemma SleepIs(cfg: HttpBreaker.Config, policy: Policy, m: HttpMethod, optIn: Option<bool>, env: nat -> Attempt,
                b: HttpBreaker.Breaker, i: nat)
    requires policy.Valid() && i < |Attempts(cfg, policy, m, optIn, env, 0, b).sleeps|
    ensures
      var slept := Attempts(cfg, policy, m, optIn, env, 0, b).sleeps[i];
      if policy.jitterRatio != 0.0 then slept == env(i).drawn
      else
        match env(i).outcome
        case Answer(_, Some(hint)) =>
          if policy.honorRetryAfter then slept == (if hint <= policy.maxDelay then hint else policy.maxDelay)
          else slept == BaseDelay(policy, i, None)
        case _ => slept == BaseDelay(policy, i, None)
  {
    SleepsAreCalculatedDelays(cfg, policy, m, optIn, env, 0, b);
  }

  /** What may be drawn lies at most delay * jitter_ratio away from the delay. */
  lemma JitterIsDistance(policy: Policy, delay: real, x: real)
    requires policy.Valid() && delay >= 0.0
    ensures InJitterInterval(policy, delay, x) <==>
            -delay * policy.jitterRatio <= x - delay <= delay * policy.jitterRatio
  {
    NonNegativeProduct(delay, 1.0 - policy.jitterRatio);
    assert delay * (1.0 - policy.jitterRatio) == delay - delay * policy.jitterRatio;
    assert delay * (1.0 + policy.jitterRatio) == delay + delay * policy.jitterRatio;
  }

  /** With non-negative Retry-After hints every sleep is between 0 and max_delay * (1 + jitter). */
  lemma SleepsBounded(cfg: HttpBreaker.Config, policy: Policy, m: HttpMethod, optIn: Option<bool>,
                      env: nat -> Attempt, b: HttpBreaker.Breaker, i: nat)
    requires policy.Valid() && HintsNonNegative(env) && DrawsInRange(policy, env)
    requires i < |Attempts(cfg, policy, m, optIn, env, 0, b).sleeps|
    ensures WithinCap(policy, Attempts(cfg, policy, m, optIn, env, 0, b).sleeps[i])
  {
    SleepsAreCalculatedDelays(cfg, policy, m, optIn, env, 0, b);
    DelayWithinCap(policy, i, RetryAfterOf(env(i).outcome), env(i).drawn);
  }

  /******* Composition with the breaker *******/

  /** Every attempt fails in a way the client would retry. */
  ghost predicate AlwaysFailsRetryably(policy: Policy, m: HttpMethod, optIn: Option<bool>, env: nat -> Attempt) {
    forall k :: Fails(env, k) && MayRetry(policy, m, optIn, env(k).outcome)
  }

  /** Started CLOSED with some failures left before the trip, a request whose every attempt fails retryably hits the
      port min(max_attempts, left) times, exactly when the first before_call after the trip (if there is one) comes
      within the recovery timeout; it ends in RetryExhausted if the attempts run out first, else in CircuitOpen. */
  lemma {:induction false} HitsUntilTripped(cfg: HttpBreaker.Config, policy: Policy, m: HttpMethod, optIn: Option<bool>,
                                            env: nat -> Attempt, k: nat, b: HttpBreaker.Breaker)
    requires cfg.Valid() && k < policy.maxAttempts && AlwaysFailsRetryably(policy, m, optIn, env)
    requires b.state == Closed && b.consecutiveFailures < cfg.failureThreshold
    ensures
      var t := Attempts(cfg, policy, m, optIn, env, k, b);
      var attempts := policy.maxAttempts - k;
      var left := cfg.failureThreshold - b.consecutiveFailures;
      if attempts <= left then
        t.hits == attempts && t.result == RetryExhausted(StatusOf(env(policy.maxAttempts - 1).outcome))
      else if env(k + left).beforeAt - env(k + left - 1).afterAt < cfg.recoveryTimeout then
        t.hits == left && t.result == CircuitOpen
      else
        t.hits > left
    decreases policy.maxAttempts - k
  {
    var a := env(k);
    assert Fails(env, k);
    var b2 := HttpBreaker.Recorded(cfg, b, a.checkedAt, a.afterAt, false);
    if k + 1 < policy.maxAttempts {
      assert OneAttempt(cfg, policy, m, optIn, a, false, b) == Retry(b2);
      if b2.state == Closed {
        HitsUntilTripped(cfg, policy, m, optIn, env, k + 1, b2);
      } else {
        assert b2 == HttpBreaker.TransitionedTo(Open, a.afterAt);
        assert Fails(env, k + 1);
      }
    }
  }
}
