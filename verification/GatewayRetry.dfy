/** The retry budget of the LLM gateway client, and the structured-output rounds on top of it. */
module GatewayRetry {
  import opened Prelude
  import opened Reals

  datatype RetryPolicy = RetryPolicy(maxAttempts: int, initialBackoff: real, maxBackoff: real, totalTimeout: real)

  /** What the port does on one call; Raised is any other exception, which is not caught. */
  datatype Answer =
    | Reply(text: string)
    | RateLimited(retryAfter: Option<real>)
    | Transient
    | Raised

  /** One port call and how long it takes. */
  datatype Call = Call(answer: Answer, duration: real)

  datatype Result =
    | Replied(text: string)
    | RetryExhausted(attempts: int)
    | Propagated
    | InvalidSleep            // time.sleep refuses a negative length

  /** A finished call: its result, when each attempt started (counted from the first), the sleeps between them, and
      when it ended. */
  datatype Trace = Trace(result: Result, starts: seq<real>, sleeps: seq<real>, end: real)

  /** The provider asked for a wait; a hint of zero counts as none. */
  predicate Hinted(answer: Answer) {
    answer.RateLimited? && answer.retryAfter.Some? && answer.retryAfter.value != 0.0
  }

  function HintOr(answer: Answer, delay: real): real {
    if Hinted(answer) then answer.retryAfter.value else delay
  }

  function SleepFor(policy: RetryPolicy, answer: Answer, delay: real): real {
    Min(HintOr(answer, delay), policy.maxBackoff)
  }

  function NextDelay(policy: RetryPolicy, delay: real): real {
    Min(delay * 2.0, policy.maxBackoff)
  }

  /** Whether the loop ends after a retryable failure at this moment instead of sleeping. */
  predicate OutOfTime(policy: RetryPolicy, now: real, sleep: real) {
    now >= policy.totalTimeout || now + sleep > policy.totalTimeout
  }

  /** The rest of a call from attempt k on: started counts from the first attempt, delay is the current back-off. */
  function Attempts(policy: RetryPolicy, env: nat -> Call, k: nat, started: real, delay: real): Trace
    decreases policy.maxAttempts - k
  {
    if k >= policy.maxAttempts then Trace(RetryExhausted(k), [], [], started)
    else
      var answer, now := env(k).answer, started + env(k).duration;
      var sleep := SleepFor(policy, answer, delay);
      match answer
      case Reply(text) => Trace(Replied(text), [started], [], now)
      case Raised => Trace(Propagated, [started], [], now)
      case _ =>
        if OutOfTime(policy, now, sleep) then Trace(RetryExhausted(k + 1), [started], [], now)
        else if sleep < 0.0 then Trace(InvalidSleep, [started], [], now)
        else Before(started, sleep, Attempts(policy, env, k + 1, now + sleep, NextDelay(policy, delay)))
  }

  function Before(start: real, sleep: real, rest: Trace): Trace {
    Trace(rest.result, [start] + rest.starts, [sleep] + rest.sleeps, rest.end)
  }

  function After(starts: seq<real>, sleeps: seq<real>, rest: Trace): Trace {
    Trace(rest.result, starts + rest.starts, sleeps + rest.sleeps, rest.end)
  }

  lemma AfterBefore(starts: seq<real>, sleeps: seq<real>, start: real, sleep: real, rest: Trace)
    ensures After(starts, sleeps, Before(start, sleep, rest)) == After(starts + [start], sleeps + [sleep], rest)
  {
    assert starts + ([start] + rest.starts) == (starts + [start]) + rest.starts;
    assert sleeps + ([sleep] + rest.sleeps) == (sleeps + [sleep]) + rest.sleeps;
  }

  lemma AfterLast(starts: seq<real>, sleeps: seq<real>, rest: Trace)
    requires rest.sleeps == []
    ensures After(starts, sleeps, rest) == Trace(rest.result, starts + rest.starts, sleeps, rest.end)
  {
    assert sleeps + [] == sleeps;
  }

  /** What one attempt adds to what came before it. */
  lemma UnfoldAttempt(policy: RetryPolicy, env: nat -> Call, k: nat, started: real, delay: real, starts: seq<real>,
                      sleeps: seq<real>)
    requires k < policy.maxAttempts
    ensures
      var t := After(starts, sleeps, Attempts(policy, env, k, started, delay));
      var now, sleep := started + env(k).duration, SleepFor(policy, env(k).answer, delay);
      match env(k).answer
      case Reply(text) => t == Trace(Replied(text), starts + [started], sleeps, now)
      case Raised => t == Trace(Propagated, starts + [started], sleeps, now)
      case _ =>
        if OutOfTime(policy, now, sleep) then t == Trace(RetryExhausted(k + 1), starts + [started], sleeps, now)
        else if sleep < 0.0 then t == Trace(InvalidSleep, starts + [started], sleeps, now)
        else
          t == After(starts + [started], sleeps + [sleep],
                     Attempts(policy, env, k + 1, now + sleep, NextDelay(policy, delay)))
  {
    var now, sleep := started + env(k).duration, SleepFor(policy, env(k).answer, delay);
    if Sleeps(policy, env(k).answer, now, sleep) {
      AfterBefore(starts, sleeps, started, sleep, Attempts(policy, env, k + 1, now + sleep, NextDelay(policy, delay)));
    } else {
      AfterLast(starts, sleeps, Attempts(policy, env, k, started, delay));
    }
  }

  predicate Retryable(answer: Answer) {
    answer.RateLimited? || answer.Transient?
  }

  /** The loop sleeps and goes on. */
  predicate Sleeps(policy: RetryPolicy, answer: Answer, now: real, sleep: real) {
    Retryable(answer) && !OutOfTime(policy, now, sleep) && sleep >= 0.0
  }

  function WholeCall(policy: RetryPolicy, env: nat -> Call): Trace {
    Attempts(policy, env, 0, 0.0, policy.initialBackoff)
  }

  /******* Structured output *******/

  /** The system message of a round: a repair message carries the text that the round before gave. */
  datatype Prompt = Prompt(repair: bool, previous: Option<string>)

  datatype StructuredResult =
    | Validated(text: string, attempts: int)
    | StructuredOutputError
    | CallFailed(result: Result)

  datatype Conversation = Conversation(result: StructuredResult, calls: nat, prompts: seq<Prompt>)

  function MaxRepairs(configured: int): nat {
    if 1 >= configured then 1 else configured
  }

  function Continued(calls: nat, prompts: seq<Prompt>, rest: Conversation): Conversation {
    Conversation(rest.result, calls + rest.calls, prompts + rest.prompts)
  }

  function Structured(policy: RetryPolicy, maxRepairs: nat, port: (nat, Prompt) -> (nat -> Call), valid: string -> bool,
                      k: nat, previous: Option<string>): Conversation
    requires k <= maxRepairs
    decreases maxRepairs - k
  {
    var prompt := Prompt(k > 0, previous);
    var t := WholeCall(policy, port(k, prompt));
    if !t.result.Replied? then Conversation(CallFailed(t.result), |t.starts|, [prompt])
    else if valid(t.result.text) then Conversation(Validated(t.result.text, k + 1), |t.starts|, [prompt])
    else if k == maxRepairs then Conversation(StructuredOutputError, |t.starts|, [prompt])
    else Continued(|t.starts|, [prompt], Structured(policy, maxRepairs, port, valid, k + 1, Some(t.result.text)))
  }

  /** What one round adds to what came before it. */
  lemma UnfoldRound(policy: RetryPolicy, maxRepairs: nat, port: (nat, Prompt) -> (nat -> Call), valid: string -> bool,
                    k: nat, previous: Option<string>, calls: nat, prompts: seq<Prompt>)
    requires k <= maxRepairs
    ensures
      var c := Continued(calls, prompts, Structured(policy, maxRepairs, port, valid, k, previous));
      var prompt := Prompt(k > 0, previous);
      var t := WholeCall(policy, port(k, prompt));
      var calls', prompts' := calls + |t.starts|, prompts + [prompt];
      if !t.result.Replied? then c == Conversation(CallFailed(t.result), calls', prompts')
      else if valid(t.result.text) then c == Conversation(Validated(t.result.text, k + 1), calls', prompts')
      else if k == maxRepairs then c == Conversation(StructuredOutputError, calls', prompts')
      else c == Continued(calls', prompts', Structured(policy, maxRepairs, port, valid, k + 1, Some(t.result.text)))
  {
    var prompt := Prompt(k > 0, previous);
    var t := WholeCall(policy, port(k, prompt));
    if t.result.Replied? && !valid(t.result.text) && k < maxRepairs {
      var later := Structured(policy, maxRepairs, port, valid, k + 1, Some(t.result.text));
      assert prompts + ([prompt] + later.prompts) == (prompts + [prompt]) + later.prompts;
    }
  }

  class LlmGatewaySyncClient {
    const policy: RetryPolicy
    const maxRepairAttempts: int

    constructor (policy: RetryPolicy, maxRepairAttempts: int)
      ensures this.policy == policy && this.maxRepairAttempts == maxRepairAttempts
    {
      this.policy, this.maxRepairAttempts := policy, maxRepairAttempts;
    }

    method CallWithRetry(env: nat -> Call) returns (result: Result, starts: seq<real>, sleeps: seq<real>, end: real)
      ensures Trace(result, starts, sleeps, end) == WholeCall(policy, env)
    {
      var attempts: nat, delay, clock := 0, policy.initialBackoff, 0.0;
      starts, sleeps := [], [];
      ghost var whole := WholeCall(policy, env);
      assert whole == After([], [], whole) by {
        assert [] + whole.starts == whole.starts && [] + whole.sleeps == whole.sleeps;
      }
      while attempts < policy.maxAttempts
        invariant whole == After(starts, sleeps, Attempts(policy, env, attempts, clock, delay))
      {
        UnfoldAttempt(policy, env, attempts, clock, delay, starts, sleeps);
        var call := env(attempts);
        attempts := attempts + 1;
        starts, clock := starts + [clock], clock + call.duration;
        match call.answer {
          case Reply(text) =>
            return Replied(text), starts, sleeps, clock;
          case Raised =>
            return Propagated, starts, sleeps, clock;
          case _ =>
        }
        var sleepFor := if Hinted(call.answer) then call.answer.retryAfter.value else delay;
        sleepFor := Min(sleepFor, policy.maxBackoff);
        if clock >= policy.totalTimeout || clock + sleepFor > policy.totalTimeout {
          return RetryExhausted(attempts), starts, sleeps, clock;
        }
        if sleepFor < 0.0 {
          return InvalidSleep, starts, sleeps, clock;
        }
        sleeps, clock := sleeps + [sleepFor], clock + sleepFor;
        delay := Min(delay * 2.0, policy.maxBackoff);
      }
      AfterLast(starts, sleeps, Attempts(policy, env, attempts, clock, delay));
      assert starts + [] == starts;
      return RetryExhausted(attempts), starts, sleeps, clock;
    }

    /** port gives the provider's behaviour in a round for the system message the round is asked with; valid says
        whether a text parses and meets the schema. calls counts the port calls of all rounds. */
    method CompleteStructured(port: (nat, Prompt) -> (nat -> Call), valid: string -> bool)
      returns (result: StructuredResult, calls: nat, prompts: seq<Prompt>)
      ensures Conversation(result, calls, prompts) ==
              Structured(policy, MaxRepairs(maxRepairAttempts), port, valid, 0, None)
    {
      var attempts: nat, lastRawOutput := 0, None;
      calls, prompts := 0, [];
      var maxRepairs := if 1 >= maxRepairAttempts then 1 else maxRepairAttempts;
      ghost var whole := Structured(policy, maxRepairs, port, valid, 0, None);
      assert [] + whole.prompts == whole.prompts;
      while attempts <= maxRepairs
        invariant attempts <= maxRepairs
        invariant whole ==
                  Continued(calls, prompts, Structured(policy, maxRepairs, port, valid, attempts, lastRawOutput))
      {
        UnfoldRound(policy, maxRepairs, port, valid, attempts, lastRawOutput, calls, prompts);
        var prompt := Prompt(attempts > 0, lastRawOutput);
        prompts := prompts + [prompt];
        ghost var t := WholeCall(policy, port(attempts, prompt));
        var response, starts, sleeps, end := CallWithRetry(port(attempts, prompt));
        assert response == t.result && starts == t.starts;
        calls := calls + |starts|;
        if !response.Replied? {
          return CallFailed(response), calls, prompts;
        }
        lastRawOutput := Some(response.text);
        if valid(response.text) {
          return Validated(response.text, attempts + 1), calls, prompts;
        }
        attempts := attempts + 1;
        if attempts > maxRepairs {
          break;
        }
      }
      return StructuredOutputError, calls, prompts;
    }
  }

  /******* Back-off *******/

  predicate NonNegative(policy: RetryPolicy) {
    policy.initialBackoff >= 0.0 && policy.maxBackoff >= 0.0
  }

  /** The back-off before the k-th sleep. */
  function DelayAt(policy: RetryPolicy, k: nat): real {
    if k == 0 then policy.initialBackoff else NextDelay(policy, DelayAt(policy, k - 1))
  }

  lemma MinDoubles(x: real, y: real, m: real)
    requires x >= 0.0 && y >= 0.0 && m >= 0.0 && Min(x, m) == Min(y, m)
    ensures Min(Min(x * 2.0, m), m) == Min(y * 2.0, m)
  {
  }

  function Doubled(x: real, k: nat): real {
    if k == 0 then x else Doubled(x, k - 1) * 2.0
  }

  lemma {:induction false} DoubledIsPow2(x: real, k: nat)
    ensures Doubled(x, k) == x * Pow2(k)
  {
    if k > 0 {
      DoubledIsPow2(x, k - 1);
      assert x * (2.0 * Pow2(k - 1)) == (x * Pow2(k - 1)) * 2.0;
    }
  }

  lemma {:induction false} DelayDoubles(policy: RetryPolicy, k: nat)
    requires NonNegative(policy)
    ensures Min(DelayAt(policy, k), policy.maxBackoff) == Min(Doubled(policy.initialBackoff, k), policy.maxBackoff)
    ensures DelayAt(policy, k) >= 0.0 && Doubled(policy.initialBackoff, k) >= 0.0
  {
    if k > 0 {
      DelayDoubles(policy, k - 1);
      MinDoubles(DelayAt(policy, k - 1), Doubled(policy.initialBackoff, k - 1), policy.maxBackoff);
    }
  }

  lemma {:induction false} SleepsFrom(policy: RetryPolicy, env: nat -> Call, k: nat, started: real, i: nat)
    requires i < |Attempts(policy, env, k, started, DelayAt(policy, k)).sleeps|
    ensures Attempts(policy, env, k, started, DelayAt(policy, k)).sleeps[i] ==
              SleepFor(policy, env(k + i).answer, DelayAt(policy, k + i))
    ensures Attempts(policy, env, k, started, DelayAt(policy, k)).sleeps[i] >= 0.0 && Retryable(env(k + i).answer)
    decreases i
  {
    if i > 0 {
      var answer, now := env(k).answer, started + env(k).duration;
      var sleep := SleepFor(policy, answer, DelayAt(policy, k));
      SleepsFrom(policy, env, k + 1, now + sleep, i - 1);
      assert DelayAt(policy, k + 1) == NextDelay(policy, DelayAt(policy, k));
    }
  }

  /** The sleep after i earlier failures: without a hint min(initial doubled i times, max_backoff), with one min(hint,
      max_backoff); so the provider's wish is met exactly when it is at most max_backoff. */
  lemma SleepLength(policy: RetryPolicy, env: nat -> Call, i: nat)
    requires NonNegative(policy) && i < |WholeCall(policy, env).sleeps|
    ensures
      var sleep, answer := WholeCall(policy, env).sleeps[i], env(i).answer;
      && 0.0 <= sleep <= policy.maxBackoff
      && match answer
         case RateLimited(Some(hint)) =>
           if hint == 0.0 then sleep == Min(Doubled(policy.initialBackoff, i), policy.maxBackoff)
           else sleep == Min(hint, policy.maxBackoff) && (sleep >= hint <==> hint <= policy.maxBackoff)
         case RateLimited(None) => sleep == Min(Doubled(policy.initialBackoff, i), policy.maxBackoff)
         case Transient => sleep == Min(Doubled(policy.initialBackoff, i), policy.maxBackoff)
         case Reply(_) => false
         case Raised => false
  {
    SleepsFrom(policy, env, 0, 0.0, i);
    DelayDoubles(policy, i);
  }

  /******* How a call runs *******/

  ghost predicate TakesTime(env: nat -> Call) {
    forall k :: env(k).duration >= 0.0
  }

  /** Sleep i followed a retryable failure of attempt i, and the next attempt, or the end, came when it was over,
      within the time budget. */
  ghost predicate SleptInTime(policy: RetryPolicy, env: nat -> Call, t: Trace, k: nat, i: nat)
    requires i < |t.sleeps|
  {
    && i < |t.starts| && Retryable(env(k + i).answer) && t.sleeps[i] >= 0.0
    && var woken := t.starts[i] + env(k + i).duration + t.sleeps[i];
       woken <= policy.totalTimeout && woken == if i + 1 < |t.starts| then t.starts[i + 1] else t.end
  }

  ghost predicate Timed(policy: RetryPolicy, env: nat -> Call, t: Trace, k: nat, started: real) {
    && (if t.starts == [] then t.sleeps == [] && t.end == started else t.starts[0] == started)
    && forall i :: 0 <= i < |t.sleeps| ==> SleptInTime(policy, env, t, k, i)
  }

  lemma TimedBefore(policy: RetryPolicy, env: nat -> Call, k: nat, started: real, sleep: real, rest: Trace)
    requires
      var now := started + env(k).duration;
      Sleeps(policy, env(k).answer, now, sleep) && Timed(policy, env, rest, k + 1, now + sleep)
    ensures Timed(policy, env, Before(started, sleep, rest), k, started)
  {
    var t := Before(started, sleep, rest);
    forall i | 0 <= i < |t.sleeps| ensures SleptInTime(policy, env, t, k, i) {
      if i > 0 {
        assert SleptInTime(policy, env, rest, k + 1, i - 1);
      }
    }
  }

  lemma {:induction false} RunsAsTimed(policy: RetryPolicy, env: nat -> Call, k: nat, started: real, delay: real)
    ensures Timed(policy, env, Attempts(policy, env, k, started, delay), k, started)
    decreases policy.maxAttempts - k
  {
    if k < policy.maxAttempts {
      var now, sleep := started + env(k).duration, SleepFor(policy, env(k).answer, delay);
      if Sleeps(policy, env(k).answer, now, sleep) {
        RunsAsTimed(policy, env, k + 1, now + sleep, NextDelay(policy, delay));
        TimedBefore(policy, env, k, started, sleep,
                    Attempts(policy, env, k + 1, now + sleep, NextDelay(policy, delay)));
      }
    }
  }

  /******* The time budget *******/

  lemma {:induction false} SleptByThen(policy: RetryPolicy, env: nat -> Call, t: Trace, i: nat)
    requires TakesTime(env) && Timed(policy, env, t, 0, 0.0) && i <= |t.sleeps| && t.starts != []
    ensures 0.0 <= Sum(t.sleeps[..i]) <= if i < |t.starts| then t.starts[i] else t.end
  {
    if i > 0 {
      SleptByThen(policy, env, t, i - 1);
      assert SleptInTime(policy, env, t, 0, i - 1);
      assert Init(t.sleeps[..i]) == t.sleeps[..i - 1];
    }
  }

  /** Over any answers and durations: the sleeps add up to at most total_timeout_seconds, and no attempt starts after
      that deadline. */
  lemma TimeBudget(policy: RetryPolicy, env: nat -> Call, i: nat)
    requires TakesTime(env) && policy.totalTimeout >= 0.0
    ensures
      var t := WholeCall(policy, env);
      && 0.0 <= Sum(t.sleeps) <= policy.totalTimeout
      && (i < |t.starts| ==> 0.0 <= t.starts[i] <= policy.totalTimeout)
  {
    var t := WholeCall(policy, env);
    RunsAsTimed(policy, env, 0, 0.0, policy.initialBackoff);
    if t.starts != [] {
      var n := |t.sleeps|;
      SleptByThen(policy, env, t, n);
      assert t.sleeps[..n] == t.sleeps;
      if n > 0 {
        assert SleptInTime(policy, env, t, 0, n - 1);
      }
    }
    if 0 < i < |t.starts| {
      SleepsPerAttempt(policy, env, 0, 0.0, policy.initialBackoff);
      SleptByThen(policy, env, t, i);
      assert SleptInTime(policy, env, t, 0, i - 1);
    }
  }

  lemma {:induction false} SleepsPerAttempt(policy: RetryPolicy, env: nat -> Call, k: nat, started: real, delay: real)
    ensures
      var t := Attempts(policy, env, k, started, delay);
      && |t.starts| - 1 <= |t.sleeps| <= |t.starts|
      && (if k < policy.maxAttempts then 1 <= |t.starts| <= policy.maxAttempts - k else t.starts == [])
    decreases policy.maxAttempts - k
  {
    if k < policy.maxAttempts {
      var now, sleep := started + env(k).duration, SleepFor(policy, env(k).answer, delay);
      if Sleeps(policy, env(k).answer, now, sleep) {
        SleepsPerAttempt(policy, env, k + 1, now + sleep, NextDelay(policy, delay));
      }
    }
  }

  /******* How a call ends *******/

  /** The ending of a call with n attempts from number k on. */
  ghost predicate Ends(policy: RetryPolicy, env: nat -> Call, t: Trace, k: nat) {
    var n := |t.starts|;
    match t.result
    case Replied(text) => |t.sleeps| == n - 1 && env(k + n - 1).answer == Reply(text)
    case Propagated => |t.sleeps| == n - 1 && env(k + n - 1).answer == Raised
    case InvalidSleep => |t.sleeps| == n - 1 && Retryable(env(k + n - 1).answer)
    case RetryExhausted(attempts) =>
      && attempts == k + n
      && (|t.sleeps| == n ==> k + n >= policy.maxAttempts)
      && (|t.sleeps| != n ==> |t.sleeps| == n - 1 && Retryable(env(k + n - 1).answer) &&
                              OutOfTime(policy, t.end,
                                        SleepFor(policy, env(k + n - 1).answer, DelayAt(policy, k + n - 1))))
  }

  lemma {:induction false} EndsFrom(policy: RetryPolicy, env: nat -> Call, k: nat, started: real)
    ensures Ends(policy, env, Attempts(policy, env, k, started, DelayAt(policy, k)), k)
    decreases policy.maxAttempts - k
  {
    if k < policy.maxAttempts {
      var now, sleep := started + env(k).duration, SleepFor(policy, env(k).answer, DelayAt(policy, k));
      if Sleeps(policy, env(k).answer, now, sleep) {
        EndsFrom(policy, env, k + 1, now + sleep);
        assert DelayAt(policy, k + 1) == NextDelay(policy, DelayAt(policy, k));
      }
    }
  }

  /** What follows attempt i: a sleep if and only if the answer may be retried, the time is not up and the sleep ends in
      time; and another attempt if and only if it slept and one is left. */
  ghost predicate FollowedUp(policy: RetryPolicy, env: nat -> Call, t: Trace, i: nat)
    requires i < |t.starts|
  {
    var answer, now := env(i).answer, t.starts[i] + env(i).duration;
    var sleep := SleepFor(policy, answer, DelayAt(policy, i));
    && (|t.sleeps| > i <==>
        && (answer.RateLimited? || answer.Transient?)
        && now < policy.totalTimeout && now + sleep <= policy.totalTimeout && sleep >= 0.0)
    && (|t.starts| > i + 1 <==> |t.sleeps| > i && i + 1 < policy.maxAttempts)
  }

  /** A reply or an uncaught exception ends the call at once; otherwise it ends because the next sleep does not fit in
      the time, or because the attempts are used up: then it has slept once more after the last failure, in vain. At
      most max_attempts attempts are made, each but the last followed by a sleep. */
  lemma CallEnds(policy: RetryPolicy, env: nat -> Call)
    ensures
      var t := WholeCall(policy, env);
      && Ends(policy, env, t, 0)
      && |t.starts| <= MaxAttempts(policy) && (policy.maxAttempts > 0 ==> |t.starts| > 0)
      && |t.starts| - 1 <= |t.sleeps| <= |t.starts|
      && (forall i :: 0 <= i < |t.sleeps| ==> SleptInTime(policy, env, t, 0, i))
      && (forall i :: 0 <= i < |t.starts| ==> FollowedUp(policy, env, t, i))
  {
    forall i | 0 <= i < |WholeCall(policy, env).starts|
      ensures FollowedUp(policy, env, WholeCall(policy, env), i)
    {
      SleepsIff(policy, env, 0, 0.0, i, i);
    }
    EndsFrom(policy, env, 0, 0.0);
    SleepsPerAttempt(policy, env, 0, 0.0, policy.initialBackoff);
    RunsAsTimed(policy, env, 0, 0.0, policy.initialBackoff);
  }

  /** After attempt i the call sleeps if and only if the port asked to slow down or failed transiently, the time is not
      up, and the sleep, which is not negative, would end in time; then another attempt follows if one is left. */
  lemma {:induction false} SleepsIff(policy: RetryPolicy, env: nat -> Call, k: nat, started: real, i: nat, n: nat)
    requires i < |Attempts(policy, env, k, started, DelayAt(policy, k)).starts| && n == k + i
    ensures
      var t := Attempts(policy, env, k, started, DelayAt(policy, k));
      var answer, now := env(n).answer, t.starts[i] + env(n).duration;
      var sleep := SleepFor(policy, answer, DelayAt(policy, n));
      && (|t.sleeps| > i <==>
          && (answer.RateLimited? || answer.Transient?)
          && now < policy.totalTimeout && now + sleep <= policy.totalTimeout && sleep >= 0.0)
      && (|t.starts| > i + 1 <==> |t.sleeps| > i && n + 1 < policy.maxAttempts)
    decreases i
  {
    var answer, now := env(k).answer, started + env(k).duration;
    var sleep := SleepFor(policy, answer, DelayAt(policy, k));
    assert DelayAt(policy, k + 1) == NextDelay(policy, DelayAt(policy, k));
    var t := Attempts(policy, env, k, started, DelayAt(policy, k));
    var rest := Attempts(policy, env, k + 1, now + sleep, DelayAt(policy, k + 1));
    if i > 0 {
      assert t == Before(started, sleep, rest);
      assert t.starts[i] == rest.starts[i - 1];
      SleepsIff(policy, env, k + 1, now + sleep, i - 1, n);
    } else {
      SleepsPerAttempt(policy, env, k + 1, now + sleep, DelayAt(policy, k + 1));
    }
  }

  function MaxAttempts(policy: RetryPolicy): nat {
    if policy.maxAttempts > 0 then policy.maxAttempts else 0
  }

  /******* Structured mode *******/

  lemma {:induction false} StructuredCallsFrom(policy: RetryPolicy, maxRepairs: nat,
                                               port: (nat, Prompt) -> (nat -> Call),
                                               valid: string -> bool, k: nat, previous: Option<string>)
    requires k <= maxRepairs
    ensures Structured(policy, maxRepairs, port, valid, k, previous).calls <= (maxRepairs + 1 - k) * MaxAttempts(policy)
    decreases maxRepairs - k
  {
    var t := WholeCall(policy, port(k, Prompt(k > 0, previous)));
    CallEnds(policy, port(k, Prompt(k > 0, previous)));
    var m, left := MaxAttempts(policy), maxRepairs - k;
    assert (left + 1) * m == left * m + m;
    if k < maxRepairs && t.result.Replied? && !valid(t.result.text) {
      StructuredCallsFrom(policy, maxRepairs, port, valid, k + 1, Some(t.result.text));
    }
  }

  /** Structured mode makes at most (max(1, repairs) + 1) * max_attempts port calls, whatever comes back. */
  lemma StructuredCallBudget(policy: RetryPolicy, configured: int, port: (nat, Prompt) -> (nat -> Call),
                             valid: string -> bool)
    ensures Structured(policy, MaxRepairs(configured), port, valid, 0, None).calls <=
              (if configured > 1 then configured + 1 else 2) * MaxAttempts(policy)
  {
    StructuredCallsFrom(policy, MaxRepairs(configured), port, valid, 0, None);
  }

  /** Round i replied with this text. */
  ghost predicate RepliedIn(policy: RetryPolicy, port: (nat, Prompt) -> (nat -> Call), c: Conversation, k: nat, i: nat,
                            text: string)
  {
    i < |c.prompts| && WholeCall(policy, port(k + i, c.prompts[i])).result == Replied(text)
  }

  /** Round i but the last replied with an invalid text, and the next prompt asks to repair exactly this text. */
  ghost predicate AskedToRepair(policy: RetryPolicy, port: (nat, Prompt) -> (nat -> Call), valid: string -> bool,
                                c: Conversation, k: nat, i: nat)
  {
    && i + 1 < |c.prompts| && c.prompts[i + 1].repair && c.prompts[i + 1].previous.Some?
    && !valid(c.prompts[i + 1].previous.value) && RepliedIn(policy, port, c, k, i, c.prompts[i + 1].previous.value)
  }

  ghost predicate RoundsGoWell(policy: RetryPolicy, maxRepairs: nat, port: (nat, Prompt) -> (nat -> Call),
                               valid: string -> bool, c: Conversation, k: nat)
  {
    var n := |c.prompts|;
    && 1 <= n <= maxRepairs + 1 - k
    && (forall i :: 0 <= i < n - 1 ==> AskedToRepair(policy, port, valid, c, k, i))
    && match c.result
       case Validated(text, attempts) => attempts == k + n && valid(text) && RepliedIn(policy, port, c, k, n - 1, text)
       case StructuredOutputError =>
         k + n == maxRepairs + 1 && exists text :: !valid(text) && RepliedIn(policy, port, c, k, n - 1, text)
       case CallFailed(result) =>
         !result.Replied? && WholeCall(policy, port(k + n - 1, c.prompts[n - 1])).result == result
  }

  lemma RoundBefore(policy: RetryPolicy, maxRepairs: nat, port: (nat, Prompt) -> (nat -> Call), valid: string -> bool,
                    k: nat, prompt: Prompt, text: string, calls: nat, rest: Conversation)
    requires k < maxRepairs && RoundsGoWell(policy, maxRepairs, port, valid, rest, k + 1)
    requires WholeCall(policy, port(k, prompt)).result == Replied(text) && !valid(text)
    requires rest.prompts[0] == Prompt(true, Some(text))
    ensures RoundsGoWell(policy, maxRepairs, port, valid, Continued(calls, [prompt], rest), k)
  {
    var c := Continued(calls, [prompt], rest);
    var n := |c.prompts|;
    forall i | 0 <= i < n - 1 ensures AskedToRepair(policy, port, valid, c, k, i) {
      if i > 0 {
        assert AskedToRepair(policy, port, valid, rest, k + 1, i - 1);
      }
    }
    assert c.prompts[n - 1] == rest.prompts[n - 2];
    if c.result.StructuredOutputError? {
      var last :| !valid(last) && RepliedIn(policy, port, rest, k + 1, n - 2, last);
      assert RepliedIn(policy, port, c, k, n - 1, last);
    }
  }

  lemma {:induction false} RoundsFrom(policy: RetryPolicy, maxRepairs: nat, port: (nat, Prompt) -> (nat -> Call),
                                      valid: string -> bool, k: nat, previous: Option<string>)
    requires k <= maxRepairs
    ensures
      var c := Structured(policy, maxRepairs, port, valid, k, previous);
      RoundsGoWell(policy, maxRepairs, port, valid, c, k) && c.prompts[0] == Prompt(k > 0, previous)
    decreases maxRepairs - k
  {
    var prompt := Prompt(k > 0, previous);
    var t := WholeCall(policy, port(k, prompt));
    var c := Structured(policy, maxRepairs, port, valid, k, previous);
    if t.result.Replied? {
      if k < maxRepairs && !valid(t.result.text) {
        RoundsFrom(policy, maxRepairs, port, valid, k + 1, Some(t.result.text));
        RoundBefore(policy, maxRepairs, port, valid, k, prompt, t.result.text, |t.starts|,
                    Structured(policy, maxRepairs, port, valid, k + 1, Some(t.result.text)));
      } else {
        assert RepliedIn(policy, port, c, k, 0, t.result.text);
      }
    }
  }

  /** Only a text that is valid is returned, and it is the reply of the last round; each later round asks to repair
      the invalid text that the round before it gave; the error means that all max(1, repairs) + 1 rounds gave an
      invalid text; a failed call ends the conversation. */
  lemma StructuredRounds(policy: RetryPolicy, configured: int, port: (nat, Prompt) -> (nat -> Call),
                         valid: string -> bool)
    ensures
      var c := Structured(policy, MaxRepairs(configured), port, valid, 0, None);
      var allRounds := if configured > 1 then configured + 1 else 2;
      && RoundsGoWell(policy, MaxRepairs(configured), port, valid, c, 0) && c.prompts[0] == Prompt(false, None)
      && |c.prompts| <= allRounds && (c.result == StructuredOutputError ==> |c.prompts| == allRounds)
  {
    RoundsFrom(policy, MaxRepairs(configured), port, valid, 0, None);
  }
}
