/** Running awaitables with a bound on how many are in flight. */
module GatherLimited {
  import opened Prelude

  /******* Schedules *******/

  /** What can happen to a task: it takes a permit and starts its awaitable, or its awaitable completes with a value
      (None is Python's None) and it gives the permit back. */
  datatype Event<T> = Start(task: nat) | Finish(task: nat, value: Option<T>)

  datatype Group<T> = Group(permits: int, waiting: set<nat>, running: set<nat>, results: seq<Option<T>>)

  function Tasks(n: nat): (tasks: set<nat>)
    ensures |tasks| == n && forall i: nat :: i in tasks <==> i < n
  {
    if n == 0 then {} else Tasks(n - 1) + {n - 1}
  }

  function Created<T>(n: nat, concurrency: int): Group<T> {
    Group(concurrency, Tasks(n), {}, seq(n, _ => None))
  }

  predicate Enabled<T>(g: Group<T>, e: Event<T>) {
    match e
    case Start(i) => i in g.waiting && g.permits > 0
    case Finish(i, _) => i in g.running && i < |g.results|
  }

  function After<T>(g: Group<T>, e: Event<T>): Group<T>
    requires Enabled(g, e)
  {
    match e
    case Start(i) => g.(permits := g.permits - 1, waiting := g.waiting - {i}, running := g.running + {i})
    case Finish(i, value) => g.(permits := g.permits + 1, running := g.running - {i}, results := g.results[i := value])
  }

  /** Events still to come: two for a waiting task, one for a running one. */
  function StepsLeft<T>(g: Group<T>): nat {
    2 * |g.waiting| + |g.running|
  }

  predicate Legal<T>(n: nat, concurrency: int, schedule: seq<Event<T>>)
    decreases |schedule|, 0
  {
    schedule == [] ||
    (Legal(n, concurrency, Init(schedule)) && Enabled(StateAfter(n, concurrency, Init(schedule)), Last(schedule)))
  }

  function StateAfter<T>(n: nat, concurrency: int, schedule: seq<Event<T>>): Group<T>
    requires Legal(n, concurrency, schedule)
    decreases |schedule|, 1
  {
    if schedule == [] then Created(n, concurrency)
    else After(StateAfter(n, concurrency, Init(schedule)), Last(schedule))
  }

  predicate Complete<T>(g: Group<T>) {
    g.waiting == {} && g.running == {}
  }

  /** The values that are not None, in order. */
  function Present<T>(results: seq<Option<T>>): seq<T> {
    if results == [] then []
    else Present(Init(results)) + match Last(results) case None => [] case Some(value) => [value]
  }

  /******* The helper *******/

  datatype Outcome<T> = ValueError | Gathered(values: seq<T>)

  /** Each completion in the schedule carries what the awaitable answered at that point. */
  ghost predicate Records<T>(schedule: seq<Event<T>>, answers: (nat, nat) -> Option<T>) {
    forall k :: 0 <= k < |schedule| && schedule[k].Finish? ==> schedule[k].value == answers(schedule[k].task, k)
  }

  /** answers(i, k) is what the awaitable of task i gives when its completion is the k-th event. Which enabled event
      comes next is left open; that some event is enabled until every task is done is what makes the loop legal. The
      schedule that was followed is returned beside the result. */
  method GatherLimited<T>(n: nat, concurrency: int, answers: (nat, nat) -> Option<T>)
    returns (outcome: Outcome<T>, schedule: seq<Event<T>>)
    ensures concurrency <= 0 ==> outcome == ValueError && schedule == []
    ensures concurrency > 0 ==>
              && Legal(n, concurrency, schedule) && Complete(StateAfter(n, concurrency, schedule))
              && outcome == Gathered(Present(StateAfter(n, concurrency, schedule).results))
    ensures Records(schedule, answers)
  {
    schedule := [];
    if concurrency <= 0 {
      return ValueError, [];
    }
    var results := new Option<T>[n](_ => None);
    var permits, waiting, running: set<nat> := concurrency, Tasks(n), {};
    assert results[..] == Created<T>(n, concurrency).results;
    while waiting != {} || running != {}
      invariant LeadsTo(n, concurrency, schedule, Group(permits, waiting, running, results[..]))
      invariant Records(schedule, answers)
      decreases StepsLeft(Group(permits, waiting, running, results[..]))
    {
      ghost var g := Group(permits, waiting, running, results[..]);
      if
      case waiting != {} && permits > 0 =>
        var i :| i in waiting;
        Extend(n, concurrency, schedule, g, Start(i));
        RecordOne(schedule, answers, Start(i));
        permits, waiting, running := permits - 1, waiting - {i}, running + {i};
        schedule := schedule + [Start(i)];
      case running != {} =>
        var i :| i in running;
        var value := answers(i, |schedule|);
        Extend(n, concurrency, schedule, g, Finish(i, value));
        RecordOne(schedule, answers, Finish(i, value));
        results[i] := value;
        permits, running := permits + 1, running - {i};
        schedule := schedule + [Finish(i, value)];
    }
    var values := WithoutNones(results[..]);
    return Gathered(values), schedule;
  }

  method WithoutNones<T>(results: seq<Option<T>>) returns (values: seq<T>)
    ensures values == Present(results)
  {
    values := [];
    for i := 0 to |results|
      invariant values == Present(results[..i])
    {
      assert Init(results[..i + 1]) == results[..i];
      if results[i].Some? {
        values := values + [results[i].value];
      }
    }
    assert results[..|results|] == results;
  }

  /******* Every schedule *******/

  /** Permits and tasks in flight add up to the limit, and no task is in two places. */
  ghost predicate Accounted<T>(n: nat, concurrency: int, g: Group<T>) {
    && |g.results| == n && g.waiting <= Tasks(n) && g.running <= Tasks(n) && g.waiting !! g.running
    && 0 <= g.permits && g.permits + |g.running| == concurrency
  }

  lemma AfterKeepsAccount<T>(n: nat, concurrency: int, g: Group<T>, e: Event<T>)
    requires Accounted(n, concurrency, g) && Enabled(g, e)
    ensures Accounted(n, concurrency, After(g, e))
    ensures StepsLeft(After(g, e)) == StepsLeft(g) - 1
  {
  }

  /** The schedule is legal and leads to this state, with every permit accounted for. */
  ghost predicate LeadsTo<T>(n: nat, concurrency: int, schedule: seq<Event<T>>, g: Group<T>) {
    Legal(n, concurrency, schedule) && StateAfter(n, concurrency, schedule) == g && Accounted(n, concurrency, g)
  }

  /** An enabled event extends a legal schedule by one step and uses up one of the steps that are left. */
  lemma Extend<T>(n: nat, concurrency: int, schedule: seq<Event<T>>, g: Group<T>, e: Event<T>)
    requires LeadsTo(n, concurrency, schedule, g) && Enabled(g, e)
    ensures LeadsTo(n, concurrency, schedule + [e], After(g, e)) && StepsLeft(After(g, e)) == StepsLeft(g) - 1
  {
    assert Init(schedule + [e]) == schedule && Last(schedule + [e]) == e;
    AfterKeepsAccount(n, concurrency, g, e);
  }

  lemma RecordOne<T>(schedule: seq<Event<T>>, answers: (nat, nat) -> Option<T>, e: Event<T>)
    requires Records(schedule, answers) && (e.Finish? ==> e.value == answers(e.task, |schedule|))
    ensures Records(schedule + [e], answers)
  {
  }

  /** At every moment of every schedule at most concurrency awaitables are in flight, the free permits are the rest,
      and each event uses up one of the 2n steps there are: no schedule runs for ever. */
  lemma {:induction false} NeverOverLimit<T>(n: nat, concurrency: int, schedule: seq<Event<T>>)
    requires concurrency > 0 && Legal(n, concurrency, schedule)
    ensures
      var g := StateAfter(n, concurrency, schedule);
      && Accounted(n, concurrency, g) && |g.running| <= concurrency
      && |schedule| + StepsLeft(g) == 2 * n
  {
    if schedule != [] {
      NeverOverLimit(n, concurrency, Init(schedule));
      AfterKeepsAccount(n, concurrency, StateAfter(n, concurrency, Init(schedule)), Last(schedule));
    }
  }

  /** No schedule gets stuck: until every task is done some event can happen. A schedule is complete exactly when it
      has 2n events. */
  lemma NeverStuck<T>(n: nat, concurrency: int, schedule: seq<Event<T>>)
    requires concurrency > 0 && Legal(n, concurrency, schedule)
    ensures
      var g := StateAfter(n, concurrency, schedule);
      && (!Complete(g) ==> exists e :: Enabled(g, e))
      && (Complete(g) <==> |schedule| == 2 * n)
  {
    NeverOverLimit(n, concurrency, schedule);
    var g := StateAfter(n, concurrency, schedule);
    if g.running != {} {
      var i :| i in g.running;
      assert Enabled(g, Finish(i, None));
    } else if g.waiting != {} {
      var i :| i in g.waiting;
      assert Enabled(g, Start(i));
    }
  }

  /** The tasks that are neither waiting nor running have finished, and what is kept for a task is its value. */
  ghost predicate KeepsValues<T>(schedule: seq<Event<T>>, g: Group<T>) {
    && (forall k :: 0 <= k < |schedule| && schedule[k].Finish? ==>
          schedule[k].task < |g.results| && schedule[k].task !in g.waiting + g.running
          && g.results[schedule[k].task] == schedule[k].value)
    && (forall i :: 0 <= i < |g.results| && i !in g.waiting + g.running ==> FinishedIn(schedule, i))
  }

  ghost predicate FinishedIn<T>(schedule: seq<Event<T>>, i: nat) {
    exists k :: 0 <= k < |schedule| && schedule[k].Finish? && schedule[k].task == i
  }

  lemma StepKeepsValues<T>(n: nat, concurrency: int, before: seq<Event<T>>, g: Group<T>, e: Event<T>)
    requires KeepsValues(before, g) && Accounted(n, concurrency, g) && Enabled(g, e)
    ensures KeepsValues(before + [e], After(g, e))
  {
    var schedule, g' := before + [e], After(g, e);
    forall k | 0 <= k < |schedule| && schedule[k].Finish?
      ensures schedule[k].task < |g'.results| && schedule[k].task !in g'.waiting + g'.running
      ensures g'.results[schedule[k].task] == schedule[k].value
    {
      if k < |before| {
        assert schedule[k] == before[k];
      }
    }
    forall i | 0 <= i < |g'.results| && i !in g'.waiting + g'.running
      ensures FinishedIn(schedule, i)
    {
      if e.Finish? && e.task == i {
        assert schedule[|before|] == e;
      } else {
        assert FinishedIn(before, i);
        var k :| 0 <= k < |before| && before[k].Finish? && before[k].task == i;
        assert schedule[k] == before[k];
      }
    }
  }

  lemma {:induction false} ValuesAreKept<T>(n: nat, concurrency: int, schedule: seq<Event<T>>)
    requires concurrency > 0 && Legal(n, concurrency, schedule)
    ensures KeepsValues(schedule, StateAfter(n, concurrency, schedule))
  {
    if schedule != [] {
      var before, e := Init(schedule), Last(schedule);
      ValuesAreKept(n, concurrency, before);
      assert KeepsValues(before + [e], StateAfter(n, concurrency, schedule)) by {
        NeverOverLimit(n, concurrency, before);
        StepKeepsValues(n, concurrency, before, StateAfter(n, concurrency, before), e);
      }
      assert schedule == before + [e];
    }
  }

  /** Every finish of the schedule reports what answer says of its task. */
  ghost predicate AnswersWith<T>(schedule: seq<Event<T>>, answer: nat -> Option<T>) {
    forall k :: 0 <= k < |schedule| && schedule[k].Finish? ==> schedule[k].value == answer(schedule[k].task)
  }

  /** Once every task is done, the results are the awaitables' values in input order, whatever the schedule was. */
  lemma ResultsInInputOrder<T>(n: nat, concurrency: int, schedule: seq<Event<T>>, answer: nat -> Option<T>)
    requires concurrency > 0 && Legal(n, concurrency, schedule) && AnswersWith(schedule, answer)
    requires Complete(StateAfter(n, concurrency, schedule))
    ensures StateAfter(n, concurrency, schedule).results == seq(n, i requires 0 <= i < n => answer(i))
  {
    ValuesAreKept(n, concurrency, schedule);
    NeverOverLimit(n, concurrency, schedule);
    var g := StateAfter(n, concurrency, schedule);
    forall i | 0 <= i < n ensures g.results[i] == answer(i) {
      assert FinishedIn(schedule, i);
    }
  }

  /** Each task starts once and finishes once, in that order. */
  lemma {:induction false} StartedOnce<T>(n: nat, concurrency: int, schedule: seq<Event<T>>, j: nat, k: nat)
    requires concurrency > 0 && Legal(n, concurrency, schedule) && j < k < |schedule|
    ensures schedule[j].task == schedule[k].task ==> schedule[j].Start? && schedule[k].Finish?
  {
    var before := Init(schedule);
    if k < |before| {
      StartedOnce(n, concurrency, before, j, k);
    } else {
      TouchedTasks(n, concurrency, before, j);
      if schedule[j].Finish? {
        ValuesAreKept(n, concurrency, before);
        assert before[j] == schedule[j];
      }
    }
  }

  lemma {:induction false} TouchedTasks<T>(n: nat, concurrency: int, schedule: seq<Event<T>>, j: nat)
    requires concurrency > 0 && Legal(n, concurrency, schedule) && j < |schedule|
    ensures schedule[j].task !in StateAfter(n, concurrency, schedule).waiting
  {
    var before := Init(schedule);
    NeverOverLimit(n, concurrency, before);
    if j < |before| {
      TouchedTasks(n, concurrency, before, j);
    }
  }

  /******* What the caller gets *******/

  lemma {:induction false} PresentLength<T>(results: seq<Option<T>>)
    ensures |Present(results)| <= |results|
    ensures |Present(results)| == |results| <==> forall i :: 0 <= i < |results| ==> results[i].Some?
    ensures |Present(results)| == |results| ==>
              forall i :: 0 <= i < |results| ==> results[i] == Some(Present(results)[i])
  {
    if results != [] {
      PresentLength(Init(results));
      assert results == Init(results) + [Last(results)];
    }
  }

  /** The returned list has one value per awaitable, at its place, if and only if no awaitable gave None; the Nones are
      dropped otherwise, and later values move up. */
  lemma OneValuePerAwaitableIff<T>(n: nat, concurrency: int, schedule: seq<Event<T>>, answer: nat -> Option<T>)
    requires concurrency > 0 && Legal(n, concurrency, schedule) && AnswersWith(schedule, answer)
    requires Complete(StateAfter(n, concurrency, schedule))
    ensures
      var values := Present(StateAfter(n, concurrency, schedule).results);
      (|values| == n && forall i :: 0 <= i < n ==> answer(i) == Some(values[i])) <==>
        forall i :: 0 <= i < n ==> answer(i).Some?
  {
    ResultsInInputOrder(n, concurrency, schedule, answer);
    PresentLength(StateAfter(n, concurrency, schedule).results);
  }
}
