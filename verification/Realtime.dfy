/** Realtime sessions: a guarded state machine over an append-only event journal, with tool calls
    that wait in the middle while other operations go on. */
module Realtime {
  import opened Prelude

  datatype SessionState = Initialized | Active | Interrupted | WaitingOnTool | Completed | Failed | Closed

  datatype EventKind =
    | InputText | InputAudio | OutputText | OutputAudio
    | ToolCall | ToolResult | Interrupt | Lifecycle | Error | Backpressure

  /** A lifecycle payload names the states; what other payloads carry does not matter here. */
  datatype Payload = Moved(previous: SessionState, next: SessionState) | Data(content: string)

  datatype Envelope = Envelope(kind: EventKind, payload: Payload, sequence: nat)

  function ValidTransitions(s: SessionState): set<SessionState> {
    match s
    case Initialized => {Active, Closed, Failed}
    case Active => {Interrupted, WaitingOnTool, Completed, Failed, Closed}
    case Interrupted => {Active, Failed, Closed}
    case WaitingOnTool => {Active, Failed, Closed}
    case Completed => {Closed}
    case Failed => {Closed}
    case Closed => {}
  }

  predicate RequiresActive(k: EventKind) {
    k in {InputText, InputAudio, OutputText, OutputAudio}
  }

  /******* The session as a value *******/

  datatype Session = Session(state: SessionState, log: seq<Envelope>, counter: nat)

  const CREATED := Session(Initialized, [], 0)

  function Recorded(s: Session, kind: EventKind, payload: Payload): Session {
    s.(log := s.log + [Envelope(kind, payload, s.counter)], counter := s.counter + 1)
  }

  function Transitioned(s: Session, target: SessionState): Option<Session> {
    if target !in ValidTransitions(s.state) then None
    else Some(Recorded(s.(state := target), Lifecycle, Moved(s.state, target)))
  }

  function Ingested(s: Session, kind: EventKind, payload: Payload): Option<Session> {
    if RequiresActive(kind) && s.state != Active then None else Some(Recorded(s, kind, payload))
  }

  /** The atomic steps. A tool call is two of them: up to the await, and after it. */
  datatype Op =
    | Start | Close | Complete | Fail | Resume
    | InterruptNow(reason: string)
    | Ingest(kind: EventKind, content: string)
    | BeginTool(call: string)
    | ToolSucceeds(result: string)
    | ToolFails
    | ToolCancelled

  /** A session together with the tool calls currently waiting for their executor. */
  datatype World = World(session: Session, pending: nat)

  /** Outside callers leave the kinds that the service itself records to the service, and an await
      only ends when one is under way. */
  predicate Permitted(w: World, op: Op) {
    match op
    case Ingest(kind, _) => kind !in {Lifecycle, ToolCall, ToolResult}
    case ToolSucceeds(_) => w.pending > 0
    case ToolFails => w.pending > 0
    case ToolCancelled => w.pending > 0
    case _ => true
  }

  function Moving(w: World, target: SessionState): (World, bool) {
    match Transitioned(w.session, target)
    case None => (w, false)
    case Some(s) => (w.(session := s), true)
  }

  /** The world after an operation, and whether it returned normally. */
  function Step(w: World, op: Op): (World, bool)
    requires Permitted(w, op)
  {
    match op
    case Start => Moving(w, Active)
    case Resume => Moving(w, Active)
    case Close => Moving(w, Closed)
    case Complete => Moving(w, Completed)
    case Fail => Moving(w, Failed)
    case InterruptNow(reason) =>
      var (moved, ok) := Moving(w, Interrupted);
      if ok then (moved.(session := Recorded(moved.session, Interrupt, Data(reason))), true) else (w, false)
    case Ingest(kind, content) =>
      (match Ingested(w.session, kind, Data(content)) case None => (w, false) case Some(s) => (w.(session := s), true))
    case BeginTool(call) =>
      var (moved, ok) := Moving(w, WaitingOnTool);
      if ok then (World(Recorded(moved.session, ToolCall, Data(call)), w.pending + 1), true) else (w, false)
    case ToolSucceeds(result) =>
      Moving(World(Recorded(w.session, ToolResult, Data(result)), w.pending - 1), Active)
    case ToolFails =>
      var (moved, _) := Moving(w.(pending := w.pending - 1), Failed);
      (moved, false)
    case ToolCancelled => (w.(pending := w.pending - 1), false)
  }

  /** How an await can end; what the source does not catch counts as cancellation. */
  datatype Awaited = Result(content: string) | Raised | Cancelled

  function EndOfTool(awaited: Awaited): Op {
    match awaited
    case Result(content) => ToolSucceeds(content)
    case Raised => ToolFails
    case Cancelled => ToolCancelled
  }

  /******* The session and the service as objects *******/

  class RealtimeSession {
    var state: SessionState
    var eventLog: seq<Envelope>
    var sequenceCounter: nat

    function View(): Session
      reads this
    {
      Session(state, eventLog, sequenceCounter)
    }

    constructor ()
      ensures View() == CREATED
    {
      state, eventLog, sequenceCounter := Initialized, [], 0;
    }

    method NextSequence() returns (sequence: nat)
      modifies this`sequenceCounter
      ensures sequence == old(sequenceCounter) && sequenceCounter == old(sequenceCounter) + 1
    {
      sequence := sequenceCounter;
      sequenceCounter := sequenceCounter + 1;
    }

    predicate CanTransitionTo(target: SessionState)
      reads this
    {
      target in ValidTransitions(state)
    }
  }

  /** Methods return false where the source raises. */
  class RealtimeSessionService {
    const hasToolExecutor: bool

    constructor (hasToolExecutor: bool)
      ensures this.hasToolExecutor == hasToolExecutor
    {
      this.hasToolExecutor := hasToolExecutor;
    }

    method Transition(session: RealtimeSession, target: SessionState) returns (ok: bool)
      modifies session
      ensures ok <==> Transitioned(old(session.View()), target).Some?
      ensures session.View() == if ok then Transitioned(old(session.View()), target).value else old(session.View())
    {
      if !session.CanTransitionTo(target) {
        return false;
      }
      var previous := session.state;
      session.state := target;
      var sequence := session.NextSequence();
      session.eventLog := session.eventLog + [Envelope(Lifecycle, Moved(previous, target), sequence)];
      ok := true;
    }

    method IngestEvent(session: RealtimeSession, kind: EventKind, payload: Payload) returns (ok: bool)
      modifies session
      ensures ok <==> Ingested(old(session.View()), kind, payload).Some?
      ensures session.View() == if ok then Ingested(old(session.View()), kind, payload).value else old(session.View())
    {
      if RequiresActive(kind) && session.state != Active {
        return false;
      }
      var sequence := session.NextSequence();
      session.eventLog := session.eventLog + [Envelope(kind, payload, sequence)];
      ok := true;
    }

    method StartSession(session: RealtimeSession) returns (ok: bool)
      modifies session
      ensures (World(session.View(), 0), ok) == Step(World(old(session.View()), 0), Start)
    {
      ok := Transition(session, Active);
    }

    method ResumeSession(session: RealtimeSession) returns (ok: bool)
      modifies session
      ensures (World(session.View(), 0), ok) == Step(World(old(session.View()), 0), Resume)
    {
      ok := Transition(session, Active);
    }

    method CloseSession(session: RealtimeSession) returns (ok: bool)
      modifies session
      ensures (World(session.View(), 0), ok) == Step(World(old(session.View()), 0), Close)
    {
      ok := Transition(session, Closed);
    }

    method CompleteSession(session: RealtimeSession) returns (ok: bool)
      modifies session
      ensures (World(session.View(), 0), ok) == Step(World(old(session.View()), 0), Complete)
    {
      ok := Transition(session, Completed);
    }

    method FailSession(session: RealtimeSession) returns (ok: bool)
      modifies session
      ensures (World(session.View(), 0), ok) == Step(World(old(session.View()), 0), Fail)
    {
      ok := Transition(session, Failed);
    }

    method InterruptSession(session: RealtimeSession, reason: string) returns (ok: bool)
      modifies session
      ensures (World(session.View(), 0), ok) == Step(World(old(session.View()), 0), InterruptNow(reason))
    {
      ok := Transition(session, Interrupted);
      if ok {
        ok := IngestEvent(session, Interrupt, Data(reason));
      }
    }

    /** handle_tool_call up to its await. */
    method BeginToolCall(session: RealtimeSession, call: string, ghost pending: nat) returns (ok: bool)
      modifies session
      ensures !hasToolExecutor ==> !ok && session.View() == old(session.View())
      ensures hasToolExecutor ==>
                Step(World(old(session.View()), pending), BeginTool(call)) ==
                (World(session.View(), if ok then pending + 1 else pending), ok)
    {
      if !hasToolExecutor {
        return false;
      }
      ok := Transition(session, WaitingOnTool);
      if ok {
        ok := IngestEvent(session, ToolCall, Data(call));
      }
    }

    /** handle_tool_call after its await. */
    method FinishToolCall(session: RealtimeSession, awaited: Awaited, ghost pending: nat) returns (ok: bool)
      requires pending > 0
      modifies session
      ensures Step(World(old(session.View()), pending), EndOfTool(awaited)) == (World(session.View(), pending - 1), ok)
    {
      if awaited.Cancelled? {
        return false;
      }
      if awaited.Raised? {
        var _ := Transition(session, Failed);
        return false;
      }
      var recorded := IngestEvent(session, ToolResult, Data(awaited.content));
      ok := Transition(session, Active);
    }
  }

  /******* Reading the journal *******/

  /** The state an observer deduces from the lifecycle events. */
  function StateAfter(log: seq<Envelope>): SessionState {
    if log == [] then Initialized
    else if Last(log).payload.Moved? then Last(log).payload.next
    else StateAfter(Init(log))
  }

  function Count(log: seq<Envelope>, kind: EventKind): nat {
    if log == [] then 0 else Count(Init(log), kind) + if Last(log).kind == kind then 1 else 0
  }

  /** What one event must satisfy given the events before it. */
  ghost predicate Legal(before: seq<Envelope>, e: Envelope) {
    && e.sequence == |before|
    && (e.kind == Lifecycle <==> e.payload.Moved?)
    && (e.payload.Moved? ==>
         e.payload.previous == StateAfter(before) && e.payload.next in ValidTransitions(e.payload.previous))
    && (RequiresActive(e.kind) ==> StateAfter(before) == Active)
    && (e.kind == ToolCall ==>
         before != [] && Last(before).payload.Moved? && Last(before).payload.next == WaitingOnTool)
    && (e.kind == ToolResult ==> Count(before, ToolResult) < Count(before, ToolCall))
  }

  ghost predicate LegalJournal(log: seq<Envelope>) {
    forall i :: 0 <= i < |log| ==> Legal(log[..i], log[i])
  }

  /** The invariant of every interleaving. */
  ghost predicate Invariant(w: World) {
    var s := w.session;
    && LegalJournal(s.log)
    && s.counter == |s.log|
    && StateAfter(s.log) == s.state
    && Count(s.log, ToolResult) + w.pending <= Count(s.log, ToolCall)
  }

  lemma RecordKeepsLegal(log: seq<Envelope>, e: Envelope)
    requires LegalJournal(log) && Legal(log, e)
    ensures LegalJournal(log + [e])
    ensures Init(log + [e]) == log
  {
    var log' := log + [e];
    forall i | 0 <= i < |log'|
      ensures Legal(log'[..i], log'[i])
    {
      if i < |log| {
        assert log'[..i] == log[..i];
      } else {
        assert log'[..i] == log;
      }
    }
  }

  lemma MovingKeepsInvariant(w: World, target: SessionState)
    requires Invariant(w)
    ensures Invariant(Moving(w, target).0)
  {
    var s := w.session;
    if target in ValidTransitions(s.state) {
      var e := Envelope(Lifecycle, Moved(s.state, target), s.counter);
      assert Legal(s.log, e);
      RecordKeepsLegal(s.log, e);
      assert Last(s.log + [e]) == e;
    }
  }

  lemma RecordingKeepsInvariant(w: World, kind: EventKind, payload: Payload)
    requires Invariant(w) && payload.Data? && kind != Lifecycle
    requires Legal(w.session.log, Envelope(kind, payload, w.session.counter))
    requires kind == ToolResult ==> w.pending > 0
    ensures
      var pending := match kind case ToolCall => w.pending + 1 case ToolResult => w.pending - 1 case _ => w.pending;
      Invariant(World(Recorded(w.session, kind, payload), pending))
  {
    var s := w.session;
    var e := Envelope(kind, payload, s.counter);
    RecordKeepsLegal(s.log, e);
    assert Last(s.log + [e]) == e;
  }

  lemma InterruptingKeepsInvariant(w: World, reason: string)
    requires Invariant(w)
    ensures Invariant(Step(w, InterruptNow(reason)).0)
  {
    MovingKeepsInvariant(w, Interrupted);
    RecordingKeepsInvariant(Moving(w, Interrupted).0, Interrupt, Data(reason));
  }

  lemma BeginningKeepsInvariant(w: World, call: string)
    requires Invariant(w)
    ensures Invariant(Step(w, BeginTool(call)).0)
  {
    if WaitingOnTool in ValidTransitions(w.session.state) {
      MovingKeepsInvariant(w, WaitingOnTool);
      RecordingKeepsInvariant(Moving(w, WaitingOnTool).0, ToolCall, Data(call));
    }
  }

  lemma SucceedingKeepsInvariant(w: World, result: string)
    requires Invariant(w) && w.pending > 0
    ensures Invariant(Step(w, ToolSucceeds(result)).0)
  {
    RecordingKeepsInvariant(w, ToolResult, Data(result));
    MovingKeepsInvariant(World(Recorded(w.session, ToolResult, Data(result)), w.pending - 1), Active);
  }

  lemma IngestingKeepsInvariant(w: World, kind: EventKind, content: string)
    requires Invariant(w) && Permitted(w, Ingest(kind, content))
    ensures Invariant(Step(w, Ingest(kind, content)).0)
  {
    if !(RequiresActive(kind) && w.session.state != Active) {
      RecordingKeepsInvariant(w, kind, Data(content));
    }
  }

  lemma StepKeepsInvariant(w: World, op: Op)
    requires Invariant(w) && Permitted(w, op)
    ensures Invariant(Step(w, op).0)
  {
    match op
    case InterruptNow(reason) => InterruptingKeepsInvariant(w, reason);
    case Ingest(kind, content) => IngestingKeepsInvariant(w, kind, content);
    case BeginTool(call) => BeginningKeepsInvariant(w, call);
    case ToolSucceeds(result) => SucceedingKeepsInvariant(w, result);
    case ToolFails => MovingKeepsInvariant(w.(pending := w.pending - 1), Failed);
    case ToolCancelled =>
    case Start => MovingKeepsInvariant(w, Active);
    case Resume => MovingKeepsInvariant(w, Active);
    case Close => MovingKeepsInvariant(w, Closed);
    case Complete => MovingKeepsInvariant(w, Completed);
    case Fail => MovingKeepsInvariant(w, Failed);
  }

  /** w is reached from a new session by the operations, in that order, all of them permitted. */
  ghost predicate Reaches(ops: seq<Op>, w: World) {
    if ops == [] then w == World(CREATED, 0)
    else exists v :: Reaches(Init(ops), v) && Permitted(v, Last(ops)) && w == Step(v, Last(ops)).0
  }

  lemma {:induction false} ReachableInvariant(ops: seq<Op>, w: World)
    requires Reaches(ops, w)
    ensures Invariant(w)
    decreases |ops|
  {
    if ops != [] {
      var v :| Reaches(Init(ops), v) && Permitted(v, Last(ops)) && w == Step(v, Last(ops)).0;
      ReachableInvariant(Init(ops), v);
      StepKeepsInvariant(v, Last(ops));
    }
  }

  /** Under every interleaving event i has sequence number i, lifecycle events chain through the transition
      table from INITIALIZED to the current state, and input and output are recorded only while ACTIVE. */
  lemma JournalIsLegal(ops: seq<Op>, w: World)
    requires Reaches(ops, w)
    ensures LegalJournal(w.session.log) && StateAfter(w.session.log) == w.session.state
  {
    ReachableInvariant(ops, w);
  }

  predicate Over(s: SessionState) {
    s in {Completed, Failed, Closed}
  }

  lemma {:induction false} OverStaysOver(log: seq<Envelope>, i: nat, j: nat)
    requires LegalJournal(log) && i <= j <= |log| && Over(StateAfter(log[..i]))
    ensures Over(StateAfter(log[..j]))
    decreases j - i
  {
    if i < j {
      OverStaysOver(log, i, j - 1);
      assert Init(log[..j]) == log[..j - 1] && Last(log[..j]) == log[j - 1];
      assert Legal(log[..j - 1], log[j - 1]);
    }
  }

  /** Nothing is input or output after the session completed, failed or was closed. */
  lemma NothingAfterTheEnd(ops: seq<Op>, w: World, i: nat, j: nat)
    requires Reaches(ops, w) && i < j < |w.session.log|
    requires w.session.log[i].payload.Moved? && Over(w.session.log[i].payload.next)
    ensures !RequiresActive(w.session.log[j].kind)
  {
    var log := w.session.log;
    ReachableInvariant(ops, w);
    assert Last(log[..i + 1]) == log[i];
    OverStaysOver(log, i + 1, j);
    assert Legal(log[..j], log[j]);
  }

  lemma {:induction false} ResultsFollowCalls(log: seq<Envelope>, k: nat)
    requires LegalJournal(log) && k <= |log|
    ensures Count(log[..k], ToolResult) <= Count(log[..k], ToolCall)
  {
    if k > 0 {
      ResultsFollowCalls(log, k - 1);
      assert Init(log[..k]) == log[..k - 1] && Last(log[..k]) == log[k - 1];
      assert Legal(log[..k - 1], log[k - 1]);
    }
  }

  /** Every prefix of the journal has at least as many tool calls as tool results, and the calls still waiting
      are among those without a result. */
  lemma ToolCallsAccountForResults(ops: seq<Op>, w: World, k: nat)
    requires Reaches(ops, w) && k <= |w.session.log|
    ensures Count(w.session.log[..k], ToolResult) <= Count(w.session.log[..k], ToolCall)
    ensures Count(w.session.log, ToolResult) + w.pending <= Count(w.session.log, ToolCall)
  {
    ReachableInvariant(ops, w);
    ResultsFollowCalls(w.session.log, k);
  }

  /** From which states each operation succeeds. Completing, interrupting and calling a tool need ACTIVE; input and
      output too; other events are always recorded. */
  lemma WhatSucceeds(w: World, reason: string, kind: EventKind, content: string)
    ensures Step(w, Complete).1 <==> w.session.state == Active
    ensures Step(w, InterruptNow(reason)).1 <==> w.session.state == Active
    ensures Step(w, BeginTool(content)).1 <==> w.session.state == Active
    ensures Step(w, Fail).1 <==> w.session.state != Completed && w.session.state != Failed && w.session.state != Closed
    ensures Step(w, Close).1 <==> w.session.state != Closed
    ensures Permitted(w, Ingest(kind, content)) ==>
              (Step(w, Ingest(kind, content)).1 <==>
               match kind
               case InputText => w.session.state == Active
               case InputAudio => w.session.state == Active
               case OutputText => w.session.state == Active
               case OutputAudio => w.session.state == Active
               case _ => true)
  {
  }

  /** Where each operation leads, and what it adds to the journal, when it succeeds. */
  lemma WhatIsRecorded(w: World, op: Op)
    requires Invariant(w) && Permitted(w, op) && Step(w, op).1
    ensures
      var (before, after) := (w.session, Step(w, op).0.session);
      && before.log <= after.log
      && match op
         case Start => after.state == Active && |after.log| == |before.log| + 1
         case Resume => after.state == Active && |after.log| == |before.log| + 1
         case Close => after.state == Closed && |after.log| == |before.log| + 1
         case Complete => after.state == Completed && |after.log| == |before.log| + 1
         case Fail => after.state == Failed && |after.log| == |before.log| + 1
         case InterruptNow(reason) =>
           && after.state == Interrupted && |after.log| == |before.log| + 2
           && Last(after.log).kind == Interrupt && Last(after.log).payload == Data(reason)
         case Ingest(kind, content) =>
           && after.state == before.state && |after.log| == |before.log| + 1
           && Last(after.log).kind == kind && Last(after.log).payload == Data(content)
         case BeginTool(call) =>
           && after.state == WaitingOnTool && |after.log| == |before.log| + 2
           && Last(after.log).kind == ToolCall && Last(after.log).payload == Data(call)
           && Step(w, op).0.pending == w.pending + 1
         case ToolSucceeds(result) =>
           && after.state == Active && |after.log| == |before.log| + 2 && Step(w, op).0.pending == w.pending - 1
           && after.log[|before.log|].kind == ToolResult && after.log[|before.log|].payload == Data(result)
         case ToolFails => false
         case ToolCancelled => false
  {
  }

  /** An operation that raises leaves the session as it was, unless it ends a tool call. */
  lemma WhatRaises(w: World, op: Op)
    requires Permitted(w, op) && !Step(w, op).1
    ensures !op.ToolSucceeds? && !op.ToolFails? && !op.ToolCancelled? ==> Step(w, op).0 == w
    ensures op.ToolFails? && w.session.state in {Initialized, Active, Interrupted, WaitingOnTool} ==>
              Step(w, op).0.session.state == Failed
    ensures op.ToolFails? && w.session.state in {Completed, Failed, Closed} ==> Step(w, op).0.session == w.session
    ensures op.ToolCancelled? ==> Step(w, op).0.session == w.session
    ensures op.ToolFails? || op.ToolCancelled? || op.ToolSucceeds? ==> Step(w, op).0.pending == w.pending - 1
  {
  }

  /******* Where the documentation promises more than the code keeps *******/

  /** start_session is documented to need INITIALIZED, resume to need INTERRUPTED: both succeed from exactly
      the three states that may become ACTIVE. */
  lemma StartAndResumeAlike(w: World)
    ensures Step(w, Start) == Step(w, Resume)
    ensures Step(w, Start).1 <==> w.session.state in {Initialized, Interrupted, WaitingOnTool}
  {
  }

  /** The session is made ACTIVE from outside while a tool is still being waited for. */
  predicate Reactivates(w: World, op: Op) {
    op in {Start, Resume} && w.session.state == WaitingOnTool && w.pending > 0
  }

  /** As Reaches, counting the operations that reactivate. */
  ghost predicate ReachesWith(ops: seq<Op>, w: World, reactivations: nat) {
    if ops == [] then w == World(CREATED, 0) && reactivations == 0
    else
      exists v, before: nat ::
        && ReachesWith(Init(ops), v, before) && Permitted(v, Last(ops)) && w == Step(v, Last(ops)).0
        && reactivations == before + if Reactivates(v, Last(ops)) then 1 else 0
  }

  /** What a given number of reactivations allows: one more call than that only while, or after, one is waited for. */
  predicate FewInFlight(w: World, reactivations: nat) {
    w.pending <= reactivations + (if w.session.state in {WaitingOnTool, Failed, Closed} then 1 else 0)
  }

  lemma StepKeepsFewInFlight(w: World, op: Op, reactivations: nat)
    requires FewInFlight(w, reactivations) && Permitted(w, op)
    ensures FewInFlight(Step(w, op).0, reactivations + if Reactivates(w, op) then 1 else 0)
  {
  }

  /** In every run the tool calls in flight are at most one more than the times start_session or resume was called in
      WAITING_ON_TOOL with a tool in flight. Without such a call there is at most one, and while it waits the session is
      WAITING_ON_TOOL, FAILED or CLOSED. */
  lemma {:induction false} InFlightBound(ops: seq<Op>, w: World, reactivations: nat)
    requires ReachesWith(ops, w, reactivations)
    ensures FewInFlight(w, reactivations) && w.pending <= reactivations + 1
    decreases |ops|
  {
    if ops != [] {
      var v, before: nat :|
        && ReachesWith(Init(ops), v, before) && Permitted(v, Last(ops)) && w == Step(v, Last(ops)).0
        && reactivations == before + if Reactivates(v, Last(ops)) then 1 else 0;
      InFlightBound(Init(ops), v, before);
      StepKeepsFewInFlight(v, Last(ops), before);
    }
  }

  /** Up to its first reactivation a run has one tool in flight at most, and it is exactly the reactivation that lets
      the next tool call be the second. */
  lemma SecondToolIff(ops: seq<Op>, v: World, op: Op, call: string)
    requires ReachesWith(ops, v, 0) && Permitted(v, op)
    ensures v.pending <= 1
    ensures Step(Step(v, op).0, BeginTool(call)).0.pending == 2 <==> Reactivates(v, op)
  {
    InFlightBound(ops, v, 0);
    StepKeepsFewInFlight(v, op, 0);
    BeginningAdds(Step(v, op).0, call);
  }

  lemma BeginningAdds(w: World, call: string)
    ensures Step(w, BeginTool(call)).0.pending == w.pending + if w.session.state == Active then 1 else 0
  {
  }

  /** Such runs exist: two tools can be in flight at once. */
  lemma TwoToolsInFlight(a: string, b: string) returns (ops: seq<Op>, w: World)
    ensures Reaches(ops, w) && w.pending == 2
  {
    ops, w := ReachNext([], World(CREATED, 0), Start);
    ops, w := ReachNext(ops, w, BeginTool(a));
    ops, w := ReachNext(ops, w, Resume);
    ops, w := ReachNext(ops, w, BeginTool(b));
  }

  lemma ReachNext(ops: seq<Op>, v: World, op: Op) returns (longer: seq<Op>, w: World)
    requires Reaches(ops, v) && Permitted(v, op)
    ensures w == Step(v, op).0 && longer == ops + [op] && Reaches(longer, w)
  {
    longer, w := ops + [op], Step(v, op).0;
    assert Init(ops + [op]) == ops;
  }

  /** Every run has its number of reactivations. */
  lemma {:induction false} ReactivationsOf(ops: seq<Op>, w: World) returns (reactivations: nat)
    requires Reaches(ops, w)
    ensures ReachesWith(ops, w, reactivations)
    decreases |ops|
  {
    if ops == [] {
      reactivations := 0;
    } else {
      var v :| Reaches(Init(ops), v) && Permitted(v, Last(ops)) && w == Step(v, Last(ops)).0;
      var before := ReactivationsOf(Init(ops), v);
      reactivations := before + if Reactivates(v, Last(ops)) then 1 else 0;
    }
  }

  /** A tool that finishes late still records its result, whatever the state, and the call then raises iff the
      session may not become ACTIVE. */
  lemma LateResultIsStillRecorded(w: World, result: string)
    requires w.pending > 0
    ensures
      var (w', ok) := Step(w, ToolSucceeds(result));
      && (ok <==> w.session.state in {Initialized, Interrupted, WaitingOnTool})
      && w.session.log + [Envelope(ToolResult, Data(result), w.session.counter)] <= w'.session.log
      && (!ok ==> w'.session.state == w.session.state)
  {
  }
}
