/** How the client state machine makes progress: the rounds that it completes, whatever other events come in between,
    and exactly when a run ends in the error state.
 */
module ClientRounds {
  import opened ClientMachine

  // ----- Events for others -----

  /** The event is about another session, request or channel. */
  predicate Foreign(m: Machine, op: Operation) {
    op.Dispatch? &&
    match op.event
    case ActivationFailure | ActivatedSession | Reactivating | ClosedSession => op.appCtx != m.ctxSession
    case SessionResponse => op.arg != m.sessionId
    case DiscoveryResponse | SendFailed => op.appCtx != m.ctxRequest
    case ClosedChannel => op.arg != m.iscConfig
    case OtherEvent => true
  }

  ghost predicate AllForeign(m: Machine, ops: seq<Operation>) {
    forall op :: op in ops ==> Foreign(m, op)
  }

  /** The events that change nothing: those for others, a response for the active session, what comes before the end
      of a session that is being closed, and after an error what is not about its request. */
  lemma EventChangesNothingIff(m: Machine, event: EventKind, arg: nat, appCtx: nat)
    requires Owned(m)
    ensures Step(m, Dispatch(event, arg, appCtx)) == m <==>
      || Foreign(m, Dispatch(event, arg, appCtx))
      || (m.state == Activated && event == SessionResponse)
      || (m.state == ClosingSession && event != ClosedSession)
      || (m.state == Error && (m.ctxRequest == 0 || appCtx != m.ctxRequest))
  {
  }

  lemma {:induction false} QuietRun(m: Machine, ops: seq<Operation>)
    requires AllForeign(m, ops)
    ensures Run(m, ops) == m
  {
    if ops != [] {
      var front, last := ops[..|ops| - 1], ops[|ops| - 1];
      assert last in ops && forall op :: op in front ==> op in ops;
      QuietRun(m, front);
    }
  }

  lemma {:induction false} RunConcatenate(m: Machine, a: seq<Operation>, b: seq<Operation>)
    ensures Run(m, a + b) == Run(Run(m, a), b)
    decreases |b|
  {
    hide Step;
    if b == [] {
      assert a + b == a;
    } else {
      RunConcatenate(m, a, b[..|b| - 1]);
      assert (a + b)[..|a + b| - 1] == a + b[..|b| - 1];
    }
  }

  /** One operation, and then events for others. */
  lemma StepThenQuiet(m: Machine, ops: seq<Operation>, op: Operation, quiet: seq<Operation>)
    requires AllForeign(Step(Run(m, ops), op), quiet)
    ensures Run(m, ops + [op] + quiet) == Step(Run(m, ops), op)
  {
    hide Step, Foreign;
    RunConcatenate(m, ops + [op], quiet);
    assert (ops + [op])[..|ops|] == ops;
    QuietRun(Step(Run(m, ops), op), quiet);
  }

  lemma StartThenQuiet(m: Machine, op: Operation, quiet: seq<Operation>)
    requires AllForeign(Step(m, op), quiet)
    ensures Run(m, [op] + quiet) == Step(m, op)
  {
    hide Step, Foreign;
    assert Run(m, []) == m;
    assert [] + [op] + quiet == [op] + quiet;
    StepThenQuiet(m, [], op, quiet);
  }

  lemma LastStep(m: Machine, ops: seq<Operation>, op: Operation)
    ensures Run(m, ops + [op]) == Step(Run(m, ops), op)
  {
    assert (ops + [op])[..|ops|] == ops;
  }

  /** Whether an event is for others does not depend on the state or on what was counted. */
  lemma ForeignState(m: Machine, n: Machine, ops: seq<Operation>)
    requires AllForeign(m, ops) && m.iscConfig == n.iscConfig && m.ctxSession == n.ctxSession
    requires m.sessionId == n.sessionId && m.ctxRequest == n.ctxRequest
    ensures AllForeign(n, ops)
  {
  }

  // ----- Rounds -----

  /** A request that is sent, its answer and the close of the channel lead back to the configured state; one context is
      allocated and freed, and one channel close is issued, on the way through ClosingSc. */
  lemma RequestRound(
    m: Machine, register: bool, pointer: nat, arg: nat, first: seq<Operation>, second: seq<Operation>)
    requires m.state == Configured && m.ctxRequest == 0 && pointer != 0
    requires AllForeign(m.(ctxRequest := pointer), first) && AllForeign(m, second)
    ensures var asked := [StartRequest(register, true, pointer, true)] + first;
      var answered := asked + [Dispatch(DiscoveryResponse, arg, pointer)] + second;
      var n := m.(channelCloses := m.channelCloses + 1, mallocs := m.mallocs + 1, frees := m.frees + 1);
      && Run(m, asked) ==
           m.(state := if register then Register else Discovering, ctxRequest := pointer, mallocs := m.mallocs + 1)
      && Run(m, answered) == n.(state := ClosingSc)
      && Run(m, answered + [Dispatch(ClosedChannel, m.iscConfig, m.iscConfig)]) == n
  {
    hide Run, Step, Foreign;
    var start, answer := StartRequest(register, true, pointer, true), Dispatch(DiscoveryResponse, arg, pointer);
    RequestSteps(m, register, pointer, arg);
    ForeignState(m.(ctxRequest := pointer), Step(m, start), first);
    ForeignState(m, Step(Step(m, start), answer), second);
    StartThenQuiet(m, start, first);
    StepThenQuiet(m, [start] + first, answer, second);
    LastStep(m, [start] + first + [answer] + second, Dispatch(ClosedChannel, m.iscConfig, m.iscConfig));
  }

  lemma RequestSteps(m: Machine, register: bool, pointer: nat, arg: nat)
    requires m.state == Configured && m.ctxRequest == 0 && pointer != 0
    ensures var m1 := Step(m, StartRequest(register, true, pointer, true));
      var m2 := Step(m1, Dispatch(DiscoveryResponse, arg, pointer));
      var n := m.(channelCloses := m.channelCloses + 1, mallocs := m.mallocs + 1, frees := m.frees + 1);
      && m1 == m.(state := if register then Register else Discovering, ctxRequest := pointer, mallocs := m.mallocs + 1)
      && m2 == n.(state := ClosingSc) && Step(m2, Dispatch(ClosedChannel, m.iscConfig, m.iscConfig)) == n
  {
  }

  /** What may come while the session is active: events for others, and responses. */
  ghost predicate AllResponses(m: Machine, ops: seq<Operation>) {
    forall op :: op in ops ==> Foreign(m, op) || (op.Dispatch? && op.event == SessionResponse && op.arg == m.sessionId)
  }

  /** What may come while the session is being closed: any event, except that it is closed. */
  ghost predicate AllBeforeEnd(m: Machine, ops: seq<Operation>) {
    forall op :: op in ops ==> op.Dispatch? && !(op.event == ClosedSession && op.appCtx == m.ctxSession)
  }

  lemma {:induction false} ResponsesChangeNothing(m: Machine, ops: seq<Operation>)
    requires m.state == Activated && m.ctxRequest == 0 && AllResponses(m, ops)
    ensures Run(m, ops) == m
  {
    if ops != [] {
      var front, last := ops[..|ops| - 1], ops[|ops| - 1];
      assert last in ops && forall op :: op in front ==> op in ops;
      ResponsesChangeNothing(m, front);
    }
  }

  lemma {:induction false} WaitingChangesNothing(m: Machine, ops: seq<Operation>)
    requires m.state == ClosingSession && m.ctxRequest == 0 && AllBeforeEnd(m, ops)
    ensures Run(m, ops) == m
  {
    if ops != [] {
      var front, last := ops[..|ops| - 1], ops[|ops| - 1];
      assert last in ops && forall op :: op in front ==> op in ops;
      WaitingChangesNothing(m, front);
    }
  }

  /** The start of a session, its activation and any number of responses: the machine is activated with the id of the
      session. */
  lemma SessionOpens(m: Machine, id: nat, first: seq<Operation>, responses: seq<Operation>)
    requires m.state == Configured && m.ctxRequest == 0
    requires AllForeign(m, first) && AllResponses(m.(sessionId := id), responses)
    ensures Run(m, [StartSession] + first) == m.(state := Activating)
    ensures Run(m, [StartSession] + first + [Dispatch(ActivatedSession, id, m.ctxSession)] + responses) ==
            m.(state := Activated, sessionId := id)
  {
    hide Run;
    StartThenQuiet(m, StartSession, first);
    LastStep(m, [StartSession] + first, Dispatch(ActivatedSession, id, m.ctxSession));
    RunConcatenate(m, [StartSession] + first + [Dispatch(ActivatedSession, id, m.ctxSession)], responses);
    ResponsesChangeNothing(m.(state := Activated, sessionId := id), responses);
  }

  /** An active session that is stopped: its id is handed over once, and when it is closed and then the channel, the
      machine is configured again, with one more channel close. */
  lemma SessionEnds(m: Machine, arg: nat, waiting: seq<Operation>, quiet: seq<Operation>)
    requires m.state == Activated && m.ctxRequest == 0 && AllBeforeEnd(m, waiting) && AllForeign(m, quiet)
    ensures var stopped := [StopSession] + waiting;
      var closed := stopped + [Dispatch(ClosedSession, arg, m.ctxSession)] + quiet;
      var n := m.(sessionCloses := m.sessionCloses + [m.sessionId]);
      && Run(m, stopped) == n.(state := ClosingSession)
      && Run(m, closed) == n.(state := ClosingSc, channelCloses := m.channelCloses + 1)
      && Run(m, closed + [Dispatch(ClosedChannel, m.iscConfig, m.iscConfig)]) ==
         n.(state := Configured, channelCloses := m.channelCloses + 1)
  {
    hide Run, Step, Foreign;
    var n := m.(sessionCloses := m.sessionCloses + [m.sessionId], state := ClosingSession);
    var stopped, end := [StopSession] + waiting, Dispatch(ClosedSession, arg, m.ctxSession);
    StopSteps(m, arg);
    StartThenQuiet(m, StopSession, []);
    assert [StopSession] + [] == [StopSession];
    RunConcatenate(m, [StopSession], waiting);
    WaitingChangesNothing(n, waiting);
    ForeignState(m, Step(n, end), quiet);
    StepThenQuiet(m, stopped, end, quiet);
    LastStep(m, stopped + [end] + quiet, Dispatch(ClosedChannel, m.iscConfig, m.iscConfig));
  }

  lemma StopSteps(m: Machine, arg: nat)
    requires m.state == Activated && m.ctxRequest == 0
    ensures var n := m.(sessionCloses := m.sessionCloses + [m.sessionId], state := ClosingSession);
      var k := n.(state := ClosingSc, channelCloses := m.channelCloses + 1);
      && Step(m, StopSession) == n && Step(n, Dispatch(ClosedSession, arg, m.ctxSession)) == k
      && Step(k, Dispatch(ClosedChannel, m.iscConfig, m.iscConfig)) == k.(state := Configured)
  {
  }

  /** A whole session round. */
  lemma SessionRound(m: Machine, id: nat, arg: nat, first: seq<Operation>, responses: seq<Operation>,
                     waiting: seq<Operation>, quiet: seq<Operation>)
    requires m.state == Configured && m.ctxRequest == 0
    requires AllForeign(m, first) && AllResponses(m.(sessionId := id), responses)
    requires AllBeforeEnd(m, waiting) && AllForeign(m.(sessionId := id), quiet)
    ensures var open := [StartSession] + first + [Dispatch(ActivatedSession, id, m.ctxSession)] + responses;
      var ended := [StopSession] + waiting + [Dispatch(ClosedSession, arg, m.ctxSession)] + quiet
        + [Dispatch(ClosedChannel, m.iscConfig, m.iscConfig)];
      Run(m, open + ended) ==
        m.(sessionId := id, sessionCloses := m.sessionCloses + [id], channelCloses := m.channelCloses + 1)
  {
    hide Run, Step, Foreign;
    var open := [StartSession] + first + [Dispatch(ActivatedSession, id, m.ctxSession)] + responses;
    var ended := [StopSession] + waiting + [Dispatch(ClosedSession, arg, m.ctxSession)] + quiet
      + [Dispatch(ClosedChannel, m.iscConfig, m.iscConfig)];
    SessionOpens(m, id, first, responses);
    ForeignState(m.(sessionId := id), m.(state := Activated, sessionId := id), quiet);
    SessionEnds(m.(state := Activated, sessionId := id), arg, waiting, quiet);
    RunConcatenate(m, open, ended);
  }

  // ----- The request context -----

  /** A start that fails leaves no context behind. */
  lemma FailedStartFrees(m: Machine, register: bool, created: bool, pointer: nat, sent: bool)
    requires Owned(m) && !Proceeds(m, StartRequest(register, created, pointer, sent))
    ensures var n := Step(m, StartRequest(register, created, pointer, sent));
      n.state == Error && n.ctxRequest == 0 && n.mallocs == n.frees
  {
  }

  /** An event frees the context if and only if it is for this machine and carries the context. */
  lemma EventFreesIff(m: Machine, event: EventKind, arg: nat, appCtx: nat)
    requires m.ctxRequest != 0
    ensures var n := Step(m, Dispatch(event, arg, appCtx));
      if appCtx == m.ctxRequest && !Foreign(m, Dispatch(event, arg, appCtx)) then n.ctxRequest == 0 && n.frees == m.frees + 1
      else n.ctxRequest == m.ctxRequest && n.frees == m.frees
  {
  }

  // ----- Errors -----

  /** The operation is in its place: a start from the configured state that succeeds, a stop of a session, the event
      that the state waits for, any event while a session is being closed, or an event for others. */
  predicate Proceeds(m: Machine, op: Operation) {
    match op
    case StartSession => m.state == Configured
    case StopSession => m.state == Activating || m.state == Activated || m.state == ClosingSession
    case StartRequest(_, created, pointer, sent) => m.state == Configured && created && pointer != 0 && sent
    case Dispatch(event, _, _) =>
      || Foreign(m, op) || m.state == ClosingSession
      || (event == ActivatedSession && m.state == Activating)
      || (event == SessionResponse && m.state == Activated)
      || (event == DiscoveryResponse && (m.state == Discovering || m.state == Register))
      || (event == ClosedChannel && m.state == ClosingSc)
  }

  lemma StepFailsIff(m: Machine, op: Operation)
    requires m.state != Error
    ensures Step(m, op).state == Error <==> !Proceeds(m, op)
  {
  }

  /** A run ends in the error state if and only if one of its operations was out of place. */
  lemma {:induction false} RunFailsIff(m: Machine, ops: seq<Operation>)
    requires m.state != Error
    ensures Run(m, ops).state == Error <==> exists i :: 0 <= i < |ops| && OutOfPlace(m, ops, i)
  {
    hide Step, Proceeds;
    if ops != [] {
      var last := |ops| - 1;
      RunFailsIff(m, ops[..last]);
      RunStep(m, ops, last);
      assert ops[..|ops|] == ops;
      forall i | 0 <= i < last
        ensures OutOfPlace(m, ops, i) <==> OutOfPlace(m, ops[..last], i)
      {
        assert ops[..last][..i] == ops[..i];
      }
      var before := Run(m, ops[..last]);
      if before.state == Error {
        StepKeepsError(before, ops[last]);
        var i :| 0 <= i < last && OutOfPlace(m, ops[..last], i);
        assert OutOfPlace(m, ops, i);
      } else {
        StepFailsIff(before, ops[last]);
        assert OutOfPlace(m, ops, last) <==> !Proceeds(before, ops[last]);
      }
    }
  }

  /** Operation i is the first that is out of place. */
  ghost predicate OutOfPlace(m: Machine, ops: seq<Operation>, i: nat)
    requires i < |ops|
  {
    Run(m, ops[..i]).state != Error && !Proceeds(Run(m, ops[..i]), ops[i])
  }

  lemma StepKeepsError(m: Machine, op: Operation)
    requires m.state == Error
    ensures Step(m, op).state == Error
  {
  }
}
