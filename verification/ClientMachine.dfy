/** The session and discovery state machine of the demonstration client (state_machine.c), run under
    its mutex by the application and by the events of the toolkit.

    Pointers are numbers with 0 for NULL. The outcome of an allocation or of a toolkit call is a
    parameter of the operation.
 */
module ClientMachine {

  datatype State =
    | Init | Configured | ClosingSc | Activating | Activated | ClosingSession | Discovering | Register | Error

  datatype EventKind =
    | ActivationFailure | ActivatedSession | Reactivating | ClosedSession
    | SessionResponse | DiscoveryResponse | SendFailed | ClosedChannel | OtherEvent

  /** The machine, with what it has asked of the toolkit and of the allocator so far. */
  datatype Machine = Machine(
    state: State,
    iscConfig: nat,
    ctxSession: nat,
    sessionId: nat,
    ctxRequest: nat,
    sessionCloses: seq<nat>,
    channelCloses: nat,
    mallocs: nat,
    frees: nat)

  datatype Operation =
    | StartSession
    | StopSession
    /** GetEndpoints or FindServers, or RegisterServer: `created` says whether the request could be built,
        `pointer` is the new request context, `sent` the outcome of sending. */
    | StartRequest(register: bool, created: bool, pointer: nat, sent: bool)
    | Dispatch(event: EventKind, arg: nat, appCtx: nat)

  // ----- The operations, as functions of the state -----

  function FreeRequest(m: Machine): Machine {
    if m.ctxRequest != 0 then m.(ctxRequest := 0, frees := m.frees + 1) else m
  }

  function StartRequestStep(m: Machine, register: bool, created: bool, pointer: nat, sent: bool): Machine {
    if m.state != Configured || !created then FreeRequest(m).(state := Error)
    else if pointer == 0 then m.(ctxRequest := 0, state := Error)
    else
      var n := m.(ctxRequest := pointer, mallocs := m.mallocs + 1);
      if sent then n.(state := if register then Register else Discovering) else FreeRequest(n).(state := Error)
  }

  /** Is the event meant for this machine? */
  predicate Targeted(m: Machine, event: EventKind, arg: nat, appCtx: nat) {
    match event
    case ActivationFailure => m.ctxSession == appCtx
    case ActivatedSession => m.ctxSession == appCtx
    case Reactivating => m.ctxSession == appCtx
    case ClosedSession => m.ctxSession == appCtx
    case SessionResponse => m.sessionId == arg
    case DiscoveryResponse => m.ctxRequest == appCtx
    case SendFailed => m.ctxRequest == appCtx
    case ClosedChannel => m.iscConfig == arg
    case OtherEvent => false
  }

  function StateAfter(state: State, event: EventKind): State {
    match state
    case Activating => if event == ActivatedSession then Activated else Error
    case Activated => if event == SessionResponse then Activated else Error
    case ClosingSession => if event == ClosedSession then ClosingSc else ClosingSession
    case Discovering => if event == DiscoveryResponse then ClosingSc else Error
    case Register => if event == DiscoveryResponse then ClosingSc else Error
    case ClosingSc => if event == ClosedChannel then Configured else Error
    case Init => Error
    case Configured => Error
    case Error => Error
  }

  function DispatchStep(m: Machine, event: EventKind, arg: nat, appCtx: nat): Machine {
    if !Targeted(m, event, arg, appCtx) then m
    else
      var state := StateAfter(m.state, event);
      var n := m.(state := state, sessionId := if m.state == Activating && event == ActivatedSession then arg else m.sessionId);
      var k := if n.ctxRequest == appCtx then FreeRequest(n) else n;
      if m.state != state && state == ClosingSc then k.(channelCloses := k.channelCloses + 1) else k
  }

  predicate Connected(s: State) {
    s == Activating || s == Activated || s == ClosingSession
  }

  function Step(m: Machine, op: Operation): Machine {
    match op
    case StartSession => m.(state := if m.state == Configured then Activating else Error)
    case StopSession =>
      if Connected(m.state) then m.(state := ClosingSession, sessionCloses := m.sessionCloses + [m.sessionId])
      else m.(state := Error)
    case StartRequest(register, created, pointer, sent) => StartRequestStep(m, register, created, pointer, sent)
    case Dispatch(event, arg, appCtx) => DispatchStep(m, event, arg, appCtx)
  }

  // ----- The object -----

  class StateMachine {
    var state: State
    var iscConfig: nat
    const ctxSession: nat
    var sessionId: nat
    var ctxRequest: nat
    /** The session ids handed to the toolkit to be closed. */
    var sessionCloses: seq<nat>
    var channelCloses: nat
    var mallocs: nat
    var frees: nat

    constructor (ctxSession: nat)
      ensures View() == Machine(Init, 0, ctxSession, 0, 0, [], 0, 0, 0)
    {
      state, iscConfig, sessionId, ctxRequest := Init, 0, 0, 0;
      this.ctxSession := ctxSession;
      sessionCloses, channelCloses, mallocs, frees := [], 0, 0, 0;
    }

    function View(): Machine
      reads this
    {
      Machine(state, iscConfig, ctxSession, sessionId, ctxRequest, sessionCloses, channelCloses, mallocs, frees)
    }

    /** `StateMachine_ConfigureMachine`; id 0 is a failure. */
    method Configure(id: nat)
      modifies this
      ensures View() == old(View()).(iscConfig := id, state := if id != 0 then Configured else Error)
    {
      iscConfig := id;
      state := if id != 0 then Configured else Error;
    }

    /** `ActivateSession` */
    method ActivateSession()
      modifies this
      ensures View() == Step(old(View()), StartSession)
    {
      if state != Configured {
        state := Error;
        return;
      }
      state := Activating;
    }

    /** `StateMachine_StopSession` */
    method Stop()
      modifies this
      ensures View() == Step(old(View()), StopSession)
    {
      if Connected(state) {
        sessionCloses := sessionCloses + [sessionId];
        state := ClosingSession;
      } else {
        state := Error;
      }
    }

    method Free()
      modifies this
      ensures View() == FreeRequest(old(View()))
    {
      if ctxRequest != 0 {
        ctxRequest := 0;
        frees := frees + 1;
      }
    }

    /** `StateMachine_StartDiscovery`, `StateMachine_StartFindServers`, `StateMachine_StartRegisterServer` */
    method Start(register: bool, created: bool, pointer: nat, sent: bool)
      modifies this
      ensures View() == Step(old(View()), StartRequest(register, created, pointer, sent))
    {
      var ok := state == Configured && created;
      if ok {
        ctxRequest := pointer;
        if ctxRequest == 0 {
          ok := false;
        } else {
          mallocs := mallocs + 1;
          ok := sent;
          if ok {
            state := if register then Register else Discovering;
          }
        }
      }
      if !ok {
        state := Error;
        Free();
      }
    }

    /** The state change for an event meant for this machine. */
    method Process(event: EventKind, arg: nat)
      modifies this`state, this`sessionId
      ensures state == StateAfter(old(state), event)
      ensures sessionId == if old(state) == Activating && event == ActivatedSession then arg else old(sessionId)
    {
      match state {
        case Activating =>
          if event == ActivatedSession {
            state := Activated;
            sessionId := arg;
          } else {
            state := Error;
          }
        case Activated =>
          if event != SessionResponse {
            state := Error;
          }
        case ClosingSession =>
          if event == ClosedSession {
            state := ClosingSc;
          }
        case Discovering => state := if event == DiscoveryResponse then ClosingSc else Error;
        case Register => state := if event == DiscoveryResponse then ClosingSc else Error;
        case ClosingSc => state := if event == ClosedChannel then Configured else Error;
        case Init => state := Error;
        case Configured => state := Error;
        case Error =>
      }
    }

    /** `StateMachine_EventDispatcher` */
    method EventDispatcher(event: EventKind, arg: nat, appCtx: nat) returns (processed: bool)
      modifies this
      ensures processed <==> Targeted(old(View()), event, arg, appCtx)
      ensures View() == Step(old(View()), Dispatch(event, arg, appCtx))
    {
      hide Targeted, StateAfter;
      var prevState := state;
      processed := Targeted(View(), event, arg, appCtx);
      if processed {
        Process(event, arg);
        if ctxRequest != 0 && ctxRequest == appCtx {
          Free();
        }
        if prevState != state && state == ClosingSc {
          channelCloses := channelCloses + 1;
        }
      }
    }
  }

  // ----- Every run of a machine that was configured once -----

  function Start(ctxSession: nat, iscConfig: nat): Machine {
    Machine(if iscConfig != 0 then Configured else Error, iscConfig, ctxSession, 0, 0, [], 0, 0, 0)
  }

  function Run(m: Machine, ops: seq<Operation>): Machine {
    if ops == [] then m else Step(Run(m, ops[..|ops| - 1]), ops[|ops| - 1])
  }

  predicate Pending(s: State) {
    s == Discovering || s == Register
  }

  /** The request context belongs to the pending request, or was left behind by an error; every context
      ever allocated is the current one or was freed once. */
  predicate Owned(m: Machine) {
    && m.state != Init
    && (Pending(m.state) ==> m.ctxRequest != 0)
    && (m.ctxRequest != 0 ==> Pending(m.state) || m.state == Error)
    && m.mallocs == m.frees + (if m.ctxRequest != 0 then 1 else 0)
  }

  lemma StepKeepsOwned(m: Machine, op: Operation)
    requires Owned(m)
    ensures Owned(Step(m, op))
    ensures m.state == Error ==> Step(m, op).state == Error
    ensures Step(m, op).mallocs > m.mallocs ==> m.ctxRequest == 0
  {
  }

  /** In every run no context is lost or freed twice, and each start fills an empty slot. */
  lemma {:induction false} RunKeepsOwned(ctxSession: nat, iscConfig: nat, ops: seq<Operation>)
    ensures Owned(Run(Start(ctxSession, iscConfig), ops))
  {
    if ops != [] {
      var front := ops[..|ops| - 1];
      RunKeepsOwned(ctxSession, iscConfig, front);
      StepKeepsOwned(Run(Start(ctxSession, iscConfig), front), ops[|ops| - 1]);
    }
  }

  lemma RunStep(m: Machine, ops: seq<Operation>, i: nat)
    requires i < |ops|
    ensures Run(m, ops[..i + 1]) == Step(Run(m, ops[..i]), ops[i])
  {
    assert ops[..i + 1][..i] == ops[..i];
  }

  /** The error state is never left. */
  lemma {:induction false} ErrorIsFinal(ctxSession: nat, iscConfig: nat, ops: seq<Operation>, i: nat, j: nat)
    requires i <= j <= |ops| && Run(Start(ctxSession, iscConfig), ops[..i]).state == Error
    ensures Run(Start(ctxSession, iscConfig), ops[..j]).state == Error
    decreases j
  {
    hide Step, Run, Owned;
    if i < j {
      ErrorIsFinal(ctxSession, iscConfig, ops, i, j - 1);
      RunStep(Start(ctxSession, iscConfig), ops, j - 1);
      RunKeepsOwned(ctxSession, iscConfig, ops[..j - 1]);
      StepKeepsOwned(Run(Start(ctxSession, iscConfig), ops[..j - 1]), ops[j - 1]);
    }
  }

  /** The closes issued since the machine left the configured state. */
  predicate Closes(before: nat, m: Machine) {
    if m.state == ClosingSc then m.channelCloses == before + 1
    else if m.state == Error then before <= m.channelCloses <= before + 1
    else m.channelCloses == before
  }

  lemma StepCloses(m: Machine, op: Operation, before: nat)
    requires Closes(before, m)
    ensures if Step(m, op).state == Configured && m.state != Configured then Step(m, op).channelCloses == before + 1
            else Closes(before, Step(m, op))
  {
  }

  /** While the machine is away from the configured state it issues one close, on entering ClosingSc. */
  lemma {:induction false} ClosesWhileAway(ctxSession: nat, iscConfig: nat, ops: seq<Operation>, i: nat, j: nat)
    requires i < j <= |ops| && Run(Start(ctxSession, iscConfig), ops[..i]).state == Configured
    requires forall k :: i < k <= j ==> Run(Start(ctxSession, iscConfig), ops[..k]).state != Configured
    ensures Closes(Run(Start(ctxSession, iscConfig), ops[..i]).channelCloses, Run(Start(ctxSession, iscConfig), ops[..j]))
    decreases j
  {
    hide Step, Run;
    var m := Start(ctxSession, iscConfig);
    RunStep(m, ops, j - 1);
    if i + 1 < j {
      ClosesWhileAway(ctxSession, iscConfig, ops, i, j - 1);
    }
    StepCloses(Run(m, ops[..j - 1]), ops[j - 1], Run(m, ops[..i]).channelCloses);
  }

  /** Between a start and the next return to the configured state exactly one channel close is issued. */
  lemma OneClosePerRound(ctxSession: nat, iscConfig: nat, ops: seq<Operation>, i: nat, j: nat)
    requires i + 1 < j <= |ops|
    requires Run(Start(ctxSession, iscConfig), ops[..i]).state == Configured
    requires Run(Start(ctxSession, iscConfig), ops[..j]).state == Configured
    requires forall k :: i < k < j ==> Run(Start(ctxSession, iscConfig), ops[..k]).state != Configured
    ensures Run(Start(ctxSession, iscConfig), ops[..j]).channelCloses ==
            Run(Start(ctxSession, iscConfig), ops[..i]).channelCloses + 1
  {
    hide Step, Run;
    var m := Start(ctxSession, iscConfig);
    ClosesWhileAway(ctxSession, iscConfig, ops, i, j - 1);
    RunStep(m, ops, j - 1);
    StepCloses(Run(m, ops[..j - 1]), ops[j - 1], Run(m, ops[..i]).channelCloses);
  }

  // ----- Why a round ends -----

  /** Operation k is the answer to the request of operation i. */
  predicate Answers(start: Operation, op: Operation) {
    start.StartRequest? && op.Dispatch? && op.event == DiscoveryResponse && op.appCtx == start.pointer
  }

  /** Operation k tells that the session is closed, after the application asked for it. */
  predicate Closed(ctxSession: nat, ops: seq<Operation>, i: nat, k: nat)
    requires i < k < |ops|
  {
    && ops[i] == StartSession && StopSession in ops[i + 1..k]
    && ops[k].Dispatch? && ops[k].event == ClosedSession && ops[k].appCtx == ctxSession
  }

  ghost predicate Finished(ctxSession: nat, ops: seq<Operation>, i: nat, k: nat)
    requires i < k < |ops|
  {
    Answers(ops[i], ops[k]) || Closed(ctxSession, ops, i, k)
  }

  /** What led to the state after the first j operations, when the last start was operation i. */
  ghost predicate Caused(m: Machine, ops: seq<Operation>, i: nat, j: nat)
    requires i < j <= |ops|
  {
    match m.state
    case Activating => ops[i] == StartSession
    case Activated =>
      && ops[i] == StartSession
      && exists k :: i < k < j && ops[k] == Dispatch(ActivatedSession, m.sessionId, m.ctxSession)
    case ClosingSession => ops[i] == StartSession && StopSession in ops[i + 1..j]
    case Discovering => ops[i] == StartRequest(false, true, m.ctxRequest, true)
    case Register => ops[i] == StartRequest(true, true, m.ctxRequest, true)
    case ClosingSc => exists k :: i < k < j && Finished(m.ctxSession, ops, i, k)
    case _ => true
  }

  lemma StartCaused(m: Machine, ops: seq<Operation>, i: nat)
    requires i < |ops| && m.state == Configured
    ensures Caused(Step(m, ops[i]), ops, i, i + 1)
  {
  }

  lemma StepCaused(m: Machine, ops: seq<Operation>, i: nat, j: nat)
    requires i < j < |ops| && m.state != Configured && Caused(m, ops, i, j)
    ensures Caused(Step(m, ops[j]), ops, i, j + 1)
  {
    var n := Step(m, ops[j]);
    assert ops[i + 1..j + 1] == ops[i + 1..j] + [ops[j]];
    if n.state == ClosingSc && m.state != ClosingSc {
      assert Finished(m.ctxSession, ops, i, j);
    } else if n.state == Activated && m.state != Activated {
      assert ops[j] == Dispatch(ActivatedSession, n.sessionId, n.ctxSession);
    }
  }

  lemma {:induction false} CausedWhileAway(m: Machine, ops: seq<Operation>, i: nat, j: nat)
    requires i < j <= |ops| && Run(m, ops[..i]).state == Configured
    requires forall k :: i < k < j ==> Run(m, ops[..k]).state != Configured
    ensures Caused(Run(m, ops[..j]), ops, i, j)
    decreases j
  {
    hide Step, Run, Caused;
    RunStep(m, ops, j - 1);
    if j == i + 1 {
      StartCaused(Run(m, ops[..i]), ops, i);
    } else {
      CausedWhileAway(m, ops, i, j - 1);
      StepCaused(Run(m, ops[..j - 1]), ops, i, j - 1);
    }
  }

  lemma {:induction false} RunKeepsIds(m: Machine, ops: seq<Operation>)
    ensures Run(m, ops).ctxSession == m.ctxSession && Run(m, ops).iscConfig == m.iscConfig
  {
    if ops != [] {
      RunKeepsIds(m, ops[..|ops| - 1]);
    }
  }

  /** The machine returns to the configured state only when its own channel is closed, and only after the
      answer to the very request it started, or after the close of the session that the application stopped. */
  lemma RoundEnds(m: Machine, ops: seq<Operation>, i: nat, j: nat) returns (k: nat)
    requires i + 1 < j <= |ops|
    requires Run(m, ops[..i]).state == Configured && Run(m, ops[..j]).state == Configured
    requires forall l :: i < l < j ==> Run(m, ops[..l]).state != Configured
    ensures i < k < j - 1 && Finished(m.ctxSession, ops, i, k)
    ensures ops[j - 1].Dispatch? && ops[j - 1].event == ClosedChannel && ops[j - 1].arg == m.iscConfig
  {
    hide Run;
    RunStep(m, ops, j - 1);
    RunKeepsIds(m, ops[..j - 1]);
    CausedWhileAway(m, ops, i, j - 1);
    var last := Run(m, ops[..j - 1]);
    assert last.state == ClosingSc;
    k :| i < k < j - 1 && Finished(last.ctxSession, ops, i, k);
  }

  // ----- Which session a stop closes -----

  predicate OwnActivation(m: Machine, op: Operation) {
    op.Dispatch? && op.event == ActivatedSession && op.appCtx == m.ctxSession
  }

  /** While the session of operation i is being activated, the session id is still the one from before. */
  lemma {:induction false} ActivatingMeans(m: Machine, ops: seq<Operation>, i: nat, j: nat)
    requires i < j <= |ops| && Run(m, ops[..i]).state == Configured && Run(m, ops[..j]).state == Activating
    requires forall k :: i < k < j ==> Run(m, ops[..k]).state != Configured
    ensures Run(m, ops[..j]).sessionId == Run(m, ops[..i]).sessionId
    ensures forall k :: i < k < j ==> !OwnActivation(m, ops[k])
    decreases j
  {
    hide Run;
    RunStep(m, ops, j - 1);
    RunKeepsIds(m, ops[..j - 1]);
    if i + 1 < j {
      ActivatingMeans(m, ops, i, j - 1);
    }
  }

  /** The first stop of a round closes a session that was activated in the round if and only if the machine is
      activated when the stop comes; when it is still activating, the id of an earlier round, or 0, is closed. */
  lemma StopClosesOwnSessionIff(m: Machine, ops: seq<Operation>, i: nat, j: nat)
    requires i < j < |ops| && ops[j] == StopSession && StopSession !in ops[i + 1..j]
    requires Run(m, ops[..i]).state == Configured && Connected(Run(m, ops[..j]).state)
    requires forall k :: i < k < j ==> Run(m, ops[..k]).state != Configured
    ensures var before, after := Run(m, ops[..j]), Run(m, ops[..j + 1]);
      && after.sessionCloses == before.sessionCloses + [before.sessionId]
      && ((exists k :: i < k < j && ops[k] == Dispatch(ActivatedSession, before.sessionId, m.ctxSession))
          <==> before.state == Activated)
      && (before.state != Activated ==> before.sessionId == Run(m, ops[..i]).sessionId)
  {
    hide Run;
    RunStep(m, ops, j);
    RunKeepsIds(m, ops[..j]);
    CausedWhileAway(m, ops, i, j);
    var before := Run(m, ops[..j]);
    if before.state == Activating {
      ActivatingMeans(m, ops, i, j);
      assert forall k :: i < k < j && ops[k] == Dispatch(ActivatedSession, before.sessionId, m.ctxSession) ==> OwnActivation(m, ops[k]);
    }
  }

  /** A second round that is stopped before its activation closes the session of the first one again. */
  lemma EarlierSessionClosed(m: Machine)
    requires m == Start(1, 5)
    ensures
      var m1 := Step(Step(Step(m, StartSession), Dispatch(ActivatedSession, 7, 1)), StopSession);
      var m2 := Step(Step(m1, Dispatch(ClosedSession, 0, 1)), Dispatch(ClosedChannel, 5, 5));
      m2.state == Configured && Step(Step(m2, StartSession), StopSession).sessionCloses == [7, 7]
  {
  }
}
