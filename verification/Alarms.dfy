/** The alarms of the demonstration server: the timer tick that toggles the condition source of an
    equipment, and the callbacks run after a client calls Acknowledge, Confirm, Enable or Disable.

    A step is a tick, or a state change asked by a client together with the callback it triggers.
    The library setters follow libs2opc_internal_alarm_conditions.c: a state variable that already has
    the requested value is left alone, and an alarm set up with automatic acknowledgement loses its
    AckedState when it becomes active.
 */
module Alarms {
  import opened Basics

  /** The texts of the Message variable; each one names a state of the documented diagram. */
  datatype Diagram = AiFalse | AaTrue | AaFalse | AkTrue | AkFalse

  /** An alarm condition instance; without a confirmation step the ConfirmedState has no value. */
  datatype Condition = Condition(
    enabled: bool,
    active: bool,
    acked: bool,
    confirmed: Option<bool>,
    retain: bool,
    message: Diagram)

  datatype Equipment = Equipment(hasConfirmation: bool, source: bool, alarm: Condition)

  datatype Event = Tick | Acknowledge | Confirm | Enable | Disable

  // ----- The library setters -----

  function SetActive(c: Condition, active: bool): Condition {
    if (active && !c.enabled) || c.active == active then c
    else if active then c.(active := true, acked := false)
    else c.(active := false)
  }

  function SetRetain(c: Condition, retain: bool): Condition {
    if c.enabled then c.(retain := retain) else c
  }

  /** Confirmable means that the ConfirmedState is FALSE. */
  function SetConfirmable(c: Condition, confirmable: bool): Condition {
    if confirmable && !c.enabled then c else c.(confirmed := Some(!confirmable))
  }

  /** A disabled alarm does not become active or confirmable and keeps Retain; becoming active clears AckedState. */
  lemma SettersObeyEnabled(c: Condition, value: bool)
    ensures !c.enabled ==> (SetActive(c, value).active ==> c.active) && SetRetain(c, value) == c
    ensures !c.enabled && SetConfirmable(c, value).confirmed == Some(false) ==> c.confirmed == Some(false)
    ensures c.enabled ==> SetActive(c, value).active == value && SetRetain(c, value).retain == value
    ensures c.enabled ==> SetConfirmable(c, value).confirmed == Some(!value)
    ensures SetActive(c, value).acked == (c.acked && (SetActive(c, value).active ==> c.active))
  {
  }

  // ----- The steps -----

  function SetInactive(c: Condition): Condition {
    SetActive(SetRetain(c.(message := AiFalse), false), false)
  }

  function TickStep(e: Equipment): Equipment {
    var c, f := e.alarm, e.(source := !e.source);
    if !c.enabled then f
    else if f.source then
      var d := if c.active && c.acked && c.confirmed == Some(true) then SetInactive(c) else c;
      if !d.active then f.(alarm := SetActive(SetRetain(d.(message := AaTrue), true), true))
      else
        var g := if e.hasConfirmation then SetConfirmable(d, false) else d;
        f.(alarm := g.(message := if c.acked then AkTrue else AaTrue))
    else if c.active && c.acked then
      if e.hasConfirmation then f.(alarm := SetConfirmable(c.(message := AkFalse), true))
      else f.(alarm := SetInactive(c))
    else if c.active then f.(alarm := c.(message := AaFalse))
    else f
  }

  function AckedCallback(e: Equipment): Equipment {
    if e.source then e.(alarm := e.alarm.(message := AkTrue))
    else if e.hasConfirmation then e.(alarm := SetConfirmable(e.alarm.(message := AkFalse), true))
    else e.(alarm := SetInactive(e.alarm))
  }

  function ConfirmedCallback(e: Equipment): Equipment {
    if e.source then e else e.(alarm := SetInactive(e.alarm))
  }

  function EnabledCallback(e: Equipment, enabled: bool): Equipment {
    if enabled then
      if e.source then e.(alarm := SetActive(SetRetain(e.alarm, true), true)) else e
    else
      var c := if e.hasConfirmation then SetConfirmable(e.alarm, false) else e.alarm;
      e.(alarm := SetActive(c.(acked := true), false))
  }

  /** The state change of an Acknowledge call, before its callback. */
  function Acked(e: Equipment): Equipment {
    e.(alarm := e.alarm.(acked := true))
  }

  function Step(e: Equipment, event: Event): Equipment {
    var c := e.alarm;
    match event
    case Tick => TickStep(e)
    case Acknowledge => if c.enabled && !c.acked then AckedCallback(Acked(e)) else e
    case Confirm =>
      if c.enabled && c.confirmed == Some(false) then ConfirmedCallback(e.(alarm := c.(confirmed := Some(true)))) else e
    case Enable => if !c.enabled then EnabledCallback(e.(alarm := c.(enabled := true)), true) else e
    case Disable => if c.enabled then EnabledCallback(e.(alarm := c.(enabled := false, retain := false)), false) else e
  }

  function Initial(hasConfirmation: bool): Equipment {
    Equipment(hasConfirmation, false,
      Condition(true, false, true, if hasConfirmation then Some(true) else None, false, AiFalse))
  }

  /** The state after the events of `run`. */
  function Run(e: Equipment, run: seq<Event>): Equipment {
    if run == [] then e else Step(Run(e, run[..|run| - 1]), run[|run| - 1])
  }

  // ----- The objects -----

  class AlarmInstance {
    var enabled: bool
    var active: bool
    var acked: bool
    var confirmed: Option<bool>
    var retain: bool
    var message: Diagram

    constructor (hasConfirmation: bool)
      ensures State() == Initial(hasConfirmation).alarm
    {
      enabled, active, acked, retain, message := true, false, true, false, AiFalse;
      confirmed := if hasConfirmation then Some(true) else None;
    }

    function State(): Condition
      reads this
    {
      Condition(enabled, active, acked, confirmed, retain, message)
    }

    method SetActiveState(value: bool)
      modifies this
      ensures State() == SetActive(old(State()), value)
    {
      if value && !enabled {
        return;
      }
      if active != value {
        active := value;
        if value {
          acked := false;
        }
      }
    }

    method SetRetainValue(value: bool)
      modifies this
      ensures State() == SetRetain(old(State()), value)
    {
      if enabled {
        retain := value;
      }
    }

    method SetConfirmableState(confirmable: bool)
      modifies this
      ensures State() == SetConfirmable(old(State()), confirmable)
    {
      if confirmable && !enabled {
        return;
      }
      confirmed := Some(!confirmable);
    }
  }

  class EquipmentWithAlarm {
    const hasConfirmation: bool
    const alarm: AlarmInstance
    var lastSource: bool

    constructor (hasConfirmation: bool)
      ensures State() == Initial(hasConfirmation) && fresh(alarm)
    {
      this.hasConfirmation := hasConfirmation;
      alarm := new AlarmInstance(hasConfirmation);
      lastSource := false;
    }

    function State(): Equipment
      reads this, alarm
    {
      Equipment(hasConfirmation, lastSource, alarm.State())
    }

    /** `SOPC_InternalSetInactiveAlarmState` */
    method SetInactiveState()
      modifies alarm
      ensures alarm.State() == SetInactive(old(alarm.State()))
    {
      alarm.message := AiFalse;
      alarm.SetRetainValue(false);
      alarm.SetActiveState(false);
    }

    /** `UpdateConditionSourceAndAlarmStates` */
    method UpdateConditionSource()
      modifies this, alarm
      ensures State() == Step(old(State()), Tick)
    {
      lastSource := !lastSource;
      if !alarm.enabled {
        return;
      }
      var activeState, ackedState, confirmedState := alarm.active, alarm.acked, alarm.confirmed == Some(true);
      if lastSource {
        if activeState && ackedState && confirmedState {
          SetInactiveState();
          activeState := false;
        }
        if !activeState {
          alarm.message := AaTrue;
          alarm.SetRetainValue(true);
          alarm.SetActiveState(true);
        } else {
          if hasConfirmation {
            alarm.SetConfirmableState(false);
          }
          alarm.message := if ackedState then AkTrue else AaTrue;
        }
      } else {
        if activeState && ackedState {
          if hasConfirmation {
            alarm.message := AkFalse;
            alarm.SetConfirmableState(true);
          } else {
            SetInactiveState();
          }
        } else if activeState {
          alarm.message := AaFalse;
        }
      }
    }

    /** `SOPC_AckedStateChanged` with the value TRUE */
    method AckedStateChanged()
      modifies alarm
      ensures State() == AckedCallback(old(State()))
    {
      if !lastSource {
        if hasConfirmation {
          alarm.message := AkFalse;
          alarm.SetConfirmableState(true);
        } else {
          SetInactiveState();
        }
      } else {
        alarm.message := AkTrue;
      }
    }

    /** `SOPC_ConfirmedStateChanged` with the value TRUE */
    method ConfirmedStateChanged()
      modifies alarm
      ensures State() == ConfirmedCallback(old(State()))
    {
      if !lastSource {
        SetInactiveState();
      }
    }

    /** `SOPC_EnabledStateChanged` */
    method EnabledStateChanged(enabled: bool)
      modifies alarm
      ensures State() == EnabledCallback(old(State()), enabled)
    {
      if enabled {
        if lastSource {
          alarm.SetRetainValue(true);
          alarm.SetActiveState(true);
        }
      } else {
        if hasConfirmation {
          alarm.SetConfirmableState(false);
        }
        alarm.acked := true;
        alarm.SetActiveState(false);
      }
    }

    /** A call of a client on the alarm: refused, or a state change followed by its callback. */
    method Call(event: Event)
      requires event != Tick
      modifies alarm
      ensures State() == Step(old(State()), event)
    {
      match event {
        case Acknowledge =>
          if alarm.enabled && !alarm.acked {
            alarm.acked := true;
            AckedStateChanged();
          }
        case Confirm =>
          if alarm.enabled && alarm.confirmed == Some(false) {
            alarm.confirmed := Some(true);
            ConfirmedStateChanged();
          }
        case Enable =>
          if !alarm.enabled {
            alarm.enabled := true;
            EnabledStateChanged(true);
          }
        case Disable =>
          if alarm.enabled {
            alarm.enabled, alarm.retain := false, false;
            EnabledStateChanged(false);
          }
      }
    }
  }

  // ----- The documented diagram -----

  /** The edges of the state diagrams at the head of toolkit_demo_server_alarms.c. Two edges that the
      drawings leave out are taken from the code: when the condition source becomes TRUE again before the
      alarm is inactive, Aa + FALSE goes back to Aa + TRUE and Ak + FALSE to Ak + TRUE. */
  function DiagramNext(hasConfirmation: bool, d: Diagram, event: Event): Diagram {
    match (d, event)
    case (AiFalse, Tick) => AaTrue
    case (AaTrue, Tick) => AaFalse
    case (AaFalse, Tick) => AaTrue
    case (AkTrue, Tick) => if hasConfirmation then AkFalse else AiFalse
    case (AkFalse, Tick) => AkTrue
    case (AaTrue, Acknowledge) => AkTrue
    case (AaFalse, Acknowledge) => if hasConfirmation then AkFalse else AiFalse
    case (AkFalse, Confirm) => AiFalse
    case _ => d
  }

  /** The concrete states that stand for a state of the diagram. */
  predicate InState(e: Equipment, d: Diagram) {
    var c := e.alarm;
    && c.enabled
    && e.source == (d == AaTrue || d == AkTrue)
    && c.active == c.retain == (d != AiFalse)
    && c.acked == (d != AaTrue && d != AaFalse)
    && c.confirmed == (if !e.hasConfirmation then None else Some(d != AkFalse))
    && (d == AkFalse ==> e.hasConfirmation)
  }

  /** A disabled alarm is reset, whatever the condition source does. */
  predicate IsReset(e: Equipment) {
    var c := e.alarm;
    && !c.enabled && !c.active && !c.retain && c.acked
    && c.confirmed == (if !e.hasConfirmation then None else Some(true))
  }

  ghost predicate Consistent(e: Equipment) {
    IsReset(e) || exists d :: InState(e, d)
  }

  /** An enabled alarm follows the diagram step by step. */
  lemma StepFollowsDiagram(e: Equipment, d: Diagram, event: Event)
    requires InState(e, d) && event != Disable
    ensures InState(Step(e, event), DiagramNext(e.hasConfirmation, d, event))
  {
  }

  lemma StepKeepsConsistent(e: Equipment, event: Event)
    requires Consistent(e)
    ensures Consistent(Step(e, event)) && Step(e, event).hasConfirmation == e.hasConfirmation
  {
    if IsReset(e) {
      if event == Enable {
        assert InState(Step(e, event), if e.source then AaTrue else AiFalse);
      } else {
        assert IsReset(Step(e, event));
      }
    } else {
      var d :| InState(e, d);
      if event == Disable {
        assert IsReset(Step(e, event));
      } else {
        StepFollowsDiagram(e, d, event);
      }
    }
  }

  /** In every run an alarm is disabled and reset, or in one state of the diagram of its kind; in
      particular it is retained if and only if it is active. */
  lemma {:induction false} RunConsistent(hasConfirmation: bool, run: seq<Event>)
    ensures Consistent(Run(Initial(hasConfirmation), run))
    ensures Run(Initial(hasConfirmation), run).hasConfirmation == hasConfirmation
    ensures var c := Run(Initial(hasConfirmation), run).alarm; c.retain == c.active
  {
    if run == [] {
      assert InState(Initial(hasConfirmation), AiFalse);
    } else {
      var front := run[..|run| - 1];
      RunConsistent(hasConfirmation, front);
      StepKeepsConsistent(Run(Initial(hasConfirmation), front), run[|run| - 1]);
    }
  }

  /** The state of the diagram reached by a run without Disable. */
  function DiagramRun(hasConfirmation: bool, run: seq<Event>): Diagram {
    if run == [] then AiFalse
    else DiagramNext(hasConfirmation, DiagramRun(hasConfirmation, run[..|run| - 1]), run[|run| - 1])
  }

  /** A run without Disable is the run of the diagram, and the message names the state. */
  lemma {:induction false} RunFollowsDiagram(hasConfirmation: bool, run: seq<Event>)
    requires Disable !in run
    ensures var e := Run(Initial(hasConfirmation), run);
      InState(e, DiagramRun(hasConfirmation, run)) && e.alarm.message == DiagramRun(hasConfirmation, run)
  {
    if run != [] {
      var front, last := run[..|run| - 1], run[|run| - 1];
      assert last in run && forall x :: x in front ==> x in run;
      RunFollowsDiagram(hasConfirmation, front);
      RunConsistent(hasConfirmation, front);
      StepFollowsDiagram(Run(Initial(hasConfirmation), front), DiagramRun(hasConfirmation, front), last);
    }
  }

  /** After a Disable the message is right again from the first tick of the enabled alarm on. */
  lemma TickRestoresMessage(e: Equipment, d: Diagram)
    requires InState(e, d)
    ensures Step(e, Tick).alarm.message == DiagramNext(e.hasConfirmation, d, Tick)
  {
  }

  /** Before that tick it may name another state: here the alarm is inactive and the message says Aa + TRUE. */
  lemma MessageStaleAfterDisable()
    ensures var e := Run(Initial(false), [Tick, Disable, Tick, Enable]);
      InState(e, AiFalse) && e.alarm.message == AaTrue
  {
    var run := [Tick, Disable, Tick, Enable];
    assert run[..3] == [Tick, Disable, Tick];
    assert [Tick, Disable, Tick][..2] == [Tick, Disable];
    assert [Tick, Disable][..1] == [Tick];
    assert [Tick][..0] == [];
    assert Run(Initial(false), [Tick]) == Step(Initial(false), Tick);
    assert Run(Initial(false), [Tick, Disable]) == Step(Step(Initial(false), Tick), Disable);
  }

  // ----- Every run, with Disable -----

  /** What a client sees: the state of the diagram or, while disabled, only the condition source; and the message. */
  datatype Shown = Shown(state: Option<Diagram>, source: bool, message: Diagram)

  predicate SourceOf(d: Diagram) {
    d == AaTrue || d == AkTrue
  }

  /** The diagram extended by Disable and Enable. A step to another state writes the message, the others keep it. */
  function ShownNext(hasConfirmation: bool, s: Shown, event: Event): Shown {
    match s.state
    case None =>
      if event == Tick then s.(source := !s.source)
      else if event == Enable then s.(state := Some(if s.source then AaTrue else AiFalse))
      else s
    case Some(d) =>
      if event == Disable then s.(state := None)
      else
        var next := DiagramNext(hasConfirmation, d, event);
        if next == d then s else Shown(Some(next), SourceOf(next), next)
  }

  function ShownRun(hasConfirmation: bool, run: seq<Event>): Shown {
    if run == [] then Shown(Some(AiFalse), false, AiFalse)
    else ShownNext(hasConfirmation, ShownRun(hasConfirmation, run[..|run| - 1]), run[|run| - 1])
  }

  /** The variables of the equipment for what is shown. */
  function Variables(hasConfirmation: bool, s: Shown): Equipment {
    Equipment(hasConfirmation, s.source,
      match s.state
      case None => Condition(false, false, true, if hasConfirmation then Some(true) else None, false, s.message)
      case Some(d) =>
        Condition(true, d != AiFalse, d != AaTrue && d != AaFalse, if hasConfirmation then Some(d != AkFalse) else None,
          d != AiFalse, s.message))
  }

  lemma ShownStep(hasConfirmation: bool, s: Shown, event: Event)
    requires s.state.Some? ==> s.source == SourceOf(s.state.value)
    requires s.state == Some(AkFalse) ==> hasConfirmation
    ensures var t := ShownNext(hasConfirmation, s, event);
      && Step(Variables(hasConfirmation, s), event) == Variables(hasConfirmation, t)
      && (t.state.Some? ==> t.source == SourceOf(t.state.value)) && (t.state == Some(AkFalse) ==> hasConfirmation)
  {
  }

  /** After every run, Disable and Enable included, all variables are those of the extended diagram. */
  lemma {:induction false} RunExact(hasConfirmation: bool, run: seq<Event>)
    ensures var s := ShownRun(hasConfirmation, run);
      && Run(Initial(hasConfirmation), run) == Variables(hasConfirmation, s)
      && (s.state.Some? ==> s.source == SourceOf(s.state.value)) && (s.state == Some(AkFalse) ==> hasConfirmation)
  {
    hide Step, ShownNext;
    if run != [] {
      var front := run[..|run| - 1];
      RunExact(hasConfirmation, front);
      ShownStep(hasConfirmation, ShownRun(hasConfirmation, front), run[|run| - 1]);
    }
  }

  function Ticks(run: seq<Event>): nat {
    if run == [] then 0 else Ticks(run[..|run| - 1]) + if run[|run| - 1] == Tick then 1 else 0
  }

  /** Whatever the clients do, the condition source is TRUE after an odd number of ticks. */
  lemma {:induction false} SourceIsParity(hasConfirmation: bool, run: seq<Event>)
    ensures Run(Initial(hasConfirmation), run).source == (Ticks(run) % 2 == 1)
  {
    if run != [] {
      SourceIsParity(hasConfirmation, run[..|run| - 1]);
    }
  }

  // ----- When an alarm becomes inactive -----

  /** Event `k` of the run acknowledged the alarm, which stayed active from then until event `i`. */
  ghost predicate AcknowledgedSince(e0: Equipment, run: seq<Event>, k: nat, i: nat) {
    && k <= i <= |run|
    && k < |run| && run[k] == Acknowledge
    && !Run(e0, run[..k]).alarm.acked
    && forall m :: k <= m <= i ==> Run(e0, run[..m]).alarm.active
  }

  lemma RunStep(e0: Equipment, run: seq<Event>, i: nat)
    requires i < |run|
    ensures Run(e0, run[..i + 1]) == Step(Run(e0, run[..i]), run[i])
  {
    assert run[..i + 1][..i] == run[..i];
  }

  /** An active and acknowledged alarm was acknowledged since its last activation. */
  lemma {:induction false} ActiveAckedWasAcknowledged(hasConfirmation: bool, run: seq<Event>, i: nat) returns (k: nat)
    requires i <= |run|
    requires var c := Run(Initial(hasConfirmation), run[..i]).alarm; c.active && c.acked
    ensures k < i && AcknowledgedSince(Initial(hasConfirmation), run, k, i)
  {
    hide Step, Consistent;
    var e0 := Initial(hasConfirmation);
    if i == 0 {
      assert false;
    } else {
      RunStep(e0, run, i - 1);
      RunConsistent(hasConfirmation, run[..i - 1]);
      var before := Run(e0, run[..i - 1]);
      if before.alarm.active && before.alarm.acked {
        k := ActiveAckedWasAcknowledged(hasConfirmation, run, i - 1);
      } else {
        k := i - 1;
        OnlyAcknowledgeAcks(before, run[i - 1]);
      }
    }
  }

  lemma OnlyAcknowledgeAcks(e: Equipment, event: Event)
    requires Consistent(e) && !(e.alarm.active && e.alarm.acked)
    requires Step(e, event).alarm.active && Step(e, event).alarm.acked
    ensures event == Acknowledge && e.alarm.active && !e.alarm.acked
  {
  }

  /** Unless it is disabled, an alarm becomes inactive only with the source FALSE, after an Acknowledge
      since its last activation and, with a confirmation step, by a Confirm of the acknowledged alarm. */
  lemma InactiveOnlyAfterAcknowledge(hasConfirmation: bool, run: seq<Event>, i: nat) returns (k: nat)
    requires i < |run| && run[i] != Disable
    requires Run(Initial(hasConfirmation), run[..i]).alarm.active
    requires !Run(Initial(hasConfirmation), run[..i + 1]).alarm.active
    ensures AcknowledgedSince(Initial(hasConfirmation), run, k, i)
    ensures !Run(Initial(hasConfirmation), run[..i + 1]).source
    ensures hasConfirmation ==>
      k < i && run[i] == Confirm && Run(Initial(hasConfirmation), run[..i]).alarm.confirmed == Some(false)
  {
    var e0 := Initial(hasConfirmation);
    RunStep(e0, run, i);
    RunConsistent(hasConfirmation, run[..i]);
    var before := Run(e0, run[..i]);
    HowInactive(before, run[i]);
    if before.alarm.acked {
      k := ActiveAckedWasAcknowledged(hasConfirmation, run, i);
    } else {
      k := i;
    }
  }

  lemma HowInactive(e: Equipment, event: Event)
    requires Consistent(e) && event != Disable && e.alarm.active && !Step(e, event).alarm.active
    ensures !Step(e, event).source
    ensures e.hasConfirmation ==> event == Confirm && e.alarm.acked && e.alarm.confirmed == Some(false)
    ensures !e.alarm.acked ==> event == Acknowledge
  {
  }

  // ----- A tick between a state change and its callback -----

  /** Some state of the diagram is the state of the alarm and is named by the message. */
  ghost predicate Displayed(e: Equipment) {
    exists d :: InState(e, d) && e.alarm.message == d
  }

  /** A tick that comes between a Confirm and its callback has the effect of a tick after both. */
  lemma TickInsideConfirm(e: Equipment)
    requires InState(e, AkFalse)
    ensures ConfirmedCallback(TickStep(e.(alarm := e.alarm.(confirmed := Some(true))))) == Step(Step(e, Confirm), Tick)
  {
  }

  /** A tick that comes between an Acknowledge and its callback leaves an alarm whose message names its
      state if and only if it is not the case that the alarm has a confirmation step and the source was
      FALSE: there the tick takes the acknowledged alarm for a confirmed one. */
  lemma TickInsideAcknowledgeIff(e: Equipment, d: Diagram)
    requires InState(e, d) && !e.alarm.acked
    ensures Displayed(AckedCallback(TickStep(Acked(e)))) <==> !(e.hasConfirmation && !e.source)
  {
    var f := AckedCallback(TickStep(Acked(e)));
    if e.hasConfirmation && !e.source {
      AcknowledgementLost(e);
      assert forall x :: InState(f, x) ==> x == AaTrue;
    } else if e.source {
      assert InState(f, if e.hasConfirmation then AkFalse else AiFalse);
    } else {
      assert InState(f, AkTrue);
    }
  }

  /** In that case the alarm is active again and unacknowledged although nobody confirmed it, and the
      late callback makes the message claim that it is acknowledged. */
  lemma AcknowledgementLost(e: Equipment)
    requires InState(e, AaFalse) && e.hasConfirmation
    ensures var f := AckedCallback(TickStep(Acked(e)));
      InState(f, AaTrue) && f.alarm.message == AkTrue
  {
  }
}
