/**
 * The lifecycle controller of the field device: the boot sequence, the bounded event queue and
 * the edit session, as a machine of small steps between which other tasks and timers act. The
 * boot sequence is cut at each call it makes, where a failure or a queued fault can end it.
 */
module Lifecycle {
  import opened Bytes
  import opened ConfigParams
  import ConfigService

  const QUEUE_DEPTH: nat := 4
  const INIT_TIMEOUT: nat := 0xFFF0

  datatype Event =
    | EditEnter | EditApply | EditCancel | EditTimeout | RestartRequested | GatewayOnly | Fault(code: nat)

  datatype Mode = Initialising | Operational | EditingConfig | Faulted

  /** Where the controller task is: a step of the boot sequence, or its event loop. */
  datatype Place =
    | CheckingIntegrity | FirstPoll | LoadingConfig | ApplyingConfig | SecondPoll
    | StartingSensors | StartingAlarms | ThirdPoll | StartingGraphics | StartingLcd | FourthPoll
    | StartingMiddleware | OpeningGate | EventLoop

  /** gui: built with the display; passed: the calls that succeeded; gates: how often the start gate was set. */
  datatype System = System(
    mode: Mode, place: Place, gui: bool, queue: seq<Event>, initTimer: bool, editTimer: bool,
    passed: set<Place>, gates: nat, loaded: ConfigService.Loaded, config: ConfigService.State,
    address: Option<int>, faults: seq<nat>)

  function Boot(gui: bool, config: ConfigService.State): System {
    System(Initialising, CheckingIntegrity, gui, [], false, false, {}, 0, ConfigService.Nothing, config, None, [])
  }

  /** A post never blocks: with a full queue it is lost. */
  function Send(s: System, e: Event): System {
    if |s.queue| < QUEUE_DEPTH then s.(queue := s.queue + [e]) else s
  }

  function EnterFaulted(s: System, code: nat): System {
    s.(mode := Faulted, place := EventLoop, faults := s.faults + [code])
  }

  /** The check for an abort between two boot steps: one event is taken, anything but a fault is dropped. */
  function PollForAbort(s: System, next: Place): (r: System)
    ensures r.gates == s.gates && r.config == s.config
    ensures r.queue == if s.queue == [] then [] else s.queue[1..]
  {
    if s.queue == [] then s.(place := next) else
    var s1 := s.(queue := s.queue[1..]);
    if s.queue[0].Fault? then EnterFaulted(s1, s.queue[0].code) else s1.(place := next)
  }

  /** A boot step that calls something: on to the next place, or into the fault it reports. */
  function Call(s: System, ok: bool, code: nat, next: Place): (r: System)
    ensures r.gates == s.gates && r.config == s.config && r.queue == s.queue
  {
    if ok then s.(passed := s.passed + {s.place}, place := next) else EnterFaulted(s, code)
  }

  /** Integrity and configuration; ok and blob are what the called module answers. */
  function AdvanceConfig(s: System, ok: bool, blob: ConfigService.Loaded): System {
    match s.place
    case CheckingIntegrity => Call(s.(initTimer := true), ok, 1, FirstPoll)
    case FirstPoll => PollForAbort(s, LoadingConfig)
    case LoadingConfig => Call(s.(loaded := blob), ok, 2, ApplyingConfig)
    case ApplyingConfig =>
      var (e, config) := ConfigService.ApplyLoaded(s.config, s.loaded);
      Call(s.(config := config), e == ConfigService.Success, 3, SecondPoll)
    case SecondPoll => PollForAbort(s, StartingSensors)
    case _ => s
  }

  /** Sensors, display, middleware and the gate. */
  function AdvanceServices(s: System, ok: bool): System {
    match s.place
    case StartingSensors => Call(s, ok, 4, StartingAlarms)
    case StartingAlarms => Call(s, ok, 5, ThirdPoll)
    case ThirdPoll => PollForAbort(s, if s.gui then StartingGraphics else StartingMiddleware)
    case StartingGraphics => Call(s, ok, 6, StartingLcd)
    case StartingLcd => Call(s, ok, 7, FourthPoll)
    case FourthPoll => PollForAbort(s, StartingMiddleware)
    case StartingMiddleware =>
      s.(address := Some(s.config.params.slaveAddr), initTimer := false, mode := Operational, place := OpeningGate)
    case OpeningGate => s.(gates := s.gates + 1, place := EventLoop)
    case _ => s
  }

  predicate InConfigSteps(p: Place) {
    p.CheckingIntegrity? || p.FirstPoll? || p.LoadingConfig? || p.ApplyingConfig? || p.SecondPoll?
  }

  /** The next step of the boot sequence. */
  function Advance(s: System, ok: bool, blob: ConfigService.Loaded): System {
    if InConfigSteps(s.place) then AdvanceConfig(s, ok, blob) else AdvanceServices(s, ok)
  }

  function HandleOperational(s: System, e: Event): System {
    match e
    case EditEnter => s.(config := ConfigService.Snapshot(s.config), editTimer := true, mode := EditingConfig)
    case Fault(code) => EnterFaulted(s, code)
    case _ => s
  }

  function HandleEditing(s: System, e: Event, saves: bool): System {
    match e
    case EditApply =>
      s.(editTimer := false, config := ConfigService.Save(s.config, saves).1,
         address := Some(s.config.params.slaveAddr), mode := Operational)
    case EditCancel => s.(editTimer := false, config := ConfigService.Restore(s.config, saves).1, mode := Operational)
    case EditTimeout => s.(editTimer := false, config := ConfigService.Restore(s.config, saves).1, mode := Operational)
    case Fault(code) => EnterFaulted(s.(editTimer := false), code)
    case _ => s
  }

  /** One pass of the event loop. */
  function Receive(s: System, saves: bool): System {
    if s.queue == [] then s else
    var s1, e := s.(queue := s.queue[1..]), s.queue[0];
    match s.mode
    case Operational => HandleOperational(s1, e)
    case EditingConfig => HandleEditing(s1, e, saves)
    case Faulted => s1
    case Initialising => s1
  }

  /** What can happen next: another task posts, a timer fires, the bus sets a parameter, or the controller moves. */
  datatype Action =
    | Post(e: Event)
    | InitTimerFires
    | EditTimerFires
    | SetParam(id: ParamId, value: int, saves: bool)
    | Move(ok: bool, loaded: ConfigService.Loaded, saves: bool)

  /** set_param by way of the register map, which also moves the bus to a new slave address. */
  function SetByBus(s: System, id: ParamId, value: int, saves: bool): System {
    var (e, config) := ConfigService.SetParam(s.config, id, value, saves);
    s.(config := config, address := if e == ConfigService.Success && id.SlaveAddr? then Some(value) else s.address)
  }

  function Step(s: System, a: Action): System {
    match a
    case Post(e) => Send(s, e)
    case InitTimerFires => if s.initTimer then Send(s.(initTimer := false), Fault(INIT_TIMEOUT)) else s
    case EditTimerFires => if s.editTimer then Send(s.(editTimer := false), EditTimeout) else s
    case SetParam(id, value, saves) => SetByBus(s, id, value, saves)
    case Move(ok, loaded, saves) => if s.place == EventLoop then Receive(s, saves) else Advance(s, ok, loaded)
  }

  function Run(s: System, actions: seq<Action>): System
    decreases |actions|
  {
    if actions == [] then s else Run(Step(s, actions[0]), actions[1..])
  }

  /* ---- the boot sequence and the gate ---- */

  /** The calls the boot sequence makes. */
  function Calls(gui: bool): set<Place> {
    {CheckingIntegrity, LoadingConfig, ApplyingConfig, StartingSensors, StartingAlarms} +
    if gui then {StartingGraphics, StartingLcd} else {}
  }

  /** The calls behind the controller when it is at a place. */
  function CallsBefore(p: Place, gui: bool): set<Place> {
    match p
    case CheckingIntegrity => {}
    case FirstPoll => {CheckingIntegrity}
    case LoadingConfig => {CheckingIntegrity}
    case ApplyingConfig => {CheckingIntegrity, LoadingConfig}
    case SecondPoll => {CheckingIntegrity, LoadingConfig, ApplyingConfig}
    case StartingSensors => {CheckingIntegrity, LoadingConfig, ApplyingConfig}
    case StartingAlarms => {CheckingIntegrity, LoadingConfig, ApplyingConfig, StartingSensors}
    case ThirdPoll => Calls(false)
    case StartingGraphics => Calls(false)
    case StartingLcd => Calls(false) + {StartingGraphics}
    case _ => Calls(gui)
  }

  ghost predicate Inv(s: System) {
    && |s.queue| <= QUEUE_DEPTH
    && (s.mode != Faulted ==> CallsBefore(s.place, s.gui) <= s.passed)
    && (s.mode == Faulted ==> s.place == EventLoop)
    && (s.mode == Initialising <==> s.place != EventLoop && s.place != OpeningGate)
    && (s.place == OpeningGate ==> s.mode == Operational)
    && (s.place in {StartingGraphics, StartingLcd, FourthPoll} ==> s.gui)
    && (s.place != EventLoop ==> s.gates == 0) && s.gates <= 1
    && (s.place == EventLoop && s.mode != Faulted ==> s.gates == 1)
    && (s.gates == 1 ==> Calls(s.gui) <= s.passed)
    && (s.editTimer ==> s.mode == EditingConfig)
    && (s.mode == EditingConfig ==> s.config.snapshot.Some?)
  }

  lemma ConfigStepsKeepInv(s: System, ok: bool, blob: ConfigService.Loaded)
    requires Inv(s) && InConfigSteps(s.place)
    ensures Inv(AdvanceConfig(s, ok, blob)) && AdvanceConfig(s, ok, blob).gui == s.gui
  {
    hide ConfigService.ApplyLoaded;
  }

  lemma ServiceStepsKeepInv(s: System, ok: bool)
    requires Inv(s) && !InConfigSteps(s.place) && s.place != EventLoop
    ensures Inv(AdvanceServices(s, ok)) && AdvanceServices(s, ok).gui == s.gui
  {
  }

  lemma AdvanceKeepsInv(s: System, ok: bool, blob: ConfigService.Loaded)
    requires Inv(s) && s.place != EventLoop
    ensures Inv(Advance(s, ok, blob)) && Advance(s, ok, blob).gui == s.gui
  {
    hide Inv, AdvanceConfig, AdvanceServices, InConfigSteps;
    if InConfigSteps(s.place) {
      ConfigStepsKeepInv(s, ok, blob);
    } else {
      ServiceStepsKeepInv(s, ok);
    }
  }

  lemma ReceiveKeepsInv(s: System, saves: bool)
    requires Inv(s) && s.place == EventLoop
    ensures Inv(Receive(s, saves)) && Receive(s, saves).gui == s.gui
  {
    hide CallsBefore, Calls;
  }

  lemma StepKeepsInv(s: System, a: Action)
    requires Inv(s)
    ensures Inv(Step(s, a)) && Step(s, a).gui == s.gui
  {
    hide CallsBefore, Calls, Advance, Receive, Valid, Applied;
    match a {
      case Move(ok, loaded, saves) =>
        if s.place == EventLoop {
          ReceiveKeepsInv(s, saves);
        } else {
          AdvanceKeepsInv(s, ok, loaded);
        }
      case _ =>
    }
  }

  /**
   * In every run the start gate is set at most once, and only after every call of the boot
   * sequence succeeded; outside the faulted state the event loop only runs behind the gate.
   */
  lemma {:induction false} GateIsSetOnce(s: System, actions: seq<Action>)
    requires Inv(s)
    ensures var s' := Run(s, actions);
            && Inv(s') && s'.gui == s.gui
            && s'.gates <= 1 && (s'.gates == 1 ==> Calls(s.gui) <= s'.passed)
            && (s'.mode == Operational || s'.mode == EditingConfig ==> Calls(s.gui) <= s'.passed)
    decreases |actions|
  {
    hide Step, CallsBefore, Calls;
    if actions != [] {
      StepKeepsInv(s, actions[0]);
      GateIsSetOnce(Step(s, actions[0]), actions[1..]);
    } else if s.place == OpeningGate {
      PastAllCalls(s.gui);
    }
  }

  lemma PastAllCalls(gui: bool)
    ensures CallsBefore(OpeningGate, gui) == Calls(gui)
  {
  }

  lemma BootKeepsInv(gui: bool, config: ConfigService.State)
    ensures Inv(Boot(gui, config))
  {
  }

  lemma AdvanceKeepsGates(s: System, ok: bool, blob: ConfigService.Loaded)
    ensures s.gates <= Advance(s, ok, blob).gates
  {
    hide Call, PollForAbort, ConfigService.ApplyLoaded;
  }

  lemma ReceiveKeepsGates(s: System, saves: bool)
    ensures s.gates <= Receive(s, saves).gates
  {
    hide ConfigService.Restore, ConfigService.Save;
  }

  lemma StepKeepsGates(s: System, a: Action)
    ensures s.gates <= Step(s, a).gates
  {
    hide Advance, Receive, ConfigService.SetParam;
    if a.Move? {
      AdvanceKeepsGates(s, a.ok, a.loaded);
      ReceiveKeepsGates(s, a.saves);
    }
  }

  /** A gate that was set stays set. */
  lemma {:induction false} GatesNeverFall(s: System, actions: seq<Action>)
    ensures s.gates <= Run(s, actions).gates
    decreases |actions|
  {
    hide Step;
    if actions != [] {
      StepKeepsGates(s, actions[0]);
      GatesNeverFall(Step(s, actions[0]), actions[1..]);
    }
  }

  /* ---- faults ---- */

  /** Nothing leaves the faulted state, and nothing sets the gate from it. */
  lemma {:induction false} FaultedIsAbsorbing(s: System, actions: seq<Action>)
    requires s.mode == Faulted && s.place == EventLoop
    ensures var s' := Run(s, actions); s'.mode == Faulted && s'.place == EventLoop && s'.gates == s.gates && s'.faults == s.faults
    decreases |actions|
  {
    hide Valid, Applied, Repair;
    if actions != [] {
      FaultedIsAbsorbing(Step(s, actions[0]), actions[1..]);
    }
  }

  /** Whether a step takes an event from the queue. */
  predicate Takes(s: System, a: Action) {
    a.Move? && s.queue != [] && s.place in {FirstPoll, SecondPoll, ThirdPoll, FourthPoll, EventLoop}
  }

  /** How many events a run takes from the queue. */
  function TakenIn(s: System, actions: seq<Action>): nat
    decreases |actions|
  {
    if actions == [] then 0 else (if Takes(s, actions[0]) then 1 else 0) + TakenIn(Step(s, actions[0]), actions[1..])
  }

  /** A queued fault after a step: it has taken effect, or is where it was, or one place further up. */
  ghost predicate MovedUp(s: System, a: Action, s': System, k: nat) {
    || s'.mode == Faulted
    || (!Takes(s, a) && k < |s'.queue| && s'.queue[k].Fault?)
    || (Takes(s, a) && k > 0 && k - 1 < |s'.queue| && s'.queue[k - 1].Fault?)
  }

  lemma FaultMovesUpInBoot(s: System, a: Action, k: nat)
    requires a.Move? && s.place != EventLoop && k < |s.queue| && s.queue[k].Fault?
    ensures MovedUp(s, a, Advance(s, a.ok, a.loaded), k)
  {
    hide Repair;
  }

  lemma FaultMovesUpInLoop(s: System, a: Action, k: nat)
    requires Inv(s) && a.Move? && s.place == EventLoop && k < |s.queue| && s.queue[k].Fault?
    ensures MovedUp(s, a, Receive(s, a.saves), k)
  {
    hide CallsBefore, Calls;
  }

  /** A step moves a queued fault forward by one when it takes an event, else leaves it, or has faulted. */
  lemma FaultMovesUp(s: System, a: Action, k: nat)
    requires Inv(s) && k < |s.queue| && s.queue[k].Fault?
    ensures MovedUp(s, a, Step(s, a), k)
  {
    hide Inv, Advance, Receive, Valid, Applied;
    if a.Move? {
      hide MovedUp;
      if s.place == EventLoop {
        FaultMovesUpInLoop(s, a, k);
      } else {
        FaultMovesUpInBoot(s, a, k);
      }
    }
  }

  /** A fault in the queue with k events ahead of it has taken effect once k + 1 events have been taken. */
  lemma {:induction false} QueuedFaultFaults(s: System, actions: seq<Action>, k: nat)
    requires Inv(s) && k < |s.queue| && s.queue[k].Fault? && TakenIn(s, actions) >= k + 1
    ensures Run(s, actions).mode == Faulted
    decreases |actions|
  {
    hide Step, Inv, Takes;
    if actions != [] {
      var s' := Step(s, actions[0]);
      FaultMovesUp(s, actions[0], k);
      StepKeepsInv(s, actions[0]);
      if s'.mode == Faulted {
        assert s'.place == EventLoop by { FaultedIsInLoop(s'); }
        FaultedIsAbsorbing(s', actions[1..]);
      } else if Takes(s, actions[0]) {
        QueuedFaultFaults(s', actions[1..], k - 1);
      } else {
        QueuedFaultFaults(s', actions[1..], k);
      }
    }
  }

  lemma FaultedIsInLoop(s: System)
    requires Inv(s) && s.mode == Faulted
    ensures s.place == EventLoop
  {
  }

  /** A fault that is accepted is in the queue behind what was there. */
  lemma AcceptedFaultFaults(s: System, code: nat, actions: seq<Action>)
    requires Inv(s) && |s.queue| < QUEUE_DEPTH
    requires TakenIn(Step(s, Post(Fault(code))), actions) >= |s.queue| + 1
    ensures Run(Step(s, Post(Fault(code))), actions).mode == Faulted
  {
    StepKeepsInv(s, Post(Fault(code)));
    hide Inv;
    QueuedFaultFaults(Step(s, Post(Fault(code))), actions, |s.queue|);
  }

  /* ---- runs from boot ---- */

  /** In every run from boot the gate is set at most once, behind every call of the boot sequence. */
  lemma GateIsSetOnceFromBoot(gui: bool, config: ConfigService.State, actions: seq<Action>)
    ensures var s := Run(Boot(gui, config), actions);
            && Inv(s) && s.gates <= 1 && (s.gates == 1 ==> Calls(gui) <= s.passed)
            && (s.mode == Operational || s.mode == EditingConfig ==> Calls(gui) <= s.passed)
  {
    hide Inv, Calls, Run;
    BootKeepsInv(gui, config);
    GateIsSetOnce(Boot(gui, config), actions);
  }

  /** Wherever a run from boot has queued a fault, it takes effect with the events ahead of it and itself. */
  lemma FaultTakesEffectFromBoot(gui: bool, config: ConfigService.State, sofar: seq<Action>, k: nat, actions: seq<Action>)
    requires var s := Run(Boot(gui, config), sofar);
             k < |s.queue| && s.queue[k].Fault? && TakenIn(s, actions) >= k + 1
    ensures Run(Run(Boot(gui, config), sofar), actions).mode == Faulted
  {
    hide Inv, Calls, Run, TakenIn;
    GateIsSetOnceFromBoot(gui, config, sofar);
    QueuedFaultFaults(Run(Boot(gui, config), sofar), actions, k);
  }

  /** A soft restart reaches no handler: taking the request changes the queue, and in the boot sequence moves on. */
  lemma RestartRequestIsIgnored(s: System, ok: bool, loaded: ConfigService.Loaded, saves: bool, next: Place)
    requires s.queue != [] && s.queue[0] == RestartRequested
    ensures s.place == EventLoop ==> Step(s, Move(ok, loaded, saves)) == s.(queue := s.queue[1..])
    ensures PollForAbort(s, next) == s.(queue := s.queue[1..], place := next)
  {
  }

  /* ---- edit sessions ---- */

  /** Every state of a run up to its last is one of editing. */
  predicate KeepsEditing(s: System, actions: seq<Action>)
    decreases |actions|
  {
    s.mode == EditingConfig && (actions == [] || KeepsEditing(Step(s, actions[0]), actions[1..]))
  }

  lemma EditingKeepsSnapshot(s: System, a: Action)
    requires s.mode == EditingConfig && s.place == EventLoop && Step(s, a).mode == EditingConfig
    ensures Step(s, a).config.snapshot == s.config.snapshot && Step(s, a).place == EventLoop
  {
    hide Valid, Applied;
  }

  lemma {:induction false} SessionKeepsSnapshot(s: System, actions: seq<Action>)
    requires s.place == EventLoop && KeepsEditing(s, actions)
    ensures var s' := Run(s, actions);
            s'.config.snapshot == s.config.snapshot && s'.mode == EditingConfig && s'.place == EventLoop
    decreases |actions|
  {
    hide Step;
    if actions != [] {
      EditingKeepsSnapshot(s, actions[0]);
      SessionKeepsSnapshot(Step(s, actions[0]), actions[1..]);
    }
  }

  /**
   * An edit session that ends by cancel or timeout leaves the configuration in memory as it
   * was when the session began, whatever was set in between and whatever the store does.
   */
  lemma CancelRestores(s: System, actions: seq<Action>, last: Action)
    requires s.mode == Operational && s.place == EventLoop && s.queue != [] && s.queue[0] == EditEnter
    requires var began := Step(s, Move(true, ConfigService.Nothing, true));
             && KeepsEditing(began, actions)
             && var ending := Run(began, actions);
                last.Move? && ending.queue != [] && (ending.queue[0] == EditCancel || ending.queue[0] == EditTimeout)
    ensures var ended := Step(Run(Step(s, Move(true, ConfigService.Nothing, true)), actions), last);
            ended.mode == Operational && ended.config.params == s.config.params && !ended.editTimer
  {
    hide Run, KeepsEditing;
    SessionKeepsSnapshot(Step(s, Move(true, ConfigService.Nothing, true)), actions);
  }

  /**
   * A session that ends by apply keeps what was set in it, in memory and, when the store saves,
   * in the store, and moves the bus to the address in the configuration.
   */
  lemma ApplyCommits(s: System, actions: seq<Action>, last: Action)
    requires s.mode == EditingConfig && s.place == EventLoop && KeepsEditing(s, actions)
    requires var ending := Run(s, actions); last.Move? && ending.queue != [] && ending.queue[0] == EditApply
    ensures var ending := Run(s, actions);
            var ended := Step(ending, last);
            && ended.mode == Operational && !ended.editTimer
            && ended.config.params == ending.config.params
            && (last.saves ==> ended.config.stored == Some(ending.config.params))
            && ended.address == Some(ending.config.params.slaveAddr)
            && ended.config.snapshot == s.config.snapshot
  {
    hide Run, KeepsEditing;
    SessionKeepsSnapshot(s, actions);
  }

  /* ---- the controller ---- */

  class Controller {
    var mode: Mode
    var place: Place
    const gui: bool
    var queue: seq<Event>
    var initTimer: bool
    var editTimer: bool
    var passed: set<Place>
    var gates: nat
    var loaded: ConfigService.Loaded
    const config: ConfigService.Service
    var address: Option<int>
    var faults: seq<nat>

    /** The configuration service starts before the controller does. */
    ghost predicate Ready()
      reads this, config
    {
      config.initialised
    }

    function Now(): System
      reads this, config
    {
      System(mode, place, gui, queue, initTimer, editTimer, passed, gates, loaded, config.Now(), address, faults)
    }

    constructor (withDisplay: bool, c: ConfigService.Service)
      requires c.initialised
      ensures Ready() && config == c && Now() == Boot(withDisplay, c.Now())
    {
      mode, place, gui, queue := Initialising, CheckingIntegrity, withDisplay, [];
      initTimer, editTimer, passed, gates := false, false, {}, 0;
      loaded, config, address, faults := ConfigService.Nothing, c, None, [];
    }

    /** A post from any task or timer; it is lost when the queue is full. */
    method PostEvent(e: Event) returns (accepted: bool)
      requires Ready()
      modifies this
      ensures Ready() && Now() == Send(old(Now()), e)
      ensures accepted <==> |old(queue)| < QUEUE_DEPTH
    {
      if |queue| >= QUEUE_DEPTH {
        return false;
      }
      queue := queue + [e];
      return true;
    }

    method Fail(code: nat)
      requires Ready()
      modifies this
      ensures Ready() && Now() == EnterFaulted(old(Now()), code)
    {
      mode, place, faults := Faulted, EventLoop, faults + [code];
    }

    method PollAbort(next: Place)
      requires Ready()
      modifies this
      ensures Ready() && Now() == PollForAbort(old(Now()), next)
    {
      if queue != [] {
        var e := queue[0];
        queue := queue[1..];
        if e.Fault? {
          Fail(e.code);
          return;
        }
      }
      place := next;
    }

    /** What follows a call of the boot sequence. */
    method Called(ok: bool, code: nat, next: Place)
      requires Ready()
      modifies this
      ensures Ready() && Now() == Call(old(Now()), ok, code, next)
    {
      if !ok {
        Fail(code);
        return;
      }
      passed := passed + {place};
      place := next;
    }

    /** The next step of the boot sequence. */
    method AdvanceBoot(ok: bool, blob: ConfigService.Loaded)
      requires Ready()
      modifies this, config
      ensures Ready() && Now() == Advance(old(Now()), ok, blob)
    {
      hide AdvanceConfig, AdvanceServices, InConfigSteps;
      if InConfigSteps(place) {
        AdvanceConfigSteps(ok, blob);
      } else {
        AdvanceServiceSteps(ok);
      }
    }

    method AdvanceConfigSteps(ok: bool, blob: ConfigService.Loaded)
      requires Ready()
      modifies this, config
      ensures Ready() && Now() == AdvanceConfig(old(Now()), ok, blob)
    {
      hide Call, PollForAbort, ConfigService.ApplyLoaded;
      match place {
        case CheckingIntegrity =>
          initTimer := true;
          Called(ok, 1, FirstPoll);
        case FirstPoll =>
          PollAbort(LoadingConfig);
        case LoadingConfig =>
          loaded := blob;
          Called(ok, 2, ApplyingConfig);
        case ApplyingConfig =>
          var e := config.ApplyLoadedBlob(loaded);
          Called(e == ConfigService.Success, 3, SecondPoll);
        case SecondPoll =>
          PollAbort(StartingSensors);
        case _ =>
      }
    }

    method AdvanceServiceSteps(ok: bool)
      requires Ready()
      modifies this
      ensures Ready() && Now() == AdvanceServices(old(Now()), ok)
    {
      hide Call, PollForAbort;
      match place {
        case StartingSensors =>
          Called(ok, 4, StartingAlarms);
        case StartingAlarms =>
          Called(ok, 5, ThirdPoll);
        case ThirdPoll =>
          PollAbort(if gui then StartingGraphics else StartingMiddleware);
        case StartingGraphics =>
          Called(ok, 6, StartingLcd);
        case StartingLcd =>
          Called(ok, 7, FourthPoll);
        case FourthPoll =>
          PollAbort(StartingMiddleware);
        case StartingMiddleware =>
          address, initTimer, mode, place := Some(config.params.slaveAddr), false, Operational, OpeningGate;
        case OpeningGate =>
          gates, place := gates + 1, EventLoop;
        case _ =>
      }
    }

    method InOperational(e: Event)
      requires Ready()
      modifies this, config
      ensures Ready() && Now() == HandleOperational(old(Now()), e)
    {
      match e {
        case EditEnter =>
          var _ := config.SaveSnapshot();
          editTimer, mode := true, EditingConfig;
        case Fault(code) =>
          Fail(code);
        case _ =>
      }
    }

    method InEditing(e: Event, saves: bool)
      requires Ready()
      modifies this, config
      ensures Ready() && Now() == HandleEditing(old(Now()), e, saves)
    {
      match e {
        case EditApply =>
          editTimer := false;
          var _ := config.FlushParams(saves);
          address, mode := Some(config.params.slaveAddr), Operational;
        case EditCancel =>
          editTimer := false;
          var _ := config.RestoreSnapshot(saves);
          mode := Operational;
        case EditTimeout =>
          editTimer := false;
          var _ := config.RestoreSnapshot(saves);
          mode := Operational;
        case Fault(code) =>
          editTimer := false;
          Fail(code);
        case _ =>
      }
    }

    /** One pass of the event loop. */
    method RunEventLoopOnce(saves: bool)
      requires Ready()
      modifies this, config
      ensures Ready() && Now() == Receive(old(Now()), saves)
    {
      if queue == [] {
        return;
      }
      var e := queue[0];
      queue := queue[1..];
      match mode {
        case Operational => InOperational(e);
        case EditingConfig => InEditing(e, saves);
        case Faulted =>
        case Initialising =>
      }
    }
  }
}
