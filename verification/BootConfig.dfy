/**
 * Which configuration a boot of the field device puts in force: told from the blob the store
 * hands over, for every boot in which no call fails and no fault is taken, whatever else is
 * posted in between.
 */
module BootConfig {
  import opened Bytes
  import opened ConfigParams
  import opened Lifecycle
  import ConfigService

  /** Nothing that ends the boot: calls succeed, the store hands over this blob, and no fault is posted. */
  predicate Calm(a: Action, blob: ConfigService.Loaded) {
    match a
    case Move(ok, loaded, _) => ok && loaded == blob
    case Post(e) => !e.Fault?
    case EditTimerFires => true
    case _ => false
  }

  predicate AllCalm(actions: seq<Action>, blob: ConfigService.Loaded) {
    forall i :: 0 <= i < |actions| ==> Calm(actions[i], blob)
  }

  /** How often the controller moves. */
  function MovesIn(actions: seq<Action>): nat {
    if actions == [] then 0 else (if actions[0].Move? then 1 else 0) + MovesIn(actions[1..])
  }

  /** The moves of a whole boot: five calls, three looks at the queue, the middleware and the gate; three more for the display. */
  function WholeBoot(gui: bool): nat {
    if gui then 13 else 10
  }

  /** The moves left from a place. */
  function Left(p: Place, gui: bool): nat {
    match p
    case CheckingIntegrity => WholeBoot(gui)
    case FirstPoll => WholeBoot(gui) - 1
    case LoadingConfig => WholeBoot(gui) - 2
    case ApplyingConfig => WholeBoot(gui) - 3
    case SecondPoll => WholeBoot(gui) - 4
    case StartingSensors => WholeBoot(gui) - 5
    case StartingAlarms => WholeBoot(gui) - 6
    case ThirdPoll => WholeBoot(gui) - 7
    case StartingGraphics => 5
    case StartingLcd => 4
    case FourthPoll => 3
    case StartingMiddleware => 2
    case OpeningGate => 1
    case EventLoop => 0
  }

  /** A calm boot on its way, which began with this configuration. */
  ghost predicate Underway(s: System, gui: bool, config: ConfigService.State, blob: ConfigService.Loaded) {
    && s.gui == gui && !s.editTimer && s.faults == []
    && s.initTimer == (s.mode == Initialising && s.place != CheckingIntegrity)
    && (forall i :: 0 <= i < |s.queue| ==> !s.queue[i].Fault?)
    && s.mode == (if s.place == OpeningGate || s.place == EventLoop then Operational else Initialising)
    && s.gates == (if s.place == EventLoop then 1 else 0)
    && (s.place in {StartingGraphics, StartingLcd, FourthPoll} ==> gui)
    && (s.place == ApplyingConfig ==> s.loaded == blob)
    && s.config == (if Left(s.place, gui) >= WholeBoot(gui) - 3 then config else ConfigService.ApplyLoaded(config, blob).1)
    && s.address == (if s.mode == Operational then Some(s.config.params.slaveAddr) else None)
  }

  lemma CalmConfigMove(s: System, gui: bool, config: ConfigService.State, blob: ConfigService.Loaded)
    requires blob.Blob? && Underway(s, gui, config, blob) && InConfigSteps(s.place)
    ensures Underway(AdvanceConfig(s, true, blob), gui, config, blob)
    ensures Left(AdvanceConfig(s, true, blob).place, gui) == Left(s.place, gui) - 1
  {
    hide Repair;
  }

  lemma CalmServiceMove(s: System, gui: bool, config: ConfigService.State, blob: ConfigService.Loaded)
    requires Underway(s, gui, config, blob) && !InConfigSteps(s.place) && s.place != EventLoop
    ensures Underway(AdvanceServices(s, true), gui, config, blob)
    ensures Left(AdvanceServices(s, true).place, gui) == Left(s.place, gui) - 1
  {
    hide ConfigService.ApplyLoaded;
  }

  lemma CalmStep(s: System, a: Action, gui: bool, config: ConfigService.State, blob: ConfigService.Loaded)
    requires blob.Blob? && Underway(s, gui, config, blob) && Calm(a, blob) && (a.Move? ==> s.place != EventLoop)
    ensures Underway(Step(s, a), gui, config, blob)
    ensures Left(Step(s, a).place, gui) == Left(s.place, gui) - (if a.Move? then 1 else 0)
  {
    hide Left, AdvanceConfig, AdvanceServices, ConfigService.ApplyLoaded;
    if a.Move? {
      hide Underway;
      if InConfigSteps(s.place) {
        CalmConfigMove(s, gui, config, blob);
      } else {
        CalmServiceMove(s, gui, config, blob);
      }
    }
  }

  lemma {:induction false} CalmRun(s: System, actions: seq<Action>, gui: bool, config: ConfigService.State,
                                   blob: ConfigService.Loaded)
    requires blob.Blob? && Underway(s, gui, config, blob) && AllCalm(actions, blob)
    requires MovesIn(actions) <= Left(s.place, gui)
    ensures Underway(Run(s, actions), gui, config, blob)
    ensures Left(Run(s, actions).place, gui) == Left(s.place, gui) - MovesIn(actions)
    decreases |actions|
  {
    hide Underway, Step, Calm;
    if actions != [] {
      assert Calm(actions[0], blob) && AllCalm(actions[1..], blob);
      assert s.place == EventLoop ==> Left(s.place, gui) == 0;
      CalmStep(s, actions[0], gui, config, blob);
      CalmRun(Step(s, actions[0]), actions[1..], gui, config, blob);
    }
  }

  lemma Starts(gui: bool, config: ConfigService.State, blob: ConfigService.Loaded)
    ensures Underway(Boot(gui, config), gui, config, blob)
  {
  }

  lemma OnlyTheLoopIsTheEnd(p: Place, gui: bool)
    ensures Left(p, gui) == 0 <==> p == EventLoop
  {
  }

  /** The state a whole calm boot ends in. */
  lemma BootEnds(gui: bool, config: ConfigService.State, blob: ConfigService.Loaded, actions: seq<Action>)
    requires blob.Blob? && AllCalm(actions, blob) && MovesIn(actions) == WholeBoot(gui)
    ensures var s := Run(Boot(gui, config), actions);
            && s.mode == Operational && s.place == EventLoop && s.gates == 1 && s.faults == [] && !s.initTimer
            && s.config == ConfigService.ApplyLoaded(config, blob).1
            && s.address == Some(s.config.params.slaveAddr)
  {
    Starts(gui, config, blob);
    hide Run, ConfigService.ApplyLoaded;
    CalmRun(Boot(gui, config), actions, gui, config, blob);
    OnlyTheLoopIsTheEnd(Run(Boot(gui, config), actions).place, gui);
  }

  /* ---- the configuration in force ---- */

  /** A band in force told from the loaded one: each field kept when it passes its check, else its default. */
  ghost predicate BandFollows(q: Quantity, b: Band, r: Band) {
    var d := DefaultBand(q);
    && r.min == (if MinIsKept(q, b) then b.min else d.min)
    && r.max == (if MaxIsKept(q, b) then b.max else d.max)
    && r.high == (if r.min <= b.high <= r.max then b.high else d.high)
    && r.low == (if r.min <= b.low < r.high then b.low else d.low)
    && r.hyst == (if b.hyst > 0 && HystFits(q, b.hyst, r.high, r.low) then b.hyst else d.hyst)
  }

  /** Alarms the wrong way round pass for far apart in unsigned arithmetic, and for too close in signed. */
  predicate HystFits(q: Quantity, hyst: int, high: int, low: int) {
    if low < high then 2 * hyst < high - low else low > high && q != Temperature
  }

  lemma BandIsRepaired(q: Quantity, b: Band)
    requires BandFits(q, b)
    ensures BandFollows(q, b, RepairBand(q, b))
  {
    RangeInForce(q, b);
    DefaultsFit(q);
    var r := RepairBand(q, b);
    hide MinIsKept, MaxIsKept, BadRangeMin, BadRangeMax, DefaultBand;
    HystIsKept(q, b.hyst, r.high, r.low);
  }

  lemma HystIsKept(q: Quantity, hyst: int, high: int, low: int)
    requires Fits(q, hyst) && Fits(q, high) && Fits(q, low)
    ensures !BadHyst(q, high, low, hyst) <==> hyst > 0 && HystFits(q, hyst, high, low)
  {
  }

  /** What a loaded configuration comes to. */
  ghost predicate Follows(p: Params, r: Params) {
    && r.pollInterval == (if 100 <= p.pollInterval <= 60000 then p.pollInterval else 1000)
    && r.filterAlpha == (if 1 <= p.filterAlpha <= 999 then p.filterAlpha else 100)
    && r.slaveAddr == (if 1 <= p.slaveAddr <= 247 then p.slaveAddr else 1)
    && r.pollPeriod == (if 100 <= p.pollPeriod <= 60000 then p.pollPeriod else 1000)
    && forall q :: BandFollows(q, p.Of(q), r.Of(q))
  }

  lemma RepairFollows(p: Params)
    requires ParamsFit(p)
    ensures Follows(p, Repair(p))
  {
    hide RepairBand, BandFollows, BandFits;
    forall q ensures BandFollows(q, p.Of(q), Repair(p).Of(q)) {
      assert BandFits(q, p.Of(q));
      BandIsRepaired(q, p.Of(q));
    }
  }

  /**
   * The boot theorem. With or without the display, whatever the configuration at reset and
   * whatever blob the store hands over, a calm boot ends operational behind the gate, with the bus
   * at the address of the configuration in force. That is the defaults for another schema version;
   * else every field follows the checks, the blob is in force as it is exactly when it is stable,
   * in particular when it meets the load predicate, and it is safe exactly when no gap and no
   * order of the alarms is lost.
   */
  lemma BootPutsBlobInForce(gui: bool, config: ConfigService.State, version: U32, p: Params, actions: seq<Action>)
    requires ParamsFit(p)
    requires AllCalm(actions, ConfigService.Blob(version, p)) && MovesIn(actions) == WholeBoot(gui)
    ensures var s := Run(Boot(gui, config), actions);
            var now := s.config.params;
            && s.mode == Operational && s.place == EventLoop && s.gates == 1 && s.faults == []
            && s.address == Some(now.slaveAddr)
            && s.config == config.(params := now)
            && (version != 1 ==>
                  now == Params(1000, 100, Band(-4000, 8500, 4000, 0, 100), Band(0, 10000, 8000, 2000, 200),
                                Band(3000, 11000, 10500, 9500, 50), 1, 1000))
            && (version == 1 ==>
                  && Follows(p, now)
                  && (LoadOk(p) ==> now == p)
                  && (now == p <==> Stable(p))
                  && (Safe(now) <==> forall q :: !GapIsLost(q, p.Of(q)) && !AlarmsAreLost(q, p.Of(q))))
  {
    hide Run, AllCalm, MovesIn, ParamsFit, Repair, LoadOk, Stable, Safe, Follows, GapIsLost, AlarmsAreLost;
    BootEnds(gui, config, ConfigService.Blob(version, p), actions);
    RepairFollows(p);
    ComesBackIff(p);
    RepairedParamsSafeIff(p);
    if LoadOk(p) {
      LoadOkIsSafeAndKept(p);
    }
  }

  /* ---- from one run to the next ---- */

  /**
   * A setting the bus made and the store saved is in force after the next boot exactly when the
   * configuration it left is stable.
   */
  lemma SavedSettingSurvivesIff(s: System, id: ParamId, v: int, gui: bool, config: ConfigService.State, actions: seq<Action>)
    requires Safe(s.config.params) && ParamsFit(s.config.params)
    requires ValueFits(id, v) && Valid(id, v, s.config.params)
    requires var saved := Step(s, SetParam(id, v, true)).config.stored;
             saved.Some? && AllCalm(actions, ConfigService.Blob(1, saved.value)) && MovesIn(actions) == WholeBoot(gui)
    ensures var made := Applied(s.config.params, id, v);
            var next := Run(Boot(gui, config), actions);
            && next.mode == Operational && next.place == EventLoop
            && (next.config.params == made <==> Stable(made))
            && (LoadOk(made) ==> next.config.params == made && next.address == Some(made.slaveAddr))
  {
    hide Run, AllCalm, MovesIn, ParamsFit, LoadOk, Stable, Safe, Follows, Applied, Valid, ValueFits;
    AcceptedKeepsSafe(s.config.params, id, v);
    BootPutsBlobInForce(gui, config, 1, Applied(s.config.params, id, v), actions);
  }

  /**
   * An edit session that ends by apply and is saved: its configuration is in force after the next
   * boot when it meets the load predicate.
   */
  lemma AppliedSessionSurvives(s: System, session: seq<Action>, last: Action, gui: bool, config: ConfigService.State,
                               actions: seq<Action>)
    requires s.mode == EditingConfig && s.place == EventLoop && KeepsEditing(s, session)
    requires var ending := Run(s, session);
             && last.Move? && last.saves && ending.queue != [] && ending.queue[0] == EditApply
             && LoadOk(ending.config.params) && ParamsFit(ending.config.params)
    requires var ended := Step(Run(s, session), last);
             ended.config.stored.Some? && AllCalm(actions, ConfigService.Blob(1, ended.config.stored.value)) &&
             MovesIn(actions) == WholeBoot(gui)
    ensures var edited, next := Run(s, session).config.params, Run(Boot(gui, config), actions);
            && next.mode == Operational && next.config.params == edited
            && next.address == Step(Run(s, session), last).address == Some(edited.slaveAddr)
  {
    hide Run, Step, AllCalm, MovesIn, ParamsFit, LoadOk, Stable, Safe, Follows, KeepsEditing;
    ApplyCommits(s, session, last);
    BootPutsBlobInForce(gui, config, 1, Run(s, session).config.params, actions);
  }

  /* ---- boots that end in a fault ---- */

  /** The fault a failed call of the boot sequence enters. */
  function FaultOf(p: Place): nat {
    match p
    case CheckingIntegrity => 1
    case LoadingConfig => 2
    case ApplyingConfig => 3
    case StartingSensors => 4
    case StartingAlarms => 5
    case StartingGraphics => 6
    case StartingLcd => 7
    case _ => 0
  }

  /** A calm boot up to a call that fails ends in the fault of that call, for good, and the gate is never set. */
  lemma FailedCallFaults(gui: bool, config: ConfigService.State, blob: ConfigService.Loaded, before: seq<Action>,
                         saves: bool, after: seq<Action>)
    requires blob.Blob? && AllCalm(before, blob) && MovesIn(before) <= WholeBoot(gui)
    requires Run(Boot(gui, config), before).place in Calls(gui) - {ApplyingConfig}
    ensures var s := Run(Boot(gui, config), before);
            var end := Run(Step(s, Move(false, blob, saves)), after);
            end.mode == Faulted && end.faults == [FaultOf(s.place)] && end.gates == 0
  {
    hide Run, ConfigService.ApplyLoaded;
    Starts(gui, config, blob);
    CalmRun(Boot(gui, config), before, gui, config, blob);
    var s := Run(Boot(gui, config), before);
    FaultedIsAbsorbing(Step(s, Move(false, blob, saves)), after);
  }

  /**
   * A calm boot is watched from its first call until it is operational: when the timer fires in
   * between, the fault 0xFFF0 joins the queue if there is room, and nothing happens otherwise.
   */
  lemma InitTimerWatches(gui: bool, config: ConfigService.State, blob: ConfigService.Loaded, before: seq<Action>)
    requires blob.Blob? && AllCalm(before, blob) && MovesIn(before) <= WholeBoot(gui)
    ensures var s := Run(Boot(gui, config), before);
            Step(s, InitTimerFires).queue ==
            if 1 <= MovesIn(before) <= WholeBoot(gui) - 2 && |s.queue| < 4 then s.queue + [Fault(0xFFF0)] else s.queue
  {
    hide Run, ConfigService.ApplyLoaded;
    Starts(gui, config, blob);
    CalmRun(Boot(gui, config), before, gui, config, blob);
  }

  /** A blob that is missing or too short is refused by the fourth move, and the configuration stays as it was. */
  lemma RefusedBlobFaults(gui: bool, config: ConfigService.State, blob: ConfigService.Loaded, saves: bool)
    requires !blob.Blob?
    ensures var m := Move(true, blob, saves);
            var s := Step(Step(Step(Step(Boot(gui, config), m), m), m), m);
            s.mode == Faulted && s.faults == [3] && s.config == config && s.gates == 0
  {
    var m := Move(true, blob, saves);
    var s1 := Step(Boot(gui, config), m);
    assert s1.place == FirstPoll;
    var s2 := Step(s1, m);
    assert s2.place == LoadingConfig;
    var s3 := Step(s2, m);
    assert s3.place == ApplyingConfig && s3.loaded == blob;
  }
}
