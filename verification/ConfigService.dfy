/**
 * The configuration service: validate, apply, persist; snapshot and restore; loading a stored
 * blob. A store write that fails leaves the new value in memory. The store itself is the
 * environment: whether it saves is an input of each operation.
 */
module ConfigService {
  import opened Bytes
  import opened ConfigParams

  const SCHEMA_VERSION: U32 := 1

  datatype Error = Success | NotInit | NullArg | Invalid | Persist

  /** What apply_loaded is given: nothing, too few bytes, or a whole blob. */
  datatype Loaded = Nothing | Short | Blob(version: U32, params: Params)

  /** The live configuration, the rollback copy, what the store holds, and the changes announced. */
  datatype State = State(params: Params, snapshot: Option<Params>, stored: Option<Params>, announced: seq<ParamId>)

  const FRESH: State := State(DEFAULTS, None, None, [])

  function Save(st: State, saves: bool): (Error, State) {
    if saves then (Success, st.(stored := Some(st.params))) else (Persist, st)
  }

  function SetParam(st: State, id: ParamId, v: int, saves: bool): (Error, State) {
    if !Valid(id, v, st.params) then (Invalid, st)
    else
      var (e, st') := Save(st.(params := Applied(st.params, id, v)), saves);
      (e, if saves then st'.(announced := st'.announced + [id]) else st')
  }

  function Snapshot(st: State): State {
    st.(snapshot := Some(st.params))
  }

  function Restore(st: State, saves: bool): (Error, State) {
    if st.snapshot == None then (Invalid, st) else Save(st.(params := st.snapshot.value), saves)
  }

  function ApplyLoaded(st: State, blob: Loaded): (Error, State) {
    match blob
    case Nothing => (NullArg, st)
    case Short => (Invalid, st)
    case Blob(version, p) => (Success, st.(params := if version != SCHEMA_VERSION then DEFAULTS else Repair(p)))
  }

  /* ---- runs ---- */

  datatype Action =
    | Set(id: ParamId, value: int, saves: bool)
    | TakeSnapshot
    | GoBack(saves: bool)
    | Flush(saves: bool)

  function Step(st: State, a: Action): State {
    match a
    case Set(id, v, saves) => SetParam(st, id, v, saves).1
    case TakeSnapshot => Snapshot(st)
    case GoBack(saves) => Restore(st, saves).1
    case Flush(saves) => Save(st, saves).1
  }

  function Run(st: State, actions: seq<Action>): State
    decreases |actions|
  {
    if actions == [] then st else Step(Run(st, actions[..|actions| - 1]), actions[|actions| - 1])
  }

  predicate Typed(a: Action) {
    a.Set? ==> ValueFits(a.id, a.value)
  }

  predicate ParamsOk(p: Params) {
    Safe(p) && ParamsFit(p)
  }

  predicate StateOk(st: State) {
    && ParamsOk(st.params)
    && (st.snapshot.Some? ==> ParamsOk(st.snapshot.value))
    && (st.stored.Some? ==> ParamsOk(st.stored.value))
  }

  lemma StepKeepsOk(st: State, a: Action)
    requires StateOk(st) && Typed(a)
    ensures StateOk(Step(st, a))
  {
    hide Safe, ParamsFit, Valid, Applied, ValueFits;
    if a.Set? && Valid(a.id, a.value, st.params) {
      AcceptedKeepsSafe(st.params, a.id, a.value);
    }
  }

  /**
   * From the defaults, every run of set_param, snapshot, restore and flush, whatever the store
   * does, keeps the bounds, the gaps and the order of the alarms, in memory, in the snapshot
   * and in the store.
   */
  lemma {:induction false} EveryRunIsOk(actions: seq<Action>)
    requires forall i :: 0 <= i < |actions| ==> Typed(actions[i])
    ensures StateOk(Run(FRESH, actions))
    decreases |actions|
  {
    hide StateOk, Step, Typed;
    if actions == [] {
      FreshIsOk();
    } else {
      EveryRunIsOk(actions[..|actions| - 1]);
      StepKeepsOk(Run(FRESH, actions[..|actions| - 1]), actions[|actions| - 1]);
    }
  }

  lemma FreshIsOk()
    ensures StateOk(FRESH)
  {
    hide Safe, ParamsFit;
    DefaultsAreSafe();
  }

  /** No span wraps in any run. */
  lemma NoSpanWraps(actions: seq<Action>, q: Quantity)
    requires forall i :: 0 <= i < |actions| ==> Typed(actions[i])
    ensures var b := Run(FRESH, actions).params.Of(q); Span(q, b.high, b.low) == b.high - b.low > b.hyst
  {
    hide Safe, ParamsFit, Run;
    EveryRunIsOk(actions);
    SpanNeverWraps(Run(FRESH, actions).params, q);
  }

  /* ---- what the others learn ---- */

  /** The action stores the configuration: an accepted setting, a restore with a snapshot or a flush, and the store saves. */
  predicate Stores(st: State, a: Action) {
    match a
    case Set(id, v, saves) => Valid(id, v, st.params) && saves
    case TakeSnapshot => false
    case GoBack(saves) => st.snapshot.Some? && saves
    case Flush(saves) => saves
  }

  /** The error of each operation tells what became of it; a setting that could not be stored is in force all the same. */
  lemma ErrorsTell(st: State, id: ParamId, v: int, saves: bool)
    ensures var (e, after) := SetParam(st, id, v, saves);
            && e == (if !Valid(id, v, st.params) then Invalid else if saves then Success else Persist)
            && after.params == (if e == Invalid then st.params else Applied(st.params, id, v))
            && after.stored == (if e == Success then Some(after.params) else st.stored)
    ensures var (e, after) := Restore(st, saves);
            && e == (if st.snapshot == None then Invalid else if saves then Success else Persist)
            && after.params == (if e == Invalid then st.params else st.snapshot.value)
  {
    hide Valid, Applied;
  }

  /** The configuration in memory after the last action of a run that stored one, or what the store held before. */
  function LastStored(st: State, actions: seq<Action>): Option<Params>
    decreases |actions|
  {
    if actions == [] then st.stored else
    var before, last := actions[..|actions| - 1], actions[|actions| - 1];
    if Stores(Run(st, before), last) then Some(Run(st, actions).params) else LastStored(st, before)
  }

  /** The settings that were accepted and stored, in order. */
  function SettingsMade(st: State, actions: seq<Action>): seq<ParamId>
    decreases |actions|
  {
    if actions == [] then [] else
    var before, last := actions[..|actions| - 1], actions[|actions| - 1];
    SettingsMade(st, before) + if last.Set? && Stores(Run(st, before), last) then [last.id] else []
  }

  lemma StepStores(st: State, a: Action)
    ensures Step(st, a).stored == if Stores(st, a) then Some(Step(st, a).params) else st.stored
    ensures Step(st, a).announced == st.announced + if a.Set? && Stores(st, a) then [a.id] else []
  {
    hide Valid, Applied;
  }

  /** In every run the store holds the last configuration stored, and exactly the settings stored have been announced, in order. */
  lemma {:induction false} StoreHoldsLastSave(st: State, actions: seq<Action>)
    ensures Run(st, actions).stored == LastStored(st, actions)
    ensures Run(st, actions).announced == st.announced + SettingsMade(st, actions)
    decreases |actions|
  {
    hide Step, Stores;
    if actions == [] {
      assert st.announced + [] == st.announced;
    } else {
      var before, last := actions[..|actions| - 1], actions[|actions| - 1];
      StoreHoldsLastSave(st, before);
      StepStores(Run(st, before), last);
      var more := if last.Set? && Stores(Run(st, before), last) then [last.id] else [];
      assert st.announced + SettingsMade(st, before) + more == st.announced + (SettingsMade(st, before) + more);
    }
  }

  /* ---- editing and undoing ---- */

  /** Without another snapshot, whatever is set in between, restoring brings the old values back. */
  lemma {:induction false} RestoreUndoes(st: State, actions: seq<Action>, saves: bool)
    requires forall i :: 0 <= i < |actions| ==> !actions[i].TakeSnapshot?
    ensures var edited := Run(Snapshot(st), actions);
            Restore(edited, saves).1.params == st.params && edited.snapshot == Some(st.params)
    decreases |actions|
  {
    hide Valid, Applied;
    if actions != [] {
      RestoreUndoes(st, actions[..|actions| - 1], saves);
    }
  }

  /* ---- saving and loading ---- */

  /** What a reload after a successful save finds. */
  function SaveAndLoad(st: State): State {
    var (_, saved) := Save(st, true);
    ApplyLoaded(saved, Blob(SCHEMA_VERSION, saved.stored.value)).1
  }

  /** Saving and loading is the identity exactly on the configurations that pass the load checks or hold defaults. */
  lemma SaveAndLoadIff(st: State)
    requires ParamsFit(st.params)
    ensures SaveAndLoad(st).params == st.params <==> Stable(st.params)
    ensures LoadOk(st.params) ==> SaveAndLoad(st).params == st.params && Safe(st.params)
  {
    hide Repair, Stable, LoadOk, Safe, ParamsFit;
    ComesBackIff(st.params);
    if LoadOk(st.params) {
      LoadOkIsSafeAndKept(st.params);
    }
  }

  /** The default configuration survives. */
  lemma DefaultsSurvive()
    ensures SaveAndLoad(FRESH).params == DEFAULTS
  {
    hide LoadOk, ParamsFit, Safe;
    DefaultsAreSafe();
    DefaultsLoad();
    SaveAndLoadIff(FRESH);
  }

  /** Three accepted writes after which the low humidity alarm lies outside its range. */
  function Narrowed(): seq<Action> {
    [Set(AlarmLow(Humidity), 500, true), Set(AlarmHigh(Humidity), 1000, true), Set(RangeMin(Humidity), 800, true)]
  }

  lemma NarrowedRun()
    ensures Run(FRESH, Narrowed()).params == DEFAULTS.(humidity := Band(800, 10000, 1000, 500, 200))
    ensures Run(FRESH, Narrowed()).stored == Some(Run(FRESH, Narrowed()).params)
  {
    var as0 := Narrowed();
    assert as0[..2] == [Set(AlarmLow(Humidity), 500, true), Set(AlarmHigh(Humidity), 1000, true)];
    assert as0[..2][..1] == [Set(AlarmLow(Humidity), 500, true)];
    assert as0[..2][..1][..0] == [];
    assert Run(FRESH, []) == FRESH;
    var one := Run(FRESH, as0[..2][..1]);
    assert one.params == DEFAULTS.(humidity := Band(0, 10000, 8000, 500, 200));
    var two := Run(FRESH, as0[..2]);
    assert two.params == DEFAULTS.(humidity := Band(0, 10000, 1000, 500, 200));
  }

  /**
   * The invariant does not survive a restart: a reachable, stored configuration is repaired to
   * one whose low alarm is above the high one; the span of set_param then wraps, and every
   * hysteresis is accepted.
   */
  lemma RestartCanLoseTheInvariant(v: int)
    requires 0 < v < 0x1_0000
    ensures var st := Run(FRESH, Narrowed());
            && StateOk(st) && st.stored.Some?
            && var after := ApplyLoaded(FRESH, Blob(SCHEMA_VERSION, st.stored.value)).1;
            && after.params.humidity == Band(800, 10000, 1000, 2000, 200)
            && !Safe(after.params)
            && Span(Humidity, 1000, 2000) == 0x1_0000_0000 - 1000
            && Valid(Hysteresis(Humidity), v, after.params)
  {
    EveryRunIsOk(Narrowed());
    hide StateOk, Run;
    NarrowedRun();
    var p := Run(FRESH, Narrowed()).params;
    assert !BandSafe(Humidity, Repair(p).Of(Humidity));
  }

  /**
   * A restart of any reachable configuration keeps the invariant exactly when no band loses its
   * alarms, which its fields tell before the restart.
   */
  lemma RestartKeepsInvariantIff(actions: seq<Action>)
    requires forall i :: 0 <= i < |actions| ==> Typed(actions[i])
    ensures var st := Run(FRESH, actions);
            st.stored.Some? ==>
              (Safe(ApplyLoaded(FRESH, Blob(SCHEMA_VERSION, st.stored.value)).1.params) <==>
                 forall q :: !ReloadLosesAlarms(q, st.stored.value.Of(q)))
  {
    hide Safe, ParamsFit, Run, Repair, ReloadLosesAlarms;
    EveryRunIsOk(actions);
    var st := Run(FRESH, actions);
    if st.stored.Some? {
      ReloadedParamsSafeIff(st.stored.value);
    }
  }

  /** A load keeps the invariant exactly when no gap and no alarm order is lost in the repair. */
  lemma LoadKeepsInvariantIff(st: State, p: Params)
    requires ParamsFit(p)
    ensures Safe(ApplyLoaded(st, Blob(SCHEMA_VERSION, p)).1.params) <==>
            forall q :: !GapIsLost(q, p.Of(q)) && !AlarmsAreLost(q, p.Of(q))
  {
    hide Safe, Repair, GapIsLost, AlarmsAreLost, ParamsFit;
    RepairedParamsSafeIff(p);
  }

  /* ---- the service ---- */

  class Service {
    var initialised: bool
    var params: Params
    var snapshot: Option<Params>
    var stored: Option<Params>
    var announced: seq<ParamId>

    function Now(): State
      reads this
    {
      State(params, snapshot, stored, announced)
    }

    constructor ()
      ensures !initialised && stored == None && announced == []
    {
      initialised, params, snapshot, stored, announced := false, DEFAULTS, None, None, [];
    }

    method Init(hasStore: bool) returns (e: Error)
      modifies this
      ensures e == if hasStore then Success else NullArg
      ensures hasStore ==> initialised && Now() == State(DEFAULTS, None, old(stored), old(announced))
      ensures !hasStore ==> initialised == old(initialised) && Now() == old(Now())
    {
      if !hasStore {
        return NullArg;
      }
      params, snapshot, initialised := DEFAULTS, None, true;
      return Success;
    }

    method ApplyLoadedBlob(blob: Loaded) returns (e: Error)
      modifies this
      ensures initialised == old(initialised)
      ensures (e, Now()) == if initialised then ApplyLoaded(old(Now()), blob) else (NotInit, old(Now()))
    {
      if !initialised {
        return NotInit;
      }
      if blob.Nothing? {
        return NullArg;
      }
      if blob.Short? {
        return Invalid;
      }
      if blob.version != SCHEMA_VERSION {
        params := DEFAULTS;
        return Success;
      }
      var candidate := blob.params;
      if candidate.pollInterval < 100 || candidate.pollInterval > 60000 {
        candidate := candidate.(pollInterval := DEFAULTS.pollInterval);
      }
      if candidate.filterAlpha == 0 || candidate.filterAlpha >= 1000 {
        candidate := candidate.(filterAlpha := DEFAULTS.filterAlpha);
      }
      var t := RepairLoaded(Temperature, candidate.temperature);
      var h := RepairLoaded(Humidity, candidate.humidity);
      var p := RepairLoaded(Pressure, candidate.pressure);
      candidate := candidate.(temperature := t, humidity := h, pressure := p);
      if candidate.slaveAddr < 1 || candidate.slaveAddr > 247 {
        candidate := candidate.(slaveAddr := DEFAULTS.slaveAddr);
      }
      if candidate.pollPeriod < 100 || candidate.pollPeriod > 60000 {
        candidate := candidate.(pollPeriod := DEFAULTS.pollPeriod);
      }
      params := candidate;
      return Success;
    }

    /** The fields of one quantity, in the order of the source. */
    static method RepairLoaded(q: Quantity, loaded: Band) returns (b: Band)
      ensures b == RepairBand(q, loaded)
    {
      b := loaded;
      var d := DefaultBand(q);
      if BadRangeMin(q, b.min, b.max) {
        b := b.(min := d.min);
      }
      if BadRangeMax(q, b.min, b.max) {
        b := b.(max := d.max);
      }
      if BadHigh(b.min, b.max, b.high) {
        b := b.(high := d.high);
      }
      if BadLow(b.min, b.high, b.low) {
        b := b.(low := d.low);
      }
      if BadHyst(q, b.high, b.low, b.hyst) {
        b := b.(hyst := d.hyst);
      }
    }

    method SetParameter(id: ParamId, value: Option<int>, saves: bool) returns (e: Error)
      modifies this
      ensures initialised == old(initialised)
      ensures (e, Now()) ==
              if !initialised then (NotInit, old(Now()))
              else if value == None then (NullArg, old(Now()))
              else SetParam(old(Now()), id, value.value, saves)
    {
      hide Valid, Applied;
      if !initialised {
        return NotInit;
      }
      if value == None {
        return NullArg;
      }
      if !Valid(id, value.value, params) {
        return Invalid;
      }
      params := Applied(params, id, value.value);
      e := PersistToStore(saves);
      if e == Success {
        announced := announced + [id];
      }
    }

    method PersistToStore(saves: bool) returns (e: Error)
      modifies this
      ensures initialised == old(initialised)
      ensures (e, Now()) == Save(old(Now()), saves)
    {
      if !saves {
        return Persist;
      }
      stored := Some(params);
      return Success;
    }

    method SaveSnapshot() returns (e: Error)
      modifies this
      ensures initialised == old(initialised)
      ensures (e, Now()) == if initialised then (Success, Snapshot(old(Now()))) else (NotInit, old(Now()))
    {
      if !initialised {
        return NotInit;
      }
      snapshot := Some(params);
      return Success;
    }

    method RestoreSnapshot(saves: bool) returns (e: Error)
      modifies this
      ensures initialised == old(initialised)
      ensures (e, Now()) == if initialised then Restore(old(Now()), saves) else (NotInit, old(Now()))
    {
      if !initialised {
        return NotInit;
      }
      if snapshot == None {
        return Invalid;
      }
      params := snapshot.value;
      e := PersistToStore(saves);
    }

    method FlushParams(saves: bool) returns (e: Error)
      modifies this
      ensures initialised == old(initialised)
      ensures (e, Now()) == if initialised then Save(old(Now()), saves) else (NotInit, old(Now()))
    {
      if !initialised {
        return NotInit;
      }
      e := PersistToStore(saves);
    }
  }
}
