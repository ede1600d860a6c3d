/**
 * Requests and runs of requests on the register map: reads, read-back of what was written, the
 * time pair and the configuration over every run.
 */
module RegisterRuns {
  import opened Bytes
  import opened SensorRegisters
  import opened ConfigParams
  import opened RegisterTable
  import opened RegisterMap
  import ConfigService
  import SensorService
  import AlarmService

  /** What the other modules answer to a read; snapshot is None when the sensor service is unavailable. */
  datatype Sources = Sources(
    snapshot: Option<SensorService.Channels>, alarms: seq<AlarmService.AlarmState>,
    major: U16, minor: U16, patch: U16, deviceState: U16, uptime: U32, sensorFails: U32)

  type Inputs = s: Sources | |s.alarms| == SensorService.SENSORS
    witness Sources(None, [AlarmService.Clear, AlarmService.Clear, AlarmService.Clear, AlarmService.Clear,
                           AlarmService.Clear, AlarmService.Clear, AlarmService.Clear, AlarmService.Clear,
                           AlarmService.Clear, AlarmService.Clear, AlarmService.Clear, AlarmService.Clear], 0, 0, 0, 0, 0, 0)

  datatype Answer = Values(values: seq<U16>) | Refused(e: Exception)

  const UNAVAILABLE := SensorService.Reading(0, false)

  /** The reading of a sensor; an unavailable service reads like an invalid one. */
  function ReadingOf(src: Inputs, id: nat): SensorService.Reading
    requires id < SensorService.SENSORS
  {
    if src.snapshot == None then UNAVAILABLE else src.snapshot.value[id].reading
  }

  function SettingOf(p: Params, id: ParamId): int {
    match id
    case PollInterval => p.pollInterval
    case FilterAlpha => p.filterAlpha
    case RangeMin(q) => p.Of(q).min
    case RangeMax(q) => p.Of(q).max
    case AlarmHigh(q) => p.Of(q).high
    case AlarmLow(q) => p.Of(q).low
    case Hysteresis(q) => p.Of(q).hyst
    case SlaveAddr => p.slaveAddr
    case PollPeriod => p.pollPeriod
    case Unknown => 0
  }

  function High(x: U32): U16 {
    x / 0x1_0000
  }

  function Low(x: U32): U16 {
    x % 0x1_0000
  }

  predicate Faulty(src: Inputs) {
    !ReadingOf(src, 0).valid || !ReadingOf(src, 1).valid || !ReadingOf(src, 2).valid
  }

  function Read(m: Registers, src: Inputs, cell: Cell): U16 {
    match cell
    case Fixed(x) => x
    case VersionMajor => src.major
    case VersionMinor => src.minor
    case VersionPatch => src.patch
    case TemperatureReading => TemperatureRegister(ReadingOf(src, SensorService.TEMPERATURE))
    case HumidityReading => UnsignedRegister(ReadingOf(src, SensorService.HUMIDITY))
    case PressureReading => UnsignedRegister(ReadingOf(src, SensorService.PRESSURE))
    case DeviceState => src.deviceState
    case Flags => AlarmFlags(src.alarms[0], src.alarms[1], src.alarms[2], Faulty(src))
    case UptimeHi => High(src.uptime)
    case UptimeLo => Low(src.uptime)
    case RxOkHi => High(m.validFrames)
    case RxOkLo => Low(m.validFrames)
    case CrcErrHi => High(m.crcErrors)
    case CrcErrLo => Low(m.crcErrors)
    case SensorErrHi => High(src.sensorFails)
    case SensorErrLo => Low(src.sensorFails)
    case Setting(id) => ToU16(SettingOf(m.config.params, id))
    case LcdBrightness => 80
    case LcdTimeout => 0
    case AckAlarm => m.ack
    case ResetMetrics => m.reset
    case SoftRestart => m.restart
    case TimeHi => m.timeHi
    case TimeLo => m.timeLo
  }

  /** The registers of a read from the i-th on, all of them writable or all of them not. */
  function ReadFrom(m: Registers, src: Inputs, addr: U16, count: nat, writable: bool, i: nat): Answer
    requires i <= count
    decreases count - i
  {
    if i == count then Values([]) else
    var slot := Lookup(Nth(addr, i));
    if slot == None || slot.value.writable != writable then Refused(IllegalAddress) else
    var rest := ReadFrom(m, src, addr, count, writable, i + 1);
    if rest.Refused? then rest else Values([Read(m, src, slot.value.cell)] + rest.values)
  }

  /** Function codes 04 (not writable) and 03 (writable). */
  function ReadRegs(m: Registers, src: Inputs, addr: U16, count: nat, writable: bool): Answer {
    if count == 0 || count > MAX_READ then Refused(IllegalValue) else ReadFrom(m, src, addr, count, writable, 0)
  }

  /* ---- reading back ---- */

  lemma CastsUndo(v: U16)
    ensures ToU16(ToInt16(v)) == v
  {
  }

  /** What the handler of a setting stores is what the register then reads. */
  lemma SettingReadsBack(m: Registers, id: ParamId, v: U16)
    requires InBounds(Setting(id), v) && Valid(id, Taken(id, v), m.config.params)
    requires !id.RangeMin? && !id.RangeMax?
    ensures ToU16(SettingOf(Applied(m.config.params, id, Taken(id, v)), id)) == v
  {
    CastsUndo(v);
  }

  /** An accepted single write reads back, except at the two placeholders, which always read 80 and 0. */
  lemma WriteReadsBackIff(m: Registers, src: Inputs, addr: U16, v: U16)
    requires WriteSingle(m, addr, v).0 == NoException
    ensures Mapped(addr)
    ensures var cell := Lookup(addr).value.cell;
            ReadRegs(WriteSingle(m, addr, v).1, src, addr, 1, true) == Values([v]) <==>
            (cell != LcdBrightness || v == 80) && (cell != LcdTimeout || v == 0)
  {
    hide Lookup, Valid, InBounds, InOrder, Applied, SettingOf, Taken, ToU16;
    var m1 := WriteSingle(m, addr, v).1;
    var cell := Lookup(addr).value.cell;
    assert Nth(addr, 0) == addr;
    assert ReadFrom(m1, src, addr, 1, true, 1) == Values([]);
    assert ReadFrom(m1, src, addr, 1, true, 0) == Values([Read(m1, src, cell)] + []);
    assert [Read(m1, src, cell)] + [] == [Read(m1, src, cell)];
    assert ReadRegs(m1, src, addr, 1, true) == Values([v]) <==> Read(m1, src, cell) == v;
    if cell.Setting? {
      NoRangeRegisters(addr);
      SettingReadsBack(m, cell.id, v);
    }
  }

  /** When the store fails, the request is refused, and the new value reads back all the same. */
  lemma FailedSaveReadsBack(m: Registers, src: Inputs, addr: U16, v: U16)
    requires Mapped(addr) && Lookup(addr).value.cell.Setting?
    requires Validates(Lookup(addr).value.cell, v, m.config.params)
    requires var id := Lookup(addr).value.cell.id; Valid(id, Taken(id, v), m.config.params) && !Outcome(m)
    ensures var (e, m1) := WriteSingle(m, addr, v);
            e == IllegalValue && Read(m1, src, Lookup(addr).value.cell) == v && m1.config.stored == m.config.stored
  {
    hide Lookup, Valid, InBounds, InOrder, Applied, SettingOf, Taken, ToU16;
    NoRangeRegisters(addr);
    SettingReadsBack(m, Lookup(addr).value.cell.id, v);
  }

  /** Setting a parameter changes nothing exactly when it has the value already. */
  lemma SettingIsNewIff(p: Params, id: ParamId, x: int)
    requires !id.Unknown?
    ensures Applied(p, id, x) == p <==> SettingOf(p, id) == x
  {
  }

  /** A setting that is in force after its write was refused: the store failed on a valid new value. */
  predicate SetsThoughRefused(m: Registers, addr: U16, v: U16) {
    && Mapped(addr) && Lookup(addr).value.cell.Setting?
    && Validates(Lookup(addr).value.cell, v, m.config.params)
    && var id := Lookup(addr).value.cell.id;
       Valid(id, Taken(id, v), m.config.params) && !Outcome(m) && SettingOf(m.config.params, id) != Taken(id, v)
  }

  /** A command register that keeps a refused value, other than the one it held. */
  predicate LatchesThoughRefused(m: Registers, addr: U16, v: U16) {
    Mapped(addr) &&
    match Lookup(addr).value.cell
    case AckAlarm => m.ack != v
    case ResetMetrics => m.reset != v
    case SoftRestart => m.restart != v
    case _ => false
  }

  /** The state of the map, without what its environment will answer next. */
  function Own(m: Registers): Registers {
    m.(outcomes := [])
  }

  /**
   * What a refused single write changes: the configuration exactly when the store failed on a
   * valid new setting, and anything at all exactly in that case or when a command register
   * latched the value it refused.
   */
  lemma RefusedWriteChangesIff(m: Registers, addr: U16, v: U16)
    requires WriteSingle(m, addr, v).0 != NoException
    ensures var m1 := WriteSingle(m, addr, v).1;
            && (m1.config.params != m.config.params <==> SetsThoughRefused(m, addr, v))
            && (Own(m1) != Own(m) <==> SetsThoughRefused(m, addr, v) || LatchesThoughRefused(m, addr, v))
  {
    hide Lookup, InBounds, InOrder, WriteSetting, Taken, SettingOf, Valid;
    if Mapped(addr) {
      var cell := Lookup(addr).value.cell;
      OthersValidate(cell, v, m.config.params);
      if cell.Setting? && Validates(cell, v, m.config.params) {
        RefusedSettingChangesIff(m, cell.id, Taken(cell.id, v));
      }
    }
  }

  /** Commands have no validator. */
  lemma OthersValidate(cell: Cell, v: U16, p: Params)
    ensures cell.AckAlarm? || cell.ResetMetrics? || cell.SoftRestart? ==> Validates(cell, v, p)
  {
  }

  lemma RefusedSettingChangesIff(m: Registers, id: ParamId, x: int)
    requires WriteSetting(m, id, x).0 != NoException
    ensures var m1, p := WriteSetting(m, id, x).1, m.config.params;
            var sets := Valid(id, x, p) && !Outcome(m) && SettingOf(p, id) != x;
            (m1.config.params != p <==> sets) && (Own(m1) != Own(m) <==> sets)
  {
    hide Valid, Applied, SettingOf;
    if Valid(id, x, m.config.params) {
      UnknownIsInvalid(x, m.config.params);
      SettingIsNewIff(m.config.params, id, x);
      if SettingOf(m.config.params, id) == x {
        assert m.config.(params := m.config.params) == m.config;
      }
    }
  }

  lemma UnknownIsInvalid(v: int, p: Params)
    ensures !Valid(Unknown, v, p)
  {
  }

  lemma {:induction false} ReadRefusesAddresses(m: Registers, src: Inputs, addr: U16, count: nat, writable: bool, i: nat)
    requires i <= count
    ensures ReadFrom(m, src, addr, count, writable, i) != Refused(IllegalValue)
    decreases count - i
  {
    hide Lookup, Nth, Read;
    if i < count {
      ReadRefusesAddresses(m, src, addr, count, writable, i + 1);
    }
  }

  /** A read answers Illegal Data Value exactly for a count of zero or above the limit. */
  lemma ReadRefusesValueIff(m: Registers, src: Inputs, addr: U16, count: nat, writable: bool)
    ensures ReadRegs(m, src, addr, count, writable) == Refused(IllegalValue) <==> count == 0 || count > 125
  {
    hide ReadFrom;
    ReadRefusesAddresses(m, src, addr, count, writable, 0);
  }

  /** A block read of the three sensors tells a bus master their state in every run of the sensor service. */
  lemma SensorBlockIsLossless(m: Registers, src: Inputs, failed: seq<bool>, samples: seq<SensorService.Sample>)
    requires src.snapshot == Some(SensorService.Run(failed, samples))
    ensures var a := ReadRegs(m, src, 0x0010, 3, false);
            var chs := SensorService.Run(failed, samples);
            && a.Values? && |a.values| == 3
            && TemperatureOf(a.values[0]) == Meant(chs[SensorService.TEMPERATURE].reading)
            && UnsignedOf(a.values[1]) == Meant(chs[SensorService.HUMIDITY].reading)
            && UnsignedOf(a.values[2]) == Meant(chs[SensorService.PRESSURE].reading)
  {
    hide Lookup, SensorService.Run, TemperatureOf, UnsignedOf, TemperatureRegister, UnsignedRegister, Meant;
    NamedSlots();
    EveryReadingComesBack(failed, samples);
    assert Nth(0x0010, 0) == 0x0010 && Nth(0x0010, 1) == 0x0011 && Nth(0x0010, 2) == 0x0012;
    assert ReadFrom(m, src, 0x0010, 3, false, 3) == Values([]);
    assert ReadFrom(m, src, 0x0010, 3, false, 2) == Values([Read(m, src, PressureReading)]);
    assert ReadFrom(m, src, 0x0010, 3, false, 1) ==
           Values([Read(m, src, HumidityReading), Read(m, src, PressureReading)]);
    assert ReadFrom(m, src, 0x0010, 3, false, 0) ==
           Values([Read(m, src, TemperatureReading), Read(m, src, HumidityReading), Read(m, src, PressureReading)]);
  }

  /* ---- runs ---- */

  datatype Request =
    | ReadInput(addr: U16, count: U16)
    | ReadHolding(addr: U16, count: U16)
    | Single(addr: U16, value: U16)
    | Multiple(addr: U16, values: seq<U16>)

  function Serve(m: Registers, r: Request): Registers {
    match r
    case ReadInput(_, _) => m
    case ReadHolding(_, _) => m
    case Single(addr, v) => WriteSingle(m, addr, v).1
    case Multiple(addr, values) => WriteMultiple(m, addr, values).1
  }

  function ServeAll(m: Registers, rs: seq<Request>): Registers
    decreases |rs|
  {
    if rs == [] then m else Serve(ServeAll(m, rs[..|rs| - 1]), rs[|rs| - 1])
  }

  /** The request that carries both halves of a time. */
  predicate IsTimePair(r: Request) {
    r.Multiple? && r.addr == TIME_HI && |r.values| == 2
  }

  function Epoch(r: Request): U32
    requires IsTimePair(r)
  {
    var hi: int, lo: int := r.values[0], r.values[1];
    hi * 0x1_0000 + lo
  }

  /** The calls of set_time among the effects. */
  function TimesSet(effects: seq<Effect>): seq<U32> {
    if effects == [] then [] else
    var last := effects[|effects| - 1];
    TimesSet(effects[..|effects| - 1]) + if last.SetTime? then [last.epoch] else []
  }

  /** The epochs between 2000 and 2099 among the time pairs of a run, in order. */
  function TimesAsked(rs: seq<Request>): seq<U32> {
    if rs == [] then [] else
    var last := rs[|rs| - 1];
    TimesAsked(rs[..|rs| - 1]) + if IsTimePair(last) && MIN_EPOCH <= Epoch(last) <= MAX_EPOCH then [Epoch(last)] else []
  }

  /** The pair last received, or zeros. */
  function LastPair(rs: seq<Request>): (U16, U16) {
    if rs == [] then (0, 0)
    else if IsTimePair(rs[|rs| - 1]) then (rs[|rs| - 1].values[0], rs[|rs| - 1].values[1])
    else LastPair(rs[..|rs| - 1])
  }

  /** The time of one state told from that of another. */
  ghost predicate SameTime(m: Registers, m1: Registers) {
    m1.timeHi == m.timeHi && m1.timeLo == m.timeLo && TimesSet(m1.effects) == TimesSet(m.effects)
  }

  lemma OneMoreEffect(effects: seq<Effect>, e: Effect)
    ensures TimesSet(effects + [e]) == TimesSet(effects) + if e.SetTime? then [e.epoch] else []
  {
    assert (effects + [e])[..|effects + [e]| - 1] == effects;
  }

  lemma WriteKeepsTime(m: Registers, cell: Cell, v: U16)
    ensures SameTime(m, Write(m, cell, v).1)
  {
    hide Valid, Applied, Taken, TimesSet;
    OneMoreEffect(m.effects, AcknowledgeAll);
    OneMoreEffect(m.effects, ClearMetrics);
    OneMoreEffect(m.effects, Restart);
    if cell.Setting? {
      OneMoreEffect(m.effects, SetAddress(Taken(cell.id, v)));
    }
  }

  lemma {:induction false} Phase2KeepsTime(m: Registers, addr: U16, values: seq<U16>, i: nat)
    requires i <= |values|
    requires forall k :: i <= k < |values| ==> Mapped(Nth(addr, k))
    ensures SameTime(m, Phase2(m, addr, values, i).1)
    decreases |values| - i
  {
    hide Write, Lookup, Nth, TimesSet;
    if i < |values| {
      assert Mapped(Nth(addr, i));
      var cell := Lookup(Nth(addr, i)).value.cell;
      WriteKeepsTime(m, cell, values[i]);
      if Write(m, cell, values[i]).0 == NoException {
        Phase2KeepsTime(Write(m, cell, values[i]).1, addr, values, i + 1);
      }
    }
  }

  /** Any other request leaves the pair and the set times alone. */
  lemma OthersKeepTime(m: Registers, r: Request)
    requires !IsTimePair(r)
    ensures SameTime(m, Serve(m, r))
  {
    hide Write, Lookup, TimesSet, Validates, Phase2, CommandsPass, Phase1;
    if r.Single? {
      var slot := Lookup(r.addr);
      if slot.Some? {
        WriteKeepsTime(m, slot.value.cell, r.value);
      }
    } else if r.Multiple? && r.values != [] && |r.values| <= MAX_WRITE && CommandsPass(r.addr, |r.values|) {
      if Phase1(r.addr, r.values, 0, m.config.params) == NoException {
        PassedIsMapped(r.addr, r.values, 0, m.config.params);
        Phase2KeepsTime(m, r.addr, r.values, 0);
      }
    }
  }

  lemma PairSetsTime(m: Registers, r: Request)
    requires IsTimePair(r)
    ensures var m1 := Serve(m, r);
            && m1.timeHi == r.values[0] && m1.timeLo == r.values[1]
            && TimesSet(m1.effects) ==
               TimesSet(m.effects) + if MIN_EPOCH <= Epoch(r) <= MAX_EPOCH then [Epoch(r)] else []
  {
    hide TimesSet, Phase2, CommandsPass, Phase1;
    OneMoreEffect(m.effects, SetTime(Epoch(r)));
  }

  /**
   * In every run of requests the two read-back cells hold both halves of one request, the last
   * that carried a pair, or the initial zeros; and set_time was called exactly for the pairs
   * between 2000 and 2099, each with both halves of its request.
   */
  lemma {:induction false} TimeIsNeverHalfApplied(m: Registers, rs: seq<Request>)
    requires m.timeHi == 0 && m.timeLo == 0 && TimesSet(m.effects) == []
    ensures var m1 := ServeAll(m, rs);
            && (m1.timeHi, m1.timeLo) == LastPair(rs)
            && TimesSet(m1.effects) == TimesAsked(rs)
    decreases |rs|
  {
    hide Serve, TimesSet;
    if rs != [] {
      var before, last := rs[..|rs| - 1], rs[|rs| - 1];
      TimeIsNeverHalfApplied(m, before);
      if IsTimePair(last) {
        PairSetsTime(ServeAll(m, before), last);
      } else {
        OthersKeepTime(ServeAll(m, before), last);
      }
    }
  }

  lemma {:induction false} Phase2KeepsConfigOk(m: Registers, addr: U16, values: seq<U16>, i: nat)
    requires ConfigOk(m) && i <= |values|
    requires forall k :: i <= k < |values| ==> Mapped(Nth(addr, k))
    ensures ConfigOk(Phase2(m, addr, values, i).1)
    decreases |values| - i
  {
    hide Write, Lookup, Nth, ConfigOk;
    if i < |values| {
      assert Mapped(Nth(addr, i));
      var cell := Lookup(Nth(addr, i)).value.cell;
      if cell.Setting? {
        NoRangeRegisters(Nth(addr, i));
      }
      WriteKeepsConfigOk(m, cell, values[i]);
      if Write(m, cell, values[i]).0 == NoException {
        Phase2KeepsConfigOk(Write(m, cell, values[i]).1, addr, values, i + 1);
      }
    }
  }

  lemma ServeKeepsConfigOk(m: Registers, r: Request)
    requires ConfigOk(m)
    ensures ConfigOk(Serve(m, r))
  {
    hide Write, Lookup, Validates, Phase2, CommandsPass, Phase1, ConfigService.StateOk;
    if r.Single? {
      var slot := Lookup(r.addr);
      if slot.Some? {
        if slot.value.cell.Setting? {
          NoRangeRegisters(r.addr);
        }
        WriteKeepsConfigOk(m, slot.value.cell, r.value);
      }
    } else if r.Multiple? && r.values != [] && |r.values| <= MAX_WRITE && CommandsPass(r.addr, |r.values|) {
      if Phase1(r.addr, r.values, 0, m.config.params) == NoException {
        PassedIsMapped(r.addr, r.values, 0, m.config.params);
        Phase2KeepsConfigOk(m, r.addr, r.values, 0);
      }
    }
  }

  /** No run of requests breaks the configuration invariant, whatever the store does. */
  lemma {:induction false} EveryRunKeepsConfigOk(m: Registers, rs: seq<Request>)
    requires ConfigOk(m)
    ensures ConfigOk(ServeAll(m, rs))
    decreases |rs|
  {
    hide Serve, ConfigOk;
    if rs != [] {
      EveryRunKeepsConfigOk(m, rs[..|rs| - 1]);
      ServeKeepsConfigOk(ServeAll(m, rs[..|rs| - 1]), rs[|rs| - 1]);
    }
  }
}
