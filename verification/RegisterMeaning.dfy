/**
 * What each writable register means to a bus master: the values function code 06 accepts at an
 * address and what they set, and how the halves of the 32-bit counters fit together.
 */
module RegisterMeaning {
  import opened Bytes
  import opened SensorRegisters
  import opened ConfigParams
  import opened RegisterTable
  import opened RegisterMap
  import opened RegisterRuns
  import ConfigService

  lemma CommandSlots()
    ensures Lookup(0x0200) == Some(Slot(0x0200, true, AckAlarm))
    ensures Lookup(0x0201) == Some(Slot(0x0201, true, ResetMetrics))
    ensures Lookup(0x0202) == Some(Slot(0x0202, true, SoftRestart))
  {
    hide Lookup;
    EverySlotIsFound(36);
    EverySlotIsFound(37);
    EverySlotIsFound(38);
  }

  lemma BandSlots(q: Quantity)
    ensures Lookup(Block(q)) == Some(Slot(Block(q), true, Setting(AlarmLow(q))))
    ensures Lookup(Block(q) + 1) == Some(Slot(Block(q) + 1, true, Setting(AlarmHigh(q))))
    ensures Lookup(Block(q) + 2) == Some(Slot(Block(q) + 2, true, Setting(Hysteresis(q))))
  {
    hide Lookup;
    match q {
      case Temperature =>
        EverySlotIsFound(23);
        EverySlotIsFound(24);
        EverySlotIsFound(25);
      case Humidity =>
        EverySlotIsFound(26);
        EverySlotIsFound(27);
        EverySlotIsFound(28);
      case Pressure =>
        EverySlotIsFound(29);
        EverySlotIsFound(30);
        EverySlotIsFound(31);
    }
  }

  lemma OtherSlots()
    ensures Lookup(0x0130) == Some(Slot(0x0130, true, Setting(PollInterval)))
    ensures Lookup(0x0140) == Some(Slot(0x0140, true, LcdBrightness))
    ensures Lookup(0x0141) == Some(Slot(0x0141, true, LcdTimeout))
    ensures Lookup(0x0150) == Some(Slot(0x0150, true, Setting(SlaveAddr)))
  {
    hide Lookup;
    EverySlotIsFound(32);
    EverySlotIsFound(33);
    EverySlotIsFound(34);
    EverySlotIsFound(35);
  }

  lemma StatusSlots()
    ensures Lookup(0x0030) == Some(Slot(0x0030, false, DeviceState))
    ensures Lookup(0x0031) == Some(Slot(0x0031, false, Flags))
    ensures Lookup(0x0032) == Some(Slot(0x0032, false, UptimeHi))
    ensures Lookup(0x0033) == Some(Slot(0x0033, false, UptimeLo))
    ensures Lookup(0x0034) == Some(Slot(0x0034, false, RxOkHi))
    ensures Lookup(0x0035) == Some(Slot(0x0035, false, RxOkLo))
  {
    hide Lookup;
    EverySlotIsFound(11);
    EverySlotIsFound(12);
    EverySlotIsFound(13);
    EverySlotIsFound(14);
    EverySlotIsFound(15);
    EverySlotIsFound(16);
  }

  lemma ErrorSlots()
    ensures Lookup(0x0036) == Some(Slot(0x0036, false, CrcErrHi))
    ensures Lookup(0x0037) == Some(Slot(0x0037, false, CrcErrLo))
    ensures Lookup(0x003A) == Some(Slot(0x003A, false, SensorErrHi))
    ensures Lookup(0x003B) == Some(Slot(0x003B, false, SensorErrLo))
  {
    hide Lookup;
    EverySlotIsFound(17);
    EverySlotIsFound(18);
    EverySlotIsFound(21);
    EverySlotIsFound(22);
  }

  /* ---- commands ---- */

  /** The three commands: each takes one value, calls one service, and keeps what was written either way. */
  lemma CommandsDo(m: Registers, v: U16)
    ensures WriteSingle(m, 0x0200, v) ==
            if v == 1 then (NoException, m.(ack := 1, effects := m.effects + [AcknowledgeAll])) else (IllegalValue, m.(ack := v))
    ensures WriteSingle(m, 0x0201, v) ==
            if v == 1 then (NoException, m.(reset := 1, validFrames := 0, crcErrors := 0, effects := m.effects + [ClearMetrics]))
            else (IllegalValue, m.(reset := v))
    ensures WriteSingle(m, 0x0202, v) ==
            if v == 0xA5A5 then (NoException, m.(restart := v, effects := m.effects + [Restart]))
            else (IllegalValue, m.(restart := v))
  {
    CommandSlots();
    hide Lookup;
  }

  /* ---- settings ---- */

  lemma SettingWritten(m: Registers, addr: U16, id: ParamId, v: U16)
    requires ConfigOk(m) && Lookup(addr) == Some(Slot(addr, true, Setting(id)))
    ensures var (e, m1) := WriteSingle(m, addr, v);
            var x := Taken(id, v);
            && (e == NoException <==> InBounds(Setting(id), v) && Valid(id, x, m.config.params) && Outcome(m))
            && (e == NoException ==>
                  && m1.config.params == Applied(m.config.params, id, x)
                  && m1.config.stored == Some(m1.config.params)
                  && m1.effects == if id.SlaveAddr? then m.effects + [SetAddress(x)] else m.effects)
  {
    hide Lookup, ConfigOk, InBounds, InOrder, Valid, Applied, Taken;
    if InBounds(Setting(id), v) {
      SingleIsWrite(m, addr, v);
      hide WriteSingle;
      UnknownIsInvalid(Taken(id, v), m.config.params);
    }
  }

  /** The number a bus master means by a register: two's complement for temperatures. */
  function Meant(q: Quantity, v: U16): int {
    if q == Temperature && v >= 0x8000 then v - 0x1_0000 else v
  }

  /** The range a bus master may set alarms in. */
  predicate OnScale(q: Quantity, x: int) {
    match q
    case Temperature => -4000 <= x <= 8500
    case Humidity => 0 <= x <= 10000
    case Pressure => 3000 <= x <= 11000
  }

  function Block(q: Quantity): U16 {
    match q case Temperature => 0x0100 case Humidity => 0x0110 case Pressure => 0x0120
  }

  lemma SafeBand(m: Registers, q: Quantity)
    requires ConfigOk(m)
    ensures var b := m.config.params.Of(q); BandSafe(q, b) && BandFits(q, b)
  {
  }

  /**
   * The low alarm, at 0x0100, 0x0110 and 0x0120: accepted exactly on its scale, not below the range
   * of the sensor and below the high alarm by more than the hysteresis, when the store saves.
   */
  lemma LowAlarmRegister(m: Registers, q: Quantity, v: U16)
    requires ConfigOk(m)
    ensures var (e, m1) := WriteSingle(m, Block(q), v);
            var b, x := m.config.params.Of(q), Meant(q, v);
            && (e == NoException <==> OnScale(q, x) && b.min <= x && x + b.hyst < b.high && Outcome(m))
            && (e == NoException ==> m1.config.params == m.config.params.With(q, b.(low := x)))
  {
    SafeBand(m, q);
    BandSlots(q);
    SettingWritten(m, Block(q), AlarmLow(q), v);
    hide WriteSingle, ConfigOk, Lookup, Outcome, Block;
  }

  /** The high alarm, one register on. */
  lemma HighAlarmRegister(m: Registers, q: Quantity, v: U16)
    requires ConfigOk(m)
    ensures var (e, m1) := WriteSingle(m, Block(q) + 1, v);
            var b, x := m.config.params.Of(q), Meant(q, v);
            && (e == NoException <==> OnScale(q, x) && b.min <= x <= b.max && b.low + b.hyst < x && Outcome(m))
            && (e == NoException ==> m1.config.params == m.config.params.With(q, b.(high := x)))
  {
    SafeBand(m, q);
    BandSlots(q);
    SettingWritten(m, Block(q) + 1, AlarmHigh(q), v);
    hide WriteSingle, ConfigOk, Lookup, Outcome, Block;
  }

  lemma HysteresisTaken(q: Quantity, v: U16, p: Params)
    requires BandSafe(q, p.Of(q)) && BandFits(q, p.Of(q))
    ensures var b, id := p.Of(q), Hysteresis(q);
            InBounds(Setting(id), v) && Valid(id, Taken(id, v), p) <==>
            1 <= v <= (if q == Pressure then 100 else 1000) && 2 * v < b.high - b.low
    ensures InBounds(Setting(Hysteresis(q)), v) ==> Taken(Hysteresis(q), v) == v
  {
  }

  /** The hysteresis, another one on: at most 1000, or 100 for the pressure, and less than half way between the alarms. */
  lemma HysteresisRegister(m: Registers, q: Quantity, v: U16)
    requires ConfigOk(m)
    ensures var (e, m1) := WriteSingle(m, Block(q) + 2, v);
            var b := m.config.params.Of(q);
            && (e == NoException <==> 1 <= v <= (if q == Pressure then 100 else 1000) && 2 * v < b.high - b.low && Outcome(m))
            && (e == NoException ==> m1.config.params == m.config.params.With(q, b.(hyst := v)))
  {
    SafeBand(m, q);
    BandSlots(q);
    SettingWritten(m, Block(q) + 2, Hysteresis(q), v);
    HysteresisTaken(q, v, m.config.params);
    hide InBounds, Valid, Taken;
    hide WriteSingle, ConfigOk, Lookup, Outcome, Block;
  }

  /** The poll interval, the slave address, which the bus moves to, and the two placeholders of the display. */
  lemma OtherRegisters(m: Registers, v: U16)
    requires ConfigOk(m)
    ensures var (e, m1) := WriteSingle(m, 0x0130, v);
            && (e == NoException <==> 100 <= v <= 60000 && Outcome(m))
            && (e == NoException ==> m1.config.params == m.config.params.(pollInterval := v))
    ensures var (e, m1) := WriteSingle(m, 0x0150, v);
            && (e == NoException <==> 1 <= v <= 247 && Outcome(m))
            && (e == NoException ==>
                  && m1.config.params == m.config.params.(slaveAddr := v)
                  && m1.effects == m.effects + [SetAddress(v)])
    ensures WriteSingle(m, 0x0140, v) == (if v <= 100 then NoException else IllegalValue, m)
    ensures WriteSingle(m, 0x0141, v) == (if v <= 3600 then NoException else IllegalValue, m)
  {
    OtherSlots();
    SettingWritten(m, 0x0130, PollInterval, v);
    SettingWritten(m, 0x0150, SlaveAddr, v);
    Placeholders(m, v);
    hide WriteSingle, ConfigOk, Lookup, Outcome;
  }

  lemma Placeholders(m: Registers, v: U16)
    ensures WriteSingle(m, 0x0140, v) == (if v <= 100 then NoException else IllegalValue, m)
    ensures WriteSingle(m, 0x0141, v) == (if v <= 3600 then NoException else IllegalValue, m)
  {
    OtherSlots();
    hide Lookup;
  }

  /* ---- blocks ---- */

  /** The time pair: both halves, the high one first, of an epoch in the years 2000 to 2099. */
  lemma TimePairRegisters(m: Registers, hi: U16, lo: U16)
    ensures var (e, m1) := WriteMultiple(m, 0x0210, [hi, lo]);
            var epoch := hi as int * 0x1_0000 + lo as int;
            && (e == NoException <==> 946684800 <= epoch <= 4102444799 && Outcome(m))
            && m1.timeHi == hi && m1.timeLo == lo
            && (946684800 <= epoch <= 4102444799 ==> m1.effects == m.effects + [SetTime(epoch)])
            && m1.config == m.config
  {
    hide CommandsPass, Phase1, Phase2;
  }

  lemma {:induction false} CommandsCounted(addr: U16, n: nat, i: nat, j: nat)
    requires i < j < n
    requires 0x0200 <= Nth(addr, i) <= 0x02FF && 0x0200 <= Nth(addr, j) <= 0x02FF
    ensures CommandRegs(addr, n) >= 2
  {
    hide Nth;
    if j < n - 1 {
      CommandsCounted(addr, n - 1, i, j);
    } else {
      OneCommand(addr, n - 1, i);
    }
  }

  lemma {:induction false} OneCommand(addr: U16, n: nat, i: nat)
    requires i < n && 0x0200 <= Nth(addr, i) <= 0x02FF
    ensures CommandRegs(addr, n) >= 1
  {
    hide Nth;
    if i < n - 1 {
      OneCommand(addr, n - 1, i);
    }
  }

  /** No other block may touch the time pair, none may touch two commands, and none may exceed 123 registers. */
  lemma ForbiddenBlocks(m: Registers, addr: U16, values: seq<U16>, i: nat, j: nat)
    requires !(addr == 0x0210 && |values| == 2) && i <= j < |values|
    requires || |values| > 123
             || (addr + i) % 0x1_0000 == 0x0210 || (addr + i) % 0x1_0000 == 0x0211
             || (i < j && 0x0200 <= (addr + i) % 0x1_0000 <= 0x02FF && 0x0200 <= (addr + j) % 0x1_0000 <= 0x02FF)
    ensures WriteMultiple(m, addr, values) == (IllegalValue, m)
  {
    hide Phase1, Phase2;
    if IsTime(Nth(addr, i)) {
      assert TouchesTime(addr, |values|);
    } else if |values| <= 123 {
      CommandsCounted(addr, |values|, i, j);
    }
  }

  /* ---- which addresses answer ---- */

  /** Illegal Data Address on a single write: exactly where no writable register is. */
  lemma SingleRefusesAddressIff(m: Registers, addr: U16, v: U16)
    ensures WriteSingle(m, addr, v).0 == IllegalAddress <==> !Mapped(addr)
    ensures !Mapped(addr) ==> WriteSingle(m, addr, v).1 == m
  {
    hide Lookup, Validates, Write;
    if Mapped(addr) {
      WriteRefusesValues(m, Lookup(addr).value.cell, v);
    }
  }

  /** A block is refused for an address only when it reaches one where no writable register is. */
  lemma BlockRefusesAddress(m: Registers, addr: U16, values: seq<U16>)
    requires WriteMultiple(m, addr, values).0 == IllegalAddress
    ensures exists i :: 0 <= i < |values| && !Mapped(Nth(addr, i))
  {
    hide Lookup, Validates, Write, Nth, CommandsPass, Phase1, Phase2;
    if forall i :: 0 <= i < |values| ==> Mapped(Nth(addr, i)) {
      MappedPhase1(addr, values, 0, m.config.params);
      if Phase1(addr, values, 0, m.config.params) == NoException {
        MappedPhase2(m, addr, values, 0);
      }
    }
  }

  lemma {:induction false} MappedPhase1(addr: U16, values: seq<U16>, i: nat, p: Params)
    requires i <= |values| && forall k :: i <= k < |values| ==> Mapped(Nth(addr, k))
    ensures Phase1(addr, values, i, p) != IllegalAddress
    decreases |values| - i
  {
    hide Lookup, Validates, Nth;
    if i < |values| {
      MappedPhase1(addr, values, i + 1, p);
    }
  }

  lemma {:induction false} MappedPhase2(m: Registers, addr: U16, values: seq<U16>, i: nat)
    requires i <= |values| && forall k :: i <= k < |values| ==> Mapped(Nth(addr, k))
    ensures Phase2(m, addr, values, i).0 != IllegalAddress
    decreases |values| - i
  {
    hide Lookup, Write, Nth;
    if i < |values| {
      assert Mapped(Nth(addr, i));
      var cell := Lookup(Nth(addr, i)).value.cell;
      WriteRefusesValues(m, cell, values[i]);
      MappedPhase2(Write(m, cell, values[i]).1, addr, values, i + 1);
    }
  }

  lemma WriteRefusesValues(m: Registers, cell: Cell, v: U16)
    ensures Write(m, cell, v).0 != IllegalAddress
  {
    hide Valid, Applied, Taken;
  }

  /** A register of the kind the function code reads: 03 the writable ones, 04 the others. */
  predicate Readable(addr: U16, writable: bool) {
    Lookup(addr).Some? && Lookup(addr).value.writable == writable
  }

  lemma {:induction false} ReadsFrom(m: Registers, src: Inputs, addr: U16, count: nat, writable: bool, i: nat)
    requires i <= count
    ensures var a := ReadFrom(m, src, addr, count, writable, i);
            && (a.Values? <==> forall k :: i <= k < count ==> Readable(Nth(addr, k), writable))
            && (a.Values? ==> |a.values| == count - i)
            && (a.Values? ==> forall k :: i <= k < count ==> a.values[k - i] == Read(m, src, Lookup(Nth(addr, k)).value.cell))
    decreases count - i
  {
    hide Lookup, Read, Nth;
    if i < count {
      ReadsFrom(m, src, addr, count, writable, i + 1);
    }
  }

  /**
   * A read answers with values exactly for 1 to 125 registers that are all of its kind, and then
   * with one value a register, in order.
   */
  lemma ReadAnswersIff(m: Registers, src: Inputs, addr: U16, count: nat, writable: bool)
    ensures var a := ReadRegs(m, src, addr, count, writable);
            && (a.Values? <==> 1 <= count <= 125 && forall k :: 0 <= k < count ==> Readable(Nth(addr, k), writable))
            && (a.Values? ==>
                  && |a.values| == count
                  && forall k :: 0 <= k < count ==> a.values[k] == Read(m, src, Lookup(Nth(addr, k)).value.cell))
  {
    hide Lookup, Read, Nth, ReadFrom;
    ReadsFrom(m, src, addr, count, writable, 0);
  }

  /* ---- counters ---- */

  /** A pair of input registers holds a 32-bit value, the high half first. */
  predicate HoldsWord(a: Answer, x: U32) {
    a.Values? && |a.values| == 2 && a.values[0] as int * 0x1_0000 + a.values[1] as int == x
  }

  lemma TwoRegisters(m: Registers, src: Inputs, addr: U16, hi: Cell, lo: Cell)
    requires addr < 0xFFFF
    requires Lookup(addr) == Some(Slot(addr, false, hi)) && Lookup(addr + 1) == Some(Slot(addr + 1, false, lo))
    ensures ReadRegs(m, src, addr, 2, false) == Values([Read(m, src, hi), Read(m, src, lo)])
  {
    hide Lookup, Read;
    assert Nth(addr, 0) == addr && Nth(addr, 1) == addr + 1;
    assert ReadFrom(m, src, addr, 2, false, 2) == Values([]);
    assert ReadFrom(m, src, addr, 2, false, 1) == Values([Read(m, src, lo)]);
  }

  lemma Halves(x: U32)
    ensures High(x) * 0x1_0000 + Low(x) == x
  {
  }

  /** Uptime, valid frames, CRC errors and sensor failures recombine without loss. */
  lemma CountersRecombine(m: Registers, src: Inputs)
    ensures HoldsWord(ReadRegs(m, src, 0x0032, 2, false), src.uptime)
    ensures HoldsWord(ReadRegs(m, src, 0x0034, 2, false), m.validFrames)
    ensures HoldsWord(ReadRegs(m, src, 0x0036, 2, false), m.crcErrors)
    ensures HoldsWord(ReadRegs(m, src, 0x003A, 2, false), src.sensorFails)
  {
    StatusSlots();
    ErrorSlots();
    hide ReadRegs, High, Low, Lookup;
    TwoRegisters(m, src, 0x0032, UptimeHi, UptimeLo);
    TwoRegisters(m, src, 0x0034, RxOkHi, RxOkLo);
    TwoRegisters(m, src, 0x0036, CrcErrHi, CrcErrLo);
    TwoRegisters(m, src, 0x003A, SensorErrHi, SensorErrLo);
    Halves(src.uptime);
    Halves(m.validFrames);
    Halves(m.crcErrors);
    Halves(src.sensorFails);
  }

  /** The state of the device, and the states of its three alarms with the fault bit, as a bus master decodes them. */
  lemma StatusRegisters(m: Registers, src: Inputs)
    ensures var a := ReadRegs(m, src, 0x0030, 2, false);
            && a.Values? && |a.values| == 2
            && a.values[0] == src.deviceState
            && StateIn(a.values[1], 1) == src.alarms[0] && StateIn(a.values[1], 4) == src.alarms[1]
            && StateIn(a.values[1], 16) == src.alarms[2]
            && (a.values[1] / 64 % 2 == 1 <==>
                  src.snapshot == None || exists i :: 0 <= i < 3 && !src.snapshot.value[i].reading.valid)
  {
    StatusSlots();
    hide ReadRegs, Lookup, StateIn, AlarmFlags;
    TwoRegisters(m, src, 0x0030, DeviceState, Flags);
    AlarmFlagsTellTheStates(src.alarms[0], src.alarms[1], src.alarms[2], Faulty(src));
  }
}
