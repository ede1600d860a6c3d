/**
 * The Modbus register map: the handlers behind the table, single and block writes with their
 * two phases, the command block and the time pair. What the configuration store and the
 * time provider answer is a script, one outcome a call (good once exhausted).
 */
module RegisterMap {
  import opened Bytes
  import opened SensorRegisters
  import opened ConfigParams
  import opened RegisterTable
  import ConfigService

  const MAX_READ: nat := 125
  const MAX_WRITE: nat := 123
  const TIME_HI: U16 := 0x0210
  const TIME_LO: U16 := 0x0211
  const MIN_EPOCH: U32 := 946684800
  const MAX_EPOCH: U32 := 4102444799

  /** Calls to the other modules. */
  datatype Effect = AcknowledgeAll | ClearMetrics | Restart | SetTime(epoch: U32) | SetAddress(addr: int)

  datatype Registers = Registers(
    config: ConfigService.State,
    ack: U16, reset: U16, restart: U16, timeHi: U16, timeLo: U16,
    validFrames: U32, crcErrors: U32,
    effects: seq<Effect>, outcomes: seq<bool>)

  function Outcome(m: Registers): bool {
    m.outcomes == [] || m.outcomes[0]
  }

  function Spend(m: Registers): Registers {
    m.(outcomes := if m.outcomes == [] then [] else m.outcomes[1..])
  }

  function Do(m: Registers, e: Effect): Registers {
    m.(effects := m.effects + [e])
  }

  /* ---- validators ---- */

  function FixedMin(q: Quantity): int {
    match q case Temperature => -4000 case Humidity => 0 case Pressure => 3000
  }

  function FixedMax(q: Quantity): int {
    match q case Temperature => 8500 case Humidity => 10000 case Pressure => 11000
  }

  function HystMax(q: Quantity): int {
    if q.Pressure? then 100 else 1000
  }

  /** The value a handler takes from a register: int16_t for temperatures, uint8_t for the address. */
  function Taken(id: ParamId, v: U16): int {
    match id
    case AlarmLow(q) => if q.Temperature? then ToInt16(v) else v
    case AlarmHigh(q) => if q.Temperature? then ToInt16(v) else v
    case Hysteresis(q) => if q.Temperature? then ToInt16(v) else v
    case SlaveAddr => v % 0x100
    case _ => v
  }

  /** The part of a validator that does not look at the configuration. */
  predicate InBounds(cell: Cell, v: U16) {
    match cell
    case Setting(id) => (
      match id
      case AlarmLow(q) => FixedMin(q) <= Taken(id, v) <= FixedMax(q)
      case AlarmHigh(q) => FixedMin(q) <= Taken(id, v) <= FixedMax(q)
      case Hysteresis(q) => v <= HystMax(q)
      case PollInterval => 100 <= v <= 60000
      case SlaveAddr => 1 <= v <= 247
      case _ => true)
    case LcdBrightness => v <= 100
    case LcdTimeout => v <= 3600
    case _ => true
  }

  /** The part that does. */
  predicate InOrder(cell: Cell, v: U16, p: Params) {
    match cell
    case Setting(id) => (
      match id
      case AlarmLow(q) => Taken(id, v) < p.Of(q).high
      case AlarmHigh(q) => Taken(id, v) > p.Of(q).low
      case _ => true)
    case _ => true
  }

  predicate Validates(cell: Cell, v: U16, p: Params) {
    InBounds(cell, v) && InOrder(cell, v, p)
  }

  /* ---- write handlers ---- */

  function WriteSetting(m: Registers, id: ParamId, x: int): (Exception, Registers) {
    var saves := Outcome(m);
    var (e, config) := ConfigService.SetParam(m.config, id, x, saves);
    var m1 := m.(config := config);
    if e.Invalid? then (IllegalValue, m1)
    else if e != ConfigService.Success then (IllegalValue, Spend(m1))
    else (NoException, if id.SlaveAddr? then Do(Spend(m1), SetAddress(x)) else Spend(m1))
  }

  function Write(m: Registers, cell: Cell, v: U16): (Exception, Registers) {
    match cell
    case Setting(id) => WriteSetting(m, id, Taken(id, v))
    case LcdBrightness => (NoException, m)
    case LcdTimeout => (NoException, m)
    case AckAlarm =>
      var m1 := m.(ack := v); if v != 1 then (IllegalValue, m1) else (NoException, Do(m1, AcknowledgeAll))
    case ResetMetrics =>
      var m1 := m.(reset := v);
      if v != 1 then (IllegalValue, m1) else (NoException, Do(m1.(validFrames := 0, crcErrors := 0), ClearMetrics))
    case SoftRestart =>
      var m1 := m.(restart := v); if v != 0xA5A5 then (IllegalValue, m1) else (NoException, Do(m1, Restart))
    case _ => (IllegalValue, m)
  }

  /** The time pair, both halves at once. */
  function ApplyTime(m: Registers, hi: U16, lo: U16): (Exception, Registers) {
    var m1, epoch := m.(timeHi := hi, timeLo := lo), hi * 0x1_0000 + lo;
    if epoch < MIN_EPOCH || epoch > MAX_EPOCH then (IllegalValue, m1)
    else (if Outcome(m1) then NoException else IllegalValue, Do(Spend(m1), SetTime(epoch)))
  }

  /* ---- function codes 06 and 16 ---- */

  function WriteSingle(m: Registers, addr: U16, v: U16): (Exception, Registers) {
    var slot := Lookup(addr);
    if slot == None || !slot.value.writable then (IllegalAddress, m)
    else if !Validates(slot.value.cell, v, m.config.params) then (IllegalValue, m)
    else Write(m, slot.value.cell, v)
  }

  /** The i-th address of a block; addresses wrap at 16 bits. */
  function Nth(addr: U16, i: nat): U16 {
    (addr + i) % 0x1_0000
  }

  predicate IsTime(a: U16) {
    a == TIME_HI || a == TIME_LO
  }

  /** How many of the first n addresses lie in the command block. */
  function CommandRegs(addr: U16, n: nat): nat {
    if n == 0 then 0 else CommandRegs(addr, n - 1) + if 0x0200 <= Nth(addr, n - 1) <= 0x02FF then 1 else 0
  }

  predicate TouchesTime(addr: U16, n: nat) {
    exists i :: 0 <= i < n && IsTime(Nth(addr, i))
  }

  /** The command check: no half of the time pair, and one command register at most. */
  predicate CommandsPass(addr: U16, n: nat) {
    !TouchesTime(addr, n) && CommandRegs(addr, n) <= 1
  }

  /** What phase 1 says of one register. */
  function Judge(addr: U16, v: U16, p: Params): Exception {
    var slot := Lookup(addr);
    if slot == None || !slot.value.writable then IllegalAddress
    else if !Validates(slot.value.cell, v, p) then IllegalValue
    else NoException
  }

  /** Phase 1 from register i on: the first objection. */
  function Phase1(addr: U16, values: seq<U16>, i: nat, p: Params): Exception
    requires i <= |values|
    decreases |values| - i
  {
    if i == |values| then NoException else
    var e := Judge(Nth(addr, i), values[i], p);
    if e != NoException then e else Phase1(addr, values, i + 1, p)
  }

  predicate Mapped(a: U16) {
    Lookup(a).Some? && Lookup(a).value.writable
  }

  /** Phase 2 from register i on: writes until the first that fails. */
  function Phase2(m: Registers, addr: U16, values: seq<U16>, i: nat): (Exception, Registers)
    requires i <= |values|
    requires forall k :: i <= k < |values| ==> Mapped(Nth(addr, k))
    decreases |values| - i
  {
    if i == |values| then (NoException, m) else
    assert Mapped(Nth(addr, i));
    var (e, m1) := Write(m, Lookup(Nth(addr, i)).value.cell, values[i]);
    if e != NoException then (e, m1) else Phase2(m1, addr, values, i + 1)
  }

  lemma {:induction false} PassedIsMapped(addr: U16, values: seq<U16>, i: nat, p: Params)
    requires i <= |values| && Phase1(addr, values, i, p) == NoException
    ensures forall k :: i <= k < |values| ==> Judge(Nth(addr, k), values[k], p) == NoException
    ensures forall k :: i <= k < |values| ==> Mapped(Nth(addr, k))
    decreases |values| - i
  {
    hide Lookup, Validates;
    if i < |values| {
      PassedIsMapped(addr, values, i + 1, p);
    }
  }

  function WriteMultiple(m: Registers, addr: U16, values: seq<U16>): (Exception, Registers) {
    if values == [] || |values| > MAX_WRITE then (IllegalValue, m)
    else if addr == TIME_HI && |values| == 2 then ApplyTime(m, values[0], values[1])
    else if !CommandsPass(addr, |values|) then (IllegalValue, m)
    else
      var e := Phase1(addr, values, 0, m.config.params);
      if e != NoException then (e, m)
      else PassedIsMapped(addr, values, 0, m.config.params); Phase2(m, addr, values, 0)
  }

  /* ---- function code 16 refines function code 06 ---- */

  predicate ConfigOk(m: Registers) {
    ConfigService.StateOk(m.config)
  }

  lemma TakenFits(id: ParamId, v: U16)
    ensures ValueFits(id, Taken(id, v)) || id.RangeMin? || id.RangeMax?
  {
  }

  lemma WriteKeepsConfigOk(m: Registers, cell: Cell, v: U16)
    requires ConfigOk(m) && (cell.Setting? ==> !cell.id.RangeMin? && !cell.id.RangeMax?)
    ensures ConfigOk(Write(m, cell, v).1)
  {
    hide ConfigService.StateOk, Valid, Applied, Taken, ValueFits;
    if cell.Setting? {
      TakenFits(cell.id, v);
      ConfigService.StepKeepsOk(m.config, ConfigService.Set(cell.id, Taken(cell.id, v), Outcome(m)));
    }
  }

  /** A register that is out of order is refused by the configuration service as well, which is why the order check of phase 1 can be stale. */
  lemma OutOfOrderIsRefused(m: Registers, cell: Cell, v: U16)
    requires ConfigOk(m) && !InOrder(cell, v, m.config.params)
    ensures Write(m, cell, v) == (IllegalValue, m)
  {
    hide ParamsFit;
    assert Safe(m.config.params);
    assert BandSafe(cell.id.q, m.config.params.Of(cell.id.q));
  }

  /** On a register within its bounds, function code 06 does what the write handler does. */
  lemma SingleIsWrite(m: Registers, addr: U16, v: U16)
    requires ConfigOk(m) && Mapped(addr) && InBounds(Lookup(addr).value.cell, v)
    ensures WriteSingle(m, addr, v) == Write(m, Lookup(addr).value.cell, v)
  {
    hide ConfigOk, Write, InBounds, InOrder, Lookup;
    if !InOrder(Lookup(addr).value.cell, v, m.config.params) {
      OutOfOrderIsRefused(m, Lookup(addr).value.cell, v);
    }
  }

  /** Function code 06 on the registers of a block in ascending order, until the first failure. */
  function Chain(m: Registers, addr: U16, values: seq<U16>, i: nat): (Exception, Registers)
    requires i <= |values|
    decreases |values| - i
  {
    if i == |values| then (NoException, m) else
    var (e, m1) := WriteSingle(m, Nth(addr, i), values[i]);
    if e != NoException then (e, m1) else Chain(m1, addr, values, i + 1)
  }

  lemma {:induction false} LookupIsEntry(addr: U16, i: nat)
    requires i <= |SLOTS| && LookupFrom(addr, i).Some?
    ensures exists j :: i <= j < |SLOTS| && LookupFrom(addr, i) == Some(SLOTS[j])
    decreases |SLOTS| - i
  {
    hide SLOTS;
    if i < |SLOTS| && SLOTS[i].addr != addr {
      LookupIsEntry(addr, i + 1);
    }
  }

  /** No register sets a range limit. */
  lemma NoRangeRegisters(addr: U16)
    requires Lookup(addr).Some? && Lookup(addr).value.cell.Setting?
    ensures !Lookup(addr).value.cell.id.RangeMin? && !Lookup(addr).value.cell.id.RangeMax?
  {
    LookupIsEntry(addr, 0);
  }

  lemma {:induction false} Phase2IsChain(m: Registers, addr: U16, values: seq<U16>, i: nat, p: Params)
    requires ConfigOk(m) && i <= |values|
    requires forall k :: i <= k < |values| ==> Mapped(Nth(addr, k))
    requires forall k :: i <= k < |values| ==> Judge(Nth(addr, k), values[k], p) == NoException
    ensures Phase2(m, addr, values, i) == Chain(m, addr, values, i)
    decreases |values| - i
  {
    hide ConfigOk, Write, InBounds, InOrder, Lookup, WriteSingle, Nth;
    if i < |values| {
      var a, v := Nth(addr, i), values[i];
      var cell := Lookup(a).value.cell;
      assert InBounds(cell, v);
      SingleIsWrite(m, a, v);
      if cell.Setting? {
        NoRangeRegisters(a);
      }
      WriteKeepsConfigOk(m, cell, v);
      Phase2IsChain(Write(m, cell, v).1, addr, values, i + 1, p);
    }
  }

  /**
   * A block that is not the time pair and passes the command check and phase 1 has exactly the
   * result and the effect of its single writes in ascending order up to the first failure.
   */
  lemma BlockIsItsSingleWrites(m: Registers, addr: U16, values: seq<U16>)
    requires ConfigOk(m) && values != [] && |values| <= MAX_WRITE && !(addr == TIME_HI && |values| == 2)
    requires CommandsPass(addr, |values|) && Phase1(addr, values, 0, m.config.params) == NoException
    ensures WriteMultiple(m, addr, values) == Chain(m, addr, values, 0)
  {
    hide ConfigOk, CommandsPass, Phase2, Chain, Judge;
    PassedIsMapped(addr, values, 0, m.config.params);
    Phase2IsChain(m, addr, values, 0, m.config.params);
  }

  /** A block that succeeds is its single writes, all of which succeed. */
  lemma SuccessfulBlock(m: Registers, addr: U16, values: seq<U16>)
    requires ConfigOk(m) && !(addr == TIME_HI && |values| == 2)
    requires WriteMultiple(m, addr, values).0 == NoException
    ensures Chain(m, addr, values, 0) == WriteMultiple(m, addr, values)
  {
    hide ConfigOk, Chain, CommandsPass, Phase2, Phase1;
    BlockIsItsSingleWrites(m, addr, values);
  }

  /** A block refused for its length, by the command check or by phase 1 changes nothing at all. */
  lemma RefusedBlockChangesNothing(m: Registers, addr: U16, values: seq<U16>)
    requires !(addr == TIME_HI && |values| == 2)
    requires values == [] || |values| > MAX_WRITE || !CommandsPass(addr, |values|) ||
             Phase1(addr, values, 0, m.config.params) != NoException
    ensures WriteMultiple(m, addr, values).0 != NoException && WriteMultiple(m, addr, values).1 == m
  {
    hide Phase2, CommandsPass;
  }

  /** A block of one register is a single write, at every address and for every value. */
  lemma OneRegisterBlock(m: Registers, addr: U16, v: U16)
    requires ConfigOk(m)
    ensures WriteMultiple(m, addr, [v]) == WriteSingle(m, addr, v)
  {
    hide ConfigOk, Write, Validates, Lookup;
    assert Nth(addr, 0) == addr;
    assert CommandRegs(addr, 1) == CommandRegs(addr, 0) + if 0x0200 <= addr <= 0x02FF then 1 else 0;
    if IsTime(addr) {
      assert TouchesTime(addr, 1);
      TimeIsRefused(m, addr, v);
    } else {
      assert !TouchesTime(addr, 1);
      if Judge(addr, v, m.config.params) == NoException {
        assert Phase1(addr, [v], 1, m.config.params) == NoException;
        PassedIsMapped(addr, [v], 0, m.config.params);
        assert Phase2(Write(m, Lookup(addr).value.cell, v).1, addr, [v], 1).0 == NoException;
      }
    }
  }

  /** A half of the time pair on its own is refused and not even remembered. */
  lemma TimeIsRefused(m: Registers, addr: U16, v: U16)
    requires IsTime(addr)
    ensures WriteSingle(m, addr, v) == (IllegalValue, m)
  {
    NamedSlots();
    hide Lookup;
  }

  lemma HalfOfABlock(m: Registers)
    requires m.config.params == DEFAULTS && m.outcomes == []
    ensures var (e, m1) := Write(m, Setting(AlarmLow(Temperature)), 3800);
            && e == NoException
            && m1.config.params == DEFAULTS.(temperature := DefaultBand(Temperature).(low := 3800))
            && Write(m1, Setting(AlarmHigh(Temperature)), 3850) == (IllegalValue, m1)
    ensures Validates(Setting(AlarmLow(Temperature)), 3800, m.config.params)
    ensures Validates(Setting(AlarmHigh(Temperature)), 3850, m.config.params)
  {
  }

  /**
   * The stale order check of phase 1 lets through a block that phase 2 then applies half of:
   * the low alarm is raised, the high alarm refused.
   */
  lemma BlocksAreNotAtomic(m: Registers)
    requires m.config.params == DEFAULTS && m.outcomes == []
    ensures var (e, after) := WriteMultiple(m, 0x0100, [3800, 3850]);
            e == IllegalValue && after.config.params == DEFAULTS.(temperature := DefaultBand(Temperature).(low := 3800))
  {
    hide Lookup, Write, Validates, SLOTS;
    HalfOfABlock(m);
    AlarmSlots();
    var values, p := [3800, 3850], m.config.params;
    assert Nth(0x0100, 0) == 0x0100 && Nth(0x0100, 1) == 0x0101;
    assert CommandRegs(0x0100, 2) == 0 by { assert CommandRegs(0x0100, 1) == 0; }
    assert !TouchesTime(0x0100, 2);
    assert Phase1(0x0100, values, 2, p) == NoException;
    assert Phase1(0x0100, values, 1, p) == NoException;
    PassedIsMapped(0x0100, values, 0, p);
    var m1 := Write(m, Setting(AlarmLow(Temperature)), 3800).1;
    assert Phase2(m1, 0x0100, values, 1) == (IllegalValue, m1);
  }

  lemma AlarmSlots()
    ensures Lookup(0x0100) == Some(Slot(0x0100, true, Setting(AlarmLow(Temperature))))
    ensures Lookup(0x0101) == Some(Slot(0x0101, true, Setting(AlarmHigh(Temperature))))
  {
    hide Lookup;
    EverySlotIsFound(23);
    EverySlotIsFound(24);
  }
}
