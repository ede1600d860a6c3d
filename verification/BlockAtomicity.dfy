/**
 * When a block write is all or nothing. Phase 1 judges every register against the configuration
 * before the block, phase 2 applies them one after the other; a block is torn when phase 2 stops
 * between two changes. The table only has short runs of writable registers, so the condition
 * comes down to the values, the band they belong to and the answers of the store.
 */
module BlockAtomicity {
  import opened Bytes
  import opened SensorRegisters
  import opened ConfigParams
  import opened RegisterTable
  import opened RegisterMap
  import opened RegisterRuns
  import ConfigService

  /* ---- all or nothing ---- */

  function CellAt(a: U16): Cell
    requires Mapped(a)
  {
    Lookup(a).value.cell
  }

  /** The register has this value in force; the display placeholders hold nothing. */
  predicate Holds(m: Registers, cell: Cell, v: U16) {
    match cell
    case Setting(id) => SettingOf(m.config.params, id) == Taken(id, v)
    case AckAlarm => m.ack == v
    case ResetMetrics => m.reset == v
    case SoftRestart => m.restart == v
    case _ => true
  }

  /** No register of the map differs. */
  predicate SameRegisters(m: Registers, m1: Registers) {
    m1.config.params == m.config.params && m1.ack == m.ack && m1.reset == m.reset && m1.restart == m.restart
  }

  /** After the block all its values are in force, or no register has changed. */
  ghost predicate AllOrNothing(m: Registers, addr: U16, values: seq<U16>) {
    var m1 := WriteMultiple(m, addr, values).1;
    SameRegisters(m, m1) ||
    forall i :: 0 <= i < |values| ==> Mapped(Nth(addr, i)) && Holds(m1, CellAt(Nth(addr, i)), values[i])
  }

  /* ---- which blocks there are ---- */

  function Base(q: Quantity): U16 {
    match q case Temperature => 0x0100 case Humidity => 0x0110 case Pressure => 0x0120
  }

  /** The writable registers. */
  function WritableCell(a: U16): Option<Cell> {
    if a == 0x0100 then Some(Setting(AlarmLow(Temperature))) else if a == 0x0101 then Some(Setting(AlarmHigh(Temperature)))
    else if a == 0x0102 then Some(Setting(Hysteresis(Temperature)))
    else if a == 0x0110 then Some(Setting(AlarmLow(Humidity))) else if a == 0x0111 then Some(Setting(AlarmHigh(Humidity)))
    else if a == 0x0112 then Some(Setting(Hysteresis(Humidity)))
    else if a == 0x0120 then Some(Setting(AlarmLow(Pressure))) else if a == 0x0121 then Some(Setting(AlarmHigh(Pressure)))
    else if a == 0x0122 then Some(Setting(Hysteresis(Pressure)))
    else if a == 0x0130 then Some(Setting(PollInterval))
    else if a == 0x0140 then Some(LcdBrightness) else if a == 0x0141 then Some(LcdTimeout)
    else if a == 0x0150 then Some(Setting(SlaveAddr))
    else if a == 0x0200 then Some(AckAlarm) else if a == 0x0201 then Some(ResetMetrics) else if a == 0x0202 then Some(SoftRestart)
    else if a == 0x0210 then Some(TimeHi) else if a == 0x0211 then Some(TimeLo)
    else None
  }

  lemma EntryIsWritableCell(j: nat)
    requires j < |SLOTS| && SLOTS[j].writable
    ensures WritableCell(SLOTS[j].addr) == Some(SLOTS[j].cell)
  {
  }

  lemma {:induction false} FoundHasAddress(a: U16, i: nat)
    requires i <= |SLOTS| && LookupFrom(a, i).Some?
    ensures LookupFrom(a, i).value.addr == a
    decreases |SLOTS| - i
  {
    hide SLOTS;
    if i < |SLOTS| && SLOTS[i].addr != a {
      FoundHasAddress(a, i + 1);
    }
  }

  lemma MappedIsWritableCell(a: U16)
    requires Mapped(a)
    ensures WritableCell(a) == Some(CellAt(a))
  {
    hide SLOTS, WritableCell;
    LookupIsEntry(a, 0);
    FoundHasAddress(a, 0);
    var j :| 0 <= j < |SLOTS| && Lookup(a) == Some(SLOTS[j]);
    EntryIsWritableCell(j);
  }

  lemma {:induction false} MoreCommands(addr: U16, n: nat)
    requires n >= 2
    ensures CommandRegs(addr, 2) <= CommandRegs(addr, n)
  {
    if n > 2 {
      MoreCommands(addr, n - 1);
    }
  }

  /** The blocks past the command check: one register, the display pair, or part of one triple of thresholds. */
  predicate IsTriplePart(q: Quantity, addr: U16, n: nat) {
    (n == 2 && (addr == Base(q) || addr == Base(q) + 1)) || (n == 3 && addr == Base(q))
  }

  lemma BlocksAreShort(addr: U16, n: nat)
    requires n >= 1 && CommandsPass(addr, n) && forall k :: 0 <= k < n ==> Mapped(Nth(addr, k))
    ensures n == 1 || (n == 2 && addr == 0x0140) || exists q :: IsTriplePart(q, addr, n)
  {
    hide Lookup, Mapped;
    assert Nth(addr, 0) == addr;
    MappedIsWritableCell(addr);
    if n >= 2 {
      MappedIsWritableCell(Nth(addr, 1));
      MoreCommands(addr, n);
      assert CommandRegs(addr, 2) == CommandRegs(addr, 1) + if 0x0200 <= Nth(addr, 1) <= 0x02FF then 1 else 0;
      assert CommandRegs(addr, 1) == CommandRegs(addr, 0) + if 0x0200 <= addr <= 0x02FF then 1 else 0;
      if n >= 3 {
        MappedIsWritableCell(Nth(addr, 2));
      }
      if n >= 4 {
        MappedIsWritableCell(Nth(addr, 3));
      }
      FitTriple(addr, n);
    }
  }

  /** Neighbouring writable registers outside the command block. */
  lemma FitTriple(addr: U16, n: nat)
    requires n >= 2 && WritableCell(addr).Some? && WritableCell(Nth(addr, 1)).Some?
    requires !(0x0200 <= addr <= 0x02FF && 0x0200 <= Nth(addr, 1) <= 0x02FF)
    requires n >= 3 ==> WritableCell(Nth(addr, 2)).Some?
    requires n >= 4 ==> WritableCell(Nth(addr, 3)).Some?
    ensures (n == 2 && addr == 0x0140) || exists q :: IsTriplePart(q, addr, n)
  {
    assert addr == 0x0140 || addr == 0x0100 || addr == 0x0101 || addr == 0x0110 || addr == 0x0111 || addr == 0x0120 || addr == 0x0121;
    if addr == 0x0100 || addr == 0x0101 {
      assert IsTriplePart(Temperature, addr, n);
    } else if addr == 0x0110 || addr == 0x0111 {
      assert IsTriplePart(Humidity, addr, n);
    } else if addr == 0x0120 || addr == 0x0121 {
      assert IsTriplePart(Pressure, addr, n);
    }
  }

  /* ---- the conditions ---- */

  /** The store's answer to the k-th save from now. */
  predicate Saves(m: Registers, k: nat) {
    k >= |m.outcomes| || m.outcomes[k]
  }

  predicate LowFits(b: Band, x: int) {
    b.min <= x && x + b.hyst < b.high
  }

  predicate HighFits(b: Band, low: int, x: int) {
    b.min <= x <= b.max && x > low + b.hyst
  }

  predicate HystFits(distance: int, x: int) {
    0 < x && 2 * x < distance
  }

  /** Low and high alarm: the first is refused, one of them is in force already, or the second fits the first and its save succeeds. */
  predicate LowHighAtomic(m: Registers, b: Band, x0: int, x1: int) {
    LowFits(b, x0) ==> x0 == b.low || x1 == b.high || (Saves(m, 0) && HighFits(b, x0, x1))
  }

  predicate HighHystAtomic(m: Registers, b: Band, x0: int, x1: int) {
    HighFits(b, b.low, x0) ==> x0 == b.high || x1 == b.hyst || (Saves(m, 0) && HystFits(x0 - b.low, x1))
  }

  /** All three: where the block stops, either nothing before differs or everything after is in force already. */
  predicate TripleAtomic(m: Registers, b: Band, x0: int, x1: int, x2: int) {
    LowFits(b, x0) ==>
      if !Saves(m, 0) || !HighFits(b, x0, x1) then x0 == b.low || (x1 == b.high && x2 == b.hyst)
      else (Saves(m, 1) && HystFits(x1 - x0, x2)) || x2 == b.hyst || (x0 == b.low && x1 == b.high)
  }

  /** The condition on the block at an address. */
  predicate Atomic(m: Registers, addr: U16, values: seq<U16>) {
    forall q :: IsTriplePart(q, addr, |values|) ==>
      var b := m.config.params.Of(q);
      if |values| == 3 then TripleAtomic(m, b, Taken(AlarmLow(q), values[0]), Taken(AlarmHigh(q), values[1]), Taken(Hysteresis(q), values[2]))
      else if addr == Base(q) then LowHighAtomic(m, b, Taken(AlarmLow(q), values[0]), Taken(AlarmHigh(q), values[1]))
      else HighHystAtomic(m, b, Taken(AlarmHigh(q), values[0]), Taken(Hysteresis(q), values[1]))
  }

  /* ---- writing settings in turn ---- */

  lemma SettingStep(m: Registers, id: ParamId, x: int)
    ensures var (e, m1) := WriteSetting(m, id, x);
            && m1.config.params == (if Valid(id, x, m.config.params) then Applied(m.config.params, id, x) else m.config.params)
            && (e == NoException <==> Valid(id, x, m.config.params) && Saves(m, 0))
            && (e == NoException ==> forall k: nat :: Saves(m1, k) == Saves(m, k + 1))
            && m1.ack == m.ack && m1.reset == m.reset && m1.restart == m.restart
  {
    hide Valid, Applied;
  }

  /** Settings in turn, until one fails. */
  function InTurn(m: Registers, ids: seq<ParamId>, xs: seq<int>, i: nat): Registers
    requires |ids| == |xs| && i <= |xs|
    decreases |xs| - i
  {
    if i == |xs| then m else
    var (e, m1) := WriteSetting(m, ids[i], xs[i]);
    if e != NoException then m1 else InTurn(m1, ids, xs, i + 1)
  }

  /** Phase 2 over settings. */
  lemma {:induction false} Phase2InTurn(m: Registers, addr: U16, values: seq<U16>, ids: seq<ParamId>, xs: seq<int>, i: nat)
    requires |ids| == |xs| == |values| && i <= |values|
    requires forall k :: 0 <= k < |values| ==>
               Mapped(Nth(addr, k)) && CellAt(Nth(addr, k)) == Setting(ids[k]) && xs[k] == Taken(ids[k], values[k])
    ensures Phase2(m, addr, values, i).1 == InTurn(m, ids, xs, i)
    decreases |values| - i
  {
    hide Lookup, Mapped, Nth, WriteSetting, Taken;
    if i < |values| {
      assert Mapped(Nth(addr, i));
      var (e, m1) := WriteSetting(m, ids[i], xs[i]);
      if e == NoException {
        Phase2InTurn(m1, addr, values, ids, xs, i + 1);
      }
    }
  }

  lemma LastInTurn(m: Registers, ids: seq<ParamId>, xs: seq<int>, i: nat)
    requires |ids| == |xs| == i + 1
    ensures InTurn(m, ids, xs, i) == WriteSetting(m, ids[i], xs[i]).1
  {
    hide WriteSetting;
    assert InTurn(WriteSetting(m, ids[i], xs[i]).1, ids, xs, i + 1) == WriteSetting(m, ids[i], xs[i]).1;
  }

  lemma TwoInTurn(m: Registers, ids: seq<ParamId>, xs: seq<int>)
    requires |ids| == |xs| == 2
    ensures var (e, m1) := WriteSetting(m, ids[0], xs[0]);
            InTurn(m, ids, xs, 0) == if e != NoException then m1 else WriteSetting(m1, ids[1], xs[1]).1
  {
    hide WriteSetting;
    LastInTurn(WriteSetting(m, ids[0], xs[0]).1, ids, xs, 1);
  }

  lemma ThreeInTurn(m: Registers, ids: seq<ParamId>, xs: seq<int>)
    requires |ids| == |xs| == 3
    ensures var (e, m1) := WriteSetting(m, ids[0], xs[0]);
            var (e1, m2) := WriteSetting(m1, ids[1], xs[1]);
            InTurn(m, ids, xs, 0) ==
            if e != NoException then m1 else if e1 != NoException then m2 else WriteSetting(m2, ids[2], xs[2]).1
  {
    hide WriteSetting;
    var (e, m1) := WriteSetting(m, ids[0], xs[0]);
    var (e1, m2) := WriteSetting(m1, ids[1], xs[1]);
    LastInTurn(m2, ids, xs, 2);
    assert InTurn(m1, ids, xs, 1) == if e1 != NoException then m2 else InTurn(m2, ids, xs, 2);
  }

  /* ---- torn or not ---- */

  /** The thresholds of a quantity have these values, or none of the map's registers differs. */
  predicate Settled(m: Registers, m1: Registers, ids: seq<ParamId>, xs: seq<int>)
    requires |ids| == |xs|
  {
    SameRegisters(m, m1) || forall i :: 0 <= i < |ids| ==> SettingOf(m1.config.params, ids[i]) == xs[i]
  }

  lemma LowHighSettles(m: Registers, q: Quantity, x0: int, x1: int)
    requires ConfigOk(m)
    ensures Settled(m, InTurn(m, [AlarmLow(q), AlarmHigh(q)], [x0, x1], 0), [AlarmLow(q), AlarmHigh(q)], [x0, x1]) <==>
            LowHighAtomic(m, m.config.params.Of(q), x0, x1)
  {
    hide WriteSetting, Saves, InTurn;
    var ids, xs := [AlarmLow(q), AlarmHigh(q)], [x0, x1];
    TwoInTurn(m, ids, xs);
    SettingStep(m, ids[0], x0);
    var m1 := WriteSetting(m, ids[0], x0).1;
    SettingStep(m1, ids[1], x1);
  }

  lemma HighHystSettles(m: Registers, q: Quantity, x0: int, x1: int)
    requires ConfigOk(m) && Fits(q, x0)
    ensures Settled(m, InTurn(m, [AlarmHigh(q), Hysteresis(q)], [x0, x1], 0), [AlarmHigh(q), Hysteresis(q)], [x0, x1]) <==>
            HighHystAtomic(m, m.config.params.Of(q), x0, x1)
  {
    hide WriteSetting, Saves, InTurn;
    var ids, xs := [AlarmHigh(q), Hysteresis(q)], [x0, x1];
    TwoInTurn(m, ids, xs);
    SettingStep(m, ids[0], x0);
    var m1 := WriteSetting(m, ids[0], x0).1;
    SettingStep(m1, ids[1], x1);
    assert BandSafe(q, m.config.params.Of(q)) && BandFits(q, m.config.params.Of(q));
  }

  lemma TripleSettles(m: Registers, q: Quantity, x0: int, x1: int, x2: int)
    requires ConfigOk(m) && Fits(q, x0) && Fits(q, x1)
    ensures Settled(m, InTurn(m, [AlarmLow(q), AlarmHigh(q), Hysteresis(q)], [x0, x1, x2], 0),
                    [AlarmLow(q), AlarmHigh(q), Hysteresis(q)], [x0, x1, x2]) <==>
            TripleAtomic(m, m.config.params.Of(q), x0, x1, x2)
  {
    hide WriteSetting, Saves, InTurn;
    var ids, xs := [AlarmLow(q), AlarmHigh(q), Hysteresis(q)], [x0, x1, x2];
    ThreeInTurn(m, ids, xs);
    SettingStep(m, ids[0], x0);
    var m1 := WriteSetting(m, ids[0], x0).1;
    SettingStep(m1, ids[1], x1);
    var m2 := WriteSetting(m1, ids[1], x1).1;
    SettingStep(m2, ids[2], x2);
    assert BandSafe(q, m.config.params.Of(q)) && BandFits(q, m.config.params.Of(q));
  }

  /* ---- the theorem ---- */

  /** A block past the command check and phase 1. */
  predicate Admitted(m: Registers, addr: U16, values: seq<U16>) {
    && values != [] && |values| <= MAX_WRITE && CommandsPass(addr, |values|)
    && Phase1(addr, values, 0, m.config.params) == NoException
  }

  lemma AdmittedIsPhase2(m: Registers, addr: U16, values: seq<U16>)
    requires Admitted(m, addr, values)
    ensures forall k :: 0 <= k < |values| ==> Mapped(Nth(addr, k))
    ensures WriteMultiple(m, addr, values) == Phase2(m, addr, values, 0)
  {
    hide Phase2, Lookup, Judge;
    PassedIsMapped(addr, values, 0, m.config.params);
    TimeFails(addr, |values|);
  }

  lemma TimeFails(addr: U16, n: nat)
    requires n >= 1
    ensures IsTime(addr) ==> !CommandsPass(addr, n)
  {
    assert Nth(addr, 0) == addr;
  }

  lemma OneWriteIsAtomic(m: Registers, cell: Cell, v: U16)
    requires cell.Setting? ==> !cell.id.Unknown? && !cell.id.RangeMin? && !cell.id.RangeMax?
    ensures SameRegisters(m, Write(m, cell, v).1) || Holds(Write(m, cell, v).1, cell, v)
  {
    hide Valid, Taken;
  }

  lemma OneRegisterIsAtomic(m: Registers, addr: U16, values: seq<U16>)
    requires Admitted(m, addr, values) && |values| == 1
    ensures AllOrNothing(m, addr, values)
  {
    hide Lookup, Write, Judge, CommandsPass, Holds, SameRegisters;
    AdmittedIsPhase2(m, addr, values);
    assert Nth(addr, 0) == addr;
    MappedIsWritableCell(addr);
    var cell := CellAt(addr);
    assert Phase2(Write(m, cell, values[0]).1, addr, values, 1) == (NoException, Write(m, cell, values[0]).1);
    OneWriteIsAtomic(m, cell, values[0]);
  }

  lemma DisplayIsAtomic(m: Registers, addr: U16, values: seq<U16>)
    requires Admitted(m, addr, values) && |values| == 2 && addr == 0x0140
    ensures AllOrNothing(m, addr, values)
  {
    hide Lookup, Judge, CommandsPass;
    AdmittedIsPhase2(m, addr, values);
    assert Nth(addr, 0) == 0x0140 && Nth(addr, 1) == 0x0141;
    MappedIsWritableCell(0x0140);
    MappedIsWritableCell(0x0141);
    assert Phase2(m, addr, values, 2) == (NoException, m);
    assert Phase2(m, addr, values, 1) == (NoException, m);
  }

  /** The thresholds a triple part writes. */
  function PartIds(q: Quantity, addr: U16, n: nat): seq<ParamId> {
    if n == 3 then [AlarmLow(q), AlarmHigh(q), Hysteresis(q)]
    else if addr == Base(q) then [AlarmLow(q), AlarmHigh(q)]
    else [AlarmHigh(q), Hysteresis(q)]
  }

  lemma PartCells(q: Quantity, addr: U16, n: nat, k: nat)
    requires IsTriplePart(q, addr, n) && k < n && Mapped(Nth(addr, k))
    ensures |PartIds(q, addr, n)| == n && CellAt(Nth(addr, k)) == Setting(PartIds(q, addr, n)[k])
  {
    hide Lookup;
    MappedIsWritableCell(Nth(addr, k));
  }

  lemma OneQuantity(q: Quantity, r: Quantity, addr: U16, n: nat)
    requires IsTriplePart(q, addr, n) && IsTriplePart(r, addr, n)
    ensures q == r
  {
  }

  lemma PartIsAtomicIff(m: Registers, q: Quantity, addr: U16, values: seq<U16>)
    requires ConfigOk(m) && Admitted(m, addr, values) && IsTriplePart(q, addr, |values|)
    ensures var ids := PartIds(q, addr, |values|);
            && |ids| == |values|
            && var xs := seq<int>(|ids|, k requires 0 <= k < |ids| => Taken(ids[k], values[k]));
               && (AllOrNothing(m, addr, values) <==> Settled(m, InTurn(m, ids, xs, 0), ids, xs))
  {
    hide Lookup, Judge, CommandsPass, InTurn, Taken, SettingOf, SameRegisters, Phase1, WriteMultiple, Mapped, Nth;
    var ids := PartIds(q, addr, |values|);
    var xs := seq<int>(|ids|, k requires 0 <= k < |ids| => Taken(ids[k], values[k]));
    AdmittedIsPhase2(m, addr, values);
    forall k | 0 <= k < |values| ensures CellAt(Nth(addr, k)) == Setting(ids[k]) {
      assert Mapped(Nth(addr, k));
      PartCells(q, addr, |values|, k);
    }
    Phase2InTurn(m, addr, values, ids, xs, 0);
    var m1 := InTurn(m, ids, xs, 0);
    assert (forall i :: 0 <= i < |values| ==> Mapped(Nth(addr, i)) && Holds(m1, CellAt(Nth(addr, i)), values[i])) <==>
           (forall i :: 0 <= i < |ids| ==> SettingOf(m1.config.params, ids[i]) == xs[i]) by {
      HeldIffSet(m1, addr, values, ids, xs);
    }
  }

  lemma HeldIffSet(m: Registers, addr: U16, values: seq<U16>, ids: seq<ParamId>, xs: seq<int>)
    requires |ids| == |xs| == |values|
    requires forall k :: 0 <= k < |values| ==>
               Mapped(Nth(addr, k)) && CellAt(Nth(addr, k)) == Setting(ids[k]) && xs[k] == Taken(ids[k], values[k])
    ensures (forall i :: 0 <= i < |values| ==> Mapped(Nth(addr, i)) && Holds(m, CellAt(Nth(addr, i)), values[i])) <==>
            (forall i :: 0 <= i < |ids| ==> SettingOf(m.config.params, ids[i]) == xs[i])
  {
    hide Lookup, Mapped, Nth, Taken, SettingOf;
    forall i | 0 <= i < |values|
      ensures Holds(m, CellAt(Nth(addr, i)), values[i]) <==> SettingOf(m.config.params, ids[i]) == xs[i]
    {
      assert Mapped(Nth(addr, i));
    }
  }

  lemma PartCondition(m: Registers, q: Quantity, addr: U16, values: seq<U16>)
    requires ConfigOk(m) && IsTriplePart(q, addr, |values|)
    ensures var ids := PartIds(q, addr, |values|);
            && |ids| == |values|
            && var xs := seq<int>(|ids|, k requires 0 <= k < |ids| => Taken(ids[k], values[k]));
               && (Settled(m, InTurn(m, ids, xs, 0), ids, xs) <==> Atomic(m, addr, values))
  {
    hide InTurn, Taken, Settled, LowHighAtomic, HighHystAtomic, TripleAtomic, ConfigOk, Fits;
    var ids := PartIds(q, addr, |values|);
    var xs := seq<int>(|ids|, k requires 0 <= k < |ids| => Taken(ids[k], values[k]));
    forall r | IsTriplePart(r, addr, |values|) ensures r == q {
      OneQuantity(q, r, addr, |values|);
    }
    TakenFitsThreshold(q, ids[0], values[0]);
    TakenFitsThreshold(q, ids[1], values[1]);
    if |values| == 3 {
      assert xs == [xs[0], xs[1], xs[2]];
      TripleSettles(m, q, xs[0], xs[1], xs[2]);
    } else if addr == Base(q) {
      assert xs == [xs[0], xs[1]];
      LowHighSettles(m, q, xs[0], xs[1]);
    } else {
      assert xs == [xs[0], xs[1]];
      HighHystSettles(m, q, xs[0], xs[1]);
    }
  }

  lemma TakenFitsThreshold(q: Quantity, id: ParamId, v: U16)
    requires id == AlarmLow(q) || id == AlarmHigh(q) || id == Hysteresis(q)
    ensures Fits(q, Taken(id, v))
  {
  }

  /**
   * Every block past the command check and phase 1 is all or nothing exactly under the condition
   * above: always, unless it is part of one triple of thresholds; and there as the values, the
   * band and the store's answers tell before the block.
   */
  lemma BlockIsAtomicIff(m: Registers, addr: U16, values: seq<U16>)
    requires ConfigOk(m) && Admitted(m, addr, values)
    ensures AllOrNothing(m, addr, values) <==> Atomic(m, addr, values)
  {
    hide AllOrNothing, Settled, InTurn, Phase1, CommandsPass, LowHighAtomic, HighHystAtomic, TripleAtomic, ConfigOk, Taken;
    AdmittedIsPhase2(m, addr, values);
    BlocksAreShort(addr, |values|);
    if |values| == 1 {
      OneRegisterIsAtomic(m, addr, values);
    } else if |values| == 2 && addr == 0x0140 {
      DisplayIsAtomic(m, addr, values);
    } else {
      var q :| IsTriplePart(q, addr, |values|);
      PartIsAtomicIff(m, q, addr, values);
      PartCondition(m, q, addr, values);
    }
  }
}
