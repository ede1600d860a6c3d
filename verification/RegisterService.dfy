/** The register map as the object that serves the bus, proved against the functions of the map. */
module RegisterService {
  import opened Bytes
  import opened SensorRegisters
  import opened RegisterTable
  import opened RegisterMap
  import opened RegisterRuns
  import ConfigParams
  import ConfigService

  class Service {
    var initialised: bool
    const config: ConfigService.Service
    var ack: U16
    var reset: U16
    var restart: U16
    var timeHi: U16
    var timeLo: U16
    var validFrames: U32
    var crcErrors: U32
    var effects: seq<Effect>
    var outcomes: seq<bool>

    /** The configuration service starts before the register map does. */
    ghost predicate Valid()
      reads this, config
    {
      config.initialised
    }

    function Now(): Registers
      reads this, config
    {
      Registers(config.Now(), ack, reset, restart, timeHi, timeLo, validFrames, crcErrors, effects, outcomes)
    }

    constructor (c: ConfigService.Service, answers: seq<bool>)
      requires c.initialised
      ensures Valid() && initialised && config == c
      ensures Now() == Registers(c.Now(), 0, 0, 0, 0, 0, 0, 0, [], answers)
    {
      initialised, config := true, c;
      ack, reset, restart, timeHi, timeLo, validFrames, crcErrors := 0, 0, 0, 0, 0, 0, 0;
      effects, outcomes := [], answers;
    }

    /** The next answer of the store or the time provider. */
    method TakeOutcome() returns (good: bool)
      requires Valid()
      modifies this
      ensures Valid() && initialised == old(initialised)
      ensures good == Outcome(old(Now())) && Now() == Spend(old(Now()))
    {
      good := true;
      if outcomes != [] {
        good, outcomes := outcomes[0], outcomes[1..];
      }
    }

    /** The write handler of a cell. */
    method WriteCell(cell: Cell, v: U16) returns (e: Exception)
      requires Valid()
      modifies this, config
      ensures Valid() && initialised == old(initialised)
      ensures (e, Now()) == Write(old(Now()), cell, v)
    {
      hide ConfigParams.Valid, ConfigParams.Applied, Taken, WriteSetting;
      match cell {
        case Setting(id) =>
          e := WriteConfig(id, Taken(id, v));
        case LcdBrightness =>
          e := NoException;
        case LcdTimeout =>
          e := NoException;
        case AckAlarm =>
          ack := v;
          if v != 1 {
            return IllegalValue;
          }
          effects := effects + [AcknowledgeAll];
          e := NoException;
        case ResetMetrics =>
          reset := v;
          if v != 1 {
            return IllegalValue;
          }
          validFrames, crcErrors := 0, 0;
          effects := effects + [ClearMetrics];
          e := NoException;
        case SoftRestart =>
          restart := v;
          if v != 0xA5A5 {
            return IllegalValue;
          }
          effects := effects + [Restart];
          e := NoException;
        case _ =>
          e := IllegalValue;
      }
    }

    method WriteConfig(id: ConfigParams.ParamId, x: int) returns (e: Exception)
      requires Valid()
      modifies this, config
      ensures Valid() && initialised == old(initialised)
      ensures (e, Now()) == WriteSetting(old(Now()), id, x)
    {
      hide ConfigParams.Valid, ConfigParams.Applied;
      var saves := outcomes == [] || outcomes[0];
      var rc := config.SetParameter(id, Some(x), saves);
      if rc != ConfigService.Invalid {
        var _ := TakeOutcome();
      }
      if rc != ConfigService.Success {
        return IllegalValue;
      }
      if id.SlaveAddr? {
        effects := effects + [SetAddress(x)];
      }
      return NoException;
    }

    method ApplySetTime(hi: U16, lo: U16) returns (e: Exception)
      requires Valid()
      modifies this
      ensures Valid() && initialised == old(initialised)
      ensures (e, Now()) == ApplyTime(old(Now()), hi, lo)
    {
      timeHi, timeLo := hi, lo;
      var epoch := hi * 0x1_0000 + lo;
      if epoch < MIN_EPOCH || epoch > MAX_EPOCH {
        return IllegalValue;
      }
      var accepted := TakeOutcome();
      effects := effects + [SetTime(epoch)];
      e := if accepted then NoException else IllegalValue;
    }

    /** Function code 06. */
    method WriteSingleReg(addr: U16, v: U16) returns (e: Exception)
      requires Valid()
      modifies this, config
      ensures Valid() && initialised == old(initialised)
      ensures (e, Now()) == if initialised then WriteSingle(old(Now()), addr, v) else (IllegalValue, old(Now()))
    {
      hide Lookup, Validates, Write;
      if !initialised {
        return IllegalValue;
      }
      var slot := FindSlot(addr);
      if slot == None || !slot.value.writable {
        return IllegalAddress;
      }
      if !Validates(slot.value.cell, v, config.params) {
        return IllegalValue;
      }
      e := WriteCell(slot.value.cell, v);
    }

    /** Function code 16: the command block, then validate all, then apply all. */
    method WriteMultipleRegs(addr: U16, values: seq<U16>) returns (e: Exception)
      requires Valid()
      modifies this, config
      ensures Valid() && initialised == old(initialised)
      ensures (e, Now()) == if initialised then WriteMultiple(old(Now()), addr, values) else (IllegalValue, old(Now()))
    {
      hide Lookup, Write, Validates, Nth, Phase1, Phase2;
      if !initialised || values == [] || |values| > MAX_WRITE {
        return IllegalValue;
      }
      var pass := CheckCommands(addr, |values|);
      if addr == TIME_HI && |values| == 2 {
        e := ApplySetTime(values[0], values[1]);
        return;
      }
      if !pass {
        return IllegalValue;
      }
      e := ValidateAll(addr, values);
      if e != NoException {
        return;
      }
      PassedIsMapped(addr, values, 0, config.params);
      e := ApplyAll(addr, values);
    }

    /** The scan for command registers and halves of the time pair. */
    static method CheckCommands(addr: U16, count: nat) returns (pass: bool)
      ensures pass == CommandsPass(addr, count)
    {
      var commands, touches := 0, false;
      for i := 0 to count
        invariant commands == CommandRegs(addr, i)
        invariant touches == TouchesTime(addr, i)
      {
        var a := Nth(addr, i);
        if 0x0200 <= a <= 0x02FF {
          commands := commands + 1;
        }
        if IsTime(a) {
          touches := true;
        }
      }
      pass := !touches && commands <= 1;
    }

    /** Phase 1: the first objection, without side effects. */
    method ValidateAll(addr: U16, values: seq<U16>) returns (e: Exception)
      requires Valid()
      ensures e == Phase1(addr, values, 0, config.params)
    {
      hide Lookup, Validates, Nth;
      for i := 0 to |values|
        invariant Phase1(addr, values, i, config.params) == Phase1(addr, values, 0, config.params)
      {
        var slot := FindSlot(Nth(addr, i));
        if slot == None || !slot.value.writable {
          return IllegalAddress;
        }
        if !Validates(slot.value.cell, values[i], config.params) {
          return IllegalValue;
        }
      }
      return NoException;
    }

    /** Phase 2: write until the first failure. */
    method ApplyAll(addr: U16, values: seq<U16>) returns (e: Exception)
      requires Valid() && forall k :: 0 <= k < |values| ==> Mapped(Nth(addr, k))
      modifies this, config
      ensures Valid() && initialised == old(initialised)
      ensures (e, Now()) == Phase2(old(Now()), addr, values, 0)
    {
      hide Lookup, Write, Nth;
      for i := 0 to |values|
        invariant Valid() && initialised == old(initialised)
        invariant Phase2(Now(), addr, values, i) == Phase2(old(Now()), addr, values, 0)
      {
        assert Mapped(Nth(addr, i));
        var slot := FindSlot(Nth(addr, i));
        e := WriteCell(slot.value.cell, values[i]);
        if e != NoException {
          return;
        }
      }
      e := NoException;
    }

    /** Function code 04, and 03 with writable set. */
    method ReadRegisters(src: Inputs, addr: U16, count: U16, writable: bool) returns (a: Answer)
      requires Valid()
      ensures a == if initialised then ReadRegs(Now(), src, addr, count, writable) else Refused(IllegalValue)
    {
      hide Lookup, Nth, Read, ReadFrom, Prepend;
      if !initialised || count == 0 || count > MAX_READ {
        return Refused(IllegalValue);
      }
      var m := Now();
      var out: seq<U16> := [];
      ReadStarts(ReadFrom(m, src, addr, count, writable, 0));
      for i := 0 to count
        invariant Prepend(out, ReadFrom(m, src, addr, count, writable, i)) == ReadFrom(m, src, addr, count, writable, 0)
      {
        ReadStep(m, src, addr, count, writable, i, out);
        var slot := FindSlot(Nth(addr, i));
        if slot == None || slot.value.writable != writable {
          return Refused(IllegalAddress);
        }
        out := out + [Read(m, src, slot.value.cell)];
      }
      ReadEnds(m, src, addr, count, writable, out);
      return Values(out);
    }
  }

  /** Registers read so far in front of an answer for the rest. */
  ghost function Prepend(out: seq<U16>, a: Answer): Answer {
    if a.Refused? then a else Values(out + a.values)
  }

  lemma ReadStarts(a: Answer)
    ensures Prepend([], a) == a
  {
    if a.Values? {
      assert [] + a.values == a.values;
    }
  }

  lemma ReadStep(m: Registers, src: Inputs, addr: U16, count: nat, writable: bool, i: nat, out: seq<U16>)
    requires i < count
    ensures var slot, here := Lookup(Nth(addr, i)), Prepend(out, ReadFrom(m, src, addr, count, writable, i));
            if slot == None || slot.value.writable != writable then here == Refused(IllegalAddress)
            else Prepend(out + [Read(m, src, slot.value.cell)], ReadFrom(m, src, addr, count, writable, i + 1)) == here
  {
    hide Lookup, Nth, Read;
    var slot, rest := Lookup(Nth(addr, i)), ReadFrom(m, src, addr, count, writable, i + 1);
    if slot.Some? && rest.Values? {
      var x := Read(m, src, slot.value.cell);
      assert out + ([x] + rest.values) == out + [x] + rest.values;
    }
  }

  lemma ReadEnds(m: Registers, src: Inputs, addr: U16, count: nat, writable: bool, out: seq<U16>)
    ensures Prepend(out, ReadFrom(m, src, addr, count, writable, count)) == Values(out)
  {
    assert out + [] == out;
  }
}
