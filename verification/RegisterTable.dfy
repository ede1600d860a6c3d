/**
 * The Modbus register table of the field device: which address is served by which handler,
 * how a handler judges and applies a write, and what it reads.
 */
module RegisterTable {
  import opened Bytes
  import opened SensorRegisters
  import opened ConfigParams

  datatype Exception = NoException | IllegalAddress | IllegalValue

  /** What a handler serves. */
  datatype Cell =
    | Fixed(x: U16) | VersionMajor | VersionMinor | VersionPatch
    | TemperatureReading | HumidityReading | PressureReading
    | DeviceState | Flags | UptimeHi | UptimeLo | RxOkHi | RxOkLo | CrcErrHi | CrcErrLo | SensorErrHi | SensorErrLo
    | Setting(id: ParamId) | LcdBrightness | LcdTimeout
    | AckAlarm | ResetMetrics | SoftRestart | TimeHi | TimeLo

  datatype Slot = Slot(addr: U16, writable: bool, cell: Cell)

  const SLOTS: seq<Slot> := [
    Slot(0x0000, false, Fixed(1)), Slot(0x0001, false, Fixed(0)), Slot(0x0002, false, Fixed(0)), Slot(0x0003, false, Fixed(1)),
    Slot(0x0004, false, VersionMajor), Slot(0x0005, false, VersionMinor), Slot(0x0006, false, VersionPatch),
    Slot(0x0007, false, Fixed(0x1A45)),
    Slot(0x0010, false, TemperatureReading), Slot(0x0011, false, HumidityReading), Slot(0x0012, false, PressureReading),
    Slot(0x0030, false, DeviceState), Slot(0x0031, false, Flags),
    Slot(0x0032, false, UptimeHi), Slot(0x0033, false, UptimeLo),
    Slot(0x0034, false, RxOkHi), Slot(0x0035, false, RxOkLo), Slot(0x0036, false, CrcErrHi), Slot(0x0037, false, CrcErrLo),
    Slot(0x0038, false, Fixed(0)), Slot(0x0039, false, Fixed(0)),
    Slot(0x003A, false, SensorErrHi), Slot(0x003B, false, SensorErrLo),
    Slot(0x0100, true, Setting(AlarmLow(Temperature))), Slot(0x0101, true, Setting(AlarmHigh(Temperature))),
    Slot(0x0102, true, Setting(Hysteresis(Temperature))),
    Slot(0x0110, true, Setting(AlarmLow(Humidity))), Slot(0x0111, true, Setting(AlarmHigh(Humidity))),
    Slot(0x0112, true, Setting(Hysteresis(Humidity))),
    Slot(0x0120, true, Setting(AlarmLow(Pressure))), Slot(0x0121, true, Setting(AlarmHigh(Pressure))),
    Slot(0x0122, true, Setting(Hysteresis(Pressure))),
    Slot(0x0130, true, Setting(PollInterval)),
    Slot(0x0140, true, LcdBrightness), Slot(0x0141, true, LcdTimeout),
    Slot(0x0150, true, Setting(SlaveAddr)),
    Slot(0x0200, true, AckAlarm), Slot(0x0201, true, ResetMetrics), Slot(0x0202, true, SoftRestart),
    Slot(0x0210, true, TimeHi), Slot(0x0211, true, TimeLo)
  ]

  /** The linear scan, from entry i on. */
  function LookupFrom(addr: U16, i: nat): Option<Slot>
    requires i <= |SLOTS|
    decreases |SLOTS| - i
  {
    if i == |SLOTS| then None else if SLOTS[i].addr == addr then Some(SLOTS[i]) else LookupFrom(addr, i + 1)
  }

  function Lookup(addr: U16): Option<Slot> {
    LookupFrom(addr, 0)
  }

  method FindSlot(addr: U16) returns (slot: Option<Slot>)
    ensures slot == Lookup(addr)
  {
    var i := 0;
    while i < |SLOTS|
      invariant 0 <= i <= |SLOTS|
      invariant LookupFrom(addr, i) == Lookup(addr)
    {
      if SLOTS[i].addr == addr {
        return Some(SLOTS[i]);
      }
      i := i + 1;
    }
    return None;
  }

  /** The order the table is checked for at start. */
  lemma Neighbours(i: nat)
    requires i + 1 < |SLOTS|
    ensures SLOTS[i].addr < SLOTS[i + 1].addr
  {
  }

  lemma {:induction false} TableAscends(i: nat, j: nat)
    requires i < j < |SLOTS|
    ensures SLOTS[i].addr < SLOTS[j].addr
    decreases j
  {
    hide SLOTS;
    if i + 1 < j {
      TableAscends(i, j - 1);
    }
    Neighbours(j - 1);
  }

  lemma {:induction false} ScanFinds(i: nat, j: nat)
    requires i <= j < |SLOTS|
    ensures LookupFrom(SLOTS[j].addr, i) == Some(SLOTS[j])
    decreases j - i
  {
    hide SLOTS;
    if i < j {
      TableAscends(i, j);
      ScanFinds(i + 1, j);
    }
  }

  /** Every entry of the table is found at its address. */
  lemma EverySlotIsFound(j: nat)
    requires j < |SLOTS|
    ensures Lookup(SLOTS[j].addr) == Some(SLOTS[j])
  {
    ScanFinds(0, j);
  }

  /** The registers of the time pair and of the sensors. */
  lemma NamedSlots()
    ensures Lookup(0x0210) == Some(Slot(0x0210, true, TimeHi)) && Lookup(0x0211) == Some(Slot(0x0211, true, TimeLo))
    ensures Lookup(0x0010) == Some(Slot(0x0010, false, TemperatureReading))
    ensures Lookup(0x0011) == Some(Slot(0x0011, false, HumidityReading))
    ensures Lookup(0x0012) == Some(Slot(0x0012, false, PressureReading))
  {
    hide Lookup;
    EverySlotIsFound(8);
    EverySlotIsFound(9);
    EverySlotIsFound(10);
    EverySlotIsFound(39);
    EverySlotIsFound(40);
  }
}
