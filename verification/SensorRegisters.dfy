/**
 * The sensor and alarm input registers (function code 04): 16-bit casts of the readings with
 * a sentinel for an invalid one, and the alarm flags. A bus master reads them back without
 * loss.
 */
module SensorRegisters {
  import opened Bytes
  import opened SensorService
  import opened AlarmService

  type U16 = x: int | 0 <= x < 0x1_0000

  const TEMPERATURE_INVALID: U16 := 0x8000
  const UNSIGNED_INVALID: U16 := 0xFFFF

  /** The casts to uint16_t: temperature by way of int16_t, the others by way of uint32_t. */
  function ToU16(x: int): U16 {
    x % 0x1_0000
  }

  function ToInt16(x: U16): int {
    if x < 0x8000 then x else x - 0x1_0000
  }

  function TemperatureRegister(r: Reading): U16 {
    if r.valid then ToU16(r.value) else TEMPERATURE_INVALID
  }

  /** Humidity and pressure. */
  function UnsignedRegister(r: Reading): U16 {
    if r.valid then ToU16(r.value) else UNSIGNED_INVALID
  }

  /** What a bus master makes of the registers. */
  function TemperatureOf(x: U16): Option<int> {
    if x == TEMPERATURE_INVALID then None else Some(ToInt16(x))
  }

  function UnsignedOf(x: U16): Option<int> {
    if x == UNSIGNED_INVALID then None else Some(x)
  }

  function Meant(r: Reading): Option<int> {
    if r.valid then Some(r.value) else None
  }

  /** Exactly the values the casts and sentinels leave room for come back. */
  lemma TemperatureLosslessIff(r: Reading)
    ensures TemperatureOf(TemperatureRegister(r)) == Meant(r) <==> !r.valid || -0x8000 < r.value < 0x8000
  {
    assert r.valid && -0x8000 <= r.value < 0 ==> ToU16(r.value) == r.value + 0x1_0000;
  }

  lemma UnsignedLosslessIff(r: Reading)
    ensures UnsignedOf(UnsignedRegister(r)) == Meant(r) <==> !r.valid || 0 <= r.value < 0xFFFF
  {
  }

  /**
   * In every reachable state of the sensor service a bus master recovers validity and value
   * of all three sensors from their registers.
   */
  lemma EveryReadingComesBack(failed: seq<bool>, samples: seq<Sample>)
    ensures var chs := Run(failed, samples);
            && TemperatureOf(TemperatureRegister(chs[TEMPERATURE].reading)) == Meant(chs[TEMPERATURE].reading)
            && UnsignedOf(UnsignedRegister(chs[HUMIDITY].reading)) == Meant(chs[HUMIDITY].reading)
            && UnsignedOf(UnsignedRegister(chs[PRESSURE].reading)) == Meant(chs[PRESSURE].reading)
  {
    hide Run, TemperatureOf, TemperatureRegister, UnsignedOf, UnsignedRegister;
    EveryRunIsOk(failed, samples);
    var chs := Run(failed, samples);
    assert ChannelOk(TEMPERATURE, chs[TEMPERATURE]) && ChannelOk(HUMIDITY, chs[HUMIDITY]) && ChannelOk(PRESSURE, chs[PRESSURE]);
    TemperatureLosslessIff(chs[TEMPERATURE].reading);
    UnsignedLosslessIff(chs[HUMIDITY].reading);
    UnsignedLosslessIff(chs[PRESSURE].reading);
  }

  /* ---- alarm flags ---- */

  function Flag(on: bool, weight: nat): nat {
    if on then weight else 0
  }

  /** The alarm flags; faulty: the snapshot could not be had, or one of the three sensors is invalid. */
  function AlarmFlags(t: AlarmState, h: AlarmState, p: AlarmState, faulty: bool): U16 {
    Flag(t == ActiveLow, 1) + Flag(t == ActiveHigh, 2) + Flag(h == ActiveLow, 4) + Flag(h == ActiveHigh, 8) +
    Flag(p == ActiveLow, 16) + Flag(p == ActiveHigh, 32) + Flag(faulty, 64)
  }

  /** The state in the two bits at a weight. */
  function StateIn(flags: nat, weight: nat): AlarmState
    requires weight > 0
  {
    var bits := flags / weight % 4;
    if bits == 1 then ActiveLow else if bits == 2 then ActiveHigh else Clear
  }

  /** The two bits of a state. */
  function StateBits(st: AlarmState): nat {
    match st case Clear => 0 case ActiveLow => 1 case ActiveHigh => 2
  }

  lemma LowDigit(a: nat, rest: nat)
    requires a < 4
    ensures (a + 4 * rest) % 4 == a && (a + 4 * rest) / 4 == rest
  {
  }

  lemma Digits(a: nat, b: nat, c: nat, d: nat)
    requires a < 4 && b < 4 && c < 4 && d < 2
    ensures var x := a + 4 * b + 16 * c + 64 * d; x % 4 == a && x / 4 % 4 == b && x / 16 % 4 == c && x / 64 % 2 == d
  {
    var x := a + 4 * b + 16 * c + 64 * d;
    LowDigit(a, b + 4 * c + 16 * d);
    LowDigit(b, c + 4 * d);
    LowDigit(c, d);
    assert x / 16 == x / 4 / 4 && x / 64 == x / 4 / 4 / 4;
  }

  lemma FlagDigits(t: AlarmState, h: AlarmState, p: AlarmState, faulty: bool)
    ensures AlarmFlags(t, h, p, faulty) ==
            StateBits(t) + 4 * StateBits(h) + 16 * StateBits(p) + 64 * (if faulty then 1 else 0)
  {
    assert forall st :: Flag(st == ActiveLow, 4) + Flag(st == ActiveHigh, 8) == 4 * StateBits(st);
    assert forall st :: Flag(st == ActiveLow, 16) + Flag(st == ActiveHigh, 32) == 16 * StateBits(st);
  }

  /** The flags tell the state of every alarm and the fault bit. */
  lemma AlarmFlagsTellTheStates(t: AlarmState, h: AlarmState, p: AlarmState, faulty: bool)
    ensures var flags := AlarmFlags(t, h, p, faulty);
            && StateIn(flags, 1) == t && StateIn(flags, 4) == h && StateIn(flags, 16) == p
            && (flags / 64 % 2 == 1 <==> faulty)
  {
    hide AlarmFlags;
    FlagDigits(t, h, p, faulty);
    Digits(StateBits(t), StateBits(h), StateBits(p), if faulty then 1 else 0);
    assert AlarmFlags(t, h, p, faulty) / 1 == AlarmFlags(t, h, p, faulty);
  }
}
