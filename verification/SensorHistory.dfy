/**
 * The readings of the field device told from the samples of a whole run: when a reading is valid,
 * which value it has, and what a bus master makes of it.
 */
module SensorHistory {
  import opened Bytes
  import opened SensorService
  import RegisterMap
  import RegisterRuns
  import RegisterTable
  import SensorFilter
  import SensorRegisters

  /** The sensor takes part in the cycles. */
  predicate TakesPart(failed: seq<bool>, id: nat) {
    id < |failed| && !failed[id]
  }

  /** This cycle had a sample for the sensor, and it lies in the range of the sensor. */
  predicate HasGood(s: Sample, id: nat) {
    match id
    case 0 => s.climate.Some? && -4000 <= s.climate.value.temperature <= 8500
    case 1 => s.climate.Some? && s.climate.value.humidity <= 10000
    case 2 => s.pressure.Some? && 3000 <= s.pressure.value <= 11000
    case _ => false
  }

  /** The good sample itself. */
  function GoodSample(s: Sample, id: nat): int
    requires HasGood(s, id)
  {
    match id
    case 0 => s.climate.value.temperature
    case 1 => s.climate.value.humidity
    case _ => s.pressure.value
  }

  /** The driver of the sensor erred in this cycle. */
  predicate Erred(s: Sample, id: nat) {
    if id == 2 then s.pressure == None else s.climate == None
  }

  /** The sample and how a sensor sees it. */
  lemma SampleSeen(s: Sample, id: nat)
    requires id < 3
    ensures Raw(s, id) == None <==> Erred(s, id)
    ensures HasGood(s, id) <==> Raw(s, id).Some? && InRange(id, Raw(s, id).value)
    ensures HasGood(s, id) ==> GoodSample(s, id) == Raw(s, id).value
  {
  }

  function Last(samples: seq<Sample>): Sample
    requires samples != []
  {
    samples[|samples| - 1]
  }

  function Before(samples: seq<Sample>): seq<Sample>
    requires samples != []
  {
    samples[..|samples| - 1]
  }

  lemma LastCycle(failed: seq<bool>, samples: seq<Sample>, id: nat)
    requires samples != [] && id < 3 && TakesPart(failed, id)
    ensures Run(failed, samples)[id] == Process(id, Run(failed, Before(samples))[id], Raw(Last(samples), id))
  {
    hide Process, Raw;
  }

  /** A sensor that takes no part has no valid reading, ever. */
  lemma Absent(failed: seq<bool>, samples: seq<Sample>, id: nat)
    requires id < SENSORS && !(id < 3 && TakesPart(failed, id))
    ensures Run(failed, samples)[id].reading == Reading(0, false)
  {
    hide Run;
    EveryRunIsOk(failed, samples);
  }

  /**
   * In every run a reading is valid exactly when there was a cycle, the sensor takes part, and the
   * last cycle had a sample for it within -40 to 85 degrees, 0 to 100 per cent or 300 to 1100 hPa.
   */
  lemma ReadingIsValidIff(failed: seq<bool>, samples: seq<Sample>, id: nat)
    requires id < SENSORS
    ensures Run(failed, samples)[id].reading.valid <==>
            samples != [] && id < 3 && TakesPart(failed, id) && HasGood(Last(samples), id)
  {
    if samples != [] && id < 3 && TakesPart(failed, id) {
      LastCycle(failed, samples, id);
      SampleSeen(Last(samples), id);
      hide Run, SensorFilter.Filter;
    } else if samples != [] {
      Absent(failed, samples, id);
    }
  }

  /** A driver error keeps the value of a reading and takes its validity. */
  lemma ErrorKeepsValue(failed: seq<bool>, samples: seq<Sample>, id: nat)
    requires samples != [] && id < 3 && TakesPart(failed, id) && Erred(Last(samples), id)
    ensures Run(failed, samples)[id].reading == Reading(Run(failed, Before(samples))[id].reading.value, false)
  {
    LastCycle(failed, samples, id);
    SampleSeen(Last(samples), id);
    hide Run, SensorFilter.Filter;
  }

  /** Some cycle of the run had a good sample for the sensor. */
  ghost predicate EverGood(samples: seq<Sample>, id: nat) {
    exists i :: 0 <= i < |samples| && HasGood(samples[i], id)
  }

  lemma EverGoodStep(samples: seq<Sample>, id: nat)
    requires samples != []
    ensures EverGood(samples, id) <==> EverGood(Before(samples), id) || HasGood(Last(samples), id)
  {
    var n := |samples| - 1;
    if EverGood(Before(samples), id) {
      var i :| 0 <= i < n && HasGood(Before(samples)[i], id);
      assert samples[i] == Before(samples)[i];
    }
    if EverGood(samples, id) && !HasGood(Last(samples), id) {
      var i :| 0 <= i <= n && HasGood(samples[i], id);
      assert samples[i] == Before(samples)[i];
    }
    assert samples[n] == Last(samples);
  }

  /** The filter is seeded exactly once a good sample has been seen. */
  lemma {:induction false} SeededIff(failed: seq<bool>, samples: seq<Sample>, id: nat)
    requires id < 3 && TakesPart(failed, id)
    ensures Run(failed, samples)[id].seeded <==> EverGood(samples, id)
    decreases |samples|
  {
    if samples != [] {
      SeededIff(failed, Before(samples), id);
      LastCycle(failed, samples, id);
      EverGoodStep(samples, id);
      SampleSeen(Last(samples), id);
      hide Run, SensorFilter.Filter, EverGood;
    }
  }

  /** The first good sample becomes the reading as it is. */
  lemma FirstGoodSampleIsTaken(failed: seq<bool>, samples: seq<Sample>, id: nat)
    requires samples != [] && id < 3 && TakesPart(failed, id)
    requires HasGood(Last(samples), id) && !EverGood(Before(samples), id)
    ensures Run(failed, samples)[id].reading == Reading(GoodSample(Last(samples), id), true)
  {
    SeededIff(failed, Before(samples), id);
    LastCycle(failed, samples, id);
    SampleSeen(Last(samples), id);
    hide Run, SensorFilter.Filter, EverGood;
  }

  /** The raw sample held to the range of the sensor. */
  function Held(id: nat, x: int): int {
    var lo, hi := if id == 0 then -4000 else if id == 1 then 0 else 3000,
                  if id == 0 then 8500 else if id == 1 then 10000 else 11000;
    if x < lo then lo else if x > hi then hi else x
  }

  /** Every other sample moves the reading a tenth of the way, rounding the sum plus 5 towards zero. */
  lemma LaterSamplesAreSmoothed(failed: seq<bool>, samples: seq<Sample>, id: nat)
    requires samples != [] && id < 3 && TakesPart(failed, id) && !Erred(Last(samples), id)
    requires !HasGood(Last(samples), id) || EverGood(Before(samples), id)
    ensures var r, was := Run(failed, samples)[id].reading, Run(failed, Before(samples))[id].reading.value;
            var sum := Held(id, Raw(Last(samples), id).value) + 9 * was + 5;
            && r.valid == HasGood(Last(samples), id)
            && (sum >= 0 ==> 10 * r.value <= sum < 10 * r.value + 10)
            && (sum < 0 ==> 10 * r.value - 10 < sum <= 10 * r.value)
  {
    SeededIff(failed, Before(samples), id);
    LastCycle(failed, samples, id);
    SampleSeen(Last(samples), id);
    EveryRunIsOk(failed, Before(samples));
    hide Run, EverGood;
  }

  /* ---- on the bus ---- */

  /** In the last cycle of the run the sensor had a good sample. */
  predicate GoodNow(failed: seq<bool>, samples: seq<Sample>, id: nat) {
    samples != [] && TakesPart(failed, id) && HasGood(Last(samples), id)
  }

  lemma ValidReadingsInRange(failed: seq<bool>, samples: seq<Sample>)
    ensures var chs := Run(failed, samples);
            && (chs[0].reading.valid ==> -4000 <= chs[0].reading.value <= 8500)
            && (chs[1].reading.valid ==> 0 <= chs[1].reading.value <= 10000)
            && (chs[2].reading.valid ==> 3000 <= chs[2].reading.value <= 11000)
  {
    EveryRunIsOk(failed, samples);
    var chs := Run(failed, samples);
    hide Run;
    assert ChannelOk(0, chs[0]) && ChannelOk(1, chs[1]) && ChannelOk(2, chs[2]);
  }

  lemma TemperatureSentinel(r: Reading)
    requires r.valid ==> -4000 <= r.value <= 8500
    ensures SensorRegisters.TemperatureRegister(r) == 0x8000 <==> !r.valid
    ensures r.valid ==> SensorRegisters.TemperatureRegister(r) == r.value % 0x1_0000
  {
  }

  lemma UnsignedSentinel(r: Reading)
    requires r.valid ==> 0 <= r.value <= 11000
    ensures SensorRegisters.UnsignedRegister(r) == 0xFFFF <==> !r.valid
    ensures r.valid ==> SensorRegisters.UnsignedRegister(r) == r.value
  {
  }

  /**
   * A bus master that reads the three sensor registers gets the sentinel of a sensor exactly when
   * its last cycle had no good sample for it, and the 16 low bits of the reading otherwise.
   */
  lemma SentinelIff(m: RegisterMap.Registers, src: RegisterRuns.Inputs, failed: seq<bool>, samples: seq<Sample>)
    requires src.snapshot == Some(Run(failed, samples))
    ensures var a := RegisterRuns.ReadRegs(m, src, 0x0010, 3, false);
            var chs := Run(failed, samples);
            && a.Values? && |a.values| == 3
            && (a.values[0] == 0x8000 <==> !GoodNow(failed, samples, 0))
            && (a.values[1] == 0xFFFF <==> !GoodNow(failed, samples, 1))
            && (a.values[2] == 0xFFFF <==> !GoodNow(failed, samples, 2))
            && (GoodNow(failed, samples, 0) ==> a.values[0] == chs[0].reading.value % 0x1_0000)
            && (GoodNow(failed, samples, 1) ==> a.values[1] == chs[1].reading.value)
            && (GoodNow(failed, samples, 2) ==> a.values[2] == chs[2].reading.value)
  {
    ReadingIsValidIff(failed, samples, 0);
    ReadingIsValidIff(failed, samples, 1);
    ReadingIsValidIff(failed, samples, 2);
    ValidReadingsInRange(failed, samples);
    hide Run, RegisterRuns.ReadRegs, TakesPart, HasGood, SensorRegisters.TemperatureRegister, SensorRegisters.UnsignedRegister;
    var chs := Run(failed, samples);
    TemperatureSentinel(chs[0].reading);
    UnsignedSentinel(chs[1].reading);
    UnsignedSentinel(chs[2].reading);
    SensorBlock(m, src);
  }

  /** With no snapshot to be had, all three sentinels. */
  lemma NoSnapshotReadsSentinels(m: RegisterMap.Registers, src: RegisterRuns.Inputs)
    requires src.snapshot == None
    ensures RegisterRuns.ReadRegs(m, src, 0x0010, 3, false) == RegisterRuns.Values([0x8000, 0xFFFF, 0xFFFF])
  {
    hide RegisterRuns.ReadRegs;
    SensorBlock(m, src);
  }

  lemma SensorBlock(m: RegisterMap.Registers, src: RegisterRuns.Inputs)
    ensures RegisterRuns.ReadRegs(m, src, 0x0010, 3, false) ==
            RegisterRuns.Values([SensorRegisters.TemperatureRegister(RegisterRuns.ReadingOf(src, 0)),
                                 SensorRegisters.UnsignedRegister(RegisterRuns.ReadingOf(src, 1)),
                                 SensorRegisters.UnsignedRegister(RegisterRuns.ReadingOf(src, 2))])
  {
    hide RegisterTable.Lookup, SensorRegisters.TemperatureRegister, SensorRegisters.UnsignedRegister, RegisterRuns.ReadingOf;
    RegisterTable.NamedSlots();
    assert RegisterMap.Nth(0x0010, 0) == 0x0010 && RegisterMap.Nth(0x0010, 1) == 0x0011 && RegisterMap.Nth(0x0010, 2) == 0x0012;
    assert RegisterRuns.ReadFrom(m, src, 0x0010, 3, false, 3) == RegisterRuns.Values([]);
    assert RegisterRuns.ReadFrom(m, src, 0x0010, 3, false, 2) ==
           RegisterRuns.Values([RegisterRuns.Read(m, src, RegisterTable.PressureReading)]);
    assert RegisterRuns.ReadFrom(m, src, 0x0010, 3, false, 1) ==
           RegisterRuns.Values([RegisterRuns.Read(m, src, RegisterTable.HumidityReading),
                                RegisterRuns.Read(m, src, RegisterTable.PressureReading)]);
  }
}
