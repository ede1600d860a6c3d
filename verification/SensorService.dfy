/**
 * The acquisition pipeline of the field device: range check, clamp, filter seeding and
 * filtering of the two sensor reads of one cycle, and the snapshot they are committed to.
 */
module SensorService {
  import opened Bytes
  import opened SensorFilter

  type Int32 = x: int | -0x8000_0000 <= x < 0x8000_0000

  const SENSORS: nat := 12
  const TEMPERATURE: nat := 0
  const HUMIDITY: nat := 1
  const PRESSURE: nat := 2

  function RangeMin(id: nat): Int32 {
    if id == TEMPERATURE then -4000 else if id == HUMIDITY then 0 else if id == PRESSURE then 3000
    else if id < 6 then -10000 else if id < 9 then -25000 else -40000
  }

  function RangeMax(id: nat): Int32 {
    if id == TEMPERATURE then 8500 else if id == HUMIDITY then 10000 else if id == PRESSURE then 11000
    else if id < 6 then 10000 else if id < 9 then 25000 else 40000
  }

  predicate InRange(id: nat, x: int) {
    RangeMin(id) <= x <= RangeMax(id)
  }

  function Clamp(id: nat, x: int): int {
    if x < RangeMin(id) then RangeMin(id) else if x > RangeMax(id) then RangeMax(id) else x
  }

  /** The cast from uint32_t to int32_t. */
  function ToInt32(x: U32): Int32 {
    if x < 0x8000_0000 then x else x - 0x1_0000_0000
  }

  datatype Reading = Reading(value: int, valid: bool)

  /** What the service keeps of one sensor. */
  datatype Channel = Channel(prev: int, seeded: bool, reading: Reading)

  /** One driver read of temperature and humidity, in hundredths; None is a driver error. */
  datatype Climate = Climate(temperature: Int32, humidity: U32)

  /** What the two drivers answer in one cycle; the pressure is in tenths of hPa. */
  datatype Sample = Sample(climate: Option<Climate>, pressure: Option<Int32>)

  datatype Status = Ok | NotInit

  const FRESH: Channel := Channel(0, false, Reading(0, false))

  /** One sensor processed: a driver error only invalidates, a first valid sample seeds the filter. */
  function Process(id: nat, ch: Channel, raw: Option<Int32>): Channel {
    if raw == None then ch.(reading := ch.reading.(valid := false)) else
    var valid := InRange(id, raw.value);
    var filtered := if !ch.seeded && valid then raw.value else Filter(Clamp(id, raw.value), ch.prev);
    Channel(filtered, ch.seeded || valid, Reading(filtered, valid))
  }

  /** The raw sample a cycle has for a sensor. */
  function Raw(s: Sample, id: nat): Option<Int32> {
    if id == TEMPERATURE && s.climate.Some? then Some(s.climate.value.temperature)
    else if id == HUMIDITY && s.climate.Some? then Some(ToInt32(s.climate.value.humidity))
    else if id == PRESSURE then s.pressure
    else None
  }

  predicate Polled(failed: seq<bool>, id: nat) {
    id < 3 && id < |failed| && !failed[id]
  }

  type Channels = c: seq<Channel> | |c| == SENSORS witness [FRESH, FRESH, FRESH, FRESH, FRESH, FRESH, FRESH, FRESH, FRESH, FRESH, FRESH, FRESH]

  /** One cycle: every sensor that has not failed for good is processed, the others keep their state. */
  function Cycle(chs: Channels, failed: seq<bool>, s: Sample): Channels {
    seq<Channel>(SENSORS, i requires 0 <= i < SENSORS =>
      if Polled(failed, i) then Process(i, chs[i], Raw(s, i)) else chs[i])
  }

  /** A cycle processes the sensors one after the other. */
  lemma CycleInTurn(chs: Channels, failed: seq<bool>, s: Sample, c1: Channels, c2: Channels, c3: Channels)
    requires |failed| == SENSORS
    requires c1 == if failed[TEMPERATURE] then chs else chs[TEMPERATURE := Process(TEMPERATURE, chs[TEMPERATURE], Raw(s, TEMPERATURE))]
    requires c2 == if failed[HUMIDITY] then c1 else c1[HUMIDITY := Process(HUMIDITY, c1[HUMIDITY], Raw(s, HUMIDITY))]
    requires c3 == if failed[PRESSURE] then c2 else c2[PRESSURE := Process(PRESSURE, c2[PRESSURE], Raw(s, PRESSURE))]
    ensures c3 == Cycle(chs, failed, s)
  {
    hide Process, Raw;
  }

  /** The sensor a cycle reports to the health monitor: the first polled one whose driver erred. */
  function FirstFailure(failed: seq<bool>, s: Sample): (r: Option<nat>)
  {
    if Polled(failed, TEMPERATURE) && Raw(s, TEMPERATURE) == None then Some(TEMPERATURE)
    else if Polled(failed, HUMIDITY) && Raw(s, HUMIDITY) == None then Some(HUMIDITY)
    else if Polled(failed, PRESSURE) && Raw(s, PRESSURE) == None then Some(PRESSURE)
    else None
  }

  /** A cycle reports the lowest sensor that erred, and reports one exactly when some sensor did. */
  lemma ReportsTheFirstFailure(failed: seq<bool>, s: Sample)
    ensures FirstFailure(failed, s) == None <==> forall i: nat :: Polled(failed, i) ==> Raw(s, i).Some?
    ensures FirstFailure(failed, s).Some? ==>
              var id := FirstFailure(failed, s).value;
              Polled(failed, id) && Raw(s, id) == None && forall i: nat :: i < id && Polled(failed, i) ==> Raw(s, i).Some?
  {
    if FirstFailure(failed, s) == None {
      forall i: nat | Polled(failed, i) ensures Raw(s, i).Some? {
        assert i == TEMPERATURE || i == HUMIDITY || i == PRESSURE;
      }
    }
  }

  /* ---- the state between cycles ---- */

  /** What holds of a sensor in every reachable state. */
  ghost predicate ChannelOk(id: nat, ch: Channel) {
    && ch.reading.value == ch.prev
    && (ch.seeded ==> InRange(id, ch.prev))
    && (ch.reading.valid ==> ch.seeded)
    && (ch.prev < 0 ==> RangeMin(id) <= ch.prev) && (ch.prev > 0 ==> ch.prev <= RangeMax(id))
  }

  ghost predicate AllOk(chs: Channels) {
    forall i :: 0 <= i < SENSORS ==> ChannelOk(i, chs[i])
  }

  lemma ProcessKeepsOk(id: nat, ch: Channel, raw: Option<Int32>)
    requires ChannelOk(id, ch)
    ensures ChannelOk(id, Process(id, ch, raw))
  {
    hide Mix;
    if raw.Some? {
      var c := Clamp(id, raw.value);
      var lo := if RangeMin(id) < 0 then RangeMin(id) else 0;
      MixStaysInRange(ALPHA_NUM, ALPHA_DEN, lo, RangeMax(id), c, ch.prev);
      if ch.seeded {
        MixStaysInRange(ALPHA_NUM, ALPHA_DEN, RangeMin(id), RangeMax(id), c, ch.prev);
      }
    }
  }

  /** The channels after any number of cycles. */
  function Run(failed: seq<bool>, samples: seq<Sample>): Channels
    decreases |samples|
  {
    if samples == [] then [FRESH, FRESH, FRESH, FRESH, FRESH, FRESH, FRESH, FRESH, FRESH, FRESH, FRESH, FRESH]
    else Cycle(Run(failed, samples[..|samples| - 1]), failed, samples[|samples| - 1])
  }

  /**
   * In every reachable state a seeded filter is within the range of its sensor, a valid
   * reading is the value of a seeded filter, and a failed sensor has no valid reading.
   */
  lemma {:induction false} EveryRunIsOk(failed: seq<bool>, samples: seq<Sample>)
    ensures AllOk(Run(failed, samples))
    ensures forall i: nat :: i < SENSORS && !Polled(failed, i) ==> Run(failed, samples)[i] == FRESH
    decreases |samples|
  {
    hide ChannelOk, Process, Polled, Raw;
    if samples == [] {
      assert forall i: nat :: ChannelOk(i, FRESH) by { FreshIsOk(); }
    } else {
      var before := samples[..|samples| - 1];
      EveryRunIsOk(failed, before);
      forall i | 0 <= i < SENSORS ensures ChannelOk(i, Run(failed, samples)[i]) {
        ProcessKeepsOk(i, Run(failed, before)[i], Raw(samples[|samples| - 1], i));
      }
    }
  }

  lemma FreshIsOk()
    ensures forall i: nat :: ChannelOk(i, FRESH)
  {
  }

  /** Every sum the filter forms fits in 32 bits, in every reachable state and for every sample. */
  lemma FilterNeverOverflows(id: nat, ch: Channel, raw: Int32)
    requires id < SENSORS && ChannelOk(id, ch)
    ensures var c := Clamp(id, raw);
            && -0x8000_0000 <= ALPHA_NUM * c + (ALPHA_DEN - ALPHA_NUM) * ch.prev < 0x8000_0000
            && -0x8000_0000 <= ALPHA_NUM * c + (ALPHA_DEN - ALPHA_NUM) * ch.prev + ALPHA_DEN / 2 < 0x8000_0000
  {
  }

  /** A sensor fed n times with the same reading. */
  function Fed(id: nat, ch: Channel, raw: Int32, n: nat): Channel {
    if n == 0 then ch else Process(id, Fed(id, ch, raw, n - 1), Some(raw))
  }

  lemma {:induction false} FedIsAfter(id: nat, ch: Channel, raw: Int32, n: nat)
    requires ch.seeded
    ensures Fed(id, ch, raw, n).prev == After(Clamp(id, raw), ch.prev, n)
    ensures Fed(id, ch, raw, n).seeded
  {
    hide Mix;
    if n > 0 {
      FedIsAfter(id, ch, raw, n - 1);
    }
  }

  /** A seeded sensor that keeps reading the same value comes to rest next to it. */
  lemma SteadyInputSettles(id: nat, ch: Channel, raw: Int32, n: nat)
    requires ch.seeded && n >= Distance(Clamp(id, raw), ch.prev)
    ensures Fed(id, ch, raw, n + 1).prev == Fed(id, ch, raw, n).prev
    ensures var c := Clamp(id, raw);
            && c - 4 <= Fed(id, ch, raw, n).prev <= c + 14
            && (c >= 0 && ch.prev >= 0 ==> Fed(id, ch, raw, n).prev <= c + 5)
  {
    hide Mix;
    FedIsAfter(id, ch, raw, n);
    FedIsAfter(id, ch, raw, n + 1);
    Settles(Clamp(id, raw), ch.prev, n);
  }

  /* ---- the service ---- */

  /** The struct-of-arrays state of the source as one channel a sensor. */
  ghost function Pack(prev: seq<int>, seeded: seq<bool>, readings: seq<Reading>): Channels
    requires |prev| == |seeded| == |readings| == SENSORS
  {
    seq<Channel>(SENSORS, i requires 0 <= i < SENSORS => Channel(prev[i], seeded[i], readings[i]))
  }

  class Service {
    var initialised: bool
    var readings: seq<Reading>
    var cycleCount: U32
    const prevFiltered: array<int>
    const filterSeeded: array<bool>
    const driverFailed: array<bool>

    ghost predicate Valid()
      reads this
    {
      && |readings| == prevFiltered.Length == filterSeeded.Length == driverFailed.Length == SENSORS
      && filterSeeded != driverFailed
    }

    ghost function State(): Channels
      reads this, prevFiltered, filterSeeded
      requires Valid()
    {
      Pack(prevFiltered[..], filterSeeded[..], readings)
    }

    constructor ()
      ensures Valid() && !initialised && cycleCount == 0
      ensures fresh(prevFiltered) && fresh(filterSeeded) && fresh(driverFailed)
    {
      initialised, cycleCount := false, 0;
      readings := seq(SENSORS, i => Reading(0, false));
      prevFiltered := new int[SENSORS](i => 0);
      filterSeeded := new bool[SENSORS](i => false);
      driverFailed := new bool[SENSORS](i => false);
    }

    /** Reset, then fail for good the sensors that are not on this board and those whose driver errs. */
    method Init(climateOk: bool, pressureOk: bool, timerOk: bool) returns (status: Status)
      requires Valid()
      modifies this, prevFiltered, filterSeeded, driverFailed
      ensures Valid() && cycleCount == 0
      ensures State() == Run(driverFailed[..], [])
      ensures forall i: nat :: Polled(driverFailed[..], i) <==> (i <= HUMIDITY && climateOk) || (i == PRESSURE && pressureOk)
      ensures initialised <==> timerOk
      ensures status == if timerOk then Ok else NotInit
    {
      initialised, cycleCount := false, 0;
      readings := seq(SENSORS, i => Reading(0, false));
      forall i | 0 <= i < SENSORS { prevFiltered[i] := 0; }
      forall i | 0 <= i < SENSORS { filterSeeded[i] := false; }
      forall i | 0 <= i < SENSORS { driverFailed[i] := i > PRESSURE; }
      if !climateOk {
        driverFailed[TEMPERATURE], driverFailed[HUMIDITY] := true, true;
      }
      if !pressureOk {
        driverFailed[PRESSURE] := true;
      }
      if !timerOk {
        return NotInit;
      }
      initialised := true;
      return Ok;
    }

    /** Process one sensor into the working copy of the snapshot; the first failure of a cycle is reported. */
    method ProcessSensorReading(id: nat, raw: Option<Int32>, working: seq<Reading>, report: Option<nat>)
      returns (updated: seq<Reading>, reported: Option<nat>)
      requires Valid() && id < SENSORS && |working| == SENSORS
      modifies prevFiltered, filterSeeded
      ensures Valid() && |updated| == SENSORS
      ensures Pack(prevFiltered[..], filterSeeded[..], updated) ==
              var before := Pack(old(prevFiltered[..]), old(filterSeeded[..]), working);
              before[id := Process(id, before[id], raw)]
      ensures reported == if raw == None && report == None then Some(id) else report
    {
      hide Mix;
      reported := report;
      if raw == None {
        updated := working[id := working[id].(valid := false)];
        if report == None {
          reported := Some(id);
        }
        return;
      }
      var valid := InRange(id, raw.value);
      var clamped := raw.value;
      if clamped < RangeMin(id) {
        clamped := RangeMin(id);
      }
      if clamped > RangeMax(id) {
        clamped := RangeMax(id);
      }
      var filtered;
      if !filterSeeded[id] && valid {
        filtered := clamped;
        filterSeeded[id] := true;
      } else {
        filtered := Filter(clamped, prevFiltered[id]);
      }
      prevFiltered[id] := filtered;
      updated := working[id := Reading(filtered, valid)];
    }

    /** One acquisition cycle, committed to the snapshot as a whole. */
    method RunCycle(s: Sample) returns (status: Status, reported: Option<nat>)
      requires Valid()
      modifies this, prevFiltered, filterSeeded
      ensures Valid() && initialised == old(initialised)
      ensures !old(initialised) ==>
                status == NotInit && State() == old(State()) && cycleCount == old(cycleCount) && reported == None
      ensures old(initialised) ==>
                && status == Ok && State() == Cycle(old(State()), driverFailed[..], s)
                && cycleCount == (old(cycleCount) + 1) % 0x1_0000_0000
                && reported == FirstFailure(driverFailed[..], s)
    {
      if !initialised {
        return NotInit, None;
      }
      hide Process, Cycle, Pack;
      ghost var before := State();
      ghost var failed := driverFailed[..];
      var working := readings;
      reported := None;
      ghost var first := before;
      if !driverFailed[TEMPERATURE] || !driverFailed[HUMIDITY] {
        if !driverFailed[TEMPERATURE] {
          working, reported := ProcessSensorReading(TEMPERATURE, Raw(s, TEMPERATURE), working, reported);
          first := Pack(prevFiltered[..], filterSeeded[..], working);
        }
        if !driverFailed[HUMIDITY] {
          working, reported := ProcessSensorReading(HUMIDITY, Raw(s, HUMIDITY), working, reported);
        }
      }
      ghost var second := Pack(prevFiltered[..], filterSeeded[..], working);
      if !driverFailed[PRESSURE] {
        working, reported := ProcessSensorReading(PRESSURE, Raw(s, PRESSURE), working, reported);
      }
      assert driverFailed[..] == failed;
      CycleInTurn(before, failed, s, first, second, Pack(prevFiltered[..], filterSeeded[..], working));
      readings := working;
      cycleCount := (cycleCount + 1) % 0x1_0000_0000;
      return Ok, reported;
    }

    /** Every sensor that has not failed for good has a valid reading. */
    method IsReady() returns (ready: bool)
      requires Valid()
      ensures ready <==> initialised && forall i :: 0 <= i < SENSORS ==> driverFailed[i] || readings[i].valid
    {
      if !initialised {
        return false;
      }
      for i := 0 to SENSORS
        invariant forall j :: 0 <= j < i ==> driverFailed[j] || readings[j].valid
      {
        if !driverFailed[i] && !readings[i].valid {
          return false;
        }
      }
      return true;
    }
  }
}
