/**
 * The configuration of the field device: the parameters, what set_param accepts, and how a
 * stored blob is repaired when it is loaded. The three measured quantities have the same five
 * parameters each and differ in their limits and in the arithmetic of their checks.
 */
module ConfigParams {

  datatype Quantity = Temperature | Humidity | Pressure

  /** A physical range and the alarm thresholds within it. */
  datatype Band = Band(min: int, max: int, high: int, low: int, hyst: int)

  datatype Params = Params(pollInterval: int, filterAlpha: int, temperature: Band, humidity: Band, pressure: Band,
                           slaveAddr: int, pollPeriod: int)
  {
    function Of(q: Quantity): Band {
      match q case Temperature => temperature case Humidity => humidity case Pressure => pressure
    }

    function With(q: Quantity, b: Band): Params {
      match q
      case Temperature => this.(temperature := b)
      case Humidity => this.(humidity := b)
      case Pressure => this.(pressure := b)
    }
  }

  datatype ParamId =
    | PollInterval | FilterAlpha | RangeMin(q: Quantity) | RangeMax(q: Quantity)
    | AlarmHigh(q: Quantity) | AlarmLow(q: Quantity) | Hysteresis(q: Quantity)
    | SlaveAddr | PollPeriod | Unknown

  /* ---- widths, limits and defaults ---- */

  /** The values of the C type of a quantity: int16_t for temperature, uint16_t for the others. */
  predicate Fits(q: Quantity, x: int) {
    if q.Temperature? then -0x8000 <= x < 0x8000 else 0 <= x < 0x1_0000
  }

  predicate BandFits(q: Quantity, b: Band) {
    Fits(q, b.min) && Fits(q, b.max) && Fits(q, b.high) && Fits(q, b.low) && Fits(q, b.hyst)
  }

  predicate ParamsFit(p: Params) {
    && 0 <= p.pollInterval < 0x1_0000_0000 && 0 <= p.filterAlpha < 0x1_0000
    && 0 <= p.slaveAddr < 0x100 && 0 <= p.pollPeriod < 0x1_0000_0000
    && forall q :: BandFits(q, p.Of(q))
  }

  /** The values a caller's pointer can point to. */
  predicate ValueFits(id: ParamId, v: int) {
    match id
    case PollInterval => 0 <= v < 0x1_0000_0000
    case FilterAlpha => 0 <= v < 0x1_0000
    case SlaveAddr => 0 <= v < 0x100
    case PollPeriod => 0 <= v < 0x1_0000_0000
    case Unknown => true
    case _ => Fits(id.q, v)
  }

  function AbsMin(q: Quantity): int {
    if q.Temperature? then -5500 else 0
  }

  function AbsMax(q: Quantity): int {
    match q case Temperature => 12500 case Humidity => 10000 case Pressure => 12000
  }

  function Gap(q: Quantity): int {
    if q.Pressure? then 10 else 100
  }

  function DefaultBand(q: Quantity): Band {
    match q
    case Temperature => Band(-4000, 8500, 4000, 0, 100)
    case Humidity => Band(0, 10000, 8000, 2000, 200)
    case Pressure => Band(3000, 11000, 10500, 9500, 50)
  }

  const DEFAULTS: Params :=
    Params(1000, 100, DefaultBand(Temperature), DefaultBand(Humidity), DefaultBand(Pressure), 1, 1000)

  /** high - low in int32_t for temperature, in uint32_t for the others. */
  function Span(q: Quantity, high: int, low: int): int {
    if q.Temperature? then high - low else (high - low) % 0x1_0000_0000
  }

  /* ---- set_param ---- */

  function ValidInBand(q: Quantity, id: ParamId, v: int, b: Band): bool {
    match id
    case RangeMin(_) => AbsMin(q) <= v && v + Gap(q) <= b.max
    case RangeMax(_) => b.min + Gap(q) <= v && v <= AbsMax(q)
    case AlarmHigh(_) => b.min <= v <= b.max && v > b.low + b.hyst
    case AlarmLow(_) => b.min <= v && v + b.hyst < b.high
    case Hysteresis(_) => 0 < v && 2 * v < Span(q, b.high, b.low)
    case _ => false
  }

  predicate Valid(id: ParamId, v: int, cur: Params) {
    match id
    case PollInterval => 100 <= v <= 60000
    case FilterAlpha => 0 < v < 1000
    case SlaveAddr => 1 <= v <= 247
    case PollPeriod => 100 <= v <= 60000
    case Unknown => false
    case _ => ValidInBand(id.q, id, v, cur.Of(id.q))
  }

  function SetInBand(id: ParamId, v: int, b: Band): Band {
    match id
    case RangeMin(_) => b.(min := v)
    case RangeMax(_) => b.(max := v)
    case AlarmHigh(_) => b.(high := v)
    case AlarmLow(_) => b.(low := v)
    case Hysteresis(_) => b.(hyst := v)
    case _ => b
  }

  function Applied(p: Params, id: ParamId, v: int): Params {
    match id
    case PollInterval => p.(pollInterval := v)
    case FilterAlpha => p.(filterAlpha := v)
    case SlaveAddr => p.(slaveAddr := v)
    case PollPeriod => p.(pollPeriod := v)
    case Unknown => p
    case _ => p.With(id.q, SetInBand(id, v, p.Of(id.q)))
  }

  /* ---- the invariant ---- */

  /** Range within the limits and wide enough; the clearing level of the low alarm below the high one. */
  predicate BandSafe(q: Quantity, b: Band) {
    && AbsMin(q) <= b.min && b.min + Gap(q) <= b.max && b.max <= AbsMax(q)
    && b.hyst > 0 && b.low + b.hyst < b.high
  }

  predicate Safe(p: Params) {
    && 100 <= p.pollInterval <= 60000 && 0 < p.filterAlpha < 1000
    && 1 <= p.slaveAddr <= 247 && 100 <= p.pollPeriod <= 60000
    && forall q :: BandSafe(q, p.Of(q))
  }

  lemma DefaultsAreSafe()
    ensures Safe(DEFAULTS) && ParamsFit(DEFAULTS)
  {
    assert forall q :: DEFAULTS.Of(q) == DefaultBand(q);
  }

  predicate IsBandId(id: ParamId) {
    id.RangeMin? || id.RangeMax? || id.AlarmHigh? || id.AlarmLow? || id.Hysteresis?
  }

  lemma AcceptedKeepsBand(q: Quantity, id: ParamId, v: int, b: Band)
    requires IsBandId(id) && BandSafe(q, b) && BandFits(q, b) && Fits(q, v) && ValidInBand(q, id, v, b)
    ensures BandSafe(q, SetInBand(id, v, b)) && BandFits(q, SetInBand(id, v, b))
  {
  }

  lemma OneBandSet(p: Params, id: ParamId, v: int, q: Quantity)
    ensures Applied(p, id, v).Of(q) == if IsBandId(id) && id.q == q then SetInBand(id, v, p.Of(q)) else p.Of(q)
  {
    hide SetInBand;
  }

  /** An accepted set_param keeps the invariant. */
  lemma AcceptedKeepsSafe(p: Params, id: ParamId, v: int)
    requires Safe(p) && ParamsFit(p) && ValueFits(id, v) && Valid(id, v, p)
    ensures Safe(Applied(p, id, v)) && ParamsFit(Applied(p, id, v))
  {
    hide BandSafe, BandFits, ValidInBand, SetInBand, Fits;
    forall q ensures BandSafe(q, Applied(p, id, v).Of(q)) && BandFits(q, Applied(p, id, v).Of(q)) {
      assert BandSafe(q, p.Of(q)) && BandFits(q, p.Of(q));
      OneBandSet(p, id, v, q);
      if IsBandId(id) && id.q == q {
        AcceptedKeepsBand(q, id, v, p.Of(q));
      }
    }
  }

  /** What set_param asks beyond the invariant it leaves: alarms within the range, a hysteresis below half their distance. */
  predicate AlsoAsked(id: ParamId, v: int, b: Band) {
    match id
    case AlarmHigh(_) => b.min <= v <= b.max
    case AlarmLow(_) => b.min <= v
    case Hysteresis(_) => 2 * v < b.high - b.low
    case _ => true
  }

  /**
   * From a configuration that meets the invariant, set_param accepts a value exactly when the
   * result meets the invariant and the little more it asks of an alarm.
   */
  lemma AcceptsIff(p: Params, id: ParamId, v: int)
    requires Safe(p) && ParamsFit(p) && ValueFits(id, v)
    ensures Valid(id, v, p) <==>
            !id.Unknown? && Safe(Applied(p, id, v)) && (IsBandId(id) ==> AlsoAsked(id, v, p.Of(id.q)))
  {
    hide BandSafe, BandFits, ValidInBand, SetInBand, Fits, AlsoAsked;
    forall q ensures BandSafe(q, p.Of(q)) && BandFits(q, p.Of(q)) && Applied(p, id, v).Of(q) ==
                     if IsBandId(id) && id.q == q then SetInBand(id, v, p.Of(q)) else p.Of(q) {
      assert BandSafe(q, p.Of(q)) && BandFits(q, p.Of(q));
      OneBandSet(p, id, v, q);
    }
    if IsBandId(id) {
      BandAcceptsIff(id.q, id, v, p.Of(id.q));
    }
  }

  lemma BandAcceptsIff(q: Quantity, id: ParamId, v: int, b: Band)
    requires IsBandId(id) && BandSafe(q, b) && BandFits(q, b) && Fits(q, v)
    ensures ValidInBand(q, id, v, b) <==> BandSafe(q, SetInBand(id, v, b)) && AlsoAsked(id, v, b)
  {
  }

  /** The invariant in numbers: the limits of the sensors, the least width of a range and the order of its alarms. */
  lemma SafeInNumbers(p: Params)
    ensures Safe(p) <==>
            && 100 <= p.pollInterval <= 60000 && 1 <= p.filterAlpha <= 999
            && 1 <= p.slaveAddr <= 247 && 100 <= p.pollPeriod <= 60000
            && -5500 <= p.temperature.min && p.temperature.min + 100 <= p.temperature.max <= 12500
            && 0 <= p.humidity.min && p.humidity.min + 100 <= p.humidity.max <= 10000
            && 0 <= p.pressure.min && p.pressure.min + 10 <= p.pressure.max <= 12000
            && 0 < p.temperature.hyst < p.temperature.high - p.temperature.low
            && 0 < p.humidity.hyst < p.humidity.high - p.humidity.low
            && 0 < p.pressure.hyst < p.pressure.high - p.pressure.low
  {
    assert p.Of(Temperature) == p.temperature && p.Of(Humidity) == p.humidity && p.Of(Pressure) == p.pressure;
    assert (forall q :: BandSafe(q, p.Of(q))) <==>
           BandSafe(Temperature, p.temperature) && BandSafe(Humidity, p.humidity) && BandSafe(Pressure, p.pressure);
  }

  /** Under the invariant no span wraps. */
  lemma SpanNeverWraps(p: Params, q: Quantity)
    requires Safe(p) && ParamsFit(p)
    ensures var b := p.Of(q); Span(q, b.high, b.low) == b.high - b.low > b.hyst
  {
    assert BandSafe(q, p.Of(q)) && BandFits(q, p.Of(q));
  }

  /* ---- apply_loaded ---- */

  function BadRangeMin(q: Quantity, min: int, max: int): bool {
    if q.Temperature? then min < AbsMin(q) || min >= max - Gap(q) else min + Gap(q) > max
  }

  function BadRangeMax(q: Quantity, min: int, max: int): bool {
    max > AbsMax(q) || if q.Temperature? then max <= min + Gap(q) else max < min + Gap(q)
  }

  function BadHigh(min: int, max: int, high: int): bool {
    high < min || high > max
  }

  function BadLow(min: int, high: int, low: int): bool {
    low < min || low >= high
  }

  function BadHyst(q: Quantity, high: int, low: int, hyst: int): bool {
    hyst <= 0 || 2 * hyst >= Span(q, high, low)
  }

  /** The fields of one band, repaired in the order of the source, each judged by those before it. */
  function RepairBand(q: Quantity, b: Band): Band {
    var d := DefaultBand(q);
    var min := if BadRangeMin(q, b.min, b.max) then d.min else b.min;
    var max := if BadRangeMax(q, min, b.max) then d.max else b.max;
    var high := if BadHigh(min, max, b.high) then d.high else b.high;
    var low := if BadLow(min, high, b.low) then d.low else b.low;
    var hyst := if BadHyst(q, high, low, b.hyst) then d.hyst else b.hyst;
    Band(min, max, high, low, hyst)
  }

  /** A loaded configuration with every field out of bounds replaced by its default. */
  function Repair(p: Params): Params {
    Params(if p.pollInterval < 100 || p.pollInterval > 60000 then DEFAULTS.pollInterval else p.pollInterval,
           if p.filterAlpha == 0 || p.filterAlpha >= 1000 then DEFAULTS.filterAlpha else p.filterAlpha,
           RepairBand(Temperature, p.temperature), RepairBand(Humidity, p.humidity), RepairBand(Pressure, p.pressure),
           if p.slaveAddr < 1 || p.slaveAddr > 247 then DEFAULTS.slaveAddr else p.slaveAddr,
           if p.pollPeriod < 100 || p.pollPeriod > 60000 then DEFAULTS.pollPeriod else p.pollPeriod)
  }

  predicate BandLoadOk(q: Quantity, b: Band) {
    && AbsMin(q) <= b.min && b.max <= AbsMax(q)
    && (if q.Temperature? then b.min + Gap(q) < b.max else b.min + Gap(q) <= b.max)
    && b.min <= b.high <= b.max && b.min <= b.low < b.high
    && 0 < b.hyst && 2 * b.hyst < b.high - b.low
  }

  /** What a configuration must meet to be loaded as it is. */
  predicate LoadOk(p: Params) {
    && 100 <= p.pollInterval <= 60000 && 0 < p.filterAlpha < 1000
    && 1 <= p.slaveAddr <= 247 && 100 <= p.pollPeriod <= 60000
    && forall q :: BandLoadOk(q, p.Of(q))
  }

  /** The load predicate is stronger than the invariant, the defaults meet it, and repair leaves it alone. */
  lemma LoadOkIsSafeAndKept(p: Params)
    requires LoadOk(p) && ParamsFit(p)
    ensures Safe(p) && Repair(p) == p
  {
    forall q ensures BandSafe(q, p.Of(q)) && RepairBand(q, p.Of(q)) == p.Of(q) {
      assert BandLoadOk(q, p.Of(q)) && BandFits(q, p.Of(q));
    }
    assert RepairBand(Temperature, p.Of(Temperature)) == p.temperature;
    assert RepairBand(Humidity, p.Of(Humidity)) == p.humidity;
    assert RepairBand(Pressure, p.Of(Pressure)) == p.pressure;
  }

  lemma DefaultsLoad()
    ensures LoadOk(DEFAULTS)
  {
    assert forall q :: DEFAULTS.Of(q) == DefaultBand(q);
  }

  /** A field of a band passes its check, or is its default already. */
  predicate BandStable(q: Quantity, b: Band) {
    var d := DefaultBand(q);
    && (BadRangeMin(q, b.min, b.max) ==> b.min == d.min)
    && (BadRangeMax(q, b.min, b.max) ==> b.max == d.max)
    && (BadHigh(b.min, b.max, b.high) ==> b.high == d.high)
    && (BadLow(b.min, b.high, b.low) ==> b.low == d.low)
    && (BadHyst(q, b.high, b.low, b.hyst) ==> b.hyst == d.hyst)
  }

  /** Saving and loading gives a band back exactly when each field passes its check or is its default. */
  lemma BandComesBackIff(q: Quantity, b: Band)
    ensures RepairBand(q, b) == b <==> BandStable(q, b)
  {
  }

  predicate Stable(p: Params) {
    && (100 <= p.pollInterval <= 60000) && (0 < p.filterAlpha < 1000)
    && (1 <= p.slaveAddr <= 247) && (100 <= p.pollPeriod <= 60000)
    && forall q :: BandStable(q, p.Of(q))
  }

  lemma ComesBackIff(p: Params)
    requires ParamsFit(p)
    ensures Repair(p) == p <==> Stable(p)
  {
    BandComesBackIff(Temperature, p.temperature);
    BandComesBackIff(Humidity, p.humidity);
    BandComesBackIff(Pressure, p.pressure);
    hide RepairBand, BandStable;
    assert p.Of(Temperature) == p.temperature && p.Of(Humidity) == p.humidity && p.Of(Pressure) == p.pressure;
  }

  /** The one way the repaired range is too narrow: the maximum is over its limit, and a minimum near it survives. */
  predicate GapIsLost(q: Quantity, b: Band) {
    b.max > AbsMax(q) && b.min > DefaultBand(q).max - Gap(q) &&
    if q.Temperature? then b.min < b.max - Gap(q) else b.min <= b.max - Gap(q)
  }

  /** The repaired range is within its limits, and keeps its gap exactly outside that case. */
  lemma RepairedGapIff(q: Quantity, b: Band)
    requires BandFits(q, b)
    ensures var r := RepairBand(q, b);
            && AbsMin(q) <= r.min && r.max <= AbsMax(q)
            && (r.min + Gap(q) <= r.max <==> !GapIsLost(q, b))
    ensures b.max <= AbsMax(q) ==> !GapIsLost(q, b)
  {
  }

  /** The loaded minimum passes its check. */
  predicate MinIsKept(q: Quantity, b: Band) {
    AbsMin(q) <= b.min && if q.Temperature? then b.min + Gap(q) < b.max else b.min + Gap(q) <= b.max
  }

  /** The loaded maximum passes its check, which is against the default minimum when that has been put in. */
  predicate MaxIsKept(q: Quantity, b: Band) {
    b.max <= AbsMax(q) &&
    (MinIsKept(q, b) ||
     if q.Temperature? then DefaultBand(q).min + Gap(q) < b.max else DefaultBand(q).min + Gap(q) <= b.max)
  }

  /** An alarm distance at which the loaded hysteresis is refused and the default one does not fit. */
  predicate NoHysteresisFits(q: Quantity, hyst: int, distance: int) {
    distance <= DefaultBand(q).hyst && (hyst <= 0 || 2 * hyst >= distance)
  }

  /**
   * The loaded bands whose alarms come out of order, told from the loaded fields and the
   * defaults: lo and hi are the ends of the range in force, and the three cases are both
   * alarms kept, the low one replaced, and the high one replaced.
   */
  predicate AlarmsAreLost(q: Quantity, b: Band) {
    var d := DefaultBand(q);
    var lo := if MinIsKept(q, b) then b.min else d.min;
    var hi := if MaxIsKept(q, b) then b.max else d.max;
    if lo <= b.high <= hi && lo <= b.low < b.high then NoHysteresisFits(q, b.hyst, b.high - b.low)
    else if lo <= b.high <= hi then NoHysteresisFits(q, b.hyst, b.high - d.low)
    else lo <= b.low < d.high && NoHysteresisFits(q, b.hyst, d.high - b.low)
  }

  lemma RangeInForce(q: Quantity, b: Band)
    requires BandFits(q, b)
    ensures RepairBand(q, b).min == if MinIsKept(q, b) then b.min else DefaultBand(q).min
    ensures RepairBand(q, b).max == if MaxIsKept(q, b) then b.max else DefaultBand(q).max
  {
  }

  /** The hysteresis check of two alarms in order compares with their distance. */
  lemma HystCheck(q: Quantity, high: int, low: int, hyst: int)
    requires Fits(q, high) && Fits(q, low)
    ensures low < high ==> (BadHyst(q, high, low, hyst) <==> hyst <= 0 || 2 * hyst >= high - low)
  {
  }

  /** The alarms of a loaded band over the range in force. */
  lemma AlarmsOverRange(q: Quantity, b: Band, lo: int, hi: int)
    requires BandFits(q, b)
    ensures var d := DefaultBand(q);
            var high := if BadHigh(lo, hi, b.high) then d.high else b.high;
            var low := if BadLow(lo, high, b.low) then d.low else b.low;
            var hyst := if BadHyst(q, high, low, b.hyst) then d.hyst else b.hyst;
            hyst > 0 && low + hyst < high <==>
              !(if lo <= b.high <= hi && lo <= b.low < b.high then NoHysteresisFits(q, b.hyst, b.high - b.low)
                else if lo <= b.high <= hi then NoHysteresisFits(q, b.hyst, b.high - d.low)
                else lo <= b.low < d.high && NoHysteresisFits(q, b.hyst, d.high - b.low))
  {
    var d := DefaultBand(q);
    DefaultsFit(q);
    hide Fits, DefaultBand, BadHyst, Span;
    var high := if BadHigh(lo, hi, b.high) then d.high else b.high;
    var low := if BadLow(lo, high, b.low) then d.low else b.low;
    HystCheck(q, high, low, b.hyst);
  }

  lemma DefaultsFit(q: Quantity)
    ensures var d := DefaultBand(q);
            BandFits(q, d) && d.hyst > 0 && 2 * d.hyst < d.high - d.low
  {
  }

  /** After a load the invariant holds exactly when neither the gap nor the order of the alarms is lost. */
  lemma RepairedSafeIff(q: Quantity, b: Band)
    requires BandFits(q, b)
    ensures BandSafe(q, RepairBand(q, b)) <==> !GapIsLost(q, b) && !AlarmsAreLost(q, b)
  {
    RepairedGapIff(q, b);
    RangeInForce(q, b);
    AlarmsOverRange(q, b, RepairBand(q, b).min, RepairBand(q, b).max);
    hide GapIsLost, MinIsKept, MaxIsKept, NoHysteresisFits, BadHigh, BadLow, BadHyst, BadRangeMin, BadRangeMax, DefaultBand;
  }

  /**
   * The same for the bands set_param can reach. Their range is kept, except that a temperature
   * range of exactly the minimum gap counts as too narrow; their hysteresis is positive.
   */
  predicate ReloadLosesAlarms(q: Quantity, b: Band) {
    var d := DefaultBand(q);
    var narrow := q.Temperature? && b.min + Gap(q) == b.max;
    var lo := if narrow then d.min else b.min;
    var hi := if narrow && b.max <= d.min + Gap(q) then d.max else b.max;
    if lo <= b.high <= hi && lo <= b.low then NoHysteresisFits(q, b.hyst, b.high - b.low)
    else if lo <= b.high <= hi then NoHysteresisFits(q, b.hyst, b.high - d.low)
    else lo <= b.low < d.high && NoHysteresisFits(q, b.hyst, d.high - b.low)
  }

  lemma ReloadSafeIff(q: Quantity, b: Band)
    requires BandFits(q, b) && BandSafe(q, b)
    ensures BandSafe(q, RepairBand(q, b)) <==> !ReloadLosesAlarms(q, b)
  {
    RepairedSafeIff(q, b);
  }

  /** A restart keeps the invariant of a configuration that meets it exactly when no band loses its alarms. */
  lemma ReloadedParamsSafeIff(p: Params)
    requires ParamsFit(p) && Safe(p)
    ensures Safe(Repair(p)) <==> forall q :: !ReloadLosesAlarms(q, p.Of(q))
  {
    hide RepairBand, BandSafe, ReloadLosesAlarms, BandFits;
    assert forall q :: Repair(p).Of(q) == RepairBand(q, p.Of(q));
    forall q ensures BandSafe(q, Repair(p).Of(q)) <==> !ReloadLosesAlarms(q, p.Of(q)) {
      assert BandFits(q, p.Of(q)) && BandSafe(q, p.Of(q));
      ReloadSafeIff(q, p.Of(q));
    }
  }

  lemma RepairedParamsSafeIff(p: Params)
    requires ParamsFit(p)
    ensures Safe(Repair(p)) <==> forall q :: !GapIsLost(q, p.Of(q)) && !AlarmsAreLost(q, p.Of(q))
  {
    hide RepairBand, BandSafe, GapIsLost, AlarmsAreLost;
    assert forall q :: Repair(p).Of(q) == RepairBand(q, p.Of(q));
    forall q ensures BandSafe(q, Repair(p).Of(q)) <==> !GapIsLost(q, p.Of(q)) && !AlarmsAreLost(q, p.Of(q)) {
      assert BandFits(q, p.Of(q));
      RepairedSafeIff(q, p.Of(q));
    }
  }
}
