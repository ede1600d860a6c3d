/**
 * The alarm evaluation of the field device: a hysteresis state machine per sensor, run on
 * every snapshot, with its events.
 */
module AlarmService {
  import opened SensorService

  datatype AlarmState = Clear | ActiveHigh | ActiveLow

  datatype Event = RaisedHigh | RaisedLow | Cleared

  datatype Threshold = Threshold(high: int, low: int, hyst: int)

  /** One sensor judged against its limits. */
  function Judge(t: Threshold, st: AlarmState, v: int): AlarmState {
    match st
    case Clear => if v > t.high then ActiveHigh else if v < t.low then ActiveLow else Clear
    case ActiveHigh => if v < t.high - t.hyst then Clear else ActiveHigh
    case ActiveLow => if v > t.low + t.hyst then Clear else ActiveLow
  }

  /** The event a change of state fires. */
  function EventOf(after: AlarmState): Event {
    match after
    case Clear => Cleared
    case ActiveHigh => RaisedHigh
    case ActiveLow => RaisedLow
  }

  /** One evaluation of one sensor: an invalid reading is skipped. */
  function Evaluate(t: Threshold, st: AlarmState, r: Reading): AlarmState {
    if r.valid then Judge(t, st, r.value) else st
  }

  /** What a sensor meets over time: its reading, and the limits in force then. */
  datatype Input = Input(limits: Threshold, reading: Reading)

  function StateAfter(st: AlarmState, run: seq<Input>): AlarmState
    decreases |run|
  {
    if run == [] then st
    else var last := run[|run| - 1]; Evaluate(last.limits, StateAfter(st, run[..|run| - 1]), last.reading)
  }

  /** The events of a run, oldest first. */
  function Events(st: AlarmState, run: seq<Input>): seq<Event>
    decreases |run|
  {
    if run == [] then [] else
    var before, after := StateAfter(st, run[..|run| - 1]), StateAfter(st, run);
    Events(st, run[..|run| - 1]) + if before == after then [] else [EventOf(after)]
  }

  /* ---- events tell the state ---- */

  /** The state a listener derives from the events alone. */
  function Replay(st: AlarmState, events: seq<Event>): AlarmState {
    if events == [] then st else
    match events[|events| - 1]
    case RaisedHigh => ActiveHigh
    case RaisedLow => ActiveLow
    case Cleared => Clear
  }

  /** Raises and clears take turns, beginning with the one the initial state allows. */
  ghost predicate Alternates(st: AlarmState, events: seq<Event>) {
    forall i :: 0 <= i < |events| ==>
      (events[i] == Cleared <==> Replay(st, events[..i]) != Clear)
  }

  lemma OneMoreEvent(st: AlarmState, events: seq<Event>, e: Event)
    requires Alternates(st, events) && (e == Cleared <==> Replay(st, events) != Clear)
    ensures Alternates(st, events + [e])
  {
    hide Replay;
    var longer := events + [e];
    forall i | 0 <= i < |longer| ensures longer[i] == Cleared <==> Replay(st, longer[..i]) != Clear {
      if i < |events| {
        assert longer[..i] == events[..i];
      } else {
        assert longer[..i] == events;
      }
    }
  }

  /** Whatever the samples and the limits do, events alternate and replaying them gives the state. */
  lemma {:induction false} EventsTellTheState(st: AlarmState, run: seq<Input>)
    ensures Replay(st, Events(st, run)) == StateAfter(st, run)
    ensures Alternates(st, Events(st, run))
    decreases |run|
  {
    hide Alternates;
    if run == [] {
      assert Alternates(st, []) by { NoEvents(st); }
    } else {
      var before := run[..|run| - 1];
      EventsTellTheState(st, before);
      var after := StateAfter(st, run);
      if StateAfter(st, before) != after {
        OneMoreEvent(st, Events(st, before), EventOf(after));
      } else {
        assert Events(st, before) + [] == Events(st, before);
      }
    }
  }

  lemma NoEvents(st: AlarmState)
    ensures Alternates(st, [])
  {
  }

  /* ---- no chatter ---- */

  /** A run under fixed limits. */
  function Fixed(t: Threshold, rs: seq<Reading>): (run: seq<Input>)
    ensures |run| == |rs| && forall i :: 0 <= i < |rs| ==> run[i] == Input(t, rs[i])
  {
    seq<Input>(|rs|, i requires 0 <= i < |rs| => Input(t, rs[i]))
  }

  function Values(rs: seq<Reading>): seq<int>
    decreases |rs|
  {
    if rs == [] then [] else
    var last := rs[|rs| - 1];
    Values(rs[..|rs| - 1]) + if last.valid then [last.value] else []
  }

  function Abs(x: int): nat {
    if x < 0 then -x else x
  }

  /** How far the values travel in all. */
  function Variation(vs: seq<int>): nat {
    if |vs| < 2 then 0 else Variation(vs[..|vs| - 1]) + Abs(vs[|vs| - 1] - vs[|vs| - 2])
  }

  function Count(events: seq<Event>, e: Event): nat {
    if events == [] then 0 else Count(events[..|events| - 1], e) + if events[|events| - 1] == e then 1 else 0
  }

  function Pos(x: int): nat {
    if x < 0 then 0 else x
  }

  /** The two sides mirror each other: a value and its limit, as the side of an event sees them. */
  function Seen(side: Event, v: int): int {
    if side == RaisedLow then -v else v
  }

  function Limit(side: Event, t: Threshold): int {
    if side == RaisedLow then -t.low else t.high
  }

  function Side(side: Event): AlarmState {
    if side == RaisedLow then ActiveLow else ActiveHigh
  }

  function Views(side: Event, vs: seq<int>): (ws: seq<int>)
    ensures |ws| == |vs| && forall i :: 0 <= i < |vs| ==> ws[i] == Seen(side, vs[i])
  {
    seq<int>(|vs|, i requires 0 <= i < |vs| => Seen(side, vs[i]))
  }

  lemma {:induction false} SameTravel(side: Event, vs: seq<int>)
    ensures Variation(Views(side, vs)) == Variation(vs)
  {
    if |vs| >= 2 {
      SameTravel(side, vs[..|vs| - 1]);
      assert Views(side, vs)[..|vs| - 1] == Views(side, vs[..|vs| - 1]);
    }
  }

  /**
   * The bound carried along a run with n raises so far: a raise is paid for by the way back
   * to the clear and the way out again, each hyst + 2 at least.
   */
  ghost predicate Paid(limit: int, hyst: int, active: bool, n: nat, vs: seq<int>) {
    n > 0 ==>
      && vs != []
      && var last, gap := vs[|vs| - 1], hyst + 2;
         Variation(vs) >= 2 * gap * (n - 1) +
           if active then Pos(limit + 1 - last) else gap + Pos(last - (limit - hyst - 1))
  }

  lemma Travel(vs: seq<int>, v: int)
    ensures Variation(vs + [v]) >= Variation(vs)
    ensures vs != [] ==> Variation(vs + [v]) == Variation(vs) + Abs(v - vs[|vs| - 1])
  {
    assert (vs + [v])[..|vs + [v]| - 1] == vs;
  }

  lemma OneMoreRaise(gap: int, n: nat)
    requires n > 0
    ensures 2 * gap * (n - 1) + 2 * gap == 2 * gap * n
  {
  }

  /** One sample keeps the bound: it raises beyond the limit only, and clears below the hysteresis only. */
  lemma SamplePays(limit: int, hyst: int, active: bool, after: bool, n: nat, vs: seq<int>, v: int)
    requires Paid(limit, hyst, active, n, vs) && (active ==> n > 0)
    requires !active && after ==> v > limit
    requires active && !after ==> v < limit - hyst
    ensures Paid(limit, hyst, after, n + (if after && !active then 1 else 0), vs + [v])
  {
    Travel(vs, v);
    if n > 0 {
      OneMoreRaise(hyst + 2, n);
    }
  }

  /** What the last sample of a run adds to its state, its events and its values. */
  lemma LastSample(side: Event, t: Threshold, rs: seq<Reading>)
    requires rs != []
    ensures var before, last := rs[..|rs| - 1], rs[|rs| - 1];
            var st, st' := StateAfter(Clear, Fixed(t, before)), StateAfter(Clear, Fixed(t, rs));
            && st' == Evaluate(t, st, last)
            && Count(Events(Clear, Fixed(t, rs)), side) ==
               Count(Events(Clear, Fixed(t, before)), side) + (if st != st' && EventOf(st') == side then 1 else 0)
            && Views(side, Values(rs)) ==
               if last.valid then Views(side, Values(before)) + [Seen(side, last.value)] else Views(side, Values(before))
  {
    var before := rs[..|rs| - 1];
    assert Fixed(t, rs)[..|rs| - 1] == Fixed(t, before);
    var st, st' := StateAfter(Clear, Fixed(t, before)), StateAfter(Clear, Fixed(t, rs));
    var sofar := Events(Clear, Fixed(t, before));
    assert sofar + [] == sofar;
    assert Views(side, Values(before)) + [] == Views(side, Values(before));
    assert Events(Clear, Fixed(t, rs)) == if st == st' then sofar else sofar + [EventOf(st')];
    assert (sofar + [EventOf(st')])[..|sofar + [EventOf(st')]| - 1] == sofar;
  }

  lemma {:induction false} RunPays(side: Event, t: Threshold, rs: seq<Reading>)
    requires side != Cleared
    ensures var st, n := StateAfter(Clear, Fixed(t, rs)), Count(Events(Clear, Fixed(t, rs)), side);
            && Paid(Limit(side, t), t.hyst, st == Side(side), n, Views(side, Values(rs)))
            && (st == Side(side) ==> n > 0)
    decreases |rs|
  {
    if rs == [] {
      assert Fixed(t, rs) == [];
    } else {
      hide Paid, StateAfter, Events, Count, Values, Variation;
      var before, last := rs[..|rs| - 1], rs[|rs| - 1];
      RunPays(side, t, before);
      LastSample(side, t, rs);
      var st, st' := StateAfter(Clear, Fixed(t, before)), StateAfter(Clear, Fixed(t, rs));
      if last.valid {
        SamplePays(Limit(side, t), t.hyst, st == Side(side), st' == Side(side),
                   Count(Events(Clear, Fixed(t, before)), side), Views(side, Values(before)), Seen(side, last.value));
      }
    }
  }

  lemma NotPositive(gap: int, k: nat)
    requires gap <= 0
    ensures 2 * gap * k <= 0
  {
  }

  lemma Bound(limit: int, hyst: int, active: bool, n: nat, vs: seq<int>)
    requires n >= 1 && Paid(limit, hyst, active, n, vs)
    ensures Variation(vs) >= 2 * (hyst + 2) * (n - 1)
  {
    hide Variation;
    if hyst + 2 < 0 {
      NotPositive(hyst + 2, n - 1);
      hide Paid;
    }
  }

  lemma WellAbove(hyst: int, n: nat)
    requires n >= 1
    ensures 2 * (hyst + 2) * (n - 1) == 2 * hyst * (n - 1) + 4 * (n - 1)
  {
  }

  /**
   * No chatter: n raises of one side, from the clear state and under fixed limits, need the
   * valid samples to travel at least 2 * (hysteresis + 2) between any two of them.
   */
  lemma RaisesNeedTravel(side: Event, t: Threshold, rs: seq<Reading>)
    requires side != Cleared
    ensures var n := Count(Events(Clear, Fixed(t, rs)), side);
            && (n >= 1 ==> Variation(Values(rs)) >= 2 * (t.hyst + 2) * (n - 1))
            && (n >= 2 ==> Variation(Values(rs)) > 2 * t.hyst * (n - 1))
  {
    hide Paid, StateAfter, Events, Count, Values, Variation, Fixed, Views;
    RunPays(side, t, rs);
    SameTravel(side, Values(rs));
    var st, n := StateAfter(Clear, Fixed(t, rs)), Count(Events(Clear, Fixed(t, rs)), side);
    if n >= 1 {
      Bound(Limit(side, t), t.hyst, st == Side(side), n, Views(side, Values(rs)));
      WellAbove(t.hyst, n);
    }
  }

  /* ---- a constant sample ---- */

  ghost predicate SettlesInTwo(t: Threshold) {
    forall st, v :: Judge(t, Judge(t, Judge(t, st, v), v), v) == Judge(t, Judge(t, st, v), v)
  }

  /** A constant sample settles within two evaluations exactly when the hysteresis is at least -1. */
  lemma SettlesIff(t: Threshold)
    ensures SettlesInTwo(t) <==> t.hyst >= -1
  {
    if t.hyst < -1 {
      var v := t.high + 1;
      assert Judge(t, Clear, v) == ActiveHigh && Judge(t, ActiveHigh, v) == Clear;
    }
  }

  /* ---- the service ---- */

  datatype Reply = Accepted | NotInitialised | InvalidArg

  datatype Notice = Notice(sensor: nat, event: Event, reading: Reading)

  /** The notices of one evaluation of the first k sensors. */
  function Notices(ts: seq<Threshold>, sts: seq<AlarmState>, rs: seq<Reading>, k: nat): seq<Notice>
    requires k <= |ts| == |sts| == |rs|
  {
    if k == 0 then [] else
    var i := k - 1;
    var after := Evaluate(ts[i], sts[i], rs[i]);
    Notices(ts, sts, rs, i) + if after == sts[i] then [] else [Notice(i, EventOf(after), rs[i])]
  }

  class Alarms {
    var initialised: bool
    const alarmState: array<AlarmState>
    const thresholds: array<Threshold>

    ghost predicate Valid() {
      alarmState.Length == thresholds.Length == SENSORS
    }

    constructor ()
      ensures Valid() && !initialised && fresh(alarmState) && fresh(thresholds)
      ensures forall i :: 0 <= i < SENSORS ==> alarmState[i] == Clear
    {
      initialised := false;
      alarmState := new AlarmState[SENSORS](i => Clear);
      thresholds := new Threshold[SENSORS](i => Threshold(0, 0, 0));
    }

    /** Default limits, everything clear; subscribed tells whether the sensor service took the callback. */
    method Init(subscribed: bool) returns (reply: Reply)
      requires Valid()
      modifies this, alarmState, thresholds
      ensures forall i :: 0 <= i < SENSORS ==> alarmState[i] == Clear
      ensures thresholds[TEMPERATURE] == Threshold(3500, 0, 200)
      ensures thresholds[HUMIDITY] == Threshold(8000, 2000, 500)
      ensures thresholds[PRESSURE] == Threshold(10500, 9500, 50)
      ensures forall i :: 3 <= i < SENSORS ==> thresholds[i] == Threshold(0, 0, 0)
      ensures initialised == subscribed && reply == if subscribed then Accepted else NotInitialised
    {
      initialised := false;
      forall i | 0 <= i < SENSORS { alarmState[i] := Clear; }
      forall i | 0 <= i < SENSORS { thresholds[i] := Threshold(0, 0, 0); }
      thresholds[TEMPERATURE] := Threshold(3500, 0, 200);
      thresholds[HUMIDITY] := Threshold(8000, 2000, 500);
      thresholds[PRESSURE] := Threshold(10500, 9500, 50);
      if !subscribed {
        return NotInitialised;
      }
      initialised := true;
      return Accepted;
    }

    method SetThresholds(sensor: int, high: int, low: int, hyst: int) returns (reply: Reply)
      requires Valid()
      modifies thresholds
      ensures reply == if !initialised then NotInitialised else if 0 <= sensor < SENSORS then Accepted else InvalidArg
      ensures thresholds[..] ==
              if reply == Accepted then old(thresholds[..])[sensor := Threshold(high, low, hyst)] else old(thresholds[..])
    {
      if !initialised {
        return NotInitialised;
      }
      if sensor < 0 || sensor >= SENSORS {
        return InvalidArg;
      }
      thresholds[sensor] := Threshold(high, low, hyst);
      return Accepted;
    }

    /** Every alarm cleared, whatever the samples say. */
    method AckAll() returns (reply: Reply)
      requires Valid()
      modifies alarmState
      ensures reply == if initialised then Accepted else NotInitialised
      ensures forall i :: 0 <= i < SENSORS ==> alarmState[i] == if initialised then Clear else old(alarmState[i])
    {
      if !initialised {
        return NotInitialised;
      }
      for i := 0 to SENSORS
        invariant forall j :: 0 <= j < SENSORS ==> alarmState[j] == if j < i then Clear else old(alarmState[j])
      {
        alarmState[i] := Clear;
      }
      return Accepted;
    }

    /** One snapshot evaluated: every sensor takes its step, and subscribers are told of each change. */
    method EvaluateSnapshot(readings: seq<Reading>) returns (notices: seq<Notice>)
      requires Valid() && |readings| == SENSORS
      modifies alarmState
      ensures forall i :: 0 <= i < SENSORS ==> alarmState[i] == Evaluate(thresholds[i], old(alarmState[i]), readings[i])
      ensures notices == Notices(thresholds[..], old(alarmState[..]), readings, SENSORS)
    {
      notices := [];
      ghost var before := alarmState[..];
      for i := 0 to SENSORS
        invariant forall j :: 0 <= j < SENSORS ==>
                    alarmState[j] == if j < i then Evaluate(thresholds[j], before[j], readings[j]) else before[j]
        invariant notices == Notices(thresholds[..], before, readings, i)
      {
        var r, t := readings[i], thresholds[i];
        if r.valid {
          var st := alarmState[i];
          match st {
            case Clear =>
              if r.value > t.high {
                alarmState[i], notices := ActiveHigh, notices + [Notice(i, RaisedHigh, r)];
              } else if r.value < t.low {
                alarmState[i], notices := ActiveLow, notices + [Notice(i, RaisedLow, r)];
              }
            case ActiveHigh =>
              if r.value < t.high - t.hyst {
                alarmState[i], notices := Clear, notices + [Notice(i, Cleared, r)];
              }
            case ActiveLow =>
              if r.value > t.low + t.hyst {
                alarmState[i], notices := Clear, notices + [Notice(i, Cleared, r)];
              }
          }
        }
      }
    }
  }
}
