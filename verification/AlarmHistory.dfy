/**
 * The alarm of one sensor told from the samples it has met: what one more sample does, when an
 * alarm is active after a whole run, and the symmetry of the two sides.
 */
module AlarmHistory {
  import opened SensorService
  import opened AlarmService

  /** A run without its last sample. */
  function Earlier(run: seq<Input>): seq<Input>
    requires run != []
  {
    run[..|run| - 1]
  }

  /** The last sample changed nothing, or brought the sensor to a state with exactly one event. */
  ghost predicate Brings(st: AlarmState, run: seq<Input>, after: AlarmState, fired: seq<Event>)
    requires run != []
  {
    StateAfter(st, run) == after && Events(st, run) == Events(st, Earlier(run)) + fired
  }

  /** A sample that is not valid changes nothing and tells no one. */
  lemma InvalidIsSkipped(st: AlarmState, run: seq<Input>)
    requires run != [] && !run[|run| - 1].reading.valid
    ensures Brings(st, run, StateAfter(st, Earlier(run)), [])
  {
  }

  /**
   * No excursion is missed: from the clear state a valid sample above the upper limit raises the
   * high alarm, one below the lower limit raises the low alarm, each with exactly one event, and
   * one within the limits does neither.
   */
  lemma ExcursionIsRaised(st: AlarmState, run: seq<Input>)
    requires run != [] && run[|run| - 1].reading.valid && StateAfter(st, Earlier(run)) == Clear
    ensures var v, t := run[|run| - 1].reading.value, run[|run| - 1].limits;
            && (v > t.high ==> Brings(st, run, ActiveHigh, [RaisedHigh]))
            && (v < t.low && v <= t.high ==> Brings(st, run, ActiveLow, [RaisedLow]))
            && (t.low <= v <= t.high ==> Brings(st, run, Clear, []))
  {
  }

  /** An active alarm clears exactly when a valid sample passes its hysteresis, and never turns into the other one at once. */
  lemma ClearsIff(st: AlarmState, run: seq<Input>)
    requires run != [] && StateAfter(st, Earlier(run)) != Clear
    ensures var v, t := run[|run| - 1].reading.value, run[|run| - 1].limits;
            var was := StateAfter(st, Earlier(run));
            var back := run[|run| - 1].reading.valid && if was == ActiveHigh then v < t.high - t.hyst else v > t.low + t.hyst;
            if back then Brings(st, run, Clear, [Cleared]) else Brings(st, run, was, [])
  {
  }

  /** After a valid sample the sensor is clear only within the limits, or because this sample passed the hysteresis. */
  lemma QuietOnlyInside(st: AlarmState, run: seq<Input>)
    requires run != [] && run[|run| - 1].reading.valid && StateAfter(st, run) == Clear
    ensures var v, t := run[|run| - 1].reading.value, run[|run| - 1].limits;
            || t.low <= v <= t.high
            || (StateAfter(st, Earlier(run)) == ActiveHigh && v < t.high - t.hyst)
            || (StateAfter(st, Earlier(run)) == ActiveLow && v > t.low + t.hyst)
  {
  }

  /* ---- the two sides ---- */

  function MirrorState(st: AlarmState): AlarmState {
    match st case Clear => Clear case ActiveHigh => ActiveLow case ActiveLow => ActiveHigh
  }

  function MirrorEvent(e: Event): Event {
    match e case Cleared => Cleared case RaisedHigh => RaisedLow case RaisedLow => RaisedHigh
  }

  function MirrorEvents(es: seq<Event>): (ms: seq<Event>)
    ensures |ms| == |es| && forall i :: 0 <= i < |es| ==> ms[i] == MirrorEvent(es[i])
  {
    seq<Event>(|es|, i requires 0 <= i < |es| => MirrorEvent(es[i]))
  }

  /** A sample and its limits seen upside down. */
  function MirrorInput(x: Input): Input {
    Input(Threshold(-x.limits.low, -x.limits.high, x.limits.hyst), Reading(-x.reading.value, x.reading.valid))
  }

  function Mirror(run: seq<Input>): (ms: seq<Input>)
    ensures |ms| == |run| && forall i :: 0 <= i < |run| ==> ms[i] == MirrorInput(run[i])
  {
    seq<Input>(|run|, i requires 0 <= i < |run| => MirrorInput(run[i]))
  }

  /** No value lies beyond both limits at once. */
  predicate Apart(run: seq<Input>) {
    forall i :: 0 <= i < |run| ==> run[i].limits.low <= run[i].limits.high + 1
  }

  /** While no value can lie beyond both limits, negating samples and limits swaps the two alarms and their events. */
  lemma {:induction false} SidesMirror(st: AlarmState, run: seq<Input>)
    requires Apart(run)
    ensures StateAfter(MirrorState(st), Mirror(run)) == MirrorState(StateAfter(st, run))
    ensures Events(MirrorState(st), Mirror(run)) == MirrorEvents(Events(st, run))
    decreases |run|
  {
    if run != [] {
      var before := Earlier(run);
      SidesMirror(st, before);
      assert Earlier(Mirror(run)) == Mirror(before);
      MirrorStep(StateAfter(st, before), run[|run| - 1]);
      hide Evaluate;
      MirrorMore(Events(st, before), StateAfter(st, run));
    }
  }

  lemma MirrorStep(st: AlarmState, x: Input)
    requires x.limits.low <= x.limits.high + 1
    ensures var m := MirrorInput(x);
            Evaluate(m.limits, MirrorState(st), m.reading) == MirrorState(Evaluate(x.limits, st, x.reading))
  {
  }

  lemma MirrorMore(es: seq<Event>, after: AlarmState)
    ensures MirrorEvents(es + [EventOf(after)]) == MirrorEvents(es) + [EventOf(MirrorState(after))]
    ensures MirrorEvents(es + []) == MirrorEvents(es) + []
  {
  }

  /**
   * Exactly then: with the limits further the wrong way round, the sample between them raises the
   * high alarm on either view.
   */
  lemma SidesMirrorIff(t: Threshold)
    ensures (forall v: int ::
               var x := Input(t, Reading(v, true));
               StateAfter(Clear, Mirror([x])) == MirrorState(StateAfter(Clear, [x]))) <==> t.low <= t.high + 1
  {
    forall v: int
      ensures var x := Input(t, Reading(v, true));
              StateAfter(Clear, Mirror([x])) == MirrorState(StateAfter(Clear, [x])) <==> !(v > t.high && v < t.low)
    {
      var x := Input(t, Reading(v, true));
      assert [x][..0] == [] && Mirror([x])[..0] == [];
    }
    if t.low > t.high + 1 {
      var x := Input(t, Reading(t.high + 1, true));
      assert StateAfter(Clear, Mirror([x])) != MirrorState(StateAfter(Clear, [x]));
    }
  }

  /* ---- a whole run ---- */

  /** The high alarm was active before sample i because of the sample before it, or from the start. */
  ghost predicate HighBegins(st: AlarmState, run: seq<Input>, i: nat)
    requires i <= |run|
  {
    if i == 0 then st == ActiveHigh
    else && run[i - 1].reading.valid && run[i - 1].reading.value > run[i - 1].limits.high
         && StateAfter(st, run[..i - 1]) == Clear
  }

  /** From sample i on, no valid sample lies below the upper limit by more than the hysteresis. */
  ghost predicate StaysUp(run: seq<Input>, i: nat) {
    forall j :: i <= j < |run| && run[j].reading.valid ==> run[j].reading.value >= run[j].limits.high - run[j].limits.hyst
  }

  ghost predicate HighSince(st: AlarmState, run: seq<Input>, i: nat) {
    i <= |run| && HighBegins(st, run, i) && StaysUp(run, i)
  }

  /**
   * After a whole run the high alarm is active exactly when some valid sample above the upper
   * limit met the sensor clear, or the run began with the alarm, and no valid sample since has
   * passed the hysteresis.
   */
  lemma {:induction false} HighActiveIff(st: AlarmState, run: seq<Input>)
    ensures StateAfter(st, run) == ActiveHigh <==> exists i: nat :: HighSince(st, run, i)
    decreases |run|
  {
    if run == [] {
      assert st == ActiveHigh ==> HighSince(st, run, 0);
    } else {
      var before, n := Earlier(run), |run| - 1;
      HighActiveIff(st, before);
      hide StateAfter;
      forall i: nat | i <= n ensures HighSince(st, run, i) <==> HighSince(st, before, i) && StaysUp(run, n) {
        EarlierSince(st, run, i);
      }
      LastBegins(st, run);
      if StateAfter(st, run) == ActiveHigh {
        if StateAfter(st, before) == ActiveHigh {
          var i: nat :| HighSince(st, before, i);
          assert HighSince(st, run, i);
        } else {
          assert HighSince(st, run, n + 1);
        }
      }
    }
  }

  lemma EarlierSince(st: AlarmState, run: seq<Input>, i: nat)
    requires run != [] && i <= |run| - 1
    ensures HighSince(st, run, i) <==> HighSince(st, Earlier(run), i) && StaysUp(run, |run| - 1)
  {
    hide StateAfter;
    var before := Earlier(run);
    if i > 0 {
      assert run[..i - 1] == before[..i - 1];
    }
    assert forall j :: 0 <= j < |before| ==> run[j] == before[j];
  }

  lemma LastBegins(st: AlarmState, run: seq<Input>)
    requires run != []
    ensures StateAfter(st, run) == ActiveHigh <==>
            || HighBegins(st, run, |run|)
            || (StateAfter(st, Earlier(run)) == ActiveHigh && StaysUp(run, |run| - 1))
    ensures !(HighBegins(st, run, |run|) && StateAfter(st, Earlier(run)) == ActiveHigh)
  {
  }

  /** The low alarm, the same upside down. */
  ghost predicate LowSince(st: AlarmState, run: seq<Input>, i: nat) {
    && i <= |run|
    && (if i == 0 then st == ActiveLow
        else && run[i - 1].reading.valid && run[i - 1].reading.value < run[i - 1].limits.low
             && StateAfter(st, run[..i - 1]) == Clear)
    && forall j :: i <= j < |run| && run[j].reading.valid ==> run[j].reading.value <= run[j].limits.low + run[j].limits.hyst
  }

  lemma SinceMirrors(st: AlarmState, run: seq<Input>, i: nat)
    requires Apart(run)
    ensures LowSince(st, run, i) <==> HighSince(MirrorState(st), Mirror(run), i)
  {
    hide StateAfter;
    if 0 < i <= |run| {
      var before := run[..i - 1];
      SidesMirror(st, before);
      assert Mirror(run)[..i - 1] == Mirror(before);
    }
  }

  /** The low alarm of a whole run, while no value can lie beyond both limits. */
  lemma LowActiveIff(st: AlarmState, run: seq<Input>)
    requires Apart(run)
    ensures StateAfter(st, run) == ActiveLow <==> exists i: nat :: LowSince(st, run, i)
  {
    hide StateAfter, LowSince, HighSince;
    SidesMirror(st, run);
    HighActiveIff(MirrorState(st), Mirror(run));
    forall i: nat ensures LowSince(st, run, i) <==> HighSince(MirrorState(st), Mirror(run), i) {
      SinceMirrors(st, run, i);
    }
  }

  /* ---- one snapshot ---- */

  /** The notice of one sensor in one evaluation, if it gets one. */
  ghost predicate Told(ts: seq<Threshold>, sts: seq<AlarmState>, rs: seq<Reading>, n: Notice)
    requires |ts| == |sts| == |rs|
  {
    var i := n.sensor;
    && i < |ts| && n.reading == rs[i] && rs[i].valid
    && match n.event
       case RaisedHigh => sts[i] == Clear && rs[i].value > ts[i].high
       case RaisedLow => sts[i] == Clear && rs[i].value < ts[i].low && rs[i].value <= ts[i].high
       case Cleared =>
         || (sts[i] == ActiveHigh && rs[i].value < ts[i].high - ts[i].hyst)
         || (sts[i] == ActiveLow && rs[i].value > ts[i].low + ts[i].hyst)
  }

  /** The subscribers are told of every sensor whose alarm moves and of no other, each once, in the order of the sensors. */
  lemma {:induction false} NoticesTell(ts: seq<Threshold>, sts: seq<AlarmState>, rs: seq<Reading>, k: nat)
    requires k <= |ts| == |sts| == |rs|
    ensures var ns := Notices(ts, sts, rs, k);
            && (forall n :: n in ns <==> n.sensor < k && Told(ts, sts, rs, n))
            && (forall a, b :: 0 <= a < b < |ns| ==> ns[a].sensor < ns[b].sensor)
  {
    if k > 0 {
      NoticesTell(ts, sts, rs, k - 1);
      hide Notices;
      OneNotice(ts, sts, rs, k - 1);
      LastNotice(ts, sts, rs, k);
    }
  }

  function NoticeOf(ts: seq<Threshold>, sts: seq<AlarmState>, rs: seq<Reading>, i: nat): seq<Notice>
    requires i < |ts| == |sts| == |rs|
  {
    var after := Evaluate(ts[i], sts[i], rs[i]);
    if after == sts[i] then [] else [Notice(i, EventOf(after), rs[i])]
  }

  lemma LastNotice(ts: seq<Threshold>, sts: seq<AlarmState>, rs: seq<Reading>, k: nat)
    requires 0 < k <= |ts| == |sts| == |rs|
    ensures Notices(ts, sts, rs, k) == Notices(ts, sts, rs, k - 1) + NoticeOf(ts, sts, rs, k - 1)
  {
  }

  lemma OneNotice(ts: seq<Threshold>, sts: seq<AlarmState>, rs: seq<Reading>, i: nat)
    requires i < |ts| == |sts| == |rs|
    ensures forall n :: n in NoticeOf(ts, sts, rs, i) <==> n.sensor == i && Told(ts, sts, rs, n)
    ensures |NoticeOf(ts, sts, rs, i)| <= 1
  {
  }
}
