/**
 * What an edit session that is cancelled or times out leaves behind besides the configuration
 * in memory: the slave address of the bus, the store, and the question whose timeout ended it.
 * Each is said exactly, and shown on a run from boot.
 */
module EditSessions {
  import opened Bytes
  import opened ConfigParams
  import opened Lifecycle
  import ConfigService

  /** The controller's next step when every call it makes succeeds. */
  const MOVE: Action := Move(true, ConfigService.Nothing, true)

  /** The state behind the enter event at the head of the queue. */
  function Began(s: System): System {
    Step(s, MOVE)
  }

  /** From s, an edit session runs through these actions and the last one takes a cancel or a timeout. */
  predicate IsCancelled(s: System, actions: seq<Action>, last: Action) {
    && s.mode == Operational && s.place == EventLoop && s.queue != [] && s.queue[0] == EditEnter
    && KeepsEditing(Began(s), actions)
    && last.Move?
    && var ending := Run(Began(s), actions);
       ending.queue != [] && (ending.queue[0] == EditCancel || ending.queue[0] == EditTimeout)
  }

  function Ended(s: System, actions: seq<Action>, last: Action): System {
    Step(Run(Began(s), actions), last)
  }

  /* ---- the slave address ---- */

  /** The address an action moves the bus to. */
  function MovedBy(a: Action): Option<int> {
    if a.SetParam? && a.id.SlaveAddr? && a.saves && 1 <= a.value <= 247 then Some(a.value) else None
  }

  /** The last address a run of actions moves the bus to. */
  function LastAddress(actions: seq<Action>): Option<int> {
    if actions == [] then None else
    var later := LastAddress(actions[1..]);
    if later.Some? then later else MovedBy(actions[0])
  }

  lemma EditingMovesBus(s: System, a: Action)
    requires s.mode == EditingConfig && s.place == EventLoop && Step(s, a).mode == EditingConfig
    ensures Step(s, a).address == if MovedBy(a).Some? then MovedBy(a) else s.address
    ensures Step(s, a).place == EventLoop
  {
    hide Applied;
  }

  lemma {:induction false} SessionMovesBus(s: System, actions: seq<Action>)
    requires s.place == EventLoop && KeepsEditing(s, actions)
    ensures Run(s, actions).address == if LastAddress(actions).Some? then LastAddress(actions) else s.address
    decreases |actions|
  {
    hide Step, MovedBy;
    if actions != [] {
      EditingMovesBus(s, actions[0]);
      SessionMovesBus(Step(s, actions[0]), actions[1..]);
    }
  }

  lemma EnterKeepsBus(s: System)
    requires s.mode == Operational && s.place == EventLoop && s.queue != [] && s.queue[0] == EditEnter
    ensures Began(s).address == s.address && Began(s).place == EventLoop && Began(s).config == ConfigService.Snapshot(s.config)
  {
  }

  /**
   * After a cancel or timeout the bus is at the address it had on entry exactly when the session
   * moved it nowhere, or last of all back there.
   */
  lemma CancelKeepsAddressIff(s: System, actions: seq<Action>, last: Action)
    requires IsCancelled(s, actions, last)
    ensures Ended(s, actions, last).address == s.address <==>
            LastAddress(actions) == None || LastAddress(actions) == s.address
  {
    hide Run, KeepsEditing;
    EnterKeepsBus(s);
    SessionMovesBus(Began(s), actions);
    SessionKeepsSnapshot(Began(s), actions);
  }

  /* ---- the store ---- */

  /** What an action saves from a state. */
  function SavedBy(s: System, a: Action): Option<Params> {
    if a.SetParam? && a.saves && Valid(a.id, a.value, s.config.params)
    then Some(Applied(s.config.params, a.id, a.value)) else None
  }

  /** What a session saved last. */
  function LastSaved(s: System, actions: seq<Action>): Option<Params>
    decreases |actions|
  {
    if actions == [] then None else
    var later := LastSaved(Step(s, actions[0]), actions[1..]);
    if later.Some? then later else SavedBy(s, actions[0])
  }

  lemma EditingSaves(s: System, a: Action)
    requires s.mode == EditingConfig && s.place == EventLoop && Step(s, a).mode == EditingConfig
    ensures Step(s, a).config.stored == if SavedBy(s, a).Some? then SavedBy(s, a) else s.config.stored
    ensures Step(s, a).place == EventLoop
  {
    hide Valid, Applied;
  }

  lemma {:induction false} SessionSaves(s: System, actions: seq<Action>)
    requires s.place == EventLoop && KeepsEditing(s, actions)
    ensures Run(s, actions).config.stored == if LastSaved(s, actions).Some? then LastSaved(s, actions) else s.config.stored
    decreases |actions|
  {
    hide Step, SavedBy;
    if actions != [] {
      EditingSaves(s, actions[0]);
      SessionSaves(Step(s, actions[0]), actions[1..]);
    }
  }

  /**
   * After a cancel or timeout the store holds the configuration of the entry exactly when the
   * restore was saved, or the session's last successful save was that configuration, or the
   * session saved nothing and the store held it on entry.
   */
  lemma CancelKeepsStoreIff(s: System, actions: seq<Action>, last: Action)
    requires IsCancelled(s, actions, last)
    ensures var saved := LastSaved(Began(s), actions);
            Ended(s, actions, last).config.stored == Some(s.config.params) <==>
              last.saves || (if saved.Some? then saved == Some(s.config.params) else s.config.stored == Some(s.config.params))
  {
    hide Run, KeepsEditing, LastSaved;
    EnterKeepsBus(s);
    SessionSaves(Began(s), actions);
    SessionKeepsSnapshot(Began(s), actions);
  }

  /* ---- whose timeout ---- */

  /** An event that entered the queue; own: by the edit timer firing. */
  datatype Arrival = Arrival(event: Event, own: bool)

  function Arrived(s: System, a: Action): seq<Arrival> {
    if |s.queue| >= QUEUE_DEPTH then [] else
    match a
    case Post(e) => [Arrival(e, false)]
    case InitTimerFires => if s.initTimer then [Arrival(Fault(INIT_TIMEOUT), false)] else []
    case EditTimerFires => if s.editTimer then [Arrival(EditTimeout, true)] else []
    case _ => []
  }

  function Arrivals(s: System, actions: seq<Action>): seq<Arrival>
    decreases |actions|
  {
    if actions == [] then [] else Arrived(s, actions[0]) + Arrivals(Step(s, actions[0]), actions[1..])
  }

  function EventsOf(arrivals: seq<Arrival>): (es: seq<Event>)
    ensures |es| == |arrivals| && forall i :: 0 <= i < |es| ==> es[i] == arrivals[i].event
  {
    seq<Event>(|arrivals|, i requires 0 <= i < |arrivals| => arrivals[i].event)
  }

  /** The events a run finds and gets, in the order in which they are taken. */
  function History(s: System, actions: seq<Action>): seq<Event> {
    s.queue + EventsOf(Arrivals(s, actions))
  }

  lemma AdvanceQueue(s: System, ok: bool, loaded: ConfigService.Loaded)
    requires s.place != EventLoop
    ensures Advance(s, ok, loaded).queue ==
            if s.queue != [] && s.place in {FirstPoll, SecondPoll, ThirdPoll, FourthPoll} then s.queue[1..] else s.queue
  {
    hide Call, PollForAbort, ConfigService.ApplyLoaded;
  }

  lemma ReceiveQueue(s: System, saves: bool)
    ensures Receive(s, saves).queue == if s.queue != [] then s.queue[1..] else s.queue
  {
    hide ConfigService.Restore, ConfigService.Save, ConfigService.Snapshot;
  }

  lemma StepQueue(s: System, a: Action)
    ensures Step(s, a).queue == (if Takes(s, a) then s.queue[1..] else s.queue) + EventsOf(Arrived(s, a))
    ensures Takes(s, a) ==> s.queue != [] && Arrived(s, a) == []
  {
    hide Advance, Receive, ConfigService.SetParam;
    if a.Move? {
      if s.place == EventLoop {
        ReceiveQueue(s, a.saves);
      } else {
        AdvanceQueue(s, a.ok, a.loaded);
      }
    }
  }

  lemma HistoryStep(s: System, a: Action, rest: seq<Action>)
    ensures History(s, [a] + rest) ==
            (if Takes(s, a) then [s.queue[0]] else []) + History(Step(s, a), rest)
  {
    hide Step;
    StepQueue(s, a);
    assert ([a] + rest)[1..] == rest;
    var first, later := Arrived(s, a), Arrivals(Step(s, a), rest);
    assert EventsOf(first + later) == EventsOf(first) + EventsOf(later);
    if Takes(s, a) {
      assert s.queue == [s.queue[0]] + s.queue[1..];
    }
  }

  /** The queue is what is left of the history. */
  lemma {:induction false} QueueIsHistory(s: System, actions: seq<Action>)
    ensures TakenIn(s, actions) <= |History(s, actions)|
    ensures Run(s, actions).queue == History(s, actions)[TakenIn(s, actions)..]
    decreases |actions|
  {
    hide Step, Takes;
    if actions == [] {
      assert History(s, actions) == s.queue;
    } else {
      assert actions == [actions[0]] + actions[1..];
      HistoryStep(s, actions[0], actions[1..]);
      QueueIsHistory(Step(s, actions[0]), actions[1..]);
    }
  }

  /** The next event a run would take is a timeout that its own timer did not send. */
  predicate NextIsForeignTimeout(s: System, actions: seq<Action>) {
    var k, arrivals := TakenIn(s, actions), Arrivals(s, actions);
    && k < |s.queue| + |arrivals|
    && if k < |s.queue| then s.queue[k] == EditTimeout else arrivals[k - |s.queue|] == Arrival(EditTimeout, false)
  }

  /** The next event a run would take is the timeout its own timer sent. */
  predicate NextIsOwnTimeout(s: System, actions: seq<Action>) {
    var k, arrivals := TakenIn(s, actions), Arrivals(s, actions);
    |s.queue| <= k < |s.queue| + |arrivals| && arrivals[k - |s.queue|] == Arrival(EditTimeout, true)
  }

  lemma {:induction false} ForeignArrivalIsPosted(s: System, actions: seq<Action>, i: nat)
    requires i < |Arrivals(s, actions)| && Arrivals(s, actions)[i] == Arrival(EditTimeout, false)
    ensures Post(EditTimeout) in actions
    decreases |actions|
  {
    hide Step;
    if i < |Arrived(s, actions[0])| {
      assert actions[0] == Post(EditTimeout);
    } else {
      ForeignArrivalIsPosted(Step(s, actions[0]), actions[1..], i - |Arrived(s, actions[0])|);
    }
  }

  lemma StoppedTimerStays(s: System, a: Action)
    requires s.mode == EditingConfig && s.place == EventLoop && Step(s, a).mode == EditingConfig
    ensures !s.editTimer ==> !Step(s, a).editTimer
    ensures |Arrived(s, a)| > 0 && Arrived(s, a)[0].own ==> !Step(s, a).editTimer
    ensures Step(s, a).place == EventLoop
  {
    hide Valid, Applied;
  }

  lemma {:induction false} NoTimerNoRestart(s: System, actions: seq<Action>)
    requires s.place == EventLoop && KeepsEditing(s, actions) && !s.editTimer
    ensures !Run(s, actions).editTimer
    decreases |actions|
  {
    hide Step;
    if actions != [] {
      StoppedTimerStays(s, actions[0]);
      NoTimerNoRestart(Step(s, actions[0]), actions[1..]);
    }
  }

  /** Once a session's timer has sent its timeout it no longer runs. */
  lemma {:induction false} OwnTimeoutStopsTimer(s: System, actions: seq<Action>, i: nat)
    requires s.place == EventLoop && KeepsEditing(s, actions)
    requires i < |Arrivals(s, actions)| && Arrivals(s, actions)[i].own
    ensures !Run(s, actions).editTimer
    decreases |actions|
  {
    hide Step;
    StoppedTimerStays(s, actions[0]);
    if i < |Arrived(s, actions[0])| {
      NoTimerNoRestart(Step(s, actions[0]), actions[1..]);
    } else {
      OwnTimeoutStopsTimer(Step(s, actions[0]), actions[1..], i - |Arrived(s, actions[0])|);
    }
  }

  /**
   * Whose timeout ends a session. It is a timeout at all exactly when the event the session has
   * come to is its own or a foreign one; a foreign one was in the queue when the session began,
   * or was posted by another task; and while the session's own timer runs only a foreign one
   * can end it.
   */
  lemma TimeoutIsForeignIff(s: System, actions: seq<Action>, last: Action)
    requires IsCancelled(s, actions, last)
    ensures var began := Began(s);
            var ending := Run(began, actions);
            var own, foreign := NextIsOwnTimeout(began, actions), NextIsForeignTimeout(began, actions);
            && (ending.queue[0] == EditTimeout <==> own || foreign) && !(own && foreign)
            && (foreign ==> EditTimeout in began.queue || Post(EditTimeout) in actions)
            && (ending.queue[0] == EditTimeout && ending.editTimer ==> foreign)
            && Ended(s, actions, last).mode == Operational
  {
    hide Run, KeepsEditing, Step, TakenIn;
    var began := Began(s);
    var k, arrivals := TakenIn(began, actions), Arrivals(began, actions);
    QueueIsHistory(began, actions);
    BeganInLoop(s);
    SessionKeepsSnapshot(began, actions);
    EndsOperational(Run(began, actions), last);
    if NextIsForeignTimeout(began, actions) && k >= |began.queue| {
      ForeignArrivalIsPosted(began, actions, k - |began.queue|);
    }
    if NextIsOwnTimeout(began, actions) {
      OwnTimeoutStopsTimer(began, actions, k - |began.queue|);
    }
  }

  lemma BeganInLoop(s: System)
    requires s.mode == Operational && s.place == EventLoop && s.queue != [] && s.queue[0] == EditEnter
    ensures Began(s).place == EventLoop
  {
  }

  lemma EndsOperational(s: System, last: Action)
    requires s.mode == EditingConfig && s.place == EventLoop && last.Move?
    requires s.queue != [] && (s.queue[0] == EditCancel || s.queue[0] == EditTimeout)
    ensures Step(s, last).mode == Operational
  {
  }

  /* ---- runs from boot ---- */

  /** A boot step, with the default configuration in the store. */
  const BOOT_MOVE: Action := Move(true, ConfigService.Blob(ConfigService.SCHEMA_VERSION, DEFAULTS), true)

  function Moves(n: nat): seq<Action> {
    if n == 0 then [] else [BOOT_MOVE] + Moves(n - 1)
  }

  /** The controller after a boot in which nothing failed. */
  const READY: System :=
    System(Operational, EventLoop, false, [], false, false, Calls(false), 1,
           ConfigService.Blob(ConfigService.SCHEMA_VERSION, DEFAULTS), ConfigService.FRESH, Some(1), [])

  lemma {:induction false} RunInTwo(s: System, first: seq<Action>, rest: seq<Action>)
    ensures Run(s, first + rest) == Run(Run(s, first), rest)
    decreases |first|
  {
    hide Step;
    if first == [] {
      assert first + rest == rest;
    } else {
      assert (first + rest)[1..] == first[1..] + rest;
      RunInTwo(Step(s, first[0]), first[1..], rest);
    }
  }

  lemma RunOne(s: System, a: Action, rest: seq<Action>)
    ensures Run(s, [a] + rest) == Run(Step(s, a), rest)
  {
    assert ([a] + rest)[1..] == rest;
  }

  lemma ConfigSteps()
    ensures var s := Boot(false, ConfigService.FRESH);
            var s5 := s.(initTimer := true, loaded := BOOT_MOVE.loaded, place := StartingSensors,
                         passed := {CheckingIntegrity, LoadingConfig, ApplyingConfig});
            Step(Step(Step(Step(Step(s, BOOT_MOVE), BOOT_MOVE), BOOT_MOVE), BOOT_MOVE), BOOT_MOVE) == s5
  {
    DefaultsLoad();
    DefaultsAreSafe();
    LoadOkIsSafeAndKept(DEFAULTS);
    hide Repair;
    var s := Boot(false, ConfigService.FRESH);
    var s1 := s.(initTimer := true, place := FirstPoll, passed := {CheckingIntegrity});
    assert Step(s, BOOT_MOVE) == s1;
    var s3 := s1.(loaded := BOOT_MOVE.loaded, place := ApplyingConfig, passed := {CheckingIntegrity, LoadingConfig});
    assert Step(Step(s1, BOOT_MOVE), BOOT_MOVE) == s3;
  }

  lemma ServiceSteps(s: System)
    requires s.place == StartingSensors && !s.gui && s.queue == [] && s.mode == Initialising
    requires s.passed == {CheckingIntegrity, LoadingConfig, ApplyingConfig} && s.gates == 0
    ensures Step(Step(Step(Step(Step(s, BOOT_MOVE), BOOT_MOVE), BOOT_MOVE), BOOT_MOVE), BOOT_MOVE) ==
            s.(mode := Operational, place := EventLoop, passed := Calls(false), gates := 1, initTimer := false,
               address := Some(s.config.params.slaveAddr))
  {
    var s2 := s.(place := ThirdPoll, passed := Calls(false));
    assert Step(Step(s, BOOT_MOVE), BOOT_MOVE) == s2;
  }

  /** A boot in which nothing fails makes the controller operational. */
  lemma BootsToReady()
    ensures Run(Boot(false, ConfigService.FRESH), Moves(10)) == READY
  {
    hide Step;
    var s := Boot(false, ConfigService.FRESH);
    ConfigSteps();
    FiveMoves(s);
    var s5 := Run(s, Moves(5));
    ServiceSteps(s5);
    FiveMoves(s5);
    assert Moves(10) == Moves(5) + Moves(5) by { TenMoves(); }
    RunInTwo(s, Moves(5), Moves(5));
  }

  lemma FiveMoves(s: System)
    ensures Run(s, Moves(5)) == Step(Step(Step(Step(Step(s, BOOT_MOVE), BOOT_MOVE), BOOT_MOVE), BOOT_MOVE), BOOT_MOVE)
  {
    hide Step;
    RunOne(s, BOOT_MOVE, Moves(4));
    var s1 := Step(s, BOOT_MOVE);
    RunOne(s1, BOOT_MOVE, Moves(3));
    var s2 := Step(s1, BOOT_MOVE);
    RunOne(s2, BOOT_MOVE, Moves(2));
    var s3 := Step(s2, BOOT_MOVE);
    RunOne(s3, BOOT_MOVE, Moves(1));
    var s4 := Step(s3, BOOT_MOVE);
    RunOne(s4, BOOT_MOVE, Moves(0));
  }

  lemma TenMoves()
    ensures Moves(10) == Moves(5) + Moves(5)
  {
    var m := [BOOT_MOVE];
    assert Moves(5) == m + m + m + m + m;
    assert Moves(10) == m + m + m + m + m + Moves(5);
  }

  /** The controller in a session that has just begun from there. */
  const EDITING: System :=
    READY.(mode := EditingConfig, editTimer := true, config := ConfigService.Snapshot(ConfigService.FRESH))

  lemma Enters()
    ensures Step(Step(READY, Post(EditEnter)), MOVE) == EDITING
  {
    assert Step(READY, Post(EditEnter)) == READY.(queue := [EditEnter]);
  }

  lemma FiveActions(s: System, tail: seq<Action>)
    requires |tail| == 5
    ensures Run(s, tail) == Step(Step(Step(Step(Step(s, tail[0]), tail[1]), tail[2]), tail[3]), tail[4])
  {
    hide Step;
    assert tail == [tail[0]] + ([tail[1]] + ([tail[2]] + ([tail[3]] + ([tail[4]] + []))));
    var s1 := Step(s, tail[0]);
    RunOne(s, tail[0], [tail[1]] + ([tail[2]] + ([tail[3]] + ([tail[4]] + []))));
    RunOne(s1, tail[1], [tail[2]] + ([tail[3]] + ([tail[4]] + [])));
    var s2 := Step(s1, tail[1]);
    RunOne(s2, tail[2], [tail[3]] + ([tail[4]] + []));
    var s3 := Step(s2, tail[2]);
    RunOne(s3, tail[3], [tail[4]] + []);
    RunOne(Step(s3, tail[3]), tail[4], []);
  }

  /** From boot into a session and on by three actions. */
  lemma SessionFromBoot(a: Action, b: Action, c: Action)
    ensures Run(Boot(false, ConfigService.FRESH), Moves(10) + [Post(EditEnter), MOVE, a, b, c]) ==
            Step(Step(Step(EDITING, a), b), c)
  {
    hide Step;
    BootsToReady();
    Enters();
    RunInTwo(Boot(false, ConfigService.FRESH), Moves(10), [Post(EditEnter), MOVE, a, b, c]);
    FiveActions(READY, [Post(EditEnter), MOVE, a, b, c]);
  }

  /** The slave address set and the session cancelled. */
  lemma AddressSession()
    ensures var s := Step(Step(Step(EDITING, SetParam(SlaveAddr, 7, true)), Post(EditCancel)), MOVE);
            s.mode == Operational && s.config.params == DEFAULTS && s.address == Some(7)
  {
    var s1 := Step(EDITING, SetParam(SlaveAddr, 7, true));
    assert s1.queue == [] && s1.address == Some(7) && s1.config.snapshot == Some(DEFAULTS) && s1.mode == EditingConfig;
    var s2 := s1.(queue := [EditCancel]);
    assert Step(s1, Post(EditCancel)) == s2;
  }

  /**
   * From boot: a session moves the bus to address 7 and is cancelled; the configuration says 1
   * again, the bus stays at 7.
   */
  lemma CancelLeavesTheAddress()
    ensures var s := Run(Boot(false, ConfigService.FRESH),
                         Moves(10) + [Post(EditEnter), MOVE, SetParam(SlaveAddr, 7, true), Post(EditCancel), MOVE]);
            s.mode == Operational && s.config.params == DEFAULTS && s.address == Some(7)
  {
    hide Step, Run;
    SessionFromBoot(SetParam(SlaveAddr, 7, true), Post(EditCancel), MOVE);
    AddressSession();
  }

  /** A cancel whose restore the store does not save. */
  const UNSAVED: Action := Move(true, ConfigService.Nothing, false)

  lemma StoreSession()
    ensures var s := Step(Step(Step(EDITING, SetParam(PollInterval, 500, true)), Post(EditCancel)), UNSAVED);
            s.mode == Operational && s.config.params == DEFAULTS && s.config.stored == Some(DEFAULTS.(pollInterval := 500))
  {
    var s1 := Step(EDITING, SetParam(PollInterval, 500, true));
    assert s1.queue == [] && s1.config.snapshot == Some(DEFAULTS) && s1.mode == EditingConfig;
    assert s1.config.stored == Some(DEFAULTS.(pollInterval := 500));
    var s2 := s1.(queue := [EditCancel]);
    assert Step(s1, Post(EditCancel)) == s2;
  }

  /** From boot: the store fails at the cancel and keeps the edited value, which the next start loads. */
  lemma CancelLeavesTheStore()
    ensures var s := Run(Boot(false, ConfigService.FRESH),
                         Moves(10) + [Post(EditEnter), MOVE, SetParam(PollInterval, 500, true), Post(EditCancel), UNSAVED]);
            s.mode == Operational && s.config.params == DEFAULTS && s.config.stored == Some(DEFAULTS.(pollInterval := 500))
  {
    hide Step, Run;
    SessionFromBoot(SetParam(PollInterval, 500, true), Post(EditCancel), UNSAVED);
    StoreSession();
  }

  /** A timeout queued behind a cancel and a second enter. */
  lemma StaleQueue()
    ensures var s := Step(Step(Step(EDITING, Post(EditCancel)), Post(EditEnter)), EditTimerFires);
            s == EDITING.(editTimer := false, queue := [EditCancel, EditEnter, EditTimeout])
  {
    assert Step(EDITING, Post(EditCancel)) == EDITING.(queue := [EditCancel]);
    assert [EditCancel] + [EditEnter] == [EditCancel, EditEnter];
    assert [EditCancel, EditEnter] + [EditTimeout] == [EditCancel, EditEnter, EditTimeout];
  }

  lemma SecondSession(s: System)
    requires s.mode == EditingConfig && s.place == EventLoop && s.config.snapshot.Some?
    requires s.queue == [EditCancel, EditEnter, EditTimeout]
    ensures var second := Step(Step(s, MOVE), MOVE);
            && second.mode == EditingConfig && second.editTimer && second.queue == [EditTimeout] && second.place == EventLoop
            && Step(second, MOVE).mode == Operational
  {
    hide ConfigService.Save;
    var s1 := Step(s, MOVE);
    assert s1.queue == [EditEnter, EditTimeout] && s1.mode == Operational && s1.place == EventLoop;
    var s2 := Step(s1, MOVE);
    assert s2.queue == [EditTimeout] && s2.mode == EditingConfig;
  }

  /**
   * From boot: the timeout of a first session, queued behind its cancel and a second enter, ends
   * the second session, whose own timer still runs.
   */
  lemma StaleTimeoutEndsTheNextSession()
    ensures var first := Run(Boot(false, ConfigService.FRESH),
                             Moves(10) + [Post(EditEnter), MOVE, Post(EditCancel), Post(EditEnter), EditTimerFires]);
            var second := Step(Step(first, MOVE), MOVE);
            && second.mode == EditingConfig && second.editTimer && second.queue == [EditTimeout]
            && Step(second, MOVE).mode == Operational
            && NextIsForeignTimeout(second, [])
  {
    hide Step, Run;
    SessionFromBoot(Post(EditCancel), Post(EditEnter), EditTimerFires);
    StaleQueue();
    SecondSession(EDITING.(editTimer := false, queue := [EditCancel, EditEnter, EditTimeout]));
  }
}
