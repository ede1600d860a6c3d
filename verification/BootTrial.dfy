/**
 * Runs of boots and application sessions in any order, and runs of boots alone through a
 * trial: order of generations, bound on rollbacks, at most one start of the trial image, and
 * when there is a second one.
 */
module BootTrial {
  import opened Bytes
  import opened FlashModel
  import opened BootRecord
  import opened BootSlot
  import opened BootCore
  import opened BootSafety
  import opened BootChoice
  import opened BootRuns
  import opened AppSession

  /* ---- runs with application sessions ---- */

  /** A reset, or a session of the application: the record read once, then any number of writes. */
  datatype Action =
    | Boot(script: seq<Verdict>)
    | Session(script: seq<Verdict>, requests: seq<Request>)

  function After(mem: Memory, a: Action): Memory {
    match a
    case Boot(script) => BootRun(PowerOn(mem, script)).1.mem
    case Session(script, requests) =>
      var app := Open(PowerOn(mem, script));
      if app.Some? then Updates(app.value, requests).d.mem else mem
  }

  function AfterAll(mem: Memory, run: seq<Action>): Memory {
    if run == [] then mem else After(AfterAll(mem, run[..|run| - 1]), run[|run| - 1])
  }

  /** An action whose torn contents show, whose records are legal and that does not wrap the counter. */
  ghost predicate Fits(mem: Memory, a: Action) {
    match a
    case Boot(script) => RoomToWrite(mem) && BootTears(PowerOn(mem, script))
    case Session(script, requests) =>
      var app := Open(PowerOn(mem, script));
      app.Some? ==> UpdatesFit(app.value, requests)
  }

  ghost predicate RunFits(mem: Memory, run: seq<Action>) {
    run == [] || (RunFits(mem, run[..|run| - 1]) && Fits(AfterAll(mem, run[..|run| - 1]), run[|run| - 1]))
  }

  /** Every write of every session starts with the record in force remembered. */
  predicate SessionInStep(mem: Memory, a: Action) {
    a.Session? ==>
      var app := Open(PowerOn(mem, a.script));
      app.Some? ==> InStep(app.value, a.requests)
  }

  predicate RunInStep(mem: Memory, run: seq<Action>) {
    run == [] || (RunInStep(mem, run[..|run| - 1]) && SessionInStep(AfterAll(mem, run[..|run| - 1]), run[|run| - 1]))
  }

  lemma ActionKeepsOrder(mem: Memory, a: Action)
    requires Fits(mem, a) && SessionInStep(mem, a)
    ensures NotOlder(Select(mem), Select(After(mem, a)))
  {
    hide Select, Open, BootRun, BootTears, UpdatesFit, InStep, Updates, SessionOk;
    match a
    case Boot(script) => BootMovesOn(PowerOn(mem, script));
    case Session(script, requests) =>
      var app := Open(PowerOn(mem, script));
      if app.Some? {
        OpenedIsOk(PowerOn(mem, script));
        SessionKeepsOrder(app.value, requests);
      }
  }

  /**
   * Over any run of resets and application sessions, whatever fails, the record in force is
   * never lost and its generation never decreases, as long as no write starts while the
   * session remembers another record than the one in force. CanFallIff says that every such
   * write can go wrong.
   */
  lemma {:induction false} GenerationNeverDecreases(mem: Memory, run: seq<Action>)
    requires RunFits(mem, run) && RunInStep(mem, run)
    ensures NotOlder(Select(mem), Select(AfterAll(mem, run)))
  {
    hide Select, After, Fits, SessionInStep;
    if run != [] {
      var init := run[..|run| - 1];
      GenerationNeverDecreases(mem, init);
      ActionKeepsOrder(AfterAll(mem, init), run[|run| - 1]);
    }
  }

  /** Over any run of boots, whatever fails, a rollback count within the limit stays within it. */
  lemma {:induction false} RollbacksStayBounded(mem: Memory, run: seq<Action>)
    requires RunFits(mem, run) && forall i :: 0 <= i < |run| ==> run[i].Boot?
    requires Select(mem).InForce? ==> Select(mem).rec.count <= MAX_ROLLBACKS
    ensures var cur := Select(AfterAll(mem, run)); cur.InForce? ==> cur.rec.count <= MAX_ROLLBACKS
  {
    hide Select, BootRun, BootTears;
    if run != [] {
      var init := run[..|run| - 1];
      RollbacksStayBounded(mem, init);
      BootMovesOn(PowerOn(AfterAll(mem, init), run[|run| - 1].script));
    }
  }

  /* ---- a trial ---- */

  /** The record in force names t as active and p as previous, in this state. */
  predicate IsTrial(cur: Current, state: Byte, active: Byte, previous: Byte) {
    HasState(cur, state) && cur.rec.active == active && cur.rec.previous == previous
  }

  predicate Pending(cur: Current, t: Byte, p: Byte) { IsTrial(cur, TRIAL_PENDING, t, p) }
  predicate Running(cur: Current, t: Byte, p: Byte) { IsTrial(cur, TRIAL_RUNNING, t, p) }
  predicate Retired(cur: Current, t: Byte, p: Byte) { IsTrial(cur, ROLLED_BACK, p, t) }

  /** The boot ends with power on and a jump to this slot. */
  predicate Starts(d: Device, bank: Byte) {
    var (rep, d') := BootRun(d);
    rep.outcome == Run && rep.slotBase == SlotBase(bank) && !d'.dead
  }

  /** Whenever this boot tries the previous slot first, the slot verifies or power is lost. */
  predicate KeepsVerifying(d: Device, p: Byte) {
    var s := SelectOp(d);
    s.read ==>
      var st := Settle(s.cur, s.d);
      st.halt == None && st.cur.InForce? && FirstBank(st) == p ==>
        var (first, d1) := SlotCheck(st.d, p);
        first.Some? || d1.dead
  }

  lemma DeadCheckFails(d: Device, bank: Byte)
    requires d.dead
    ensures SlotCheck(d, bank).0 == None
  {
  }

  /** A first slot that verifies, or a cut while verifying it: no write and no other slot. */
  lemma LaunchStays(d: Device, cur: Current, p: Byte)
    requires cur.InForce?
    requires var (first, d1) := SlotCheck(d, p); first.Some? || d1.dead
    ensures var l := Launch(cur, p, d);
            && l.d.mem == d.mem
            && (l.started.Some? ==> l.started.value.bank == p)
  {
    hide SlotCheck, Write, Successor;
    SlotCheckIsExact(d, p);
    var (first, d1) := SlotCheck(d, p);
    if first == None {
      DeadCheckFails(d1, OtherBank(p));
      SlotCheckIsExact(d1, OtherBank(p));
    }
  }

  /** What a launch of the trial slot can leave: the running trial, or its retirement without a start of t. */
  lemma LaunchOfTrial(d: Device, cur: Current, t: Byte, p: Byte)
    requires Running(cur, t, p) && Select(d.mem) == cur && Tracks(d.mem, cur) && cur.rec.generation < 0xFFFF_FFFF
    requires BankIsLegal(t) && p == OtherBank(t) && LaunchTears(cur, t, d)
    ensures var l := Launch(cur, t, d);
            var after := Select(l.d.mem);
            && (Running(after, t, p) || Retired(after, t, p))
            && (l.started.Some? && l.started.value.bank == t ==> Running(after, t, p))
  {
    hide SlotCheck, Write, Successor, Tracks, LaunchTears, Select;
    LaunchSafety(d, cur, t);
    SlotCheckIsExact(d, t);
    if cur.rec.count < MAX_ROLLBACKS {
      SuccessorFields(cur, OtherBank(t), ROLLED_BACK, t, cur.rec.count + 1);
    }
  }

  lemma WantedOfTrial(cur: Current, t: Byte, p: Byte, c: Copy)
    ensures Pending(cur, t, p) ==> Wanted(cur).Some? && Running(InForce(c, Wanted(cur).value), t, p)
    ensures Running(cur, t, p) && Wanted(cur).Some? ==> Retired(InForce(c, Wanted(cur).value), t, p)
    ensures Retired(cur, t, p) ==> Wanted(cur) == None
  {
    WantedFields(cur);
    hide Successor;
  }

  lemma SettleOfPending(d: Device, cur: Current, t: Byte, p: Byte)
    requires cur == Select(d.mem) && Pending(cur, t, p) && SettleTears(cur, d) && cur.rec.generation < 0xFFFF_FFFF
    ensures var st := Settle(cur, d);
            && (Pending(Select(st.d.mem), t, p) || Running(Select(st.d.mem), t, p))
            && (st.halt == None ==>
                  && Running(st.cur, t, p) && st.cur == Select(st.d.mem) && Tracks(st.d.mem, st.cur)
                  && FirstBank(st) == t && st.cur.rec.generation == cur.rec.generation + 1)
  {
    hide Select, Write, Successor, SettleTears, Tracks;
    SettleSafety(d, cur);
    WantedOfTrial(cur, t, p, Target(cur));
    WantedFields(cur);
  }

  lemma SettleOfRunning(d: Device, cur: Current, t: Byte, p: Byte)
    requires cur == Select(d.mem) && Running(cur, t, p) && SettleTears(cur, d) && cur.rec.generation < 0xFFFF_FFFF
    ensures var st := Settle(cur, d);
            && (Running(Select(st.d.mem), t, p) || Retired(Select(st.d.mem), t, p))
            && (st.halt == None ==> st.cur.InForce? && FirstBank(st) == p)
  {
    hide Select, Write, Successor, SettleTears, Tracks;
    SettleSafety(d, cur);
    WantedOfTrial(cur, t, p, Target(cur));
  }

  lemma SettleOfRetired(d: Device, cur: Current, t: Byte, p: Byte)
    requires Retired(cur, t, p)
    ensures var st := Settle(cur, d); st.d == d && st.halt == None && st.cur == cur && FirstBank(st) == p
  {
    WantedOfTrial(cur, t, p, 0);
  }

  /** A boot that halts before it looks at a slot, or could not read its record, starts nothing. */
  lemma NoLaunchNoStart(d: Device, bank: Byte)
    requires var s := SelectOp(d); s.read ==> Settle(s.cur, s.d).halt.Some?
    ensures !Starts(d, bank)
  {
    hide SelectOp, Settle;
    var s := SelectOp(d);
    SettleNeverRuns(s.d, s.cur);
  }

  /** A boot starts the slot its launch started. */
  lemma StartsWhatWasLaunched(d: Device, bank: Byte)
    requires BankIsLegal(bank)
    requires var s := SelectOp(d); s.read && var st := Settle(s.cur, s.d); st.halt == None && st.cur.InForce?
    ensures var s := SelectOp(d);
            var st := Settle(s.cur, s.d);
            var l := Launch(st.cur, FirstBank(st), st.d);
            && BootRun(d).1 == l.d
            && (Starts(d, bank) ==> l.started.Some? && SlotBase(l.started.value.bank) == SlotBase(bank))
  {
    hide SelectOp, Settle, Launch, SlotBase;
    var s := SelectOp(d);
    var st := Settle(s.cur, s.d);
    LaunchRunsStarted(st.cur, FirstBank(st), st.d);
    SlotBaseIsPositive(bank);
  }

  lemma SlotBaseIsPositive(bank: Byte)
    ensures SlotBase(bank) > 0
  {
  }

  lemma LaunchRunsStarted(cur: Current, bank: Byte, d: Device)
    requires cur.InForce?
    ensures Launch(cur, bank, d).outcome == Run <==> Launch(cur, bank, d).started.Some?
  {
    hide SlotCheck, Write, Successor;
  }

  /** The stages of a trial of t with previous slot p. */
  ghost predicate Stage(cur: Current, t: Byte, p: Byte) {
    Pending(cur, t, p) || Running(cur, t, p) || Retired(cur, t, p)
  }

  /**
   * One boot of a trial, whatever fails: a pending trial stays pending, runs or is retired;
   * a running one runs on or is retired; a retired one stays retired. The trial image starts
   * only out of a pending trial, and then TRIAL_RUNNING is the record in force.
   */
  ghost predicate TrialMovesOn(d: Device, t: Byte, p: Byte) {
    var before, after := Select(d.mem), Select(BootRun(d).1.mem);
    && (Pending(before, t, p) ==> Stage(after, t, p) && (Starts(d, t) ==> Running(after, t, p)))
    && (Running(before, t, p) ==> (Running(after, t, p) || Retired(after, t, p)) && !Starts(d, t))
    && (Retired(before, t, p) ==> Retired(after, t, p) && !Starts(d, t))
  }

  /** The assumptions on one boot of a trial: torn copies show, and the previous slot keeps verifying. */
  ghost predicate TrialBootFits(d: Device, p: Byte) {
    BootTears(d) && RoomToWrite(d.mem) && KeepsVerifying(d, p)
  }

  lemma BootOfPending(d: Device, t: Byte, p: Byte)
    requires TrialBootFits(d, p) && BankIsLegal(t) && p == OtherBank(t) && Pending(Select(d.mem), t, p)
    ensures TrialMovesOn(d, t, p)
  {
    hide SelectOp, Settle, Launch, Select, BootRun, Starts, SettleTears, LaunchTears, Tracks, SlotCheck;
    SelectOpSelects(d);
    var s := SelectOp(d);
    if !s.read {
      NoLaunchNoStart(d, t);
      UnreadBootKeeps(d);
    } else {
      SettleOfPending(s.d, s.cur, t, p);
      var st := Settle(s.cur, s.d);
      if st.halt.Some? {
        NoLaunchNoStart(d, t);
        UnreadBootKeeps(d);
      } else {
        StartsWhatWasLaunched(d, t);
        LaunchOfTrial(st.d, st.cur, t, p);
        LaunchRunsVerified(st.d, st.cur, t);
      }
    }
  }

  lemma UnreadBootKeeps(d: Device)
    requires var s := SelectOp(d); s.read ==> Settle(s.cur, s.d).halt.Some?
    ensures var s := SelectOp(d); BootRun(d).1 == if s.read then Settle(s.cur, s.d).d else s.d
  {
    hide SelectOp, Settle;
  }

  lemma BootOfRunning(d: Device, t: Byte, p: Byte)
    requires TrialBootFits(d, p) && BankIsLegal(t) && p == OtherBank(t)
    requires Running(Select(d.mem), t, p) || Retired(Select(d.mem), t, p)
    ensures TrialMovesOn(d, t, p)
  {
    hide SelectOp, Settle, Launch, Select, BootRun, Starts, SettleTears, LaunchTears, Tracks, SlotCheck;
    SelectOpSelects(d);
    var s := SelectOp(d);
    if !s.read {
      NoLaunchNoStart(d, t);
      UnreadBootKeeps(d);
    } else {
      if Running(s.cur, t, p) {
        SettleOfRunning(s.d, s.cur, t, p);
      } else {
        SettleOfRetired(s.d, s.cur, t, p);
      }
      var st := Settle(s.cur, s.d);
      if st.halt.Some? {
        NoLaunchNoStart(d, t);
        UnreadBootKeeps(d);
      } else {
        StartsWhatWasLaunched(d, t);
        LaunchStays(st.d, st.cur, p);
      }
    }
  }

  lemma TrialStep(d: Device, t: Byte, p: Byte)
    requires TrialBootFits(d, p) && BankIsLegal(t) && p == OtherBank(t) && Stage(Select(d.mem), t, p)
    ensures TrialMovesOn(d, t, p)
  {
    hide TrialBootFits, TrialMovesOn, Select;
    if Pending(Select(d.mem), t, p) {
      BootOfPending(d, t, p);
    } else {
      BootOfRunning(d, t, p);
    }
  }

  /** How often a run of boots, one script each, starts the slot. */
  function StartCount(mem: Memory, scripts: seq<seq<Verdict>>, t: Byte): nat
    decreases |scripts|
  {
    if scripts == [] then 0
    else
      var d := PowerOn(mem, scripts[0]);
      (if Starts(d, t) then 1 else 0) + StartCount(BootRun(d).1.mem, scripts[1..], t)
  }

  ghost predicate TrialRunFits(mem: Memory, scripts: seq<seq<Verdict>>, p: Byte)
    decreases |scripts|
  {
    scripts == [] ||
    (var d := PowerOn(mem, scripts[0]); TrialBootFits(d, p) && TrialRunFits(BootRun(d).1.mem, scripts[1..], p))
  }

  /**
   * A trial image is started at most once: from a pending trial, in every run of resets,
   * cuts and failed operations without application action.
   */
  lemma {:induction false} TrialAtMostOnce(mem: Memory, scripts: seq<seq<Verdict>>, t: Byte, p: Byte)
    requires TrialRunFits(mem, scripts, p) && BankIsLegal(t) && p == OtherBank(t) && Stage(Select(mem), t, p)
    ensures StartCount(mem, scripts, t) <= if Pending(Select(mem), t, p) then 1 else 0
    decreases |scripts|
  {
    hide BootRun, TrialBootFits, Select, Starts;
    if scripts != [] {
      var d := PowerOn(mem, scripts[0]);
      TrialStep(d, t, p);
      TrialAtMostOnce(BootRun(d).1.mem, scripts[1..], t, p);
    }
  }

  /**
   * When a trial that already ran is started once more: whatever fails, exactly when the boot
   * gets as far as its slots, the previous slot fails its check, the count is below the limit,
   * the trial slot passes and power stays on.
   */
  lemma SecondStartIff(d: Device, t: Byte, p: Byte)
    requires BootTears(d) && RoomToWrite(d.mem) && BankIsLegal(t) && p == OtherBank(t)
    requires Running(Select(d.mem), t, p) || Retired(Select(d.mem), t, p)
    ensures var s := SelectOp(d);
            var st := Settle(s.cur, s.d);
            Starts(d, t) <==>
              && s.read && st.halt == None && st.cur.InForce?
              && SlotCheck(st.d, p).0 == None && st.cur.rec.count < MAX_ROLLBACKS
              && SlotCheck(SlotCheck(st.d, p).1, t).0.Some? && !BootRun(d).1.dead
  {
    hide SelectOp, Settle, Select, BootRun, SettleTears, LaunchTears, Tracks, SlotCheck, Write, Successor, Launch, Starts, SlotBase;
    SelectOpSelects(d);
    var s := SelectOp(d);
    if s.read {
      if Running(s.cur, t, p) {
        SettleOfRunning(s.d, s.cur, t, p);
      } else {
        SettleOfRetired(s.d, s.cur, t, p);
      }
      var st := Settle(s.cur, s.d);
      if st.halt == None {
        LaunchedIsStarted(d, t);
        LaunchStartsOther(st.d, st.cur, t, p);
      } else {
        NoLaunchNoStart(d, t);
      }
    } else {
      NoLaunchNoStart(d, t);
    }
  }

  /** Which slot a launch that tries p first starts. */
  lemma LaunchStartsOther(d: Device, cur: Current, t: Byte, p: Byte)
    requires cur.InForce? && BankIsLegal(t) && p == OtherBank(t)
    ensures var l := Launch(cur, p, d);
            l.started.Some? && l.started.value.bank == t <==>
              SlotCheck(d, p).0 == None && cur.rec.count < MAX_ROLLBACKS && SlotCheck(SlotCheck(d, p).1, t).0.Some?
  {
    hide SlotCheck, Write, Successor;
  }

  /** A boot that launches starts a slot exactly when its launch did and power stayed on. */
  lemma LaunchedIsStarted(d: Device, bank: Byte)
    requires BankIsLegal(bank)
    requires var s := SelectOp(d); s.read && var st := Settle(s.cur, s.d); st.halt == None && st.cur.InForce? && BankIsLegal(FirstBank(st))
    ensures var s := SelectOp(d);
            var st := Settle(s.cur, s.d);
            var l := Launch(st.cur, FirstBank(st), st.d);
            Starts(d, bank) <==> l.started.Some? && l.started.value.bank == bank && !BootRun(d).1.dead
  {
    hide SelectOp, Settle, Launch, SlotBase;
    var s := SelectOp(d);
    var st := Settle(s.cur, s.d);
    var l := Launch(st.cur, FirstBank(st), st.d);
    LaunchRunsStarted(st.cur, FirstBank(st), st.d);
    LaunchStartsLegal(st.cur, FirstBank(st), st.d);
    SlotBaseIsPositive(bank);
    if l.started.Some? {
      SlotBasesDiffer(bank, l.started.value.bank);
    }
  }

  lemma LaunchStartsLegal(cur: Current, bank: Byte, d: Device)
    requires cur.InForce? && BankIsLegal(bank)
    ensures var l := Launch(cur, bank, d); l.started.Some? ==> BankIsLegal(l.started.value.bank)
  {
    hide SlotCheck, Write, Successor;
  }

  lemma SlotBasesDiffer(x: Byte, y: Byte)
    requires BankIsLegal(x) && BankIsLegal(y)
    ensures SlotBase(x) == SlotBase(y) ==> x == y
  {
  }
}
