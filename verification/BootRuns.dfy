/**
 * Whole runs of the bootloader: convergence on working flash, the rollback bound, the
 * generation order, and the rule that a trial image is started at most once.
 */
module BootRuns {
  import opened Bytes
  import opened FlashModel
  import opened BootRecord
  import opened BootSlot
  import opened BootCore
  import opened BootSafety
  import opened BootChoice
  import Crc32

  /** The device at reset: power on, nothing logged, a script of what will go wrong. */
  function PowerOn(mem: Memory, script: seq<Verdict>): Device {
    Device(mem, script, false, [])
  }

  /* ---- convergence ---- */

  /** The memory after n boots on working flash. */
  function Reboots(mem: Memory, n: nat): Memory {
    if n == 0 then mem else BootRun(PowerOn(Reboots(mem, n - 1), [])).1.mem
  }

  /** From the third decision on the table writes nothing and repeats itself. */
  lemma DecisionsSettle(now: Option<Slim>, good: Byte -> bool)
    requires now.Some? ==> BankIsLegal(now.value.active) && BankIsLegal(now.value.previous)
    ensures var second := Decide(Some(Decide(now, good).next), good);
            var third := Decide(Some(second.next), good);
            third.writes == 0 && third.next == second.next
  {
  }

  lemma BootOnce(mem: Memory, good: Byte -> bool)
    requires RoomToWrite(mem)
    requires forall b :: good(b) <==> Bootable(mem, b)
    ensures BootMatches(PowerOn(mem, []), Decide(Contents(Select(mem)), good))
    ensures forall b :: good(b) <==> Bootable(BootRun(PowerOn(mem, [])).1.mem, b)
  {
    hide BootRun, Bootable, Select, Decide;
    var d := PowerOn(mem, []);
    WorkingBoot(d, good);
    forall b ensures good(b) <==> Bootable(BootRun(d).1.mem, b) {
      SlotsUntouched(mem, BootRun(d).1.mem, b);
    }
  }

  /**
   * Convergence: with working flash and no application action, from the third reset on the
   * memory no longer changes, so the same slot runs, or the same halt repeats, for ever.
   */
  lemma ThirdBootChangesNothing(mem: Memory)
    requires Select(mem).InForce? ==> Select(mem).rec.generation < 0xFFFF_FFF0
    ensures BootRun(PowerOn(Reboots(mem, 2), [])).1.mem == Reboots(mem, 2)
    ensures forall a :: a in BootRun(PowerOn(Reboots(mem, 2), [])).1.log ==> a.ReadAt?
  {
    var good := (b: Byte) => Bootable(mem, b);
    SelectedIsValid(mem);
    hide BootRun, Bootable, Select, Decide;
    var m1, m2 := Reboots(mem, 1), Reboots(mem, 2);
    assert Reboots(mem, 0) == mem;
    BootOnce(mem, good);
    BootOnce(m1, good);
    BootOnce(m2, good);
    DecisionsSettle(Contents(Select(mem)), good);
  }

  lemma {:induction false} BootsConverge(mem: Memory, n: nat)
    requires Select(mem).InForce? ==> Select(mem).rec.generation < 0xFFFF_FFF0
    requires n >= 2
    ensures Reboots(mem, n) == Reboots(mem, 2)
    ensures BootRun(PowerOn(Reboots(mem, n), [])).0 == BootRun(PowerOn(Reboots(mem, 2), [])).0
  {
    hide BootRun, Select;
    if n > 2 {
      BootsConverge(mem, n - 1);
      ThirdBootChangesNothing(mem);
    }
  }

  /**
   * On working flash one boot raises the rollback count by two exactly when it finds a running
   * trial below the limit by two, whose previous slot fails and whose other slot verifies.
   */
  lemma OneBootAddsTwoIff(d: Device)
    requires Works(d) && RoomToWrite(d.mem) && Select(d.mem).InForce?
    ensures var r, after := Select(d.mem).rec, Select(BootRun(d).1.mem);
            after.InForce? &&
            (after.rec.count == r.count + 2 <==>
               r.state == TRIAL_RUNNING && r.count <= MAX_ROLLBACKS - 2 &&
               !Bootable(d.mem, r.previous) && Bootable(d.mem, OtherBank(r.previous)))
  {
    hide BootRun, Bootable, Select;
    WorkingBoot(d, (b: Byte) => Bootable(d.mem, b));
  }

  /* ---- one boot under any failures, as a step between records in force ---- */

  /** The records a boot can leave in force. */
  ghost predicate BootStep(before: Current, after: Current) {
    || after == before
    || (before.InForce? && after.InForce? &&
        before.rec.generation < after.rec.generation <= before.rec.generation + 2 &&
        (before.rec.count <= MAX_ROLLBACKS ==> after.rec.count <= MAX_ROLLBACKS))
    || (before == NoRecord && after.InForce? && after.rec.generation <= 2 && after.rec.count <= MAX_ROLLBACKS)
  }

  /** One record write further, or none. */
  ghost predicate HalfStep(before: Current, after: Current) {
    || after == before
    || (before.InForce? && after.InForce? && after.rec.generation == before.rec.generation + 1 &&
        (before.rec.count <= MAX_ROLLBACKS ==> after.rec.count <= MAX_ROLLBACKS))
    || (before == NoRecord && after.InForce? && after.rec.generation == 1 && after.rec.count == 0)
  }

  lemma WantedIsHalfStep(cur: Current, c: Copy)
    requires cur.InForce? ==> cur.rec.generation < 0xFFFF_FFFF
    ensures Wanted(cur).Some? ==> HalfStep(cur, InForce(c, Wanted(cur).value))
  {
    hide Successor;
    WantedFields(cur);
  }

  lemma FallBackIsHalfStep(cur: Current, failed: Byte, c: Copy)
    requires cur.InForce? && cur.rec.generation < 0xFFFF_FFFF
    ensures cur.rec.count < MAX_ROLLBACKS ==> HalfStep(cur, InForce(c, FallBack(cur, failed)))
  {
    hide Successor;
    if cur.rec.count < MAX_ROLLBACKS {
      SuccessorFields(cur, OtherBank(failed), ROLLED_BACK, failed, cur.rec.count + 1);
    }
  }

  lemma SettleMovesOn(d: Device, cur: Current)
    requires cur == Select(d.mem) && SettleTears(cur, d)
    requires cur.InForce? ==> cur.rec.generation < 0xFFFF_FFFF
    ensures var st := Settle(cur, d); HalfStep(cur, Select(st.d.mem)) && HalfStep(cur, st.cur)
  {
    hide Select, Wanted, Settle, SettleTears;
    SettleSafety(d, cur);
    WantedIsHalfStep(cur, Target(cur));
  }

  lemma LaunchMovesOn(d: Device, cur: Current, bank: Byte)
    requires cur.InForce? && Tracks(d.mem, cur) && cur.rec.generation < 0xFFFF_FFFF && BankIsLegal(bank)
    requires LaunchTears(cur, bank, d)
    ensures var after := Select(Launch(cur, bank, d).d.mem);
            after == Select(d.mem) || HalfStep(cur, after)
  {
    hide Select, Launch, LaunchTears, Tracks, FallBack;
    LaunchSafety(d, cur, bank);
    FallBackIsHalfStep(cur, bank, Target(cur));
  }

  /** One boot, whatever fails: the record in force stays or moves on, and the rollback count stays bounded. */
  lemma BootMovesOn(d: Device)
    requires BootTears(d) && RoomToWrite(d.mem)
    ensures BootStep(Select(d.mem), Select(BootRun(d).1.mem))
  {
    hide SelectOp, Select, Settle, Launch, IsValid, SettleTears, LaunchTears, Tracks, Wanted, FallBack, MakeReport;
    SelectOpSelects(d);
    SelectedIsValid(d.mem);
    var s := SelectOp(d);
    var cur := s.cur;
    if s.read {
      SettleSafety(s.d, cur);
      SettleMovesOn(s.d, cur);
      SettledBanksAreLegal(s.d, cur);
      var st := Settle(cur, s.d);
      if st.halt == None {
        TrackedIsValid(st.d.mem, st.cur);
        LaunchMovesOn(st.d, st.cur, FirstBank(st));
      }
    }
  }

  lemma TrackedIsValid(mem: Memory, cur: Current)
    requires Tracks(mem, cur)
    ensures cur.InForce? && LegalBanks(cur)
  {
    hide Crc32.Of;
  }
}
