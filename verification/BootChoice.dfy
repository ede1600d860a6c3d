/**
 * Which slot a boot runs: never one that was not verified in that boot, and on working flash
 * exactly the one the record and the two slots determine.
 */
module BootChoice {
  import opened Bytes
  import opened FlashModel
  import opened BootRecord
  import opened BootSlot
  import opened BootCore
  import opened BootSafety
  import Crc32

  lemma OnlyRecordsCompose(a: Memory, b: Memory, c: Memory)
    requires OnlyRecords(a, b) && OnlyRecords(b, c)
    ensures OnlyRecords(a, c)
  {
  }

  lemma SameRecords(m: Memory)
    ensures OnlyRecords(m, m)
  {
  }

  lemma WriteTouchesOnlyRecords(d: Device, c: Copy, r: Meta)
    ensures OnlyRecords(d.mem, Write(d, c, r).1.mem)
  {
    WriteKeepsOthers(d, c, r);
    PageIsAmongRecords(d.mem, Write(d, c, r).1.mem, c);
  }

  lemma SettleTouchesOnlyRecords(d: Device, cur: Current)
    ensures OnlyRecords(d.mem, Settle(cur, d).d.mem)
  {
    hide Write, Successor;
    if Wanted(cur).Some? {
      WriteTouchesOnlyRecords(d, Target(cur), Wanted(cur).value);
    }
  }

  /** Launching touches only record pages, and runs only what it found bootable. */
  lemma LaunchRunsVerified(d: Device, cur: Current, bank: Byte)
    requires cur.InForce?
    ensures var l := Launch(cur, bank, d);
            && OnlyRecords(d.mem, l.d.mem)
            && (l.outcome == Run <==> l.started.Some?)
            && (l.started.Some? ==>
                  var s := l.started.value;
                  (s.bank == bank || s.bank == OtherBank(bank)) && Bootable(d.mem, s.bank) && s.image == ImageIn(d.mem, s.bank))
  {
    hide SlotCheck, Write, Bootable, ImageIn, Successor;
    SlotCheckIsExact(d, bank);
    var (first, d1) := SlotCheck(d, bank);
    SlotCheckIsExact(d1, OtherBank(bank));
    var (second, d2) := SlotCheck(d1, OtherBank(bank));
    if first == None && cur.rec.count < MAX_ROLLBACKS && second.Some? {
      WriteTouchesOnlyRecords(d2, Target(cur), FallBack(cur, bank));
    }
  }

  lemma SettledBanksAreLegal(d: Device, cur: Current)
    requires LegalBanks(cur)
    ensures var st := Settle(cur, d); LegalBanks(st.cur) && (st.halt == None ==> st.cur.InForce?)
  {
    hide Write, Crc32.Of;
  }

  /** A whole boot changes no byte outside the two record pages. */
  lemma BootTouchesOnlyRecords(d: Device)
    ensures OnlyRecords(d.mem, BootRun(d).1.mem)
  {
    hide Settle, Launch, SelectOp, Select;
    SelectOpSelects(d);
    var s := SelectOp(d);
    if s.read {
      SelectedIsValid(d.mem);
      SettleTouchesOnlyRecords(s.d, s.cur);
      SettledBanksAreLegal(s.d, s.cur);
      var st := Settle(s.cur, s.d);
      if st.halt == None {
        LaunchRunsVerified(st.d, st.cur, FirstBank(st));
        OnlyRecordsCompose(d.mem, st.d.mem, Launch(st.cur, FirstBank(st), st.d).d.mem);
      }
    }
  }

  /** The report names this slot and describes what it holds. */
  ghost predicate Names(rep: Report, mem: Memory, bank: Byte) {
    && rep.slotBase == SlotBase(bank)
    && rep.imageLen == ImageIn(mem, bank).len && rep.version == ImageIn(mem, bank).version
  }

  /**
   * Sound choice: whatever fails, RUN names a slot whose descriptor, body CRC and vectors
   * all hold in memory; a halt names none.
   */
  lemma RunIsVerified(d: Device)
    ensures var rep := BootRun(d).0;
            if rep.outcome == Run
            then exists bank :: BankIsLegal(bank) && Bootable(d.mem, bank) && Names(rep, d.mem, bank)
            else rep.slotBase == 0
  {
    hide Settle, Launch, SelectOp, Select, Bootable, ImageIn;
    SelectOpSelects(d);
    var s := SelectOp(d);
    if s.read {
      SelectedIsValid(d.mem);
      SettleTouchesOnlyRecords(s.d, s.cur);
      SettledBanksAreLegal(s.d, s.cur);
      SettleNeverRuns(s.d, s.cur);
      var st := Settle(s.cur, s.d);
      if st.halt == None {
        LaunchRunsVerified(st.d, st.cur, FirstBank(st));
        var l := Launch(st.cur, FirstBank(st), st.d);
        if l.outcome == Run {
          var bank := l.started.value.bank;
          SlotsUntouched(d.mem, st.d.mem, bank);
          assert BankIsLegal(bank) && Bootable(d.mem, bank) && Names(BootRun(d).0, d.mem, bank);
        }
      }
    }
  }

  lemma SettleNeverRuns(d: Device, cur: Current)
    ensures Settle(cur, d).halt != Some(Run)
  {
    hide Write, Successor;
  }

  /* ---- the boot on working flash, without copies, generations and CRCs ---- */

  datatype Slim = Slim(active: Byte, state: Byte, previous: Byte, count: U32)

  datatype Choice = Choice(outcome: Outcome, bank: Option<Byte>, next: Slim, writes: nat)

  function Contents(cur: Current): Option<Slim> {
    if cur.InForce? then Some(Slim(cur.rec.active, cur.rec.state, cur.rec.previous, cur.rec.count)) else None
  }

  /** Verify the named slot, else the other one; a fall-back is recorded. */
  function Pick(r: Slim, good: Byte -> bool, written: nat): Choice {
    if good(r.active) then Choice(Run, Some(r.active), r, written)
    else if r.count >= MAX_ROLLBACKS then Choice(HaltRollbackLimit, None, r, written)
    else if good(OtherBank(r.active))
    then Choice(Run, Some(OtherBank(r.active)), Slim(OtherBank(r.active), ROLLED_BACK, r.active, r.count + 1), written + 1)
    else Choice(HaltNoImage, None, r, written)
  }

  /** The decision table of a boot in which nothing fails. */
  function Decide(now: Option<Slim>, good: Byte -> bool): Choice {
    match now
    case None => Pick(Slim(BANK_A, CONFIRMED, BANK_B, 0), good, 1)
    case Some(r) =>
      if r.state == TRIAL_PENDING then Pick(r.(state := TRIAL_RUNNING), good, 1)
      else if r.state == TRIAL_RUNNING then
        if r.count >= MAX_ROLLBACKS then Choice(HaltRollbackLimit, None, r, 0)
        else Pick(Slim(r.previous, ROLLED_BACK, r.active, r.count + 1), good, 1)
      else Pick(r, good, 0)
  }

  /** The record was written: it reads back as the one in force, unless the counter wrapped. */
  lemma WorkingWriteIsSelected(d: Device, cur: Current, r: Meta)
    requires Works(d) && cur == Select(d.mem) && IsValid(r)
    requires cur.InForce? ==> r.generation == cur.rec.generation + 1
    ensures var (ok, d') := Write(d, Target(cur), r);
            ok && Works(d') && Select(d'.mem) == InForce(Target(cur), r) && OnlyRecords(d.mem, d'.mem)
  {
    WorkingWrite(d, Target(cur), r);
    WriteStores(d, Target(cur), r);
    WriteTouchesOnlyRecords(d, Target(cur), r);
    WriteKeepsOthers(d, Target(cur), r);
    var d' := Write(d, Target(cur), r).1;
    hide IsValid, Write, Decode;
    SelectAfterWrite(d.mem, d'.mem, Target(cur));
    PreferAfterWrite(IsValid, CopyAt(d.mem, 0), CopyAt(d.mem, 1), r, r);
  }

  lemma WorkingSettle(d: Device, cur: Current)
    requires Works(d) && cur == Select(d.mem) && RoomToWrite(d.mem)
    ensures var st := Settle(cur, d);
            && Works(st.d) && OnlyRecords(d.mem, st.d.mem) && Select(st.d.mem) == st.cur
            && (Wanted(cur) == None ==> st.d == d)
            && Contents(st.cur) == (if Wanted(cur).Some? then Contents(InForce(0, Wanted(cur).value)) else Contents(cur))
            && st.halt == (if HasState(cur, TRIAL_RUNNING) && cur.rec.count >= MAX_ROLLBACKS then Some(HaltRollbackLimit) else None)
            && (st.halt == None ==> st.cur.InForce? && FirstBank(st) == st.cur.rec.active)
  {
    SelectedIsValid(d.mem);
    WantedIsValid(cur);
    WantedFields(cur);
    hide IsValid, CopyAt, Successor, Write, Select;
    if Wanted(cur).Some? {
      WorkingWriteIsSelected(d, cur, Wanted(cur).value);
    }
  }

  /** A launch came out as the decision table says. */
  ghost predicate Matches(l: Launched, p: Choice, d: Device) {
    && Works(l.d) && OnlyRecords(d.mem, l.d.mem) && Select(l.d.mem) == l.cur
    && l.outcome == p.outcome && Contents(l.cur) == Some(p.next)
    && p.bank == (if l.started.Some? then Some(l.started.value.bank) else None)
    && (p.writes == 0 ==> l.d.mem == d.mem && OnlyReads(d, l.d))
  }

  /** A launch that records no fall-back only reads. */
  lemma LaunchReads(d: Device, cur: Current, bank: Byte)
    requires cur.InForce?
    ensures var (first, d1) := SlotCheck(d, bank);
            first.Some? || cur.rec.count >= MAX_ROLLBACKS || SlotCheck(d1, OtherBank(bank)).0 == None ==>
              OnlyReads(d, Launch(cur, bank, d).d)
  {
    hide SlotCheck, Write, Successor, OnlyReads;
    var d1 := SlotCheck(d, bank).1;
    SlotCheckOnlyReads(d, bank);
    SlotCheckOnlyReads(d1, OtherBank(bank));
    MoreReads(d, d1, SlotCheck(d1, OtherBank(bank)).1);
  }

  lemma WorkingLaunch(d: Device, cur: Current, good: Byte -> bool)
    requires Works(d) && cur == Select(d.mem) && cur.InForce? && cur.rec.generation < 0xFFFF_FFFF
    requires forall b :: good(b) <==> Bootable(d.mem, b)
    ensures Matches(Launch(cur, cur.rec.active, d), Pick(Contents(cur).value, good, 0), d)
  {
    SelectedIsValid(d.mem);
    hide SlotCheck, IsValid, CopyAt, Bootable, Successor, Write, OnlyReads, Works, OnlyRecords, Select;
    SameRecords(d.mem);
    var bank := cur.rec.active;
    SlotCheckIsExact(d, bank);
    LaunchReads(d, cur, bank);
    var (first, d1) := SlotCheck(d, bank);
    SlotCheckIsExact(d1, OtherBank(bank));
    var (second, d2) := SlotCheck(d1, OtherBank(bank));
    if first == None && cur.rec.count < MAX_ROLLBACKS && second.Some? {
      FallBackIsValid(cur, bank);
      FallBackContents(cur, bank);
      WorkingWriteIsSelected(d2, cur, FallBack(cur, bank));
    }
  }

  /** Each half of a boot raises the generation by at most one. */
  lemma GenerationSteps(d: Device, cur: Current, bank: Byte)
    ensures var now := Settle(cur, d).cur;
            now.InForce? ==> now.rec.generation <= (if cur.InForce? then cur.rec.generation else 0) + 1
    ensures cur.InForce? ==>
              var now := Launch(cur, bank, d).cur;
              now.InForce? && now.rec.generation <= cur.rec.generation + 1
  {
    hide SlotCheck, Write, Successor;
    WantedFields(cur);
    if cur.InForce? && cur.rec.count < MAX_ROLLBACKS {
      SuccessorFields(cur, OtherBank(bank), ROLLED_BACK, bank, cur.rec.count + 1);
    }
  }

  /** What the trial rule writes, by the state it finds. */
  lemma WantedFields(cur: Current)
    ensures Wanted(cur).Some? ==>
              var r := Wanted(cur).value;
              && r.generation == (if cur.InForce? then (cur.rec.generation + 1) % 0x1_0000_0000 else 1)
              && Contents(InForce(0, r)) ==
                 match cur
                 case NoRecord => Some(Slim(BANK_A, CONFIRMED, BANK_B, 0))
                 case InForce(_, m) =>
                   if m.state == TRIAL_PENDING then Some(Slim(m.active, TRIAL_RUNNING, m.previous, m.count))
                   else Some(Slim(m.previous, ROLLED_BACK, m.active, m.count + 1))
  {
    match cur
    case NoRecord => SuccessorFields(cur, BANK_A, CONFIRMED, BANK_B, 0);
    case InForce(_, m) =>
      SuccessorFields(cur, m.active, TRIAL_RUNNING, m.previous, m.count);
      if m.count < MAX_ROLLBACKS {
        SuccessorFields(cur, m.previous, ROLLED_BACK, m.active, m.count + 1);
      }
      hide Successor;
  }

  lemma FallBackContents(cur: Current, failed: Byte)
    requires cur.InForce? && cur.rec.count < MAX_ROLLBACKS
    ensures Contents(InForce(Target(cur), FallBack(cur, failed))) ==
            Some(Slim(OtherBank(failed), ROLLED_BACK, failed, cur.rec.count + 1))
  {
    hide Successor;
    SuccessorFields(cur, OtherBank(failed), ROLLED_BACK, failed, cur.rec.count + 1);
  }

  /** A boot came out as the decision table says. */
  ghost predicate BootMatches(d: Device, c: Choice) {
    var (rep, d') := BootRun(d);
    && Works(d') && OnlyRecords(d.mem, d'.mem)
    && rep.outcome == c.outcome
    && rep.slotBase == (if c.bank.Some? then SlotBase(c.bank.value) else 0)
    && Contents(Select(d'.mem)) == Some(c.next)
    && (c.writes == 0 ==> d'.mem == d.mem && OnlyReads(d, d'))
    && Select(d'.mem).rec.generation <= (if Select(d.mem).InForce? then Select(d.mem).rec.generation else 0) + 2
  }

  lemma PickWrites(r: Slim, good: Byte -> bool, n: nat)
    ensures Pick(r, good, n) == Pick(r, good, 0).(writes := n + Pick(r, good, 0).writes)
  {
  }

  /** The table decides by the trial rule first and the slots second. */
  lemma DecideInTwoSteps(cur: Current, good: Byte -> bool)
    ensures var n := if Wanted(cur).Some? then 1 else 0;
            var now := if Wanted(cur).Some? then Contents(InForce(0, Wanted(cur).value)) else Contents(cur);
            now.Some? &&
            (HasState(cur, TRIAL_RUNNING) && cur.rec.count >= MAX_ROLLBACKS ==> Wanted(cur) == None) &&
            Decide(Contents(cur), good) ==
            if HasState(cur, TRIAL_RUNNING) && cur.rec.count >= MAX_ROLLBACKS
            then Choice(HaltRollbackLimit, None, now.value, 0)
            else Pick(now.value, good, n)
  {
    WantedFields(cur);
    hide Successor;
  }

  /** On working flash a boot does exactly what the decision table says. */
  lemma WorkingBoot(d: Device, good: Byte -> bool)
    requires Works(d) && RoomToWrite(d.mem)
    requires forall b :: good(b) <==> Bootable(d.mem, b)
    ensures BootMatches(d, Decide(Contents(Select(d.mem)), good))
  {
    SelectOpSelects(d);
    var s := SelectOp(d);
    var cur := s.cur;
    DecideInTwoSteps(cur, good);
    hide SelectOp, Settle, Launch, Select, Bootable, Wanted, Decide, Pick, OnlyReads;
    SelectOnlyReads(d);
    WorkingSettle(s.d, cur);
    SettleNeverRuns(s.d, cur);
    var st := Settle(cur, s.d);
    GenerationSteps(s.d, cur, BANK_A);
    if st.halt == None {
      GenerationSteps(st.d, st.cur, st.cur.rec.active);
      forall b ensures good(b) <==> Bootable(st.d.mem, b) {
        SlotsUntouched(d.mem, st.d.mem, b);
      }
      WorkingLaunch(st.d, st.cur, good);
      if OnlyReads(st.d, Launch(st.cur, FirstBank(st), st.d).d) && st.d == s.d {
        MoreReads(d, st.d, Launch(st.cur, FirstBank(st), st.d).d);
      }
      PickWrites(Contents(st.cur).value, good, if Wanted(cur).Some? then 1 else 0);
    }
  }

  /**
   * Complete choice: when nothing fails and at most 14 rollbacks are stored, the boot runs a
   * slot exactly when one is bootable, and otherwise reports that there is no image.
   */
  lemma RunsIffSomeSlotBootable(d: Device)
    requires Works(d) && RoomToWrite(d.mem)
    requires Select(d.mem).InForce? ==> Select(d.mem).rec.count <= 14
    ensures var outcome := BootRun(d).0.outcome;
            outcome == if Bootable(d.mem, BANK_A) || Bootable(d.mem, BANK_B) then Run else HaltNoImage
  {
    SelectedIsValid(d.mem);
    hide BootRun, Bootable, Select;
    WorkingBoot(d, (b: Byte) => Bootable(d.mem, b));
  }
}
