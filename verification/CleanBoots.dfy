/**
 * Boots on flash that stops between double words: every write of a boot then tears visibly,
 * so what was proved of boots under that assumption holds there without it.
 */
module CleanBoots {
  import opened Bytes
  import opened FlashModel
  import opened BootRecord
  import opened BootSlot
  import opened BootCore
  import opened BootSafety
  import opened BootChoice
  import opened BootRuns
  import opened BootTrial
  import opened AppSession
  import opened TornRecord

  /** Every record write a boot makes goes to flash that stops between double words. */
  ghost predicate CleanBoot(d: Device) {
    var s := SelectOp(d);
    s.read ==>
      && (Wanted(s.cur).Some? ==> CleanWrite(s.d, Target(s.cur), Wanted(s.cur).value))
      && var st := Settle(s.cur, s.d);
         st.halt.Some? || CleanLaunch(st.cur, FirstBank(st), st.d)
  }

  ghost predicate CleanLaunch(cur: Current, bank: Byte, d: Device)
    requires cur.InForce?
  {
    var (first, d1) := SlotCheck(d, bank);
    var (second, d2) := SlotCheck(d1, OtherBank(bank));
    first.Some? || cur.rec.count >= MAX_ROLLBACKS || second == None || CleanWrite(d2, Target(cur), FallBack(cur, bank))
  }

  lemma WantedIsBuilt(cur: Current)
    requires cur.InForce? ==> IsValid(cur.rec)
    ensures Wanted(cur).Some? ==> IsBuilt(Wanted(cur).value)
  {
    hide Successor, IsBuilt, Encode;
    match cur {
      case NoRecord =>
        SuccessorIsBuilt(cur, BANK_A, CONFIRMED, BANK_B, 0);
      case InForce(_, r) =>
        SuccessorIsBuilt(cur, r.active, TRIAL_RUNNING, r.previous, r.count);
        if r.count < MAX_ROLLBACKS {
          SuccessorIsBuilt(cur, r.previous, ROLLED_BACK, r.active, r.count + 1);
        }
    }
  }

  lemma CleanLaunchTears(cur: Current, bank: Byte, d: Device)
    requires cur.InForce? && BankIsLegal(bank) && CleanLaunch(cur, bank, d)
    ensures LaunchTears(cur, bank, d)
  {
    hide SlotCheck, Successor, IsBuilt, CleanWrite, TearsShow;
    if cur.rec.count < MAX_ROLLBACKS {
      SuccessorIsBuilt(cur, OtherBank(bank), ROLLED_BACK, bank, cur.rec.count + 1);
      var d2 := SlotCheck(SlotCheck(d, bank).1, OtherBank(bank)).1;
      if CleanWrite(d2, Target(cur), FallBack(cur, bank)) {
        CleanWritesTearVisibly(d2, Target(cur), FallBack(cur, bank));
      }
    }
  }

  /** A clean boot meets the torn-contents assumption. */
  lemma CleanBootTears(d: Device)
    requires CleanBoot(d)
    ensures BootTears(d)
  {
    hide SelectOp, Select, Wanted, Settle, CleanLaunch, LaunchTears, CleanWrite, TearsShow, IsBuilt, IsValid;
    var s := SelectOp(d);
    SelectOpSelects(d);
    if s.read {
      SelectedIsValid(d.mem);
      WantedIsBuilt(s.cur);
      if Wanted(s.cur).Some? {
        CleanWritesTearVisibly(s.d, Target(s.cur), Wanted(s.cur).value);
      }
      var st := Settle(s.cur, s.d);
      if st.halt == None {
        SettledBanksAreLegal(s.d, s.cur);
        CleanLaunchTears(st.cur, FirstBank(st), st.d);
      }
    }
  }

  /** A run of boots through a trial on such flash; the previous slot keeps verifying and the counter has room. */
  ghost predicate CleanTrialRun(mem: Memory, scripts: seq<seq<Verdict>>, p: Byte)
    decreases |scripts|
  {
    scripts == [] ||
    (var d := PowerOn(mem, scripts[0]);
     CleanBoot(d) && RoomToWrite(mem) && KeepsVerifying(d, p) && CleanTrialRun(BootRun(d).1.mem, scripts[1..], p))
  }

  lemma {:induction false} CleanTrialRunFits(mem: Memory, scripts: seq<seq<Verdict>>, p: Byte)
    requires CleanTrialRun(mem, scripts, p)
    ensures TrialRunFits(mem, scripts, p)
    decreases |scripts|
  {
    hide CleanBoot, BootTears, RoomToWrite, KeepsVerifying, BootRun;
    if scripts != [] {
      var d := PowerOn(mem, scripts[0]);
      CleanBootTears(d);
      CleanTrialRunFits(BootRun(d).1.mem, scripts[1..], p);
    }
  }

  /** On such flash a pending trial is started at most once, with no assumption on torn contents. */
  lemma TrialAtMostOnceOnCleanFlash(mem: Memory, scripts: seq<seq<Verdict>>, t: Byte, p: Byte)
    requires CleanTrialRun(mem, scripts, p) && BankIsLegal(t) && p == OtherBank(t) && Pending(Select(mem), t, p)
    ensures StartCount(mem, scripts, t) <= 1
  {
    hide CleanTrialRun, TrialRunFits, Select, StartCount;
    CleanTrialRunFits(mem, scripts, p);
    TrialAtMostOnce(mem, scripts, t, p);
  }

  /** A run of boots, and the record in force after it. */
  ghost predicate CleanRun(mem: Memory, run: seq<Action>) {
    run == [] ||
    (var init := run[..|run| - 1];
     var now := AfterAll(mem, init);
     CleanRun(mem, init) && RoomToWrite(now) && run[|run| - 1].Boot? && CleanBoot(PowerOn(now, run[|run| - 1].script)))
  }

  lemma {:induction false} CleanRunFits(mem: Memory, run: seq<Action>)
    requires CleanRun(mem, run)
    ensures RunFits(mem, run)
  {
    hide CleanBoot, BootTears, RoomToWrite, After;
    if run != [] {
      CleanRunFits(mem, run[..|run| - 1]);
      CleanBootTears(PowerOn(AfterAll(mem, run[..|run| - 1]), run[|run| - 1].script));
    }
  }

  lemma {:induction false} BootsStayInStep(mem: Memory, run: seq<Action>)
    requires CleanRun(mem, run)
    ensures RunInStep(mem, run)
  {
    hide CleanBoot, RoomToWrite, AfterAll;
    if run != [] {
      BootsStayInStep(mem, run[..|run| - 1]);
    }
  }

  /** On such flash no run of boots loses the record in force or goes back to an older one. */
  lemma CleanRunKeepsOrder(mem: Memory, run: seq<Action>)
    requires CleanRun(mem, run)
    ensures NotOlder(Select(mem), Select(AfterAll(mem, run)))
  {
    hide CleanRun, RunFits, RunInStep, Select, AfterAll;
    CleanRunFits(mem, run);
    BootsStayInStep(mem, run);
    GenerationNeverDecreases(mem, run);
  }

  /* ---- failures and cuts between operations ---- */

  lemma {:induction false} UntornChunks(d: Device, base: nat, off: nat, len: nat)
    requires Untorn(d) && off <= len
    ensures Untorn(ReadChunks(d, base, off, len).1)
    decreases len - off
  {
    hide Untorn, ReadOp;
    if off < len {
      ReadKeepsUntorn(d, base + off, ChunkLen(off, len));
      UntornChunks(ReadOp(d, base + off, ChunkLen(off, len)).1, base, off + ChunkLen(off, len), len);
    }
  }

  lemma UntornImage(bodyOk: seq<Byte> -> bool, vectorsOk: seq<Byte> -> bool, d: Device, base: nat, len: nat)
    requires Untorn(d)
    ensures Untorn(BodyThenVectors(bodyOk, vectorsOk, d, base, len).1)
  {
    hide Untorn, ReadOp, ReadChunks;
    UntornChunks(d, base, 0, len);
    ReadKeepsUntorn(ReadChunks(d, base, 0, len).1, base, 8);
  }

  lemma UntornImageCheck(d: Device, base: nat, len: nat, bodyCrc: U32)
    requires Untorn(d)
    ensures Untorn(ImageCheck(d, base, len, bodyCrc).1)
  {
    UntornImage(b => Crc32.Of(b) == bodyCrc, v => VectorsOk(v, base, len), d, base, len);
  }

  lemma UntornSlotCheck(d: Device, bank: Byte)
    requires Untorn(d)
    ensures Untorn(SlotCheck(d, bank).1)
  {
    hide Untorn, ReadOp, ImageCheck, DescriptorOk;
    ReadKeepsUntorn(d, DescAddr(bank), DESC);
    SlotIsInFlash(bank);
    ReadFacts(d, DescAddr(bank), DESC);
    var (desc, d1) := ReadOp(d, DescAddr(bank), DESC);
    if desc.Some? {
      var h := DecodeDesc(desc.value);
      UntornImageCheck(d1, SlotBase(bank), h.imageLen, h.bodyCrc);
    }
  }

  lemma UntornSelect(d: Device)
    requires Untorn(d)
    ensures Untorn(SelectOp(d).d)
  {
    hide Untorn, ReadOp, IsValid, Decode, Consider, IsDamaged;
    ReadKeepsUntorn(d, MetaAddr(0), RECORD);
    ReadKeepsUntorn(ReadCopy(d, 0).1, MetaAddr(1), RECORD);
  }

  /**
   * Whatever fails and wherever power is cut between operations, the assumption on torn
   * contents holds, for every record write of the boot.
   */
  lemma UntornBootIsClean(d: Device)
    requires Untorn(d)
    ensures CleanBoot(d)
  {
    hide Untorn, SelectOp, Write, CleanWrite, SlotCheck, Successor;
    UntornSelect(d);
    var s := SelectOp(d);
    if s.read {
      if Wanted(s.cur).Some? {
        UntornWrite(s.d, Target(s.cur), Wanted(s.cur).value);
      }
      var st := Settle(s.cur, s.d);
      if st.halt == None {
        var bank := FirstBank(st);
        UntornSlotCheck(st.d, bank);
        UntornSlotCheck(SlotCheck(st.d, bank).1, OtherBank(bank));
        if st.cur.rec.count < MAX_ROLLBACKS {
          UntornWrite(SlotCheck(SlotCheck(st.d, bank).1, OtherBank(bank)).1, Target(st.cur), FallBack(st.cur, bank));
        }
      }
    }
  }

  /** A run of boots through a trial, cut between operations only. */
  predicate UntornTrialRun(mem: Memory, scripts: seq<seq<Verdict>>, p: Byte)
    decreases |scripts|
  {
    scripts == [] ||
    (var d := PowerOn(mem, scripts[0]);
     Untorn(d) && (Select(mem).InForce? ==> Select(mem).rec.generation < 0xFFFF_FFFD) && KeepsVerifying(d, p) &&
     UntornTrialRun(BootRun(d).1.mem, scripts[1..], p))
  }

  lemma {:induction false} UntornTrialRunIsClean(mem: Memory, scripts: seq<seq<Verdict>>, p: Byte)
    requires UntornTrialRun(mem, scripts, p)
    ensures CleanTrialRun(mem, scripts, p)
    decreases |scripts|
  {
    hide Untorn, CleanBoot, KeepsVerifying, BootRun, Select;
    if scripts != [] {
      var d := PowerOn(mem, scripts[0]);
      UntornBootIsClean(d);
      UntornTrialRunIsClean(BootRun(d).1.mem, scripts[1..], p);
    }
  }

  /** A pending trial is started at most once, wherever operations fail and power is cut between them. */
  lemma TrialAtMostOnceBetweenOperations(mem: Memory, scripts: seq<seq<Verdict>>, t: Byte, p: Byte)
    requires UntornTrialRun(mem, scripts, p) && BankIsLegal(t) && p == OtherBank(t) && Pending(Select(mem), t, p)
    ensures StartCount(mem, scripts, t) <= 1
  {
    hide UntornTrialRun, CleanTrialRun, Select, StartCount;
    UntornTrialRunIsClean(mem, scripts, p);
    TrialAtMostOnceOnCleanFlash(mem, scripts, t, p);
  }
}
