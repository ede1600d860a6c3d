/**
 * What a boot reports, under every script of failures, told from the two reads of the record,
 * the record they select, the record writes and the slot checks.
 */
module BootReport {
  import opened Bytes
  import opened FlashModel
  import opened BootRecord
  import opened BootSlot
  import opened BootCore
  import Crc32

  /** Both copies of the record could be read. */
  predicate CopiesRead(d: Device) {
    ReadOp(d, 0x0800_4000, 24).0.Some? && ReadOp(ReadOp(d, 0x0800_4000, 24).1, 0x0800_4800, 24).0.Some?
  }

  function AfterReads(d: Device): Device {
    ReadOp(ReadOp(d, 0x0800_4000, 24).1, 0x0800_4800, 24).1
  }

  /** The copy that is not selected, the first one when none is. */
  function Spare(cur: Current): Copy {
    if cur == NoRecord || cur.copy == 1 then 0 else 1
  }

  /** A record write of a boot: to the spare copy, one generation on. */
  function Record(d: Device, cur: Current, active: Byte, state: Byte, previous: Byte, count: U32): (bool, Device) {
    Write(d, Spare(cur), Sealed(active, state, previous, count, Next(cur)))
  }

  function Next(cur: Current): U32 {
    if cur == NoRecord then 1 else (cur.rec.generation + 1) % 0x1_0000_0000
  }

  /** The report ends on a record with these contents. */
  predicate EndsOn(rep: Report, active: Byte, state: Byte, count: U32, generation: U32) {
    rep.activeBank == active && rep.stateOut == state && rep.rollbackCount == count && rep.generation == generation
  }

  /** The report names this slot and the image its check returned. */
  predicate Starts(rep: Report, bank: Byte, image: Image) {
    && rep.slotBase == (if bank == 0x0B then 0x0808_0000 else 0x0800_6000)
    && rep.imageLen == image.len && rep.version == image.version
  }

  predicate StartsNothing(rep: Report) {
    rep.slotBase == 0 && rep.imageLen == 0 && rep.version == 0
  }

  /**
   * The slots decide, from this device on: this slot is tried first, then the other one unless
   * the record carries 16 rollbacks; starting the other one is recorded.
   */
  ghost predicate SlotsDecide(rep: Report, d: Device, cur: Current, bank: Byte, events: set<BootEvent>)
    requires cur.InForce?
  {
    var other := if bank == 0x0A then 0x0B else 0x0A;
    var (first, d1) := SlotCheck(d, bank);
    var (second, d2) := SlotCheck(d1, other);
    var fallsBack := first == None && cur.rec.count < 16 && second.Some?;
    var recorded := fallsBack && Record(d2, cur, other, 4, bank, cur.rec.count + 1).0;
    && (rep.outcome == Run <==> first.Some? || fallsBack)
    && (rep.outcome == HaltRollbackLimit <==> first == None && cur.rec.count >= 16)
    && (rep.outcome == HaltNoImage <==> first == None && cur.rec.count < 16 && second == None)
    && (first.Some? ==> Starts(rep, bank, first.value))
    && (fallsBack ==> Starts(rep, other, second.value))
    && (rep.outcome != Run ==> StartsNothing(rep))
    && rep.events == events + (if first == None then {ActiveInvalid} else {}) +
                     (if fallsBack && !recorded then {MetaWriteFailed} else {})
    && (if recorded then EndsOn(rep, other, 4, cur.rec.count + 1, Next(cur))
        else EndsOn(rep, cur.rec.active, cur.rec.state, cur.rec.count, cur.rec.generation))
  }

  /** The events of the two reads. */
  function ReadEvents(d: Device): set<BootEvent> {
    if SelectOp(d).damaged then {CopyInvalid} else {}
  }

  lemma ReadsSelect(d: Device)
    ensures SelectOp(d).read <==> CopiesRead(d)
    ensures CopiesRead(d) ==> SelectOp(d).d == AfterReads(d) && SelectOp(d).cur == Select(d.mem)
    ensures CopiesRead(d) ==> (SelectOp(d).damaged <==> exists c: Copy :: IsDamaged(IsValid, RecordBytes(d.mem, c)))
  {
    SelectOpSelects(d);
    hide ReadOp, IsValid, IsDamaged, Consider, Select, Decode, RecordBytes;
  }

  lemma SuccessorIsRecord(d: Device, cur: Current, active: Byte, state: Byte, previous: Byte, count: U32)
    ensures Write(d, Target(cur), Successor(cur, active, state, previous, count)) ==
            Record(d, cur, active, state, previous, count)
    ensures Successor(cur, active, state, previous, count).active == active
    ensures Successor(cur, active, state, previous, count).state == state
    ensures Successor(cur, active, state, previous, count).previous == previous
    ensures Successor(cur, active, state, previous, count).count == count
    ensures Successor(cur, active, state, previous, count).generation == Next(cur)
  {
    hide Write;
    SuccessorFields(cur, active, state, previous, count);
  }

  lemma LaunchDecides(d: Device, cur: Current, bank: Byte, events: set<BootEvent>, stateIn: Byte)
    requires cur.InForce?
    ensures var l := Launch(cur, bank, d);
            SlotsDecide(MakeReport(l.cur, l.outcome, events + l.events, stateIn, l.started), d, cur, bank, events)
  {
    hide SlotCheck, Write, Successor, Record;
    var (first, d1) := SlotCheck(d, bank);
    var (second, d2) := SlotCheck(d1, OtherBank(bank));
    if first == None && cur.rec.count < 16 && second.Some? {
      SuccessorIsRecord(d2, cur, OtherBank(bank), 4, bank, cur.rec.count + 1);
    }
  }

  /** A boot that gets past the trial rule: the slots decide. */
  lemma BootGoesOn(d: Device, st: Settled, bank: Byte)
    requires CopiesRead(d) && st == Settle(Select(d.mem), AfterReads(d))
    requires st.halt == None && st.cur.InForce? && FirstBank(st) == bank
    ensures BootRun(d).0.stateIn == StateIn(Select(d.mem))
    ensures SlotsDecide(BootRun(d).0, st.d, st.cur, bank, ReadEvents(d) + st.events)
  {
    ReadsSelect(d);
    LaunchDecides(st.d, st.cur, bank, ReadEvents(d) + st.events, StateIn(Select(d.mem)));
    hide SelectOp, Settle, Launch, Select, CopiesRead, AfterReads, SlotsDecide, FirstBank;
  }

  /** A boot the trial rule ends: no slot is looked at. */
  lemma BootEnds(d: Device, st: Settled)
    requires CopiesRead(d) && st == Settle(Select(d.mem), AfterReads(d)) && st.halt.Some?
    ensures BootRun(d).0 == MakeReport(st.cur, st.halt.value, ReadEvents(d) + st.events, StateIn(Select(d.mem)), None)
  {
    ReadsSelect(d);
    hide SelectOp, Settle, Launch, Select, CopiesRead, AfterReads, MakeReport, FirstBank;
  }

  lemma SettleEmpty(d: Device)
    ensures var (ok, d1) := Record(d, NoRecord, 0x0A, 1, 0x0B, 0);
            Settle(NoRecord, d) ==
            if ok then Settled(InForce(0, Sealed(0x0A, 1, 0x0B, 0, 1)), {RecordInitialised}, None, d1)
            else Settled(NoRecord, {RecordInitialised, MetaWriteFailed}, Some(HaltFlashFault), d1)
  {
    hide Write, Sealed;
  }

  lemma SettlePending(d: Device, cur: Current)
    requires cur.InForce? && cur.rec.state == 2
    ensures var r := cur.rec;
            var (ok, d1) := Record(d, cur, r.active, 3, r.previous, r.count);
            Settle(cur, d) ==
            if ok then Settled(InForce(Spare(cur), Sealed(r.active, 3, r.previous, r.count, Next(cur))), {TrialStarted}, None, d1)
            else Settled(cur, {MetaWriteFailed}, Some(HaltFlashFault), d1)
  {
    hide Write, Sealed;
  }

  lemma SettleRunning(d: Device, cur: Current)
    requires cur.InForce? && cur.rec.state == 3
    ensures cur.rec.count >= 16 ==> Settle(cur, d) == Settled(cur, {}, Some(HaltRollbackLimit), d)
    ensures cur.rec.count < 16 ==>
              var r := cur.rec;
              var (ok, d1) := Record(d, cur, r.previous, 4, r.active, r.count + 1);
              Settle(cur, d) ==
              if ok then Settled(InForce(Spare(cur), Sealed(r.previous, 4, r.active, r.count + 1, Next(cur))), {TrialAbandoned}, None, d1)
              else Settled(cur, {MetaWriteFailed}, None, d1)
  {
    hide Write, Sealed;
  }

  /** The fields a sealed record is made of. */
  lemma SealedFields(active: Byte, state: Byte, previous: Byte, count: U32, generation: U32)
    ensures var r := Sealed(active, state, previous, count, generation);
            r.active == active && r.state == state && r.previous == previous && r.count == count && r.generation == generation
  {
    hide Encode, Crc32.Of;
  }

  /** A copy that cannot be read: the boot halts at once, before any write or slot check. */
  lemma UnreadableRecordHalts(d: Device)
    requires !CopiesRead(d)
    ensures var rep := BootRun(d).0;
            rep.outcome == HaltFlashFault && StartsNothing(rep) && rep.stateIn == 0 && rep.events == ReadEvents(d)
  {
    ReadsSelect(d);
    hide SelectOp, Settle, Launch, CopiesRead;
  }

  /** No valid copy: the factory record is written first, and the boot goes on with slot A only if that succeeded. */
  lemma EmptyStoreBoot(d: Device)
    requires CopiesRead(d) && Select(d.mem) == NoRecord
    ensures var rep, (ok, d1) := BootRun(d).0, Record(AfterReads(d), NoRecord, 0x0A, 1, 0x0B, 0);
            && rep.stateIn == 0
            && if ok then SlotsDecide(rep, d1, InForce(0, Sealed(0x0A, 1, 0x0B, 0, 1)), 0x0A, ReadEvents(d) + {RecordInitialised})
               else && rep.outcome == HaltFlashFault && StartsNothing(rep) && EndsOn(rep, 0, 0, 0, 0)
                    && rep.events == ReadEvents(d) + {RecordInitialised, MetaWriteFailed}
  {
    SettleEmpty(AfterReads(d));
    SealedFields(0x0A, 1, 0x0B, 0, 1);
    hide SelectOp, Settle, Launch, Select, CopiesRead, AfterReads, Write, SlotsDecide, ReadEvents, BootRun, Sealed, Record;
    var st := Settle(NoRecord, AfterReads(d));
    if st.halt == None {
      BootGoesOn(d, st, 0x0A);
    } else {
      BootEnds(d, st);
    }
  }

  /** A pending trial: it is recorded as running first, and started only if that succeeded. */
  lemma PendingBoot(d: Device, cur: Current)
    requires CopiesRead(d) && cur == Select(d.mem) && cur.InForce? && cur.rec.state == 2
    ensures var rep, r := BootRun(d).0, cur.rec;
            var (ok, d1) := Record(AfterReads(d), cur, r.active, 3, r.previous, r.count);
            && rep.stateIn == 2
            && if ok then SlotsDecide(rep, d1, InForce(Spare(cur), Sealed(r.active, 3, r.previous, r.count, Next(cur))),
                                      r.active, ReadEvents(d) + {TrialStarted})
               else && rep.outcome == HaltFlashFault && StartsNothing(rep) && EndsOn(rep, r.active, 2, r.count, r.generation)
                    && rep.events == ReadEvents(d) + {MetaWriteFailed}
  {
    SettlePending(AfterReads(d), cur);
    SealedFields(cur.rec.active, 3, cur.rec.previous, cur.rec.count, Next(cur));
    hide SelectOp, Settle, Launch, Select, CopiesRead, AfterReads, Write, SlotsDecide, ReadEvents, BootRun, Sealed, Record;
    var st := Settle(cur, AfterReads(d));
    if st.halt == None {
      BootGoesOn(d, st, cur.rec.active);
    } else {
      BootEnds(d, st);
    }
  }

  /**
   * A trial the application never confirmed: with 16 rollbacks the boot halts; below, the previous
   * slot is tried first whether or not the rollback could be recorded, and the record the boot
   * goes on with is the rolled back one or the old one accordingly.
   */
  lemma RunningBoot(d: Device, cur: Current)
    requires CopiesRead(d) && cur == Select(d.mem) && cur.InForce? && cur.rec.state == 3
    ensures var rep, r := BootRun(d).0, cur.rec;
            && rep.stateIn == 3
            && if r.count >= 16
               then && rep.outcome == HaltRollbackLimit && StartsNothing(rep) && EndsOn(rep, r.active, 3, r.count, r.generation)
                    && rep.events == ReadEvents(d)
               else var (ok, d1) := Record(AfterReads(d), cur, r.previous, 4, r.active, r.count + 1);
                    if ok then SlotsDecide(rep, d1, InForce(Spare(cur), Sealed(r.previous, 4, r.active, r.count + 1, Next(cur))),
                                           r.previous, ReadEvents(d) + {TrialAbandoned})
                    else SlotsDecide(rep, d1, cur, r.previous, ReadEvents(d) + {MetaWriteFailed})
  {
    SettleRunning(AfterReads(d), cur);
    hide SelectOp, Settle, Launch, Select, CopiesRead, AfterReads, Write, SlotsDecide, ReadEvents, BootRun, Sealed, Record;
    var st := Settle(cur, AfterReads(d));
    if cur.rec.count < 16 {
      SealedFields(cur.rec.previous, 4, cur.rec.active, cur.rec.count + 1, Next(cur));
      BootGoesOn(d, st, cur.rec.previous);
    } else {
      BootEnds(d, st);
    }
  }

  /** No trial: the active slot is tried first and no record is written before it. */
  lemma SettledBoot(d: Device, cur: Current)
    requires CopiesRead(d) && cur == Select(d.mem) && cur.InForce? && cur.rec.state != 2 && cur.rec.state != 3
    ensures var rep := BootRun(d).0;
            rep.stateIn == cur.rec.state && SlotsDecide(rep, AfterReads(d), cur, cur.rec.active, ReadEvents(d))
  {
    var st := Settle(cur, AfterReads(d));
    hide SelectOp, Launch, Select, CopiesRead, AfterReads, Write, SlotsDecide, ReadEvents, BootRun, Sealed, Record;
    BootGoesOn(d, st, cur.rec.active);
    assert ReadEvents(d) + {} == ReadEvents(d);
  }

  /**
   * The flash-fault halt, exactly: a copy could not be read, or the write that has to come before
   * the first start failed, which only a missing record and a pending trial ask for.
   */
  lemma FlashFaultIff(d: Device)
    ensures var cur := Select(d.mem);
            BootRun(d).0.outcome == HaltFlashFault <==>
              || !CopiesRead(d)
              || (cur == NoRecord && !Record(AfterReads(d), cur, 0x0A, 1, 0x0B, 0).0)
              || (cur.InForce? && cur.rec.state == 2 &&
                  !Record(AfterReads(d), cur, cur.rec.active, 3, cur.rec.previous, cur.rec.count).0)
  {
    var cur := Select(d.mem);
    hide BootRun, Select, CopiesRead, AfterReads, Record, ReadEvents, Sealed, SlotCheck;
    if !CopiesRead(d) {
      UnreadableRecordHalts(d);
    } else if cur == NoRecord {
      EmptyStoreBoot(d);
    } else if cur.rec.state == 2 {
      PendingBoot(d, cur);
    } else if cur.rec.state == 3 {
      RunningBoot(d, cur);
    } else {
      SettledBoot(d, cur);
    }
  }

  /** These 24 bytes are neither a record nor blank. */
  ghost predicate Rubbish(mem: Memory, addr: nat)
    requires InFlash(addr, 24)
  {
    var s := BytesAt(mem, addr, 24);
    !IsValid(Decode(s)) && exists i :: 0 <= i < 24 && s[i] != 0xFF
  }

  lemma DamagedIsRubbish(mem: Memory)
    ensures (exists c: Copy :: IsDamaged(IsValid, RecordBytes(mem, c))) <==>
            Rubbish(mem, 0x0800_4000) || Rubbish(mem, 0x0800_4800)
  {
    hide IsValid, Decode, BytesAt;
    var damaged := (c: Copy) => IsDamaged(IsValid, RecordBytes(mem, c));
    EitherCopy(damaged);
    assert (exists c: Copy :: IsDamaged(IsValid, RecordBytes(mem, c))) <==> damaged(0) || damaged(1);
  }

  /** A boot that could read both copies reports an invalid one exactly when a copy holds neither a record nor blank flash. */
  lemma CopyInvalidIff(d: Device)
    requires CopiesRead(d)
    ensures CopyInvalid in BootRun(d).0.events <==> Rubbish(d.mem, 0x0800_4000) || Rubbish(d.mem, 0x0800_4800)
  {
    var cur := Select(d.mem);
    ReadsSelect(d);
    DamagedIsRubbish(d.mem);
    hide BootRun, Select, SelectOp, CopiesRead, AfterReads, Record, Sealed, SlotCheck, Rubbish, IsDamaged, RecordBytes;
    if cur == NoRecord {
      EmptyStoreBoot(d);
    } else if cur.rec.state == 2 {
      PendingBoot(d, cur);
    } else if cur.rec.state == 3 {
      RunningBoot(d, cur);
    } else {
      SettledBoot(d, cur);
    }
  }

  /** The first slot wins whenever it verifies, and the trial events are the ones handed on. */
  lemma FirstSlotWins(rep: Report, d: Device, cur: Current, bank: Byte, events: set<BootEvent>)
    requires cur.InForce? && SlotsDecide(rep, d, cur, bank, events)
    ensures var image := SlotCheck(d, bank).0;
            image.Some? ==> rep.outcome == Run && Starts(rep, bank, image.value) && rep.events == events
    ensures TrialAbandoned in rep.events <==> TrialAbandoned in events
  {
    hide SlotCheck, Record;
  }

  /** The rollback a boot records when it finds a running trial. */
  function Rollback(d: Device, cur: Current): (bool, Device)
    requires cur.InForce? && cur.rec.count < 16
  {
    Record(d, cur, cur.rec.previous, 4, cur.rec.active, cur.rec.count + 1)
  }

  /** The record of a rollback. */
  function RolledBack(cur: Current): Current
    requires cur.InForce? && cur.rec.count < 16
  {
    InForce(Spare(cur), Sealed(cur.rec.previous, 4, cur.rec.active, cur.rec.count + 1, Next(cur)))
  }

  lemma RunningBelowLimit(d: Device, cur: Current)
    requires CopiesRead(d) && cur == Select(d.mem) && cur.InForce? && cur.rec.state == 3 && cur.rec.count < 16
    ensures var (ok, d1) := Rollback(AfterReads(d), cur);
            && (ok ==> SlotsDecide(BootRun(d).0, d1, RolledBack(cur), cur.rec.previous, ReadEvents(d) + {TrialAbandoned}))
            && (!ok ==> SlotsDecide(BootRun(d).0, d1, cur, cur.rec.previous, ReadEvents(d) + {MetaWriteFailed}))
  {
    hide BootRun, Select, SelectOp, CopiesRead, AfterReads, Record, Sealed, SlotsDecide, ReadEvents, Write, Next, StartsNothing, EndsOn;
    RunningBoot(d, cur);
  }

  /**
   * An abandoned trial below the limit always gets to the previous slot: recorded or not, the boot
   * runs that slot whenever it verifies after the write, and reports what it holds.
   */
  lemma AbandonedTrialRunsPrevious(d: Device, cur: Current)
    requires CopiesRead(d) && cur == Select(d.mem) && cur.InForce? && cur.rec.state == 3 && cur.rec.count < 16
    ensures var rep, (ok, d1) := BootRun(d).0, Rollback(AfterReads(d), cur);
            var image := SlotCheck(d1, cur.rec.previous).0;
            && (image.Some? ==> rep.outcome == Run && Starts(rep, cur.rec.previous, image.value))
            && (image.Some? ==> (MetaWriteFailed in rep.events <==> !ok))
            && (TrialAbandoned in rep.events <==> ok)
  {
    hide BootRun, Select, SelectOp, CopiesRead, AfterReads, Rollback, Sealed, Next, SlotCheck, SlotsDecide, Starts;
    RunningBelowLimit(d, cur);
    var rep := BootRun(d).0;
    var (ok, d1) := Rollback(AfterReads(d), cur);
    if ok {
      FirstSlotWins(rep, d1, RolledBack(cur), cur.rec.previous, ReadEvents(d) + {TrialAbandoned});
    } else {
      FirstSlotWins(rep, d1, cur, cur.rec.previous, ReadEvents(d) + {MetaWriteFailed});
    }
  }
}
