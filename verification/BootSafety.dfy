/**
 * What one boot can leave behind, whatever fails, tears or is cut: nothing outside the two
 * record pages changes, the record in force afterwards is one of very few, and only a slot
 * verified in that very boot is ever named for the jump.
 */
module BootSafety {
  import opened Bytes
  import opened FlashModel
  import opened BootRecord
  import opened BootSlot
  import opened BootCore
  import Crc32

  /** Every byte outside the two record pages is as it was. */
  ghost predicate OnlyRecords(before: Memory, after: Memory) {
    OnlyRange(before, after, 0x0800_4000, 0x1000)
  }

  lemma PageIsAmongRecords(before: Memory, after: Memory, c: Copy)
    requires OnlyPage(before, after, c)
    ensures OnlyRecords(before, after)
  {
    WidenRange(before, after, MetaAddr(c), PAGE_SIZE, 0x0800_4000, 0x1000);
  }

  /** Slots and descriptors lie outside the record pages. */
  lemma SlotsUntouched(before: Memory, after: Memory, bank: Byte)
    requires OnlyRecords(before, after)
    ensures Bootable(after, bank) <==> Bootable(before, bank)
    ensures ImageIn(after, bank) == ImageIn(before, bank)
  {
    hide DescriptorOk, VectorsOk, Crc32.Of, DecodeDesc;
    ReadsElsewhere(before, after, 0x0800_4000, 0x1000, DescAddr(bank), DESC);
    var desc, base := BytesAt(before, DescAddr(bank), DESC), SlotBase(bank);
    ReadsElsewhere(before, after, 0x0800_4000, 0x1000, base, 8);
    if DescriptorOk(desc, base) {
      DescriptorFits(desc, base);
      ReadsElsewhere(before, after, 0x0800_4000, 0x1000, base, DecodeDesc(desc).imageLen);
    }
  }

  lemma DescriptorFits(s: seq<Byte>, base: nat)
    requires |s| == DESC && DescriptorOk(s, base)
    ensures 0 < DecodeDesc(s).imageLen <= SLOT_SIZE
  {
  }

  /**
   * The bootloader's notion of the record in force: stored, valid, and at most superseded by
   * a successor whose write took effect although it was reported as failed.
   */
  ghost predicate Tracks(mem: Memory, cur: Current) {
    && cur.InForce? && IsValid(cur.rec) && CopyAt(mem, cur.copy) == cur.rec
    && (Select(mem) == cur ||
        (Select(mem).InForce? && Select(mem).copy == Target(cur) &&
         Select(mem).rec.generation == cur.rec.generation + 1))
  }

  lemma SelectedIsTracked(mem: Memory)
    requires Select(mem).InForce?
    ensures Tracks(mem, Select(mem))
  {
    hide IsValid, Decode;
  }

  lemma PreferAfterSecondWrite(valid: Meta -> bool, a: Meta, b: Meta, c: Copy, x: Meta, r: Meta)
    requires valid(r)
    requires var m := if c == 0 then a else b;
             var before := Prefer(valid, a, b);
             && valid(m) && r.generation == m.generation + 1
             && (before == InForce(c, m) || (before.InForce? && before.copy == 1 - c && before.rec.generation == m.generation + 1))
    requires valid(x) ==> x == (if c == 0 then b else a) || x == r
    ensures var m := if c == 0 then a else b;
            var after := if c == 0 then Prefer(valid, a, x) else Prefer(valid, x, b);
            && (after == Prefer(valid, a, b) || after == InForce(c, m) || after == InForce(1 - c, r))
            && (x == r ==> after == InForce(1 - c, r))
  {
  }

  /** A write on top of a tracked record: the old record, its unreported successor, or the new one. */
  lemma TrackedWriteSafety(d: Device, cur: Current, r: Meta)
    requires Tracks(d.mem, cur) && IsValid(r) && r.generation == cur.rec.generation + 1
    requires TearsShow(d, Target(cur), r)
    ensures var (ok, d') := Write(d, Target(cur), r);
            && OnlyRecords(d.mem, d'.mem)
            && (Select(d'.mem) == Select(d.mem) || Select(d'.mem) == cur || Select(d'.mem) == InForce(Target(cur), r))
            && (ok ==> Select(d'.mem) == InForce(Target(cur), r))
  {
    hide IsValid, Decode, TearsShow;
    var (ok, d') := Write(d, Target(cur), r);
    hide Write;
    WriteKeepsOthers(d, Target(cur), r);
    PageIsAmongRecords(d.mem, d'.mem, Target(cur));
    WriteOldOrNew(d, Target(cur), r);
    if ok {
      WriteStores(d, Target(cur), r);
    }
    SelectAfterWrite(d.mem, d'.mem, Target(cur));
    PreferAfterSecondWrite(IsValid, CopyAt(d.mem, 0), CopyAt(d.mem, 1), cur.copy, CopyAt(d'.mem, Target(cur)), r);
  }

  /* ---- the two halves of a boot ---- */

  /** The torn-contents assumption for the write of the trial rule, if it makes one. */
  ghost predicate SettleTears(cur: Current, d: Device) {
    Wanted(cur).Some? ==> TearsShow(d, Target(cur), Wanted(cur).value)
  }

  /** The torn-contents assumption for the fall-back write, if it is reached. */
  ghost predicate LaunchTears(cur: Current, bank: Byte, d: Device)
    requires cur.InForce?
  {
    var (first, d1) := SlotCheck(d, bank);
    var (second, d2) := SlotCheck(d1, OtherBank(bank));
    first.Some? || cur.rec.count >= MAX_ROLLBACKS || second == None || TearsShow(d2, Target(cur), FallBack(cur, bank))
  }

  /** The torn-contents assumption for a whole boot. */
  ghost predicate BootTears(d: Device) {
    var s := SelectOp(d);
    s.read ==>
      && SettleTears(s.cur, s.d)
      && var st := Settle(s.cur, s.d);
         st.halt.Some? || LaunchTears(st.cur, FirstBank(st), st.d)
  }

  /** No write of the next boot can wrap the generation counter. */
  ghost predicate RoomToWrite(mem: Memory) {
    Select(mem).InForce? ==> Select(mem).rec.generation < 0xFFFF_FFFD
  }

  predicate LegalBanks(cur: Current) {
    cur.InForce? ==> BankIsLegal(cur.rec.active) && BankIsLegal(cur.rec.previous)
  }

  lemma SelectedIsValid(mem: Memory)
    ensures var cur := Select(mem); cur.InForce? ==> IsValid(cur.rec) && LegalBanks(cur)
  {
    hide Decode, Crc32.Of;
  }

  /** What the trial rule wants written is a valid record, one generation on. */
  lemma WantedIsValid(cur: Current)
    requires cur.InForce? ==> IsValid(cur.rec) && cur.rec.generation < 0xFFFF_FFFF
    ensures Wanted(cur).Some? ==>
              && IsValid(Wanted(cur).value)
              && (cur.InForce? ==> Wanted(cur).value.generation == cur.rec.generation + 1)
  {
    hide Crc32.Of;
    if Wanted(cur).Some? {
      var r := Wanted(cur).value;
      SealedIsValid(r.active, r.state, r.previous, r.count, r.generation);
    }
  }

  lemma FallBackIsValid(cur: Current, failed: Byte)
    requires cur.InForce? && cur.rec.generation < 0xFFFF_FFFF && cur.rec.count < MAX_ROLLBACKS && BankIsLegal(failed)
    ensures IsValid(FallBack(cur, failed)) && FallBack(cur, failed).generation == cur.rec.generation + 1
  {
    hide Crc32.Of;
    SealedIsValid(OtherBank(failed), ROLLED_BACK, failed, cur.rec.count + 1, cur.rec.generation + 1);
  }

  /** After the trial rule, the old record or the wanted one is in force. */
  lemma SettleSafety(d: Device, cur: Current)
    requires cur == Select(d.mem) && SettleTears(cur, d)
    requires cur.InForce? ==> cur.rec.generation < 0xFFFF_FFFF
    ensures var st := Settle(cur, d);
            && OnlyRecords(d.mem, st.d.mem)
            && (Select(st.d.mem) == cur ||
                (Wanted(cur).Some? && Select(st.d.mem) == InForce(Target(cur), Wanted(cur).value)))
            && (st.cur == cur || (Wanted(cur).Some? && st.cur == InForce(Target(cur), Wanted(cur).value) == Select(st.d.mem)))
            && (st.halt == None ==> st.cur.InForce?)
            && (st.cur.InForce? ==> Tracks(st.d.mem, st.cur))
  {
    SelectedIsValid(d.mem);
    WantedIsValid(cur);
    hide IsValid, CopyAt, TearsShow, Successor;
    if Wanted(cur).Some? {
      var r := Wanted(cur).value;
      PowerCutSafety(d, cur, r);
      WriteKeepsOthers(d, Target(cur), r);
      PageIsAmongRecords(d.mem, Write(d, Target(cur), r).1.mem, Target(cur));
      hide Write;
      SettledIsTracked(d, cur, r);
    } else {
      SelectedIsTracked(d.mem);
    }
  }

  lemma SettledIsTracked(d: Device, cur: Current, r: Meta)
    requires cur == Select(d.mem) && IsValid(r) && (cur.InForce? ==> r.generation == cur.rec.generation + 1)
    requires TearsShow(d, Target(cur), r)
    ensures var (ok, d') := Write(d, Target(cur), r);
            && (ok ==> Tracks(d'.mem, InForce(Target(cur), r)))
            && (!ok && cur.InForce? ==> Tracks(d'.mem, cur))
  {
    hide IsValid, Write, TearsShow, Decode, CopyAt, Select, Tracks;
    PowerCutSafety(d, cur, r);
    var (ok, d') := Write(d, Target(cur), r);
    if ok {
      SelectedIsTracked(d'.mem);
    } else if cur.InForce? {
      WriteKeepsOthers(d, Target(cur), r);
      UnwrittenIsTracked(d.mem, d'.mem, cur, r);
    }
  }

  /** A record in force is still tracked when a write of its successor has touched the other copy only. */
  lemma UnwrittenIsTracked(before: Memory, after: Memory, cur: Current, r: Meta)
    requires cur == Select(before) && cur.InForce? && OnlyPage(before, after, Target(cur))
    requires Select(after) == cur || Select(after) == InForce(Target(cur), r)
    requires r.generation == cur.rec.generation + 1
    ensures Tracks(after, cur)
  {
    hide IsValid, Decode, OnlyPage;
    SelectedIsTracked(before);
    hide Select;
    SameCopy(before, after, Target(cur));
  }

  lemma SameCopy(before: Memory, after: Memory, c: Copy)
    requires OnlyPage(before, after, c)
    ensures CopyAt(after, Other(c)) == CopyAt(before, Other(c))
  {
    hide Decode;
    ReadsElsewhere(before, after, MetaAddr(c), PAGE_SIZE, MetaAddr(Other(c)), RECORD);
  }

  /** After verification and a possible fall-back: nothing new, or exactly the fall-back record. */
  lemma LaunchSafety(d: Device, cur: Current, bank: Byte)
    requires Tracks(d.mem, cur) && cur.rec.generation < 0xFFFF_FFFF && BankIsLegal(bank)
    requires LaunchTears(cur, bank, d)
    ensures var l := Launch(cur, bank, d);
            && OnlyRecords(d.mem, l.d.mem)
            && (Select(l.d.mem) == Select(d.mem) || Select(l.d.mem) == cur ||
                (cur.rec.count < MAX_ROLLBACKS && Select(l.d.mem) == InForce(Target(cur), FallBack(cur, bank))))
            && (l.cur == cur || (cur.rec.count < MAX_ROLLBACKS && l.cur == InForce(Target(cur), FallBack(cur, bank)) == Select(l.d.mem)))
  {
    hide SlotCheck, IsValid, CopyAt, TearsShow;
    SlotCheckIsExact(d, bank);
    var (first, d1) := SlotCheck(d, bank);
    SlotCheckIsExact(d1, OtherBank(bank));
    var (second, d2) := SlotCheck(d1, OtherBank(bank));
    if first == None && cur.rec.count < MAX_ROLLBACKS && second.Some? {
      FallBackIsValid(cur, bank);
      TrackedWriteSafety(d2, cur, FallBack(cur, bank));
    }
  }
}
