/**
 * The boot record: its 24-byte layout, validity, the selection between the two redundant
 * copies, and the write protocol (erase, program with the CRC last, read back, compare,
 * one retry).
 */
module BootRecord {
  import opened Bytes
  import opened FlashModel
  import Crc32

  const META_MAGIC: U32 := 0xC0DE_BEEF
  const BANK_A: Byte := 0x0A
  const BANK_B: Byte := 0x0B
  const CONFIRMED: Byte := 1
  const TRIAL_PENDING: Byte := 2
  const TRIAL_RUNNING: Byte := 3
  const ROLLED_BACK: Byte := 4
  const ERASED_WORD: U32 := 0xFFFF_FFFF

  /** Bytes programmed before, and covered by, the CRC; and the whole record. */
  const HEAD: nat := 16
  const RECORD: nat := 24

  datatype Meta = Meta(magic: U32, active: Byte, state: Byte, previous: Byte, reserved: Byte,
                       count: U32, generation: U32, crc: U32, pad: U32)

  type Copy = c: int | 0 <= c < 2

  /** The record in force, and the copy that holds it. */
  datatype Current = NoRecord | InForce(copy: Copy, rec: Meta)

  /** The address of a copy; each copy has a page of its own. */
  function MetaAddr(c: Copy): (addr: nat)
    ensures InFlash(addr, PAGE_SIZE)
  {
    if c == 0 then 0x0800_4000 else 0x0800_4800
  }

  function Encode(m: Meta): (s: seq<Byte>)
    ensures |s| == RECORD
  {
    U32Bytes(m.magic) + [m.active, m.state, m.previous, m.reserved] + U32Bytes(m.count) +
    U32Bytes(m.generation) + U32Bytes(m.crc) + U32Bytes(m.pad)
  }

  function Decode(s: seq<Byte>): Meta
    requires |s| == RECORD
  {
    Meta(U32At(s, 0), s[4], s[5], s[6], s[7], U32At(s, 8), U32At(s, 12), U32At(s, 16), U32At(s, 20))
  }

  predicate BankIsLegal(b: Byte) {
    b == BANK_A || b == BANK_B
  }

  predicate IsValid(m: Meta) {
    && m.magic == META_MAGIC
    && m.crc == Crc32.Of(Encode(m)[..HEAD])
    && BankIsLegal(m.active) && BankIsLegal(m.previous)
    && CONFIRMED <= m.state <= ROLLED_BACK
  }

  /** A record with its CRC filled in. */
  function Sealed(active: Byte, state: Byte, previous: Byte, count: U32, generation: U32): Meta {
    var m := Meta(META_MAGIC, active, state, previous, ERASED, count, generation, 0, ERASED_WORD);
    Crc32.OfIsWord(Encode(m)[..HEAD]);
    m.(crc := Crc32.Of(Encode(m)[..HEAD]))
  }

  function RecordBytes(mem: Memory, c: Copy): (s: seq<Byte>)
    ensures |s| == RECORD
  {
    BytesAt(mem, MetaAddr(c), RECORD)
  }

  /** What copy c holds. */
  function CopyAt(mem: Memory, c: Copy): Meta {
    Decode(RecordBytes(mem, c))
  }

  /** The valid copy with the higher generation, copy A on a tie. */
  function Prefer(valid: Meta -> bool, a: Meta, b: Meta): Current {
    if valid(a) && (!valid(b) || a.generation >= b.generation) then InForce(0, a)
    else if valid(b) then InForce(1, b)
    else NoRecord
  }

  function Select(mem: Memory): Current {
    Prefer(IsValid, CopyAt(mem, 0), CopyAt(mem, 1))
  }

  function Other(c: Copy): Copy {
    1 - c
  }

  /** Where the next record goes: the copy that is not selected, copy A if none is. */
  function Target(cur: Current): Copy {
    if cur.InForce? && cur.copy == 0 then 1 else 0
  }

  /** The record that follows cur; the generation counter wraps at 32 bits. */
  function Successor(cur: Current, active: Byte, state: Byte, previous: Byte, count: U32): Meta {
    Sealed(active, state, previous, count,
           if cur.InForce? then (cur.rec.generation + 1) % 0x1_0000_0000 else 1)
  }

  /* ---- layout ---- */

  lemma DecodeEncode(m: Meta)
    ensures Decode(Encode(m)) == m
  {
    var s := Encode(m);
    WordRoundTrip(s, 0, m.magic);
    WordRoundTrip(s, 8, m.count);
    WordRoundTrip(s, 12, m.generation);
    WordRoundTrip(s, 16, m.crc);
    WordRoundTrip(s, 20, m.pad);
  }

  lemma EncodeDecode(s: seq<Byte>)
    requires |s| == RECORD
    ensures Encode(Decode(s)) == s
  {
    BytesRoundTrip(s, 0);
    BytesRoundTrip(s, 8);
    BytesRoundTrip(s, 12);
    BytesRoundTrip(s, 16);
    BytesRoundTrip(s, 20);
    assert s == s[0..4] + [s[4], s[5], s[6], s[7]] + s[8..12] + s[12..16] + s[16..20] + s[20..24];
  }

  lemma SealedIsValid(active: Byte, state: Byte, previous: Byte, count: U32, generation: U32)
    requires BankIsLegal(active) && BankIsLegal(previous) && CONFIRMED <= state <= ROLLED_BACK
    ensures IsValid(Sealed(active, state, previous, count, generation))
  {
    var m := Meta(META_MAGIC, active, state, previous, ERASED, count, generation, 0, ERASED_WORD);
    var r := Sealed(active, state, previous, count, generation);
    assert Encode(m)[..HEAD] == Encode(r)[..HEAD];
  }

  lemma SuccessorFields(cur: Current, active: Byte, state: Byte, previous: Byte, count: U32)
    ensures var r := Successor(cur, active, state, previous, count);
            && r.active == active && r.state == state && r.previous == previous && r.count == count
            && r.generation == if cur.InForce? then (cur.rec.generation + 1) % 0x1_0000_0000 else 1
  {
    hide Encode, Crc32.Of;
  }

  /* ---- the write protocol ---- */

  type Record = s: seq<Byte> | |s| == RECORD witness Repeat(0xFF, 24)

  /** One attempt: erase, program the head, program the CRC, read back and compare. */
  function WriteBytes(d: Device, c: Copy, bytes: Record): (bool, Device) {
    var addr := MetaAddr(c);
    var (erased, d1) := EraseOp(d, addr);
    if !erased then (false, d1) else
    var (head, d2) := ProgramOp(d1, addr, bytes[..HEAD]);
    if !head then (false, d2) else
    var (tail, d3) := ProgramOp(d2, addr + HEAD, bytes[HEAD..]);
    if !tail then (false, d3) else
    var (back, d4) := ReadOp(d3, addr, RECORD);
    (back == Some(bytes), d4)
  }

  function WriteOnce(d: Device, c: Copy, r: Meta): (bool, Device) {
    WriteBytes(d, c, Encode(r))
  }

  /** Two attempts at most. */
  function Write(d: Device, c: Copy, r: Meta): (bool, Device) {
    var (ok, d1) := WriteOnce(d, c, r);
    if ok then (true, d1) else WriteOnce(d1, c, r)
  }

  /**
   * The assumption on torn contents: after an operation the copy does not pass for a valid
   * record, unless it is the record it held before or the one being written.
   */
  ghost predicate TearShows(valid: Record -> bool, before: Memory, after: Memory, c: Copy, bytes: Record) {
    valid(RecordBytes(after, c)) ==> RecordBytes(after, c) == RecordBytes(before, c) || RecordBytes(after, c) == bytes
  }

  /** TearShows for every operation of one attempt. */
  ghost predicate TearsShowOnce(valid: Record -> bool, d: Device, c: Copy, bytes: Record) {
    var addr := MetaAddr(c);
    var (erased, d1) := EraseOp(d, addr);
    && TearShows(valid, d.mem, d1.mem, c, bytes)
    && (erased ==>
          var (head, d2) := ProgramOp(d1, addr, bytes[..HEAD]);
          && TearShows(valid, d1.mem, d2.mem, c, bytes)
          && (head ==>
                var (tail, d3) := ProgramOp(d2, addr + HEAD, bytes[HEAD..]);
                TearShows(valid, d2.mem, d3.mem, c, bytes)))
  }

  predicate IsValidRecord(s: Record) {
    IsValid(Decode(s))
  }

  /** TearShows for every operation of a write and its retry. */
  ghost predicate TearsShow(d: Device, c: Copy, r: Meta) {
    && TearsShowOnce(IsValidRecord, d, c, Encode(r))
    && var (ok, d1) := WriteOnce(d, c, r);
       ok || TearsShowOnce(IsValidRecord, d1, c, Encode(r))
  }

  /** Every byte outside the page of one copy is as it was. */
  ghost predicate OnlyPage(before: Memory, after: Memory, c: Copy) {
    OnlyRange(before, after, MetaAddr(c), PAGE_SIZE)
  }

  lemma EraseKeepsOthers(d: Device, c: Copy)
    ensures OnlyPage(d.mem, EraseOp(d, MetaAddr(c)).1.mem, c)
  {
    var addr := MetaAddr(c);
    SpliceStores(d.mem, addr, Outcome(Fate(d), BytesAt(d.mem, addr, PAGE_SIZE), ERASED_PAGE));
  }

  lemma ProgramKeepsOthers(d: Device, c: Copy, off: nat, data: seq<Byte>)
    requires off + |data| <= PAGE_SIZE
    ensures OnlyPage(d.mem, ProgramOp(d, MetaAddr(c) + off, data).1.mem, c)
  {
    var addr := MetaAddr(c) + off;
    var after := Outcome(Fate(d), BytesAt(d.mem, addr, |data|), data);
    SpliceStores(d.mem, addr, after);
    WidenRange(d.mem, Splice(d.mem, addr, after), addr, |data|, MetaAddr(c), PAGE_SIZE);
  }

  lemma SamePage(a: Memory, b: Memory, m: Memory, c: Copy)
    requires OnlyPage(a, b, c) && OnlyPage(b, m, c)
    ensures OnlyPage(a, m, c)
  {
  }

  lemma WriteBytesKeepsOthers(d: Device, c: Copy, bytes: Record)
    ensures OnlyPage(d.mem, WriteBytes(d, c, bytes).1.mem, c)
  {
    hide OnlyPage, EraseOp, ProgramOp;
    var addr := MetaAddr(c);
    var (erased, d1) := EraseOp(d, addr);
    EraseKeepsOthers(d, c);
    if erased {
      var (head, d2) := ProgramOp(d1, addr, bytes[..HEAD]);
      ProgramKeepsOthers(d1, c, 0, bytes[..HEAD]);
      SamePage(d.mem, d1.mem, d2.mem, c);
      if head {
        var d3 := ProgramOp(d2, addr + HEAD, bytes[HEAD..]).1;
        ProgramKeepsOthers(d2, c, HEAD, bytes[HEAD..]);
        SamePage(d.mem, d2.mem, d3.mem, c);
      }
    }
  }

  /** A write touches the page of its own copy only. */
  lemma WriteKeepsOthers(d: Device, c: Copy, r: Meta)
    ensures OnlyPage(d.mem, Write(d, c, r).1.mem, c)
  {
    WriteBytesKeepsOthers(d, c, Encode(r));
    WriteBytesKeepsOthers(WriteOnce(d, c, r).1, c, Encode(r));
  }

  /** Success is only reported for a copy that reads back as exactly the record. */
  lemma WriteBytesStores(d: Device, c: Copy, bytes: Record)
    requires WriteBytes(d, c, bytes).0
    ensures RecordBytes(WriteBytes(d, c, bytes).1.mem, c) == bytes
  {
  }

  lemma WriteOnceStores(d: Device, c: Copy, r: Meta)
    requires WriteOnce(d, c, r).0
    ensures CopyAt(WriteOnce(d, c, r).1.mem, c) == r
  {
    WriteBytesStores(d, c, Encode(r));
    DecodeEncode(r);
  }

  lemma WriteStores(d: Device, c: Copy, r: Meta)
    requires Write(d, c, r).0
    ensures CopyAt(Write(d, c, r).1.mem, c) == r
  {
    if WriteOnce(d, c, r).0 {
      WriteOnceStores(d, c, r);
    } else {
      WriteOnceStores(WriteOnce(d, c, r).1, c, r);
    }
  }

  lemma WriteBytesOldOrNew(valid: Record -> bool, d: Device, c: Copy, bytes: Record)
    requires TearsShowOnce(valid, d, c, bytes)
    ensures TearShows(valid, d.mem, WriteBytes(d, c, bytes).1.mem, c, bytes)
  {
  }

  lemma WriteOldOrNew(d: Device, c: Copy, r: Meta)
    requires TearsShow(d, c, r)
    ensures var after := Write(d, c, r).1.mem;
            IsValid(CopyAt(after, c)) ==> CopyAt(after, c) == CopyAt(d.mem, c) || CopyAt(after, c) == r
  {
    WriteBytesOldOrNew(IsValidRecord, d, c, Encode(r));
    var (ok, d1) := WriteOnce(d, c, r);
    if !ok {
      WriteBytesOldOrNew(IsValidRecord, d1, c, Encode(r));
    }
    DecodeEncode(r);
  }

  lemma GoodErase(d: Device, c: Copy)
    requires Good(d)
    ensures var (ok, d') := EraseOp(d, MetaAddr(c));
            ok && !d'.dead && d'.script == Later(d) && RecordBytes(d'.mem, c) == ERASED_PAGE[..RECORD]
  {
    SpliceStores(d.mem, MetaAddr(c), ERASED_PAGE);
    var after := Splice(d.mem, MetaAddr(c), ERASED_PAGE);
    assert RecordBytes(after, c) == BytesAt(after, MetaAddr(c), PAGE_SIZE)[..RECORD];
  }

  lemma GoodProgram(d: Device, c: Copy, off: nat, data: seq<Byte>)
    requires Good(d) && off % 8 == 0 && |data| % 8 == 0 && data != [] && off + |data| <= RECORD
    requires IsErased(RecordBytes(d.mem, c)[off..off + |data|])
    ensures var (ok, d') := ProgramOp(d, MetaAddr(c) + off, data);
            && ok && !d'.dead && d'.script == Later(d)
            && RecordBytes(d'.mem, c) ==
               RecordBytes(d.mem, c)[..off] + data + RecordBytes(d.mem, c)[off + |data|..]
  {
    hide Splice, ErasedDoubleWords;
    BytesWithin(d.mem, MetaAddr(c), RECORD, off, |data|);
    SpliceSeenWithin(d.mem, MetaAddr(c), RECORD, off, data);
  }

  lemma RecordInPieces(bytes: Record, blank: Record)
    ensures blank[..0] + bytes[..HEAD] + blank[HEAD..] == bytes[..HEAD] + blank[HEAD..]
    ensures (bytes[..HEAD] + blank[HEAD..])[HEAD..] == blank[HEAD..]
    ensures (bytes[..HEAD] + blank[HEAD..])[..HEAD] + bytes[HEAD..] + (bytes[..HEAD] + blank[HEAD..])[RECORD..] == bytes
  {
  }

  lemma BlankPieces()
    ensures |ERASED_PAGE| == PAGE_SIZE
    ensures IsErased(ERASED_PAGE[..RECORD][0..HEAD]) && IsErased(ERASED_PAGE[..RECORD][HEAD..])
  {
  }

  /** Erase and both programmings with their nominal effect leave the record, whatever the read-back says. */
  lemma GoodBytes(d: Device, c: Copy, bytes: Record) returns (d3: Device)
    requires Good(d) && Good(EraseOp(d, MetaAddr(c)).1)
    requires Good(ProgramOp(EraseOp(d, MetaAddr(c)).1, MetaAddr(c), bytes[..HEAD]).1)
    ensures !d3.dead && RecordBytes(d3.mem, c) == bytes
    ensures d3.script == Later(ProgramOp(EraseOp(d, MetaAddr(c)).1, MetaAddr(c), bytes[..HEAD]).1)
    ensures WriteBytes(d, c, bytes) == (ReadOp(d3, MetaAddr(c), RECORD).0 == Some(bytes), ReadOp(d3, MetaAddr(c), RECORD).1)
  {
    hide EraseOp, ProgramOp, RecordBytes, ERASED_PAGE, IsErased;
    BlankPieces();
    var addr, head, tail := MetaAddr(c), bytes[..HEAD], bytes[HEAD..];
    var blank := ERASED_PAGE[..RECORD];
    RecordInPieces(bytes, blank);
    GoodErase(d, c);
    var d1 := EraseOp(d, addr).1;
    GoodProgram(d1, c, 0, head);
    var d2 := ProgramOp(d1, addr, head).1;
    assert RecordBytes(d2.mem, c)[HEAD..RECORD] == blank[HEAD..];
    GoodProgram(d2, c, HEAD, tail);
    d3 := ProgramOp(d2, addr + HEAD, tail).1;
    assert RecordBytes(d3.mem, c) == bytes;
  }

  lemma WorkingBytes(d: Device, c: Copy, bytes: Record)
    requires Works(d)
    ensures WriteBytes(d, c, bytes).0 && Works(WriteBytes(d, c, bytes).1)
  {
    hide ProgramOp, EraseOp, WriteBytes;
    WorkingSteps(d, c, bytes);
    var d3 := GoodBytes(d, c, bytes);
  }

  lemma WorkingSteps(d: Device, c: Copy, bytes: Record)
    requires Works(d)
    ensures Works(EraseOp(d, MetaAddr(c)).1)
    ensures Works(ProgramOp(EraseOp(d, MetaAddr(c)).1, MetaAddr(c), bytes[..HEAD]).1)
  {
    hide Splice, ErasedDoubleWords;
  }

  /** On working flash the first attempt succeeds. */
  lemma WorkingWrite(d: Device, c: Copy, r: Meta)
    requires Works(d)
    ensures Write(d, c, r).0 && Works(Write(d, c, r).1)
  {
    WorkingBytes(d, c, Encode(r));
  }

  /* ---- power-cut safety ---- */

  /** Replacing the copy that is not preferred by nothing valid, itself or a newer record. */
  lemma PreferAfterWrite(valid: Meta -> bool, a: Meta, b: Meta, x: Meta, r: Meta)
    requires valid(r)
    ensures var cur := Prefer(valid, a, b);
            var prior := if Target(cur) == 0 then a else b;
            var after := if Target(cur) == 0 then Prefer(valid, x, b) else Prefer(valid, a, x);
            && ((cur.InForce? ==> r.generation == cur.rec.generation + 1) ==>
                  && ((valid(x) ==> x == prior || x == r) ==> after == cur || after == InForce(Target(cur), r))
                  && (x == r ==> after == InForce(Target(cur), r)))
  {
  }

  lemma PreferAfterStore(valid: Meta -> bool, a: Meta, b: Meta, r: Meta)
    requires valid(r) && Prefer(valid, a, b).InForce?
    requires r.generation == (Prefer(valid, a, b).rec.generation + 1) % 0x1_0000_0000
    ensures var cur := Prefer(valid, a, b);
            var after := if Target(cur) == 0 then Prefer(valid, r, b) else Prefer(valid, a, r);
            && (after == InForce(Target(cur), r) <==> cur.rec.generation < 0xFFFF_FFFF)
            && (after == cur <==> cur.rec.generation == 0xFFFF_FFFF)
  {
  }

  /** The selection only depends on the two record pages. */
  lemma SelectAfterWrite(before: Memory, after: Memory, c: Copy)
    requires OnlyPage(before, after, c)
    ensures Select(after) ==
            if c == 0 then Prefer(IsValid, CopyAt(after, 0), CopyAt(before, 1))
            else Prefer(IsValid, CopyAt(before, 0), CopyAt(after, 1))
  {
    ReadsElsewhere(before, after, MetaAddr(c), PAGE_SIZE, MetaAddr(Other(c)), RECORD);
  }

  /**
   * Whatever fails, tears or is cut during a write and its retry, the next selection finds
   * either exactly the record it found before or exactly the new one; and a write that
   * reported success is the one found.
   */
  lemma PowerCutSafety(d: Device, cur: Current, r: Meta)
    requires cur == Select(d.mem) && IsValid(r)
    requires cur.InForce? ==> r.generation == cur.rec.generation + 1
    requires TearsShow(d, Target(cur), r)
    ensures var (ok, d') := Write(d, Target(cur), r);
            && (Select(d'.mem) == cur || Select(d'.mem) == InForce(Target(cur), r))
            && (ok ==> Select(d'.mem) == InForce(Target(cur), r))
  {
    var (ok, d') := Write(d, Target(cur), r);
    WriteKeepsOthers(d, Target(cur), r);
    WriteOldOrNew(d, Target(cur), r);
    if ok {
      WriteStores(d, Target(cur), r);
    }
    SelectAfterWrite(d.mem, d'.mem, Target(cur));
    PreferAfterWrite(IsValid, CopyAt(d.mem, 0), CopyAt(d.mem, 1), CopyAt(d'.mem, Target(cur)), r);
  }

  lemma StoredRecordSelected(before: Memory, after: Memory, cur: Current, r: Meta)
    requires cur == Select(before) && cur.InForce? && IsValid(r)
    requires r.generation == (cur.rec.generation + 1) % 0x1_0000_0000
    requires OnlyPage(before, after, Target(cur)) && CopyAt(after, Target(cur)) == r
    ensures Select(after) == InForce(Target(cur), r) <==> cur.rec.generation < 0xFFFF_FFFF
    ensures Select(after) == cur <==> cur.rec.generation == 0xFFFF_FFFF
  {
    SelectAfterWrite(before, after, Target(cur));
    PreferAfterStore(IsValid, CopyAt(before, 0), CopyAt(before, 1), r);
  }

  /**
   * A write that reported success is found by the next selection exactly when the
   * generation counter did not wrap; when it did, the old record stays in force.
   */
  lemma CompletedWriteIsSelectedIffNoWrap(d: Device, cur: Current, r: Meta)
    requires cur == Select(d.mem) && cur.InForce? && IsValid(r)
    requires r.generation == (cur.rec.generation + 1) % 0x1_0000_0000
    requires Write(d, Target(cur), r).0
    ensures var after := Select(Write(d, Target(cur), r).1.mem);
            && (after == InForce(Target(cur), r) <==> cur.rec.generation < 0xFFFF_FFFF)
            && (after == cur <==> cur.rec.generation == 0xFFFF_FFFF)
  {
    WriteKeepsOthers(d, Target(cur), r);
    WriteStores(d, Target(cur), r);
    StoredRecordSelected(d.mem, Write(d, Target(cur), r).1.mem, cur, r);
  }

  /* ---- reading the record in force ---- */

  /** What a selection over possibly failing reads found; damaged: some copy held rubbish. */
  datatype Selection = Selection(read: bool, cur: Current, damaged: bool, d: Device)

  /** One copy considered on top of the best so far: a later copy wins only with a higher generation. */
  function Consider(valid: Meta -> bool, best: Current, c: Copy, m: Meta): Current {
    if valid(m) && (best == NoRecord || m.generation > best.rec.generation) then InForce(c, m) else best
  }

  /** Bytes that hold something, but not a valid record. */
  predicate IsDamaged(valid: Meta -> bool, s: Record) {
    !valid(Decode(s)) && !IsErased(s)
  }

  function ReadCopy(d: Device, c: Copy): (r: (Option<Record>, Device))
    ensures r.1.mem == d.mem
    ensures r.0.Some? ==> r.0.value == RecordBytes(d.mem, c)
    ensures Works(d) ==> r.0.Some? && Works(r.1)
  {
    ReadOp(d, MetaAddr(c), RECORD)
  }

  function SelectBy(valid: Meta -> bool, d: Device): Selection {
    var (x, d1) := ReadCopy(d, 0);
    if x == None then Selection(false, NoRecord, false, d1) else
    var best, damaged := Consider(valid, NoRecord, 0, Decode(x.value)), IsDamaged(valid, x.value);
    var (y, d2) := ReadCopy(d1, 1);
    if y == None then Selection(false, best, damaged, d2)
    else Selection(true, Consider(valid, best, 1, Decode(y.value)), damaged || IsDamaged(valid, y.value), d2)
  }

  function SelectOp(d: Device): Selection {
    SelectBy(IsValid, d)
  }

  lemma ConsiderBoth(valid: Meta -> bool, a: Meta, b: Meta)
    ensures Consider(valid, Consider(valid, NoRecord, 0, a), 1, b) == Prefer(valid, a, b)
  {
  }

  lemma EitherCopy(p: Copy -> bool)
    ensures (exists c: Copy :: p(c)) <==> p(0) || p(1)
  {
  }

  lemma SelectBySelects(valid: Meta -> bool, d: Device)
    ensures var s := SelectBy(valid, d);
            && s.d.mem == d.mem
            && (s.read ==> s.cur == Prefer(valid, CopyAt(d.mem, 0), CopyAt(d.mem, 1)))
            && (s.read ==> (s.damaged <==> exists c: Copy :: IsDamaged(valid, RecordBytes(d.mem, c))))
            && (Works(d) ==> s.read && Works(s.d))
  {
    hide Consider, Prefer, IsDamaged, ReadCopy, RecordBytes, Decode;
    ConsiderBoth(valid, CopyAt(d.mem, 0), CopyAt(d.mem, 1));
    var damaged := (c: Copy) => IsDamaged(valid, RecordBytes(d.mem, c));
    EitherCopy(damaged);
    assert (exists c: Copy :: IsDamaged(valid, RecordBytes(d.mem, c))) <==> damaged(0) || damaged(1);
  }

  /** Reading both copies changes no memory, and when both could be read finds exactly the selection. */
  lemma SelectOpSelects(d: Device)
    ensures var s := SelectOp(d);
            && s.d.mem == d.mem
            && (s.read ==> s.cur == Select(d.mem))
            && (s.read ==> (s.damaged <==> exists c: Copy :: IsDamaged(IsValid, RecordBytes(d.mem, c))))
            && (Works(d) ==> s.read && Works(s.d))
  {
    SelectBySelects(IsValid, d);
  }

  method RecordSelect(fl: InternalFlash, valid: Meta -> bool) returns (s: Selection)
    modifies fl
    ensures s == SelectBy(valid, old(fl.State())) && fl.State() == s.d
  {
    var cur, damaged := NoRecord, false;
    var c := 0;
    while c < 2
      invariant 0 <= c <= 2
      invariant c == 0 ==> fl.State() == old(fl.State()) && cur == NoRecord && !damaged
      invariant c == 1 ==>
                  && ReadCopy(old(fl.State()), 0).0.Some? && fl.State() == ReadCopy(old(fl.State()), 0).1
                  && cur == Consider(valid, NoRecord, 0, Decode(ReadCopy(old(fl.State()), 0).0.value))
                  && damaged == IsDamaged(valid, ReadCopy(old(fl.State()), 0).0.value)
      invariant c == 2 ==> SelectBy(valid, old(fl.State())) == Selection(true, cur, damaged, fl.State())
    {
      var data := fl.Read(MetaAddr(c), RECORD);
      if data == None {
        return Selection(false, cur, damaged, Device(fl.mem, fl.script, fl.dead, fl.log));
      }
      var r := Decode(data.value);
      if !valid(r) {
        damaged := damaged || !IsErased(data.value);
      } else if cur == NoRecord || r.generation > cur.rec.generation {
        cur := InForce(c, r);
      }
      c := c + 1;
    }
    s := Selection(true, cur, damaged, Device(fl.mem, fl.script, fl.dead, fl.log));
  }

  /** One attempt at the write protocol. */
  method RecordWriteOnce(fl: InternalFlash, c: Copy, bytes: Record) returns (ok: bool)
    modifies fl
    ensures (ok, fl.State()) == WriteBytes(old(fl.State()), c, bytes)
  {
    var addr := MetaAddr(c);
    ok := fl.ErasePage(addr);
    if !ok {
      return;
    }
    ok := fl.Program(addr, bytes[..HEAD]);
    if !ok {
      return;
    }
    ok := fl.Program(addr + HEAD, bytes[HEAD..]);
    if !ok {
      return;
    }
    var back := fl.Read(addr, RECORD);
    ok := back == Some(bytes);
  }

  /** Write a record to the copy that is not selected; on success it becomes the one in force. */
  method RecordWrite(fl: InternalFlash, cur: Current, r: Meta) returns (ok: bool, now: Current)
    modifies fl
    ensures (ok, fl.State()) == Write(old(fl.State()), Target(cur), r)
    ensures now == if ok then InForce(Target(cur), r) else cur
  {
    var attempt := 0;
    while attempt < 2
      invariant 0 <= attempt <= 2
      invariant attempt == 0 ==> fl.State() == old(fl.State())
      invariant attempt == 1 ==> (false, fl.State()) == WriteOnce(old(fl.State()), Target(cur), r)
      invariant attempt == 2 ==> (false, fl.State()) == Write(old(fl.State()), Target(cur), r)
    {
      ok := RecordWriteOnce(fl, Target(cur), Encode(r));
      if ok {
        return true, InForce(Target(cur), r);
      }
      attempt := attempt + 1;
    }
    return false, cur;
  }
}
