/**
 * Why a torn record shows. A record is programmed as two double words and then a third that
 * holds the CRC. When an interrupted operation stops between double words, what is left on
 * the page never passes for a record other than the old and the new one. That rests on one
 * fact of arithmetic about CRC-32: no first double word of a legal record, followed by erased
 * flash, carries the CRC 0xFFFFFFFF. It is computed on 32-bit words.
 */
module TornRecord {
  import opened Bytes
  import opened FlashModel
  import opened BootRecord
  import opened Bits
  import opened ShiftRegister
  import opened Words
  import Crc32

  lemma AfterMagic()
    ensures Feed(Crc32.POLY, Crc32.INIT, [0xEF, 0xBE, 0xDE, 0xC0]) == Val(0x1BB8_88B6)
  {
    hide Val, Feed, WordByte;
    Constants();
    ByteValues();
    MagicSteps();
    FeedNone(Crc32.INIT);
    FeedOne(Crc32.INIT, [], 0xFFFF_FFFF, 0xEF, 0xEF, [0xEF], 0x1D48_EF9B);
    FeedOne(Crc32.INIT, [0xEF], 0x1D48_EF9B, 0xBE, 0xBE, [0xEF, 0xBE], 0x4B19_9CA8);
    FeedOne(Crc32.INIT, [0xEF, 0xBE], 0x4B19_9CA8, 0xDE, 0xDE, [0xEF, 0xBE, 0xDE], 0xB92D_CD95);
    FeedOne(Crc32.INIT, [0xEF, 0xBE, 0xDE], 0xB92D_CD95, 0xC0, 0xC0, [0xEF, 0xBE, 0xDE, 0xC0], 0x1BB8_88B6);
  }

  lemma MagicSteps()
    ensures WordByte(0xFFFF_FFFF, 0xEF) == 0x1D48_EF9B && WordByte(0x1D48_EF9B, 0xBE) == 0x4B19_9CA8
    ensures WordByte(0x4B19_9CA8, 0xDE) == 0xB92D_CD95 && WordByte(0xB92D_CD95, 0xC0) == 0x1BB8_88B6
  {
  }

  /** n erased bytes. */
  function Erased(n: nat): (s: seq<Byte>)
    ensures |s| == n && forall i :: 0 <= i < n ==> s[i] == 0xFF
  {
    if n == 0 then [] else Erased(n - 1) + [0xFF]
  }

  lemma FeedErased(c0: nat, n: nat, c: bv32, next: bv32)
    requires Feed(Crc32.POLY, c0, Erased(n)) == Val(c) && Val(0xFF) == 0xFF && next == WordByte(c, 0xFF)
    ensures Feed(Crc32.POLY, c0, Erased(n + 1)) == Val(next)
  {
    FeedOne(c0, Erased(n), c, 0xFF, 0xFF, Erased(n + 1), next);
  }

  lemma ErasedSteps()
    ensures WordByte(0x04EE_76EA, 0xFF) == 0x6DD9_0A9D && WordByte(0x6DD9_0A9D, 0xFF) == 0xA3D1_D97E
    ensures WordByte(0xA3D1_D97E, 0xFF) == 0x9A1C_626F && WordByte(0x9A1C_626F, 0xFF) == 0xF095_8F26
    ensures WordByte(0xF095_8F26, 0xFF) == 0xFFFF_FFFF && WordByte(0xFFFF_FFFF, 0xFF) == 0x00FF_FFFF
    ensures WordByte(0x00FF_FFFF, 0xFF) == 0x0000_FFFF && WordByte(0x0000_FFFF, 0xFF) == 0x0000_00FF
    ensures WordByte(0x0000_00FF, 0xFF) == 0
  {
  }

  const ROOT: bv32 := 0x04EE_76EA

  /** The one register from which nine erased bytes lead to zero. */
  lemma OnlyRootOfErasedTail()
    ensures Feed(Crc32.POLY, Val(0x04EE_76EA), Erased(9)) == 0
  {
    hide Val, Feed, WordByte;
    ByteValues();
    ErasedSteps();
    var c := Val(0x04EE_76EA);
    FeedNone(c);
    FeedErased(c, 0, 0x04EE_76EA, 0x6DD9_0A9D);
    FeedErased(c, 1, 0x6DD9_0A9D, 0xA3D1_D97E);
    FeedErased(c, 2, 0xA3D1_D97E, 0x9A1C_626F);
    FeedErased(c, 3, 0x9A1C_626F, 0xF095_8F26);
    FeedErased(c, 4, 0xF095_8F26, 0xFFFF_FFFF);
    FeedErased(c, 5, 0xFFFF_FFFF, 0x00FF_FFFF);
    FeedErased(c, 6, 0x00FF_FFFF, 0x0000_FFFF);
    FeedErased(c, 7, 0x0000_FFFF, 0x0000_00FF);
    FeedErased(c, 8, 0x0000_00FF, 0);
    Digit(0, 0);
  }

  lemma HeadsA()
    ensures WordByte(0x1BB8_88B6, 0xA) == 0xC2CC_472F
    ensures WordByte(0xC2CC_472F, 1) == 0xDC14_C188 && WordByte(0xC2CC_472F, 2) == 0x451D_9032
    ensures WordByte(0xC2CC_472F, 3) == 0x321A_A0A4 && WordByte(0xC2CC_472F, 4) == 0xAC7E_3507
    ensures WordByte(0xDC14_C188, 0xA) != ROOT && WordByte(0xDC14_C188, 0xB) != ROOT
    ensures WordByte(0x451D_9032, 0xA) != ROOT && WordByte(0x451D_9032, 0xB) != ROOT
    ensures WordByte(0x321A_A0A4, 0xA) != ROOT && WordByte(0x321A_A0A4, 0xB) != ROOT
    ensures WordByte(0xAC7E_3507, 0xA) != ROOT && WordByte(0xAC7E_3507, 0xB) != ROOT
  {
  }

  lemma HeadsB()
    ensures WordByte(0x1BB8_88B6, 0xB) == 0xB5CB_77B9
    ensures WordByte(0xB5CB_77B9, 1) == 0xC50F_F0C9 && WordByte(0xB5CB_77B9, 2) == 0x5C06_A173
    ensures WordByte(0xB5CB_77B9, 3) == 0x2B01_91E5 && WordByte(0xB5CB_77B9, 4) == 0xB565_0446
    ensures WordByte(0xC50F_F0C9, 0xA) != ROOT && WordByte(0xC50F_F0C9, 0xB) != ROOT
    ensures WordByte(0x5C06_A173, 0xA) != ROOT && WordByte(0x5C06_A173, 0xB) != ROOT
    ensures WordByte(0x2B01_91E5, 0xA) != ROOT && WordByte(0x2B01_91E5, 0xB) != ROOT
    ensures WordByte(0xB565_0446, 0xA) != ROOT && WordByte(0xB565_0446, 0xB) != ROOT
  {
  }

  /** No head of a legal record reaches the root. */
  lemma HeadsMissRoot(active: bv32, state: bv32, previous: bv32)
    requires (active == 0xA || active == 0xB) && (previous == 0xA || previous == 0xB)
    requires state == 1 || state == 2 || state == 3 || state == 4
    ensures WordByte(WordByte(WordByte(0x1BB8_88B6, active), state), previous) != ROOT
  {
    HeadsA();
    HeadsB();
    hide WordByte;
  }

  lemma RootValue()
    ensures Val(ROOT) == 0x04EE_76EA
  {
    hide Val;
    Digit(0, 0);
    Digit(0x4, 0x1);
    Digit(0x4E, 0x13);
    Digit(0x4EE, 0x13B);
    Digit(0x4EE7, 0x13B9);
    Digit(0x4_EE76, 0x1_3B9D);
    Digit(0x4E_E76E, 0x13_B9DB);
    Digit(0x4EE_76EA, 0x13B_9DBA);
  }

  /** The word with the value of a bank or state byte. */
  function WordOf(b: Byte): bv32 {
    if b == 1 then 1 else if b == 2 then 2 else if b == 3 then 3 else if b == 4 then 4 else if b == 0xA then 0xA else 0xB
  }

  lemma AfterHead(active: Byte, state: Byte, previous: Byte) returns (c: bv32)
    requires BankIsLegal(active) && BankIsLegal(previous) && CONFIRMED <= state <= ROLLED_BACK
    ensures Feed(Crc32.POLY, Crc32.INIT, [0xEF, 0xBE, 0xDE, 0xC0, active, state, previous]) == Val(c) && c != ROOT
  {
    hide Val, Feed, WordByte;
    AfterMagic();
    ByteValues();
    HeadsMissRoot(WordOf(active), WordOf(state), WordOf(previous));
    var c1 := WordByte(0x1BB8_88B6, WordOf(active));
    var c2 := WordByte(c1, WordOf(state));
    c := WordByte(c2, WordOf(previous));
    var m := [0xEF, 0xBE, 0xDE, 0xC0];
    FeedOne(Crc32.INIT, m, 0x1BB8_88B6, WordOf(active), active, m + [active], c1);
    FeedOne(Crc32.INIT, m + [active], c1, WordOf(state), state, m + [active, state], c2);
    FeedOne(Crc32.INIT, m + [active, state], c2, WordOf(previous), previous, m + [active, state, previous], c);
    assert m + [active, state, previous] == [0xEF, 0xBE, 0xDE, 0xC0, active, state, previous];
  }

  /** The first double word of a legal record, followed by erased flash, does not check. */
  lemma FirstDoubleWordNeverChecks(active: Byte, state: Byte, previous: Byte)
    requires BankIsLegal(active) && BankIsLegal(previous) && CONFIRMED <= state <= ROLLED_BACK
    ensures Crc32.Of([0xEF, 0xBE, 0xDE, 0xC0, active, state, previous] + Erased(9)) != 0xFFFF_FFFF
  {
    var head := [0xEF, 0xBE, 0xDE, 0xC0, active, state, previous];
    var c := AfterHead(active, state, previous);
    hide Val, Feed, Xor;
    FeedConcat(Crc32.POLY, Crc32.INIT, head, Erased(9));
    var x := Feed(Crc32.POLY, Crc32.INIT, head + Erased(9));
    XorComm(0, Crc32.INIT);
    XorZero(Crc32.INIT);
    if Xor(x, Crc32.INIT) == Crc32.INIT {
      XorInjective(x, 0, Crc32.INIT);
      OnlyRootOfErasedTail();
      RootValue();
      Crc32.PolynomialWidth();
      PowersOfTwo();
      FeedWidth(Crc32.POLY, 32, Crc32.INIT, head);
      FeedKeepsDistinct(Crc32.POLY, 32, Val(c), Val(ROOT), Erased(9));
      ValInjective(c, ROOT);
    }
  }

  /* ---- interrupted writes ---- */

  /** A record as the bootloader builds it. */
  predicate IsBuilt(r: Meta) {
    IsValid(r) && r.reserved == ERASED && r.pad == ERASED_WORD
  }

  lemma ErasedWord(s: seq<Byte>, i: nat)
    requires i + 4 <= |s| && IsErased(s[i..i + 4])
    ensures U32At(s, i) == 0xFFFF_FFFF
  {
    var t := s[i..i + 4];
    assert t[0] == s[i] && t[1] == s[i + 1] && t[2] == s[i + 2] && t[3] == s[i + 3];
  }

  lemma BlankIsInvalid(s: Record)
    requires IsErased(s)
    ensures !IsValidRecord(s)
  {
    ErasedWord(s, 0);
    hide Crc32.Of;
  }

  lemma FirstDoubleWord(r: Meta)
    requires IsBuilt(r)
    ensures Encode(r)[..8] == [0xEF, 0xBE, 0xDE, 0xC0, r.active, r.state, r.previous, 0xFF]
  {
    hide Crc32.Of;
  }

  /** Stopped after one double word: the erased CRC does not match. */
  lemma OneDoubleWordIsInvalid(r: Meta, s: Record)
    requires IsBuilt(r) && s[..8] == Encode(r)[..8] && IsErased(s[8..])
    ensures !IsValidRecord(s)
  {
    FirstDoubleWord(r);
    FirstDoubleWordNeverChecks(r.active, r.state, r.previous);
    EncodeDecode(s);
    assert IsErased(s[16..20]) by { SliceOfSlice(s, 8, 24, 8, 4); }
    ErasedWord(s, 16);
    var head := [0xEF, 0xBE, 0xDE, 0xC0, r.active, r.state, r.previous] + Erased(9);
    assert s[..HEAD] == head by {
      forall i | 0 <= i < 16 ensures s[i] == head[i] {
        if i < 8 {
          assert s[i] == s[..8][i];
        } else {
          assert s[i] == s[8..][i - 8];
        }
      }
    }
    hide Crc32.Of, Encode;
  }

  /** Stopped before the CRC: it only checks when the CRC is itself the erased word. */
  lemma HeadIsInvalidOrWhole(r: Meta, s: Record)
    requires IsBuilt(r) && s[..HEAD] == Encode(r)[..HEAD] && IsErased(s[HEAD..])
    ensures IsValidRecord(s) ==> s == Encode(r)
  {
    EncodeDecode(s);
    DecodeEncode(r);
    assert IsErased(s[16..20]) by { SliceOfSlice(s, 16, 24, 0, 4); }
    assert IsErased(s[20..24]) by { SliceOfSlice(s, 16, 24, 4, 4); }
    ErasedWord(s, 16);
    if IsValidRecord(s) {
      WholeRecord(r, s);
    }
  }

  lemma WholeRecord(r: Meta, s: Record)
    requires IsBuilt(r) && s[..HEAD] == Encode(r)[..HEAD] && IsErased(s[HEAD..]) && r.crc == 0xFFFF_FFFF
    ensures s == Encode(r)
  {
    hide Crc32.Of;
    var t := Encode(r);
    assert t[HEAD..] == U32Bytes(r.crc) + U32Bytes(r.pad);
    assert s == s[..HEAD] + s[HEAD..] && t == t[..HEAD] + t[HEAD..];
    assert s[HEAD..] == t[HEAD..];
  }

  /** Programming that stopped between two double words; a reported success is a complete one. */
  ghost predicate StopsBetweenDoubleWords(v: Verdict, before: seq<Byte>, data: seq<Byte>)
    requires |before| == |data|
  {
    var after := Outcome(v, before, data);
    && (Succeeds(v) ==> after == data)
    && exists k: nat :: 8 * k <= |data| && after == data[..8 * k] + before[8 * k..]
  }

  /** An erase that left the page as it was or erased; a reported success is a complete one. */
  ghost predicate ErasesOrNot(v: Verdict, before: seq<Byte>)
    requires |before| == PAGE_SIZE
  {
    var after := Outcome(v, before, ERASED_PAGE);
    && (Succeeds(v) ==> after == ERASED_PAGE)
    && (after == before || after == ERASED_PAGE)
  }

  /** Every operation of one attempt stops that way. */
  ghost predicate CleanAttempt(d: Device, c: Copy, bytes: Record) {
    var addr := MetaAddr(c);
    var (erased, d1) := EraseOp(d, addr);
    && ErasesOrNot(Fate(d), BytesAt(d.mem, addr, PAGE_SIZE))
    && (erased ==>
          && StopsBetweenDoubleWords(Fate(d1), BytesAt(d1.mem, addr, HEAD), bytes[..HEAD])
          && var (head, d2) := ProgramOp(d1, addr, bytes[..HEAD]);
             (head ==> StopsBetweenDoubleWords(Fate(d2), BytesAt(d2.mem, addr + HEAD, 8), bytes[HEAD..])))
  }

  ghost predicate CleanWrite(d: Device, c: Copy, r: Meta) {
    && CleanAttempt(d, c, Encode(r))
    && var (ok, d1) := WriteOnce(d, c, r);
       ok || CleanAttempt(d1, c, Encode(r))
  }

  lemma CleanErase(d: Device, c: Copy, bytes: Record)
    requires ErasesOrNot(Fate(d), BytesAt(d.mem, MetaAddr(c), PAGE_SIZE))
    ensures var (ok, d1) := EraseOp(d, MetaAddr(c));
            && TearShows(IsValidRecord, d.mem, d1.mem, c, bytes)
            && (ok ==> IsErased(RecordBytes(d1.mem, c)))
  {
    hide IsValid, Crc32.Of;
    var addr := MetaAddr(c);
    var d1 := EraseOp(d, addr).1;
    if !d.dead {
      var after := Outcome(Fate(d), BytesAt(d.mem, addr, PAGE_SIZE), ERASED_PAGE);
      SpliceStores(d.mem, addr, after);
      BytesWithin(d.mem, addr, PAGE_SIZE, 0, RECORD);
      BytesWithin(d1.mem, addr, PAGE_SIZE, 0, RECORD);
      assert IsErased(ERASED_PAGE[0..RECORD]);
      if after == ERASED_PAGE {
        BlankIsInvalid(RecordBytes(d1.mem, c));
      }
    }
  }

  /** What a blank record looks like after k of the two double words of its head. */
  lemma HeadShows(r: Meta, blank: Record, k: nat, s: Record)
    requires IsBuilt(r) && IsErased(blank) && 8 * k <= HEAD
    requires s == Encode(r)[..8 * k] + blank[8 * k..]
    ensures IsValidRecord(s) ==> s == Encode(r)
  {
    hide Encode, IsBuilt, IsValidRecord;
    if k == 0 {
      BlankIsInvalid(s);
    } else if k == 1 {
      OneDoubleWordIsInvalid(r, s);
    } else {
      HeadIsInvalidOrWhole(r, s);
    }
  }

  /** What an interrupted programming leaves: some of its double words, then what was there. */
  lemma ProgramStops(d: Device, addr: nat, data: seq<Byte>) returns (k: nat)
    requires InFlash(addr, |data|) && |data| % 8 == 0
    requires StopsBetweenDoubleWords(Fate(d), BytesAt(d.mem, addr, |data|), data)
    ensures 8 * k <= |data|
    ensures var (ok, d2) := ProgramOp(d, addr, data);
            && ((d2.mem == d.mem && !ok) || d2.mem == Splice(d.mem, addr, data[..8 * k] + BytesAt(d.mem, addr, |data|)[8 * k..]))
            && (ok ==> 8 * k == |data|)
  {
    hide Splice, BytesAt, InFlash, IsErased, ErasedDoubleWords, Programmed;
    var (ok, d2) := ProgramOp(d, addr, data);
    var before := BytesAt(d.mem, addr, |data|);
    k := 0;
    if d2 != d {
      var v := Fate(d);
      if ok {
        k := |data| / 8;
        assert Outcome(v, before, data) == data;
        assert data == data[..8 * k] + before[8 * k..];
      } else if v.torn.Some? && |v.torn.value| == |data| {
        k :| 8 * k <= |data| && v.torn.value == data[..8 * k] + before[8 * k..];
      } else if Succeeds(v) {
        k :| 8 * k <= |data| && Programmed(before, data) == data[..8 * k] + before[8 * k..];
      } else {
        assert before == data[..8 * k] + before[8 * k..];
      }
    }
  }

  /** The record after an interrupted head. */
  lemma HeadStops(d: Device, c: Copy, bytes: Record) returns (k: nat)
    requires StopsBetweenDoubleWords(Fate(d), BytesAt(d.mem, MetaAddr(c), HEAD), bytes[..HEAD])
    ensures var (ok, d2) := ProgramOp(d, MetaAddr(c), bytes[..HEAD]);
            var s, blank := RecordBytes(d2.mem, c), RecordBytes(d.mem, c);
            && 8 * k <= HEAD && s == bytes[..8 * k] + blank[8 * k..]
            && (ok ==> s == bytes[..HEAD] + blank[HEAD..])
  {
    hide ProgramOp, StopsBetweenDoubleWords, Splice;
    var addr, blank, data := MetaAddr(c), RecordBytes(d.mem, c), bytes[..HEAD];
    k := ProgramStops(d, addr, data);
    BytesWithin(d.mem, addr, RECORD, 0, HEAD);
    var after := data[..8 * k] + BytesAt(d.mem, addr, HEAD)[8 * k..];
    SpliceSeenWithin(d.mem, addr, RECORD, 0, after);
    Stitch(bytes, blank, k, after);
    if ProgramOp(d, addr, data).1.mem == d.mem && !ProgramOp(d, addr, data).0 {
      k := 0;
    }
  }

  lemma Stitch(bytes: Record, blank: Record, k: nat, after: seq<Byte>)
    requires 8 * k <= HEAD && after == bytes[..HEAD][..8 * k] + blank[0..HEAD][8 * k..]
    ensures blank[..0] + after + blank[HEAD..] == bytes[..8 * k] + blank[8 * k..]
  {
  }

  lemma CleanHead(d: Device, c: Copy, r: Meta)
    requires IsBuilt(r) && IsErased(RecordBytes(d.mem, c))
    requires StopsBetweenDoubleWords(Fate(d), BytesAt(d.mem, MetaAddr(c), HEAD), Encode(r)[..HEAD])
    ensures var (ok, d2) := ProgramOp(d, MetaAddr(c), Encode(r)[..HEAD]);
            && TearShows(IsValidRecord, d.mem, d2.mem, c, Encode(r))
            && (ok ==> RecordBytes(d2.mem, c) == Encode(r)[..HEAD] + RecordBytes(d.mem, c)[HEAD..])
  {
    hide Encode, IsBuilt, IsValidRecord, ProgramOp, StopsBetweenDoubleWords;
    var k := HeadStops(d, c, Encode(r));
    HeadShows(r, RecordBytes(d.mem, c), k, RecordBytes(ProgramOp(d, MetaAddr(c), Encode(r)[..HEAD]).1.mem, c));
  }

  lemma TailShows(bytes: Record, half: Record, k: nat, after: seq<Byte>, s: Record)
    requires half[..HEAD] == bytes[..HEAD] && 8 * k <= 8
    requires after == bytes[HEAD..][..8 * k] + half[HEAD..][8 * k..]
    requires s == half[..HEAD] + after + half[RECORD..]
    ensures s == half || s == bytes
  {
    if k == 0 {
      assert after == half[HEAD..];
      assert s == half;
    } else {
      assert after == bytes[HEAD..];
      assert s == bytes;
    }
  }

  lemma CleanTail(d: Device, c: Copy, bytes: Record)
    requires RecordBytes(d.mem, c)[..HEAD] == bytes[..HEAD]
    requires StopsBetweenDoubleWords(Fate(d), BytesAt(d.mem, MetaAddr(c) + HEAD, 8), bytes[HEAD..])
    ensures TearShows(IsValidRecord, d.mem, ProgramOp(d, MetaAddr(c) + HEAD, bytes[HEAD..]).1.mem, c, bytes)
  {
    hide IsValidRecord, ProgramOp, StopsBetweenDoubleWords, Splice;
    var addr, half, data := MetaAddr(c), RecordBytes(d.mem, c), bytes[HEAD..];
    var d3 := ProgramOp(d, addr + HEAD, data).1;
    var k := ProgramStops(d, addr + HEAD, data);
    BytesWithin(d.mem, addr, RECORD, HEAD, 8);
    var after := data[..8 * k] + BytesAt(d.mem, addr + HEAD, 8)[8 * k..];
    SpliceSeenWithin(d.mem, addr, RECORD, HEAD, after);
    if d3.mem != d.mem {
      TailShows(bytes, half, k, after, RecordBytes(d3.mem, c));
    }
  }

  lemma CleanAttemptShows(d: Device, c: Copy, r: Meta)
    requires IsBuilt(r) && CleanAttempt(d, c, Encode(r))
    ensures TearsShowOnce(IsValidRecord, d, c, Encode(r))
  {
    hide Encode, IsBuilt, IsValidRecord, ProgramOp, EraseOp, StopsBetweenDoubleWords, ErasesOrNot, TearShows;
    var addr, bytes := MetaAddr(c), Encode(r);
    CleanErase(d, c, bytes);
    var (erased, d1) := EraseOp(d, addr);
    if erased {
      CleanHead(d1, c, r);
      var (head, d2) := ProgramOp(d1, addr, bytes[..HEAD]);
      if head {
        CleanTail(d2, c, bytes);
      }
    }
  }

  /**
   * When every flash operation of a write and its retry stops between double words, and
   * reports success only when complete, no interrupted content passes for a third record:
   * the assumption of the power-cut theorem holds.
   */
  lemma CleanWritesTearVisibly(d: Device, c: Copy, r: Meta)
    requires IsBuilt(r) && CleanWrite(d, c, r)
    ensures TearsShow(d, c, r)
  {
    hide IsBuilt, CleanAttempt, TearsShowOnce;
    CleanAttemptShows(d, c, r);
    var (ok, d1) := WriteOnce(d, c, r);
    if !ok {
      CleanAttemptShows(d1, c, r);
    }
  }

  /** Power-cut safety without the assumption, on flash that stops between double words. */
  lemma PowerCutSafetyOnCleanFlash(d: Device, cur: Current, r: Meta)
    requires cur == Select(d.mem) && IsBuilt(r)
    requires cur.InForce? ==> r.generation == cur.rec.generation + 1
    requires CleanWrite(d, Target(cur), r)
    ensures var (ok, d') := Write(d, Target(cur), r);
            && (Select(d'.mem) == cur || Select(d'.mem) == InForce(Target(cur), r))
            && (ok ==> Select(d'.mem) == InForce(Target(cur), r))
  {
    hide Select, Write, CleanWrite, TearsShow;
    CleanWritesTearVisibly(d, Target(cur), r);
    PowerCutSafety(d, cur, r);
  }

  /** The records the bootloader writes are of that kind. */
  lemma SuccessorIsBuilt(cur: Current, active: Byte, state: Byte, previous: Byte, count: U32)
    requires BankIsLegal(active) && BankIsLegal(previous) && CONFIRMED <= state <= ROLLED_BACK
    ensures IsBuilt(Successor(cur, active, state, previous, count))
  {
    SealedIsValid(active, state, previous, count, if cur.InForce? then (cur.rec.generation + 1) % 0x1_0000_0000 else 1);
    hide Crc32.Of;
  }

  /* ---- failures and cuts between operations ---- */

  /** Operations that fail or are cut, but never half-way: each has its nominal effect or none. */
  predicate Untorn(d: Device) {
    forall i :: 0 <= i < |d.script| ==> d.script[i].torn == None
  }

  lemma OperationsKeepUntorn(d: Device, addr: nat, data: seq<Byte>)
    requires Untorn(d)
    ensures Untorn(EraseOp(d, addr).1) && Untorn(ProgramOp(d, addr, data).1) && Untorn(ReadOp(d, addr, |data|).1)
  {
    hide BytesAt, Splice, IsErased, InFlash;
    assert d.script != [] ==> forall i :: 0 <= i < |d.script| - 1 ==> d.script[1..][i] == d.script[i + 1];
  }

  lemma ReadKeepsUntorn(d: Device, addr: nat, n: nat)
    requires Untorn(d)
    ensures Untorn(ReadOp(d, addr, n).1)
  {
    hide BytesAt, InFlash;
    assert d.script != [] ==> forall i :: 0 <= i < |d.script| - 1 ==> d.script[1..][i] == d.script[i + 1];
  }

  lemma UntornErase(d: Device, c: Copy)
    requires Untorn(d)
    ensures ErasesOrNot(Fate(d), BytesAt(d.mem, MetaAddr(c), PAGE_SIZE))
  {
    hide BytesAt;
  }

  lemma UntornProgram(d: Device, before: seq<Byte>, data: seq<Byte>)
    requires Untorn(d) && |before| == |data| && |data| % 8 == 0
    ensures StopsBetweenDoubleWords(Fate(d), before, data)
  {
    var v := Fate(d);
    assert v.torn == None;
    var k := if Succeeds(v) then |data| / 8 else 0;
    assert 8 * k <= |data|;
    if Succeeds(v) {
      assert data == data[..8 * k] + before[8 * k..];
    } else {
      assert before == data[..8 * k] + before[8 * k..];
    }
  }

  lemma UntornAttempt(d: Device, c: Copy, bytes: Record)
    requires Untorn(d)
    ensures CleanAttempt(d, c, bytes) && Untorn(WriteBytes(d, c, bytes).1)
  {
    hide Untorn, EraseOp, ProgramOp, ReadOp, ErasesOrNot, StopsBetweenDoubleWords;
    var addr := MetaAddr(c);
    UntornErase(d, c);
    OperationsKeepUntorn(d, addr, []);
    var (erased, d1) := EraseOp(d, addr);
    if erased {
      UntornProgram(d1, BytesAt(d1.mem, addr, HEAD), bytes[..HEAD]);
      OperationsKeepUntorn(d1, addr, bytes[..HEAD]);
      var (head, d2) := ProgramOp(d1, addr, bytes[..HEAD]);
      if head {
        UntornProgram(d2, BytesAt(d2.mem, addr + HEAD, 8), bytes[HEAD..]);
        OperationsKeepUntorn(d2, addr + HEAD, bytes[HEAD..]);
        ReadKeepsUntorn(ProgramOp(d2, addr + HEAD, bytes[HEAD..]).1, addr, RECORD);
      }
    }
  }

  lemma UntornWrite(d: Device, c: Copy, r: Meta)
    requires Untorn(d)
    ensures CleanWrite(d, c, r) && Untorn(Write(d, c, r).1)
  {
    hide Untorn, CleanAttempt, WriteBytes;
    UntornAttempt(d, c, Encode(r));
    UntornAttempt(WriteOnce(d, c, r).1, c, Encode(r));
  }
}
