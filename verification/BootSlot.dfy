/**
 * Slot verification: descriptor, body CRC folded over 256-byte chunks, and the vector
 * pair. The reference is a one-shot check of the memory contents.
 */
module BootSlot {
  import opened Bytes
  import opened FlashModel
  import BootRecord
  import Crc32

  const DESC_MAGIC: U32 := 0x4657_4453
  const SLOT_SIZE: nat := 491520
  const DESC_CRC_SPAN: nat := 24
  const DESC: nat := 32
  const CHUNK: nat := 256

  datatype Descriptor = Descriptor(magic: U32, imageLen: U32, version: U32, loadAddr: U32, bodyCrc: U32,
                                   reserved: U32, descCrc: U32, pad: U32)

  /** What a verified slot holds. */
  datatype Image = Image(len: U32, version: U32)

  function SlotBase(bank: Byte): nat {
    if bank == BootRecord.BANK_B then 0x0808_0000 else 0x0800_6000
  }

  function DescAddr(bank: Byte): nat {
    if bank == BootRecord.BANK_B then 0x0800_5800 else 0x0800_5000
  }

  function OtherBank(bank: Byte): Byte {
    if bank == BootRecord.BANK_A then BootRecord.BANK_B else BootRecord.BANK_A
  }

  function DecodeDesc(s: seq<Byte>): Descriptor
    requires |s| == DESC
  {
    Descriptor(U32At(s, 0), U32At(s, 4), U32At(s, 8), U32At(s, 12), U32At(s, 16), U32At(s, 20), U32At(s, 24), U32At(s, 28))
  }

  /** The descriptor bytes describe an image that fits the slot at base. */
  predicate DescriptorOk(s: seq<Byte>, base: nat)
    requires |s| == DESC
  {
    var d := DecodeDesc(s);
    && d.magic == DESC_MAGIC && d.descCrc == Crc32.Of(s[..DESC_CRC_SPAN])
    && d.loadAddr == base && 0 < d.imageLen <= SLOT_SIZE
  }

  predicate VectorsArePlausible(sp: U32, pc: U32, base: nat, len: nat) {
    var entry := pc - pc % 2;
    && sp % 8 == 0
    && (0x2000_0000 < sp <= 0x2002_0000 || 0x1000_0000 < sp <= 0x1000_8000)
    && pc % 2 == 1 && base <= entry < base + len
  }

  /** The first two words of the slot are a plausible stack pointer and reset vector. */
  predicate VectorsOk(v: seq<Byte>, base: nat, len: nat) {
    |v| == 8 && VectorsArePlausible(U32At(v, 0), U32At(v, 4), base, len)
  }

  /** The memory at base holds a body with this CRC and plausible vectors. */
  predicate BodyOk(mem: Memory, base: nat, len: nat, bodyCrc: U32)
    requires InFlash(base, len) && InFlash(base, 8)
  {
    Crc32.Of(BytesAt(mem, base, len)) == bodyCrc && VectorsOk(BytesAt(mem, base, 8), base, len)
  }

  /** The memory holds a bootable image in this slot: the whole check at once. */
  predicate Bootable(mem: Memory, bank: Byte) {
    var base, desc := SlotBase(bank), BytesAt(mem, DescAddr(bank), DESC);
    DescriptorOk(desc, base) && BodyOk(mem, base, DecodeDesc(desc).imageLen, DecodeDesc(desc).bodyCrc)
  }

  /** What the descriptor says the slot holds. */
  function ImageIn(mem: Memory, bank: Byte): Image {
    var d := DecodeDesc(BytesAt(mem, DescAddr(bank), DESC));
    Image(d.imageLen, d.version)
  }

  function ChunkLen(off: nat, len: nat): nat
    requires off < len
  {
    if len - off < CHUNK then len - off else CHUNK
  }

  /** The body read from offset off on, one chunk a read; none once a read fails. */
  function ReadChunks(d: Device, base: nat, off: nat, len: nat): (Option<seq<Byte>>, Device)
    decreases len - off
  {
    if off >= len then (Some([]), d) else
    var (chunk, d1) := ReadOp(d, base + off, ChunkLen(off, len));
    if chunk == None then (None, d1) else
    var (rest, d2) := ReadChunks(d1, base, off + CHUNK, len);
    (if rest == None then None else Some(chunk.value + rest.value), d2)
  }

  /** Read the body, check it, then read the vector pair and check that. */
  function BodyThenVectors(bodyOk: seq<Byte> -> bool, vectorsOk: seq<Byte> -> bool, d: Device, base: nat, len: nat)
    : (bool, Device)
  {
    var (body, d1) := ReadChunks(d, base, 0, len);
    if body == None || !bodyOk(body.value) then (false, d1) else
    var (v, d2) := ReadOp(d1, base, 8);
    (v.Some? && vectorsOk(v.value), d2)
  }

  /** The checks of the body: its CRC, then its vector pair. */
  function ImageCheck(d: Device, base: nat, len: nat, bodyCrc: U32): (bool, Device) {
    BodyThenVectors(b => Crc32.Of(b) == bodyCrc, v => VectorsOk(v, base, len), d, base, len)
  }

  function SlotCheck(d: Device, bank: Byte): (Option<Image>, Device) {
    var (desc, d1) := ReadOp(d, DescAddr(bank), DESC);
    if desc == None || !DescriptorOk(desc.value, SlotBase(bank)) then (None, d1) else
    var h := DecodeDesc(desc.value);
    var (ok, d2) := ImageCheck(d1, SlotBase(bank), h.imageLen, h.bodyCrc);
    (if ok then Some(Image(h.imageLen, h.version)) else None, d2)
  }

  /* ---- the chunk loop ---- */

  /** The reads the chunk loop issues from offset off on. */
  function ChunkReads(base: nat, off: nat, len: nat): seq<Access>
    decreases len - off
  {
    if off >= len then [] else [ReadAt(base + off, ChunkLen(off, len))] + ChunkReads(base, off + CHUNK, len)
  }

  /** The addresses a sequence of reads touches, in order. */
  function Touched(log: seq<Access>): seq<nat> {
    if log == [] then []
    else (if log[0].ReadAt? then Span(log[0].addr, log[0].len) else []) + Touched(log[1..])
  }

  /** len consecutive addresses. */
  function Span(addr: nat, len: nat): seq<nat> {
    seq<nat>(len, i requires i >= 0 => addr + i)
  }

  lemma SpanConcat(addr: nat, m: nat, n: nat)
    ensures Span(addr, m) + Span(addr + m, n) == Span(addr, m + n)
  {
  }

  lemma TouchedStep(addr: nat, len: nat, rest: seq<Access>)
    ensures Touched([ReadAt(addr, len)] + rest) == Span(addr, len) + Touched(rest)
  {
    assert ([ReadAt(addr, len)] + rest)[1..] == rest;
  }

  /** The chunk loop reads every byte of the body exactly once, in order, and nothing else. */
  lemma {:induction false} ChunksCoverBody(base: nat, off: nat, len: nat)
    requires off <= len
    ensures Touched(ChunkReads(base, off, len)) == Span(base + off, len - off)
    decreases len - off
  {
    if len - off >= CHUNK {
      TouchedStep(base + off, CHUNK, ChunkReads(base, off + CHUNK, len));
      ChunksCoverBody(base, off + CHUNK, len);
      SpanConcat(base + off, CHUNK, len - off - CHUNK);
    } else if off < len {
      TouchedStep(base + off, len - off, []);
    }
  }

  /** One read: what it leaves, and what it returns when it returns anything. */
  lemma ReadFacts(d: Device, addr: nat, len: nat)
    requires InFlash(addr, len) && len > 0
    ensures var (data, d1) := ReadOp(d, addr, len);
            && d1.mem == d.mem
            && (data.Some? ==> data.value == BytesAt(d.mem, addr, len) && d1.log == d.log + [ReadAt(addr, len)])
            && (Works(d) ==> data.Some? && Works(d1))
  {
  }

  lemma NoBytes(mem: Memory, addr: nat)
    requires InFlash(addr, 0)
    ensures BytesAt(mem, addr, 0) == []
  {
  }

  /**
   * The chunk loop leaves the memory alone. When no read fails it holds exactly the body,
   * and on working flash no read fails.
   */
  lemma {:induction false} ChunksAreBody(d: Device, base: nat, off: nat, len: nat)
    requires InFlash(base, len)
    ensures var (body, d') := ReadChunks(d, base, off, len);
            && d'.mem == d.mem
            && (body.Some? && off <= len ==> body.value == BytesAt(d.mem, base + off, len - off))
            && (Works(d) ==> body.Some? && Works(d'))
    decreases len - off
  {
    hide BytesAt, ReadOp;
    if off == len {
      NoBytes(d.mem, base + off);
    } else if off < len {
      var n := ChunkLen(off, len);
      ReadFacts(d, base + off, n);
      var (chunk, d1) := ReadOp(d, base + off, n);
      if chunk.Some? {
        ChunksAreBody(d1, base, off + CHUNK, len);
        if off + CHUNK <= len {
          BytesConcat(d.mem, base + off, n, len - off - n);
        }
      }
    }
  }

  /**
   * Whatever fails, the loop has issued the chunk reads in order up to the first that failed,
   * all of them when none did, and nothing else.
   */
  lemma {:induction false} ChunksAreLogged(d: Device, base: nat, off: nat, len: nat)
    requires InFlash(base, len)
    ensures ReadChunks(d, base, off, len).1.log <= d.log + ChunkReads(base, off, len)
    ensures ReadChunks(d, base, off, len).0.Some? ==> ReadChunks(d, base, off, len).1.log == d.log + ChunkReads(base, off, len)
    decreases len - off
  {
    if off < len {
      var n := ChunkLen(off, len);
      ReadFacts(d, base + off, n);
      var (chunk, d1) := ReadOp(d, base + off, n);
      assert d.log + ChunkReads(base, off, len) == d.log + [ReadAt(base + off, n)] + ChunkReads(base, off + CHUNK, len);
      if chunk.Some? {
        ChunksAreLogged(d1, base, off + CHUNK, len);
      }
    }
  }

  /* ---- operations that only read ---- */

  /** Since d, only reads were issued. */
  ghost predicate OnlyReads(d: Device, later: Device) {
    d.log <= later.log && forall i :: |d.log| <= i < |later.log| ==> later.log[i].ReadAt?
  }

  lemma OneRead(d: Device, addr: nat, n: nat)
    ensures OnlyReads(d, ReadOp(d, addr, n).1)
  {
  }

  lemma MoreReads(d: Device, d1: Device, d2: Device)
    requires OnlyReads(d, d1) && OnlyReads(d1, d2)
    ensures OnlyReads(d, d2)
  {
    forall i | |d.log| <= i < |d2.log| ensures d2.log[i].ReadAt? {
      if i < |d1.log| {
        assert d2.log[i] == d1.log[i];
      }
    }
  }

  lemma {:induction false} ChunksOnlyRead(d: Device, base: nat, off: nat, len: nat)
    ensures OnlyReads(d, ReadChunks(d, base, off, len).1)
    decreases len - off
  {
    hide OnlyReads, ReadOp;
    if off < len {
      var d1 := ReadOp(d, base + off, ChunkLen(off, len)).1;
      OneRead(d, base + off, ChunkLen(off, len));
      ChunksOnlyRead(d1, base, off + CHUNK, len);
      MoreReads(d, d1, ReadChunks(d1, base, off + CHUNK, len).1);
    } else {
      NoReads(d);
    }
  }

  lemma NoReads(d: Device)
    ensures OnlyReads(d, d)
  {
  }

  lemma ImageOnlyReads(bodyOk: seq<Byte> -> bool, vectorsOk: seq<Byte> -> bool, d: Device, base: nat, len: nat)
    ensures OnlyReads(d, BodyThenVectors(bodyOk, vectorsOk, d, base, len).1)
  {
    hide OnlyReads, ReadOp, ReadChunks;
    var d1 := ReadChunks(d, base, 0, len).1;
    ChunksOnlyRead(d, base, 0, len);
    OneRead(d1, base, 8);
    MoreReads(d, d1, ReadOp(d1, base, 8).1);
  }

  lemma ImageCheckOnlyReads(d: Device, base: nat, len: nat, bodyCrc: U32)
    ensures OnlyReads(d, ImageCheck(d, base, len, bodyCrc).1)
  {
    ImageOnlyReads(b => Crc32.Of(b) == bodyCrc, v => VectorsOk(v, base, len), d, base, len);
  }

  /** A slot check only reads. */
  lemma SlotCheckOnlyReads(d: Device, bank: Byte)
    ensures OnlyReads(d, SlotCheck(d, bank).1)
  {
    hide OnlyReads, ReadOp, ImageCheck, DescriptorOk;
    OneRead(d, DescAddr(bank), DESC);
    SlotIsInFlash(bank);
    ReadFacts(d, DescAddr(bank), DESC);
    var (desc, d1) := ReadOp(d, DescAddr(bank), DESC);
    if desc.Some? {
      var h := DecodeDesc(desc.value);
      ImageCheckOnlyReads(d1, SlotBase(bank), h.imageLen, h.bodyCrc);
      MoreReads(d, d1, ImageCheck(d1, SlotBase(bank), h.imageLen, h.bodyCrc).1);
    }
  }

  /** So does the selection of the record. */
  lemma SelectOnlyReads(d: Device)
    ensures OnlyReads(d, BootRecord.SelectOp(d).d)
  {
    hide OnlyReads, ReadOp, BootRecord.IsValid, BootRecord.Decode, BootRecord.Consider, BootRecord.IsDamaged;
    var d1 := ReadOp(d, BootRecord.MetaAddr(0), BootRecord.RECORD).1;
    OneRead(d, BootRecord.MetaAddr(0), BootRecord.RECORD);
    OneRead(d1, BootRecord.MetaAddr(1), BootRecord.RECORD);
    MoreReads(d, d1, ReadOp(d1, BootRecord.MetaAddr(1), BootRecord.RECORD).1);
  }

  /* ---- the slot check ---- */

  lemma SlotIsInFlash(bank: Byte)
    ensures InFlash(SlotBase(bank), SLOT_SIZE) && InFlash(DescAddr(bank), DESC)
  {
  }

  lemma BodyThenVectorsIsExact(bodyOk: seq<Byte> -> bool, vectorsOk: seq<Byte> -> bool, d: Device, base: nat, len: nat)
    requires InFlash(base, len) && InFlash(base, 8)
    ensures var (ok, d') := BodyThenVectors(bodyOk, vectorsOk, d, base, len);
            var good := bodyOk(BytesAt(d.mem, base, len)) && vectorsOk(BytesAt(d.mem, base, 8));
            && d'.mem == d.mem
            && (ok ==> good)
            && (Works(d) ==> (ok <==> good) && Works(d'))
  {
    ChunksAreBody(d, base, 0, len);
    ReadFacts(ReadChunks(d, base, 0, len).1, base, 8);
  }

  lemma ImageCheckIsExact(d: Device, base: nat, len: nat, bodyCrc: U32)
    requires InFlash(base, len) && InFlash(base, 8)
    ensures var (ok, d') := ImageCheck(d, base, len, bodyCrc);
            && d'.mem == d.mem
            && (ok ==> BodyOk(d.mem, base, len, bodyCrc))
            && (Works(d) ==> (ok <==> BodyOk(d.mem, base, len, bodyCrc)) && Works(d'))
  {
    BodyThenVectorsIsExact(b => Crc32.Of(b) == bodyCrc, v => VectorsOk(v, base, len), d, base, len);
  }

  /**
   * The check changes nothing; what it accepts is bootable, whatever failed on the way; and
   * on working flash it accepts every bootable slot.
   */
  lemma SlotCheckIsExact(d: Device, bank: Byte)
    ensures var (image, d') := SlotCheck(d, bank);
            && d'.mem == d.mem
            && (image.Some? ==> Bootable(d.mem, bank) && image.value == ImageIn(d.mem, bank))
            && (Works(d) ==> (image.Some? <==> Bootable(d.mem, bank)) && Works(d'))
  {
    SlotIsInFlash(bank);
    ReadFacts(d, DescAddr(bank), DESC);
    var (desc, d1) := ReadOp(d, DescAddr(bank), DESC);
    if desc.Some? && DescriptorOk(desc.value, SlotBase(bank)) {
      var h := DecodeDesc(desc.value);
      ImageCheckIsExact(d1, SlotBase(bank), h.imageLen, h.bodyCrc);
    }
  }

  /** A result of the chunk loop, continued from the bytes already read. */
  function Prepend(got: seq<Byte>, r: (Option<seq<Byte>>, Device)): (Option<seq<Byte>>, Device) {
    (if r.0 == None then None else Some(got + r.0.value), r.1)
  }

  lemma ChunkTurn(d: Device, base: nat, off: nat, len: nat, got: seq<Byte>)
    requires off < len
    ensures var (chunk, d1) := ReadOp(d, base + off, ChunkLen(off, len));
            Prepend(got, ReadChunks(d, base, off, len)) ==
            if chunk == None then (None, d1)
            else Prepend(got + chunk.value, ReadChunks(d1, base, off + CHUNK, len))
  {
    var (chunk, d1) := ReadOp(d, base + off, ChunkLen(off, len));
    var (rest, d2) := ReadChunks(d1, base, off + CHUNK, len);
    assert chunk.Some? && rest.Some? ==> got + (chunk.value + rest.value) == (got + chunk.value) + rest.value;
  }

  /** Read one chunk of the body. */
  method NextChunk(fl: InternalFlash, base: nat, off: nat, len: nat, ghost got: seq<Byte>)
    returns (chunk: Option<seq<Byte>>)
    requires off < len
    modifies fl
    ensures Prepend(got, ReadChunks(old(fl.State()), base, off, len)) ==
            if chunk == None then (None, fl.State())
            else Prepend(got + chunk.value, ReadChunks(fl.State(), base, off + CHUNK, len))
  {
    ChunkTurn(fl.State(), base, off, len, got);
    chunk := fl.Read(base + off, ChunkLen(off, len));
  }

  /** Fold the body into the running CRC, one 256-byte chunk at a time. */
  method BodyCrc(fl: InternalFlash, base: nat, len: nat) returns (crc: Option<nat>)
    modifies fl
    ensures var (body, d') := ReadChunks(old(fl.State()), base, 0, len);
            && fl.State() == d'
            && crc == if body == None then None else Some(Crc32.Of(body.value))
  {
    var running := Crc32.Begin();
    ghost var whole, got := ReadChunks(fl.State(), base, 0, len), [];
    assert Prepend([], whole) == whole by {
      assert whole.0.Some? ==> [] + whole.0.value == whole.0.value;
    }
    var off := 0;
    while off < len
      invariant running == Crc32.Running(got)
      invariant Prepend(got, ReadChunks(fl.State(), base, off, len)) == whole
    {
      var chunk := NextChunk(fl, base, off, len, got);
      if chunk == None {
        return None;
      }
      running := Crc32.FeedBuffer(running, chunk.value, got);
      got := got + chunk.value;
      off := off + CHUNK;
    }
    assert got + [] == got;
    var c := Crc32.End(running, got);
    crc := Some(c);
  }

  /** Descriptor, body CRC and vector checks of one slot. */
  method SlotIsBootable(fl: InternalFlash, bank: Byte) returns (image: Option<Image>)
    modifies fl
    ensures (image, fl.State()) == SlotCheck(old(fl.State()), bank)
  {
    var base := SlotBase(bank);
    var desc := fl.Read(DescAddr(bank), DESC);
    if desc == None || !DescriptorOk(desc.value, base) {
      return None;
    }
    var h := DecodeDesc(desc.value);
    var crc := BodyCrc(fl, base, h.imageLen);
    if crc == None || crc.value != h.bodyCrc {
      return None;
    }
    var v := fl.Read(base, 8);
    if v == None || !VectorsOk(v.value, base, h.imageLen) {
      return None;
    }
    image := Some(Image(h.imageLen, h.version));
  }
}
