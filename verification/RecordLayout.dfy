/** The boot record byte by byte: where its fields lie, which 24 bytes pass for one, and where a write puts them. */
module RecordLayout {
  import opened Bytes
  import opened FlashModel
  import opened BootRecord
  import Crc32

  /** The number in four bytes, least significant first. */
  function Number(a: Byte, b: Byte, c: Byte, d: Byte): int {
    a as int + 0x100 * b as int + 0x1_0000 * c as int + 0x100_0000 * d as int
  }

  lemma NumberIsWord(s: seq<Byte>, i: nat)
    requires i + 4 <= |s|
    ensures U32At(s, i) == Number(s[i], s[i + 1], s[i + 2], s[i + 3])
  {
  }

  /** The fields of a record, by their offsets. */
  lemma FieldsByOffset(s: Record)
    ensures var r := Decode(s);
            && r.active == s[4] && r.state == s[5] && r.previous == s[6]
            && r.count == Number(s[8], s[9], s[10], s[11]) && r.generation == Number(s[12], s[13], s[14], s[15])
            && r.crc == Number(s[16], s[17], s[18], s[19])
  {
    NumberIsWord(s, 8);
    NumberIsWord(s, 12);
    NumberIsWord(s, 16);
    hide U32At;
  }

  lemma MagicBytes(a: Byte, b: Byte, c: Byte, d: Byte)
    ensures Number(a, b, c, d) == 0xC0DE_BEEF <==> a == 0xEF && b == 0xBE && c == 0xDE && d == 0xC0
  {
  }

  /**
   * Exactly which 24 bytes pass for a record: the magic number, two slot letters, a state from 1
   * to 4, and the CRC of the first sixteen bytes.
   */
  lemma ValidBytesIff(s: Record)
    ensures IsValid(Decode(s)) <==>
            && s[0] == 0xEF && s[1] == 0xBE && s[2] == 0xDE && s[3] == 0xC0
            && (s[4] == 0x0A || s[4] == 0x0B) && 1 <= s[5] <= 4 && (s[6] == 0x0A || s[6] == 0x0B)
            && Number(s[16], s[17], s[18], s[19]) == Crc32.Of(s[..16])
  {
    EncodeDecode(s);
    FieldsByOffset(s);
    NumberIsWord(s, 0);
    MagicBytes(s[0], s[1], s[2], s[3]);
    hide Encode, U32At, Number, Crc32.Of;
  }

  /** The sixteen bytes in front of the CRC of a record the bootloader or the application writes. */
  function HeadBytes(active: Byte, state: Byte, previous: Byte, count: U32, generation: U32): seq<Byte> {
    [0xEF, 0xBE, 0xDE, 0xC0, active, state, previous, 0xFF] + U32Bytes(count) + U32Bytes(generation)
  }

  lemma BytesOfWord(s: seq<Byte>, x: U32)
    requires |s| == 4 && x == Number(s[0], s[1], s[2], s[3])
    ensures U32Bytes(x) == s
  {
    hide U32Bytes, U32At, Number;
    NumberIsWord(s, 0);
    BytesRoundTrip(s, 0);
    assert s[0..4] == s;
  }

  lemma MagicWord()
    ensures U32Bytes(0xC0DE_BEEF) == [0xEF, 0xBE, 0xDE, 0xC0] && U32Bytes(0xFFFF_FFFF) == [0xFF, 0xFF, 0xFF, 0xFF]
  {
    hide U32Bytes;
    BytesOfWord([0xEF, 0xBE, 0xDE, 0xC0], 0xC0DE_BEEF);
    BytesOfWord([0xFF, 0xFF, 0xFF, 0xFF], 0xFFFF_FFFF);
  }

  lemma SealedHead(active: Byte, state: Byte, previous: Byte, count: U32, generation: U32)
    ensures var r := Sealed(active, state, previous, count, generation);
            && Encode(r)[..16] == HeadBytes(active, state, previous, count, generation)
            && r.crc == Crc32.Of(HeadBytes(active, state, previous, count, generation))
            && r.pad == 0xFFFF_FFFF
  {
    MagicWord();
    hide U32Bytes, Crc32.Of;
    var m := Meta(META_MAGIC, active, state, previous, ERASED, count, generation, 0, ERASED_WORD);
    assert Encode(m)[..16] == HeadBytes(active, state, previous, count, generation);
    var r := Sealed(active, state, previous, count, generation);
    assert Encode(r)[..16] == HeadBytes(active, state, previous, count, generation);
  }

  lemma LastEight(r: Meta)
    ensures Encode(r)[16..] == U32Bytes(r.crc) + U32Bytes(r.pad)
  {
    hide U32Bytes;
  }

  /** A write that reports success has put these bytes at 0x08004000 or 0x08004800, the CRC behind the fields. */
  lemma WrittenBytes(d: Device, c: Copy, active: Byte, state: Byte, previous: Byte, count: U32, generation: U32)
    requires Write(d, c, Sealed(active, state, previous, count, generation)).0
    ensures var head := HeadBytes(active, state, previous, count, generation);
            var after := Write(d, c, Sealed(active, state, previous, count, generation)).1.mem;
            && Crc32.Of(head) < 0x1_0000_0000
            && BytesAt(after, if c == 0 then 0x0800_4000 else 0x0800_4800, 24) ==
               head + U32Bytes(Crc32.Of(head)) + [0xFF, 0xFF, 0xFF, 0xFF]
  {
    var r := Sealed(active, state, previous, count, generation);
    var head := HeadBytes(active, state, previous, count, generation);
    Crc32.OfIsWord(head);
    SealedHead(active, state, previous, count, generation);
    LastEight(r);
    MagicWord();
    hide WriteOnce, Write, Encode, Sealed, U32Bytes, HeadBytes, Crc32.Of;
    StoredAsEncoded(d, c, r);
    assert Encode(r) == Encode(r)[..16] + Encode(r)[16..];
  }

  lemma StoredAsEncoded(d: Device, c: Copy, r: Meta)
    requires Write(d, c, r).0
    ensures BytesAt(Write(d, c, r).1.mem, if c == 0 then 0x0800_4000 else 0x0800_4800, 24) == Encode(r)
  {
    hide WriteOnce, Encode, Decode;
    WriteStores(d, c, r);
    EncodeDecode(RecordBytes(Write(d, c, r).1.mem, c));
  }

  /** The record in force is the newest of the valid ones, the first copy when both are as new. */
  lemma NewestIsSelected(mem: Memory, c: Copy)
    requires IsValid(CopyAt(mem, c))
    ensures var cur := Select(mem);
            && cur.InForce? && IsValid(cur.rec) && cur.rec == CopyAt(mem, cur.copy)
            && cur.rec.generation >= CopyAt(mem, c).generation
            && (cur.rec.generation == CopyAt(mem, c).generation ==> cur.copy <= c)
  {
    hide IsValid, CopyAt;
  }

  /** There is none only when neither copy is valid. */
  lemma NothingValid(mem: Memory)
    ensures Select(mem) == NoRecord <==> !IsValid(CopyAt(mem, 0)) && !IsValid(CopyAt(mem, 1))
  {
    hide IsValid, CopyAt;
  }

  const REFUSED: Verdict := Verdict(false, false, None)

  /** A write whose erase is refused changes nothing but the script. */
  lemma RefusedErase(d: Device, c: Copy, bytes: Record)
    requires !d.dead && Fate(d) == REFUSED
    ensures var (ok, d1) := WriteBytes(d, c, bytes);
            !ok && !d1.dead && d1.script == Later(d)
  {
    hide Splice;
  }

  /** A record write tries twice: with the first k operations refused it succeeds exactly for k up to one. */
  lemma WriteRetriesOnce(d: Device, c: Copy, r: Meta, k: nat)
    requires !d.dead && d.script == Repeat(REFUSED, k)
    ensures Write(d, c, r).0 <==> k <= 1
  {
    hide WriteBytes, Encode;
    if k == 0 {
      WorkingWrite(d, c, r);
    } else {
      RefusedErase(d, c, Encode(r));
      var d1 := WriteOnce(d, c, r).1;
      assert |d1.script| == k - 1;
      if k == 1 {
        WorkingBytes(d1, c, Encode(r));
      } else {
        assert Fate(d1) == REFUSED;
        RefusedErase(d1, c, Encode(r));
      }
    }
  }
}
