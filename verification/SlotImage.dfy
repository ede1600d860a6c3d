/**
 * The descriptor packer against the slot check: what the packer makes of an image, laid down
 * byte by byte, is accepted with that length and version exactly when the image is a plausible
 * program for its slot, and with any of the packer's damages it is refused.
 */
module SlotImage {
  import opened Bytes
  import opened FlashModel
  import opened BootRecord
  import opened BootSlot
  import opened BootCore
  import opened BootSafety
  import BootChoice
  import Crc32

  /** A checksum with its lowest bit flipped. */
  function Flipped(crc: U32): U32 {
    if crc % 2 == 0 then crc + 1 else crc - 1
  }

  function CrcOf(s: seq<Byte>): U32 {
    Crc32.OfIsWord(s);
    Crc32.Of(s)
  }

  /** What the packer was asked for beside the image: the version and, for negative tests, one damage or several. */
  datatype Options = Options(version: U32, loadAddr: Option<U32>, badBodyCrc: bool, badDescCrc: bool)

  /** The first 24 bytes of a descriptor. */
  function PackHead(magic: U32, len: U32, version: U32, load: U32, bodyCrc: U32): (s: seq<Byte>)
    ensures |s| == 24
  {
    U32Bytes(magic) + U32Bytes(len) + U32Bytes(version) + U32Bytes(load) + U32Bytes(bodyCrc) + [0xFF, 0xFF, 0xFF, 0xFF]
  }

  /** The descriptor file of the packer. */
  function Pack(bank: Byte, body: seq<Byte>, o: Options): (s: seq<Byte>)
    requires 0 < |body| <= 491520
    ensures |s| == 32
  {
    var load := if o.loadAddr.Some? then o.loadAddr.value else if bank == 0x0B then 0x0808_0000 else 0x0800_6000;
    var bodyCrc := if o.badBodyCrc then Flipped(CrcOf(body)) else CrcOf(body);
    var head := PackHead(0x4657_4453, |body|, o.version, load, bodyCrc);
    head + U32Bytes(if o.badDescCrc then Flipped(CrcOf(head)) else CrcOf(head)) + [0xFF, 0xFF, 0xFF, 0xFF]
  }

  /** A descriptor and an image programmed where the slot has them. */
  function Install(mem: Memory, bank: Byte, desc: seq<Byte>, body: seq<Byte>): Memory
    requires |desc| == 32 && |body| <= 491520
  {
    if bank == 0x0B then Splice(Splice(mem, 0x0800_5800, desc), 0x0808_0000, body)
    else Splice(Splice(mem, 0x0800_5000, desc), 0x0800_6000, body)
  }

  /** The eight bytes at the start of a slot are a stack top and an entry point of a program of this length. */
  predicate Starts(v: seq<Byte>, base: nat, len: nat) {
    && |v| == 8
    && var sp := v[0] as int + 0x100 * v[1] as int + 0x1_0000 * v[2] as int + 0x100_0000 * v[3] as int;
       var pc := v[4] as int + 0x100 * v[5] as int + 0x1_0000 * v[6] as int + 0x100_0000 * v[7] as int;
       && sp % 8 == 0
       && (0x2000_0000 < sp <= 0x2002_0000 || 0x1000_0000 < sp <= 0x1000_8000)
       && pc % 2 == 1 && base <= pc - 1 < base + len
  }

  lemma InstalledBytes(mem: Memory, bank: Byte, desc: seq<Byte>, body: seq<Byte>)
    requires |desc| == 32 && |body| <= 491520
    ensures var now := Install(mem, bank, desc, body);
            && BytesAt(now, if bank == 0x0B then 0x0800_5800 else 0x0800_5000, 32) == desc
            && BytesAt(now, if bank == 0x0B then 0x0808_0000 else 0x0800_6000, |body|) == body
  {
    var at, base := if bank == 0x0B then 0x0800_5800 else 0x0800_5000, if bank == 0x0B then 0x0808_0000 else 0x0800_6000;
    var half := Splice(mem, at, desc);
    SpliceStores(mem, at, desc);
    SpliceStores(half, base, body);
    ReadsElsewhere(half, Splice(half, base, body), base, |body|, at, 32);
  }

  /** The fields of a descriptor, wherever they came from. */
  lemma PackedFields(head: seq<Byte>, magic: U32, len: U32, version: U32, load: U32, bodyCrc: U32, descCrc: U32)
    requires head == PackHead(magic, len, version, load, bodyCrc)
    ensures var s := head + U32Bytes(descCrc) + [0xFF, 0xFF, 0xFF, 0xFF];
            && |s| == 32 && s[..24] == head
            && DecodeDesc(s).magic == magic && DecodeDesc(s).imageLen == len && DecodeDesc(s).version == version
            && DecodeDesc(s).loadAddr == load && DecodeDesc(s).bodyCrc == bodyCrc && DecodeDesc(s).descCrc == descCrc
  {
    hide U32Bytes, U32At;
    var s := head + U32Bytes(descCrc) + [0xFF, 0xFF, 0xFF, 0xFF];
    assert s[0..4] == U32Bytes(magic);
    assert s[4..8] == U32Bytes(len);
    assert s[8..12] == U32Bytes(version);
    assert s[12..16] == U32Bytes(load);
    assert s[16..20] == U32Bytes(bodyCrc);
    assert s[24..28] == U32Bytes(descCrc);
    WordRoundTrip(s, 0, magic);
    WordRoundTrip(s, 4, len);
    WordRoundTrip(s, 8, version);
    WordRoundTrip(s, 12, load);
    WordRoundTrip(s, 16, bodyCrc);
    WordRoundTrip(s, 24, descCrc);
  }

  lemma StartsIsPlausible(v: seq<Byte>, base: nat, len: nat)
    ensures VectorsOk(v, base, len) <==> Starts(v, base, len)
  {
  }

  /**
   * Any descriptor with its fields free, over any image: accepted exactly with the magic number,
   * a length that fits, the load address of the slot, both checksums and a plausible start.
   */
  lemma DescribedImageIsAcceptedIff(d: Device, bank: Byte, magic: U32, len: U32, version: U32, load: U32, bodyCrc: U32,
                                    descCrc: U32)
    requires Works(d)
    requires var head := PackHead(magic, len, version, load, bodyCrc);
             BytesAt(d.mem, if bank == 0x0B then 0x0800_5800 else 0x0800_5000, 32) ==
             head + U32Bytes(descCrc) + [0xFF, 0xFF, 0xFF, 0xFF]
    ensures var base := if bank == 0x0B then 0x0808_0000 else 0x0800_6000;
            SlotCheck(d, bank).0 ==
            if && magic == 0x4657_4453 && 0 < len <= 491520 && load == base
               && descCrc == Crc32.Of(PackHead(magic, len, version, load, bodyCrc))
               && bodyCrc == Crc32.Of(BytesAt(d.mem, base, len))
               && Starts(BytesAt(d.mem, base, 8), base, len)
            then Some(Image(len, version)) else None
  {
    var head := PackHead(magic, len, version, load, bodyCrc);
    var base := if bank == 0x0B then 0x0808_0000 else 0x0800_6000;
    hide U32Bytes, PackHead, DecodeDesc, SlotCheck, VectorsOk, Starts, BytesAt;
    PackedFields(head, magic, len, version, load, bodyCrc, descCrc);
    SlotCheckIsExact(d, bank);
    StartsIsPlausible(BytesAt(d.mem, base, 8), base, len);
  }

  lemma FlippedDiffers(crc: U32)
    ensures Flipped(crc) != crc
  {
  }

  /**
   * Round trip with the packer, for every image that fits and whatever the flash held: an
   * undamaged descriptor is accepted with the image's length and version exactly when the slot
   * then starts with a stack top and an entry point inside the image; a flipped checksum or
   * another load address is always refused.
   */
  lemma PackedImageIsAcceptedIff(d: Device, mem: Memory, bank: Byte, body: seq<Byte>, o: Options)
    requires 0 < |body| <= 491520
    requires Works(d) && d.mem == Install(mem, bank, Pack(bank, body, o), body)
    ensures var base := if bank == 0x0B then 0x0808_0000 else 0x0800_6000;
            SlotCheck(d, bank).0 ==
            if && !o.badBodyCrc && !o.badDescCrc && (o.loadAddr.Some? ==> o.loadAddr.value == base)
               && Starts(BytesAt(d.mem, base, 8), base, |body|)
            then Some(Image(|body|, o.version)) else None
  {
    var load := if o.loadAddr.Some? then o.loadAddr.value else if bank == 0x0B then 0x0808_0000 else 0x0800_6000;
    var bodyCrc := if o.badBodyCrc then Flipped(CrcOf(body)) else CrcOf(body);
    var head := PackHead(0x4657_4453, |body|, o.version, load, bodyCrc);
    var descCrc := if o.badDescCrc then Flipped(CrcOf(head)) else CrcOf(head);
    FlippedDiffers(CrcOf(body));
    FlippedDiffers(CrcOf(head));
    InstalledBytes(mem, bank, Pack(bank, body, o), body);
    hide PackHead, U32Bytes, Install, Starts, SlotCheck, Flipped, Crc32.Of, BytesAt, Splice;
    DescribedImageIsAcceptedIff(d, bank, 0x4657_4453, |body|, o.version, load, bodyCrc, descCrc);
  }

  /** The first eight bytes of an installed image of at least that size are the image's own. */
  lemma StartOfImage(mem: Memory, bank: Byte, desc: seq<Byte>, body: seq<Byte>)
    requires |desc| == 32 && 8 <= |body| <= 491520
    ensures BytesAt(Install(mem, bank, desc, body), if bank == 0x0B then 0x0808_0000 else 0x0800_6000, 8) == body[..8]
  {
    InstalledBytes(mem, bank, desc, body);
    var now, base := Install(mem, bank, desc, body), if bank == 0x0B then 0x0808_0000 else 0x0800_6000;
    hide Install;
    BytesWithin(now, base, |body|, 0, 8);
  }

  /** A program for slot A that starts at 0x080061A0: accepted with the Thumb bit set, refused with it clear. */
  lemma ThumbBitDecides(d: Device, mem: Memory, body: seq<Byte>, version: U32, low: Byte)
    requires 0x1A1 <= |body| <= 491520
    requires body[..8] == [0x00, 0x00, 0x02, 0x20, low, 0x61, 0x00, 0x08] && (low == 0xA1 || low == 0xA0)
    requires Works(d)
    requires d.mem == Install(mem, 0x0A, Pack(0x0A, body, Options(version, None, false, false)), body)
    ensures SlotCheck(d, 0x0A).0 == if low == 0xA1 then Some(Image(|body|, version)) else None
  {
    hide Install, Pack, SlotCheck;
    PackedImageIsAcceptedIff(d, mem, 0x0A, body, Options(version, None, false, false));
    StartOfImage(mem, 0x0A, Pack(0x0A, body, Options(version, None, false, false)), body);
  }

  lemma AcceptedIsBootable(d: Device, bank: Byte)
    requires Works(d)
    ensures SlotCheck(d, bank).0.Some? <==> Bootable(d.mem, bank)
  {
    SlotCheckIsExact(d, bank);
  }

  /**
   * From the packer to the jump: whatever the other slot holds, a boot on working flash that
   * finds no record, or one with at most 14 rollbacks, runs an image when a plausible one was
   * packed for either slot.
   */
  lemma PackedImageBoots(d: Device, mem: Memory, bank: Byte, body: seq<Byte>, version: U32)
    requires bank == 0x0A || bank == 0x0B
    requires 8 <= |body| <= 491520
    requires Starts(body[..8], if bank == 0x0B then 0x0808_0000 else 0x0800_6000, |body|)
    requires Works(d) && RoomToWrite(d.mem)
    requires d.mem == Install(mem, bank, Pack(bank, body, Options(version, None, false, false)), body)
    requires Select(d.mem).InForce? ==> Select(d.mem).rec.count <= 14
    ensures BootRun(d).0.outcome == Run
  {
    hide Install, Pack, SlotCheck, Select, BootRun, Starts, Bootable;
    PackedImageIsAcceptedIff(d, mem, bank, body, Options(version, None, false, false));
    StartOfImage(mem, bank, Pack(bank, body, Options(version, None, false, false)), body);
    AcceptedIsBootable(d, bank);
    BootChoice.RunsIffSomeSlotBootable(d);
  }
}
