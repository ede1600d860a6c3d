/**
 * The check values of the two checksums: what each makes of the nine digits 1 to 9, as the
 * catalogues of CRC parameters list it. They pin polynomial, initial register, bit order and
 * final complement at once.
 */
module CheckValues {
  import opened Bytes
  import opened Bits
  import opened ShiftRegister
  import opened Words
  import Crc16
  import Crc32

  /** The characters 1 to 9. */
  const DIGITS: seq<Byte> := [0x31, 0x32, 0x33, 0x34, 0x35, 0x36, 0x37, 0x38, 0x39]

  /* ---- CRC-32 ---- */

  lemma WordsOfDigits()
    ensures WordByte(0xFFFF_FFFF, 0x31) == 0x7C23_1048
    ensures WordByte(0x7C23_1048, 0x32) == 0xB0AC_BB32
    ensures WordByte(0xB0AC_BB32, 0x33) == 0x77B7_9C2D
    ensures WordByte(0x77B7_9C2D, 0x34) == 0x641C_1F5C
    ensures WordByte(0x641C_1F5C, 0x35) == 0x340A_C5E3
    ensures WordByte(0x340A_C5E3, 0x36) == 0xF68D_2C9E
    ensures WordByte(0xF68D_2C9E, 0x37) == 0xAFFC_9660
    ensures WordByte(0xAFFC_9660, 0x38) == 0x651F_2550
    ensures WordByte(0x651F_2550, 0x39) == 0x340B_C6D9
  {
  }

  lemma DigitValues()
    ensures Val(0x31) == 0x31 && Val(0x32) == 0x32 && Val(0x33) == 0x33 && Val(0x34) == 0x34 && Val(0x35) == 0x35
    ensures Val(0x36) == 0x36 && Val(0x37) == 0x37 && Val(0x38) == 0x38 && Val(0x39) == 0x39
  {
    hide Val;
    Digit(0, 0);
    Digit(3, 0);
    Digit(0x31, 0xC);
    Digit(0x32, 0xC);
    Digit(0x33, 0xC);
    Digit(0x34, 0xD);
    Digit(0x35, 0xD);
    Digit(0x36, 0xD);
    Digit(0x37, 0xD);
    Digit(0x38, 0xE);
    Digit(0x39, 0xE);
  }

  lemma CheckWord()
    ensures Val(0xCBF4_3926) == 0xCBF4_3926 && (0x340B_C6D9 as bv32) ^ 0xFFFF_FFFF == 0xCBF4_3926
  {
    hide Val;
    Digit(0, 0);
    Digit(0xC, 0x3);
    Digit(0xCB, 0x32);
    Digit(0xCBF, 0x32F);
    Digit(0xCBF4, 0x32FD);
    Digit(0xC_BF43, 0x3_2FD0);
    Digit(0xCB_F439, 0x32_FD0E);
    Digit(0xCBF_4392, 0x32F_D0E4);
    Digit(0xCBF4_3926, 0x32FD_0E49);
  }

  /** CRC-32 of the nine digits. */
  lemma Crc32CheckValue()
    ensures Crc32.Of(DIGITS) == 0xCBF4_3926
  {
    hide Val, WordByte, Xor, Feed;
    Constants();
    DigitValues();
    WordsOfDigits();
    CheckWord();
    var s := DIGITS;
    FeedNone(Crc32.INIT);
    FeedOne(Crc32.INIT, s[..0], 0xFFFF_FFFF, 0x31, s[0], s[..1], 0x7C23_1048);
    FeedOne(Crc32.INIT, s[..1], 0x7C23_1048, 0x32, s[1], s[..2], 0xB0AC_BB32);
    FeedOne(Crc32.INIT, s[..2], 0xB0AC_BB32, 0x33, s[2], s[..3], 0x77B7_9C2D);
    FeedOne(Crc32.INIT, s[..3], 0x77B7_9C2D, 0x34, s[3], s[..4], 0x641C_1F5C);
    FeedOne(Crc32.INIT, s[..4], 0x641C_1F5C, 0x35, s[4], s[..5], 0x340A_C5E3);
    FeedOne(Crc32.INIT, s[..5], 0x340A_C5E3, 0x36, s[5], s[..6], 0xF68D_2C9E);
    FeedOne(Crc32.INIT, s[..6], 0xF68D_2C9E, 0x37, s[6], s[..7], 0xAFFC_9660);
    FeedOne(Crc32.INIT, s[..7], 0xAFFC_9660, 0x38, s[7], s[..8], 0x651F_2550);
    FeedOne(Crc32.INIT, s[..8], 0x651F_2550, 0x39, s[8], s[..9], 0x340B_C6D9);
    assert s[..9] == s;
    SumOfWords(0x340B_C6D9, 0xFFFF_FFFF);
  }

  lemma SumOfWords(x: bv32, y: bv32)
    ensures Val(x ^ y) == Xor(Val(x), Val(y))
  {
    ValXor(x, y);
  }

  /* ---- CRC-16 ---- */

  function HalfStep(c: bv32): bv32 {
    if c & 1 == 1 then (c >> 1) ^ 0xA001 else c >> 1
  }

  function HalfByte(c: bv32, b: bv32): bv32 {
    HalfStep(HalfStep(HalfStep(HalfStep(HalfStep(HalfStep(HalfStep(HalfStep(c ^ b))))))))
  }

  lemma HalfConstants()
    ensures Val(0xA001) == Crc16.POLY && Val(0xFFFF) == Crc16.INIT && Val(0x4B37) == 0x4B37
  {
    hide Val;
    Digit(0, 0);
    Digit(0xA, 0x2);
    Digit(0xA0, 0x28);
    Digit(0xA00, 0x280);
    Digit(0xA001, 0x2800);
    Digit(0xF, 0x3);
    Digit(0xFF, 0x3F);
    Digit(0xFFF, 0x3FF);
    Digit(0xFFFF, 0x3FFF);
    Digit(0x4, 0x1);
    Digit(0x4B, 0x12);
    Digit(0x4B3, 0x12C);
    Digit(0x4B37, 0x12CD);
  }

  lemma NextHalfStep(c0: nat, k: nat, c: bv32, next: bv32)
    requires next == HalfStep(c) && Val(0xA001) == Crc16.POLY && Val(c) == Steps(Crc16.POLY, c0, k)
    ensures Val(next) == Steps(Crc16.POLY, c0, k + 1)
  {
    ValParts(c);
    ValXor(c >> 1, 0xA001);
    hide Val, Xor;
  }

  lemma NoHalfSteps(v: nat)
    ensures Steps(Crc16.POLY, v, 0) == v
  {
  }

  /** Feeding one byte to the word register is feeding it to the register of the model. */
  lemma HalfByteVal(c: bv32, b: bv32)
    requires Val(b) < 0x100
    ensures Val(HalfByte(c, b)) == ByteStep(Crc16.POLY, Val(c), Val(b))
  {
    hide Val, Xor, Steps, HalfStep, BitStep;
    HalfConstants();
    ValXor(c, b);
    var c0 := c ^ b;
    var c1 := HalfStep(c0);
    var c2 := HalfStep(c1);
    var c3 := HalfStep(c2);
    var c4 := HalfStep(c3);
    var c5 := HalfStep(c4);
    var c6 := HalfStep(c5);
    var c7 := HalfStep(c6);
    var v := Val(c0);
    NoHalfSteps(v);
    NextHalfStep(v, 0, c0, c1);
    NextHalfStep(v, 1, c1, c2);
    NextHalfStep(v, 2, c2, c3);
    NextHalfStep(v, 3, c3, c4);
    NextHalfStep(v, 4, c4, c5);
    NextHalfStep(v, 5, c5, c6);
    NextHalfStep(v, 6, c6, c7);
    NextHalfStep(v, 7, c7, HalfStep(c7));
  }

  lemma FeedHalf(m: seq<Byte>, c: bv32, b: bv32, byte: Byte, longer: seq<Byte>, next: bv32)
    requires Feed(Crc16.POLY, Crc16.INIT, m) == Val(c) && Val(b) == byte && next == HalfByte(c, b)
    requires longer == m + [byte]
    ensures Feed(Crc16.POLY, Crc16.INIT, longer) == Val(next)
  {
    hide Val, ByteStep, HalfByte;
    HalfByteVal(c, b);
    assert longer[..|longer| - 1] == m;
  }

  lemma NothingFed()
    ensures Feed(Crc16.POLY, Crc16.INIT, []) == Crc16.INIT
  {
  }

  lemma HalvesOfDigits()
    ensures HalfByte(0xFFFF, 0x31) == 0x947E
    ensures HalfByte(0x947E, 0x32) == 0xF595
    ensures HalfByte(0xF595, 0x33) == 0x7A75
    ensures HalfByte(0x7A75, 0x34) == 0x30BA
    ensures HalfByte(0x30BA, 0x35) == 0xA471
    ensures HalfByte(0xA471, 0x36) == 0x32E4
    ensures HalfByte(0x32E4, 0x37) == 0x9D73
    ensures HalfByte(0x9D73, 0x38) == 0x37DD
    ensures HalfByte(0x37DD, 0x39) == 0x4B37
  {
  }

  /** CRC-16 of the nine digits, and the two bytes that follow them on the wire. */
  lemma Crc16CheckValue()
    ensures Crc16.Of(DIGITS) == 0x4B37 && Crc16.AddCrc(DIGITS) == DIGITS + [0x37, 0x4B]
  {
    hide Val, HalfByte, Xor, Feed;
    HalfConstants();
    DigitValues();
    HalvesOfDigits();
    var s := DIGITS;
    NothingFed();
    FeedHalf(s[..0], 0xFFFF, 0x31, s[0], s[..1], 0x947E);
    FeedHalf(s[..1], 0x947E, 0x32, s[1], s[..2], 0xF595);
    FeedHalf(s[..2], 0xF595, 0x33, s[2], s[..3], 0x7A75);
    FeedHalf(s[..3], 0x7A75, 0x34, s[3], s[..4], 0x30BA);
    FeedHalf(s[..4], 0x30BA, 0x35, s[4], s[..5], 0xA471);
    FeedHalf(s[..5], 0xA471, 0x36, s[5], s[..6], 0x32E4);
    FeedHalf(s[..6], 0x32E4, 0x37, s[6], s[..7], 0x9D73);
    FeedHalf(s[..7], 0x9D73, 0x38, s[7], s[..8], 0x37DD);
    FeedHalf(s[..8], 0x37DD, 0x39, s[8], s[..9], 0x4B37);
    assert s[..9] == s;
  }
}
