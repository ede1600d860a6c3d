/**
 * 32-bit words tied to the registers of the CRC model by their value: exclusive or, one bit
 * step and one byte step of the CRC-32 register agree on both sides.
 */
module Words {
  import opened Bytes
  import opened Bits
  import opened ShiftRegister
  import Crc32

  function Val(z: bv32): nat {
    if z == 0 then 0 else 2 * Val(z >> 1) + (if z & 1 == 1 then 1 else 0)
  }

  function WordStep(c: bv32): bv32 {
    if c & 1 == 1 then (c >> 1) ^ 0xEDB8_8320 else c >> 1
  }

  function WordByte(c: bv32, b: bv32): bv32 {
    WordStep(WordStep(WordStep(WordStep(WordStep(WordStep(WordStep(WordStep(c ^ b))))))))
  }

  lemma XorOfBits(x: bv32, y: bv32)
    ensures (x ^ y) >> 1 == (x >> 1) ^ (y >> 1)
    ensures (x ^ y) & 1 == (x & 1) ^ (y & 1)
    ensures (x & 1 == 0 || x & 1 == 1) && (y & 1 == 0 || y & 1 == 1)
  {
  }

  lemma ValParts(z: bv32)
    ensures Val(z) / 2 == Val(z >> 1)
    ensures Val(z) % 2 == if z & 1 == 1 then 1 else 0
  {
    assert 0 as bv32 >> 1 == 0;
  }

  lemma Halves(x: bv32)
    ensures x != 0 ==> x >> 1 < x
    ensures x == 0 ==> x >> 1 == 0
  {
  }

  lemma SameParts(m: nat, n: nat)
    requires m / 2 == n / 2 && m % 2 == n % 2
    ensures m == n
  {
  }

  ghost predicate Agree(x: bv32, y: bv32) {
    Val(x ^ y) == Xor(Val(x), Val(y))
  }

  lemma AgreeStep(x: bv32, y: bv32)
    requires Agree(x >> 1, y >> 1)
    ensures Agree(x, y)
  {
    hide Val, Xor;
    XorOfBits(x, y);
    ValParts(x);
    ValParts(y);
    ValParts(x ^ y);
    XorStep(Val(x), Val(y));
    SameParts(Val(x ^ y), Xor(Val(x), Val(y)));
  }

  lemma ValXorZero()
    ensures Val((0 as bv32) ^ 0) == Xor(Val(0), Val(0))
  {
  }

  lemma {:induction false} ValPositive(x: bv32)
    ensures x != 0 ==> Val(x) > 0
    decreases x
  {
    if x != 0 {
      Halves(x);
      ValPositive(x >> 1);
    }
  }

  lemma BothZero(x: bv32, y: bv32)
    requires Val(x) + Val(y) == 0
    ensures Agree(x, y)
  {
    hide Val, Xor;
    ValPositive(x);
    ValPositive(y);
    ValXorZero();
  }

  lemma HalvesAreSmaller(x: bv32, y: bv32)
    requires Val(x) + Val(y) > 0
    ensures Val(x >> 1) + Val(y >> 1) < Val(x) + Val(y)
  {
    hide Val;
    ValParts(x);
    ValParts(y);
  }

  /** Exclusive or of words is exclusive or of their values. */
  lemma {:induction false} ValXor(x: bv32, y: bv32)
    ensures Agree(x, y)
    decreases Val(x) + Val(y)
  {
    hide Val, Agree;
    if Val(x) + Val(y) == 0 {
      BothZero(x, y);
    } else {
      HalvesAreSmaller(x, y);
      ValXor(x >> 1, y >> 1);
      AgreeStep(x, y);
    }
  }

  lemma StepVal(c: bv32, next: bv32)
    requires next == WordStep(c) && Val(0xEDB8_8320) == Crc32.POLY
    ensures Val(next) == BitStep(Crc32.POLY, Val(c))
  {
    ValParts(c);
    ValXor(c >> 1, 0xEDB8_8320);
    hide Val, Xor;
  }

  lemma NextStep(c0: nat, k: nat, c: bv32, next: bv32)
    requires next == WordStep(c) && Val(0xEDB8_8320) == Crc32.POLY
    requires Val(c) == Steps(Crc32.POLY, c0, k)
    ensures Val(next) == Steps(Crc32.POLY, c0, k + 1)
  {
    hide Val, BitStep, WordStep;
    StepVal(c, next);
  }

  function LowBit(w: bv32): nat {
    if w & 1 == 1 then 1 else 0
  }

  lemma Unfold(z: bv32)
    ensures Val(z) == 2 * Val(z >> 1) + LowBit(z)
  {
    ValParts(z);
  }

  lemma Unfold2(z: bv32)
    ensures Val(z) == 4 * Val(z >> 1 >> 1) + 2 * LowBit(z >> 1) + LowBit(z)
  {
    hide Val, LowBit;
    Unfold(z);
    Unfold(z >> 1);
  }

  /** The value of a word by its low hexadecimal digit and the rest; m is the word without two bits. */
  lemma Digit(z: bv32, m: bv32)
    requires m == z >> 1 >> 1
    ensures Val(z) == 16 * Val(m >> 1 >> 1) + 8 * LowBit(m >> 1) + 4 * LowBit(m) + 2 * LowBit(z >> 1) + LowBit(z)
  {
    hide Val, LowBit;
    Unfold2(z);
    Unfold2(m);
  }

  /** The polynomial and the initial register. */
  lemma Constants()
    ensures Val(0xEDB8_8320) == Crc32.POLY && Val(0xFFFF_FFFF) == Crc32.INIT
  {
    hide Val;
    Digit(0, 0);
    Digit(0xE, 0x3);
    Digit(0xED, 0x3b);
    Digit(0xEDB, 0x3b6);
    Digit(0xEDB8, 0x3b6e);
    Digit(0xE_DB88, 0x3b6e2);
    Digit(0xED_B883, 0x3b6e20);
    Digit(0xEDB_8832, 0x3b6e20c);
    Digit(0xEDB8_8320, 0x3b6e20c8);
    Digit(0xF, 0x3);
    Digit(0xFF, 0x3f);
    Digit(0xFFF, 0x3ff);
    Digit(0xFFFF, 0x3fff);
    Digit(0xF_FFFF, 0x3ffff);
    Digit(0xFF_FFFF, 0x3fffff);
    Digit(0xFFF_FFFF, 0x3ffffff);
    Digit(0xFFFF_FFFF, 0x3fffffff);
  }

  /** The values of the bytes a torn record head can start with. */
  lemma ByteValues()
    ensures Val(0xEF) == 0xEF && Val(0xBE) == 0xBE && Val(0xDE) == 0xDE && Val(0xC0) == 0xC0 && Val(0xFF) == 0xFF
    ensures Val(0xA) == 0xA && Val(0xB) == 0xB && Val(1) == 1 && Val(2) == 2 && Val(3) == 3 && Val(4) == 4
  {
    hide Val;
    Digit(0, 0);
    Digit(1, 0);
    Digit(2, 0);
    Digit(3, 0);
    Digit(4, 1);
    Digit(0xA, 0x2);
    Digit(0xB, 0x2);
    Digit(0xC, 0x3);
    Digit(0xD, 0x3);
    Digit(0xE, 0x3);
    Digit(0xF, 0x3);
    Digit(0xEF, 0x3b);
    Digit(0xBE, 0x2f);
    Digit(0xDE, 0x37);
    Digit(0xC0, 0x30);
    Digit(0xFF, 0x3f);
  }

  /** Feeding one byte to the word register is feeding it to the register of the model. */
  lemma ByteVal(c: bv32, b: bv32)
    requires Val(b) < 0x100
    ensures Val(WordByte(c, b)) == ByteStep(Crc32.POLY, Val(c), Val(b))
  {
    hide Val, Xor, Steps, WordStep, BitStep;
    Constants();
    ValXor(c, b);
    var c0 := c ^ b;
    var c1 := WordStep(c0);
    var c2 := WordStep(c1);
    var c3 := WordStep(c2);
    var c4 := WordStep(c3);
    var c5 := WordStep(c4);
    var c6 := WordStep(c5);
    var c7 := WordStep(c6);
    var v := Val(c0);
    NoSteps(v);
    NextStep(v, 0, c0, c1);
    NextStep(v, 1, c1, c2);
    NextStep(v, 2, c2, c3);
    NextStep(v, 3, c3, c4);
    NextStep(v, 4, c4, c5);
    NextStep(v, 5, c5, c6);
    NextStep(v, 6, c6, c7);
    NextStep(v, 7, c7, WordStep(c7));
  }

  lemma NoSteps(v: nat)
    ensures Steps(Crc32.POLY, v, 0) == v
  {
  }

  lemma FeedOne(c0: nat, m: seq<Byte>, c: bv32, b: bv32, byte: Byte, longer: seq<Byte>, next: bv32)
    requires Feed(Crc32.POLY, c0, m) == Val(c) && Val(b) == byte && next == WordByte(c, b)
    requires longer == m + [byte]
    ensures Feed(Crc32.POLY, c0, longer) == Val(next)
  {
    hide Val, ByteStep, WordByte;
    ByteVal(c, b);
    assert longer[..|longer| - 1] == m;
  }

  lemma {:induction false} ValInjective(x: bv32, y: bv32)
    ensures Val(x) == Val(y) ==> x == y
  {
    hide Val, Xor;
    if Val(x) == Val(y) {
      ValXor(x, y);
      XorSelf(Val(x));
      ValPositive(x ^ y);
      assert Agree(x, y);
      EqualWords(x, y);
    }
  }

  lemma EqualWords(x: bv32, y: bv32)
    ensures x ^ y == 0 ==> x == y
  {
  }

  lemma FeedNone(c: nat)
    ensures Feed(Crc32.POLY, c, []) == c
  {
  }
}
