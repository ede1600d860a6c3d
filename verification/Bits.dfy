/**
 * Exclusive or on natural numbers, bit by bit, with the algebra the CRC registers
 * need. Registers stay natural numbers, so no proof depends on bit-blasting.
 */
module Bits {

  function Pow2(n: nat): (p: nat)
    ensures p > 0
  {
    if n == 0 then 1 else 2 * Pow2(n - 1)
  }

  function Xor(a: nat, b: nat): nat {
    if a == 0 && b == 0 then 0
    else 2 * Xor(a / 2, b / 2) + (if a % 2 == b % 2 then 0 else 1)
  }

  /** One level of the recursion, also at zero. */
  lemma XorStep(a: nat, b: nat)
    ensures Xor(a, b) / 2 == Xor(a / 2, b / 2)
    ensures Xor(a, b) % 2 == if a % 2 == b % 2 then 0 else 1
  {
  }

  lemma {:induction false} XorZero(a: nat)
    ensures Xor(a, 0) == a
  {
    if a > 0 {
      XorZero(a / 2);
    }
  }

  lemma {:induction false} XorSelf(a: nat)
    ensures Xor(a, a) == 0
  {
    if a > 0 {
      XorSelf(a / 2);
    }
  }

  lemma {:induction false} XorComm(a: nat, b: nat)
    ensures Xor(a, b) == Xor(b, a)
    decreases a + b
  {
    if a + b > 0 {
      XorComm(a / 2, b / 2);
    }
  }

  lemma {:induction false} XorAssoc(a: nat, b: nat, c: nat)
    ensures Xor(Xor(a, b), c) == Xor(a, Xor(b, c))
    decreases a + b + c
  {
    if a + b + c > 0 {
      XorAssoc(a / 2, b / 2, c / 2);
      XorStep(a, b);
      XorStep(b, c);
      XorStep(Xor(a, b), c);
      XorStep(a, Xor(b, c));
    }
  }

  lemma XorCancel(a: nat, b: nat)
    ensures Xor(Xor(a, b), b) == a
  {
    XorAssoc(a, b, b);
    XorSelf(b);
    XorZero(a);
  }

  /** Exclusive or with a fixed value loses nothing. */
  lemma XorInjective(a: nat, b: nat, p: nat)
    requires Xor(a, p) == Xor(b, p)
    ensures a == b
  {
    XorCancel(a, p);
    XorCancel(b, p);
  }

  /** Two values stay within the width of the wider one. */
  lemma {:induction false} XorWidth(a: nat, b: nat, n: nat)
    requires a < Pow2(n) && b < Pow2(n)
    ensures Xor(a, b) < Pow2(n)
  {
    if n > 0 {
      XorWidth(a / 2, b / 2, n - 1);
      XorStep(a, b);
    }
  }

  /** A top bit that only one operand has survives. */
  lemma {:induction false} XorTopBit(a: nat, b: nat, n: nat)
    requires a < Pow2(n) <= b < Pow2(n + 1)
    ensures Pow2(n) <= Xor(a, b) < Pow2(n + 1)
  {
    XorStep(a, b);
    if n > 0 {
      XorTopBit(a / 2, b / 2, n - 1);
    }
  }

  /** Disjoint bits add. */
  lemma {:induction false} XorDisjoint(h: nat, l: nat, n: nat)
    requires l < Pow2(n)
    ensures Xor(h * Pow2(n), l) == h * Pow2(n) + l
  {
    if n == 0 {
      XorZero(h);
    } else {
      var q, p := h * Pow2(n - 1), Pow2(n);
      assert h * p == 2 * q by {
        assert p == 2 * Pow2(n - 1);
      }
      XorDisjoint(h, l / 2, n - 1);
      XorStep(2 * q, l);
    }
  }

  lemma PowersOfTwo()
    ensures Pow2(8) == 0x100 && Pow2(15) == 0x8000 && Pow2(16) == 0x1_0000
    ensures Pow2(31) == 0x8000_0000 && Pow2(32) == 0x1_0000_0000
  {
    assert Pow2(4) == 16;
    assert Pow2(8) == 256;
    assert Pow2(12) == 0x1000;
    assert Pow2(16) == 0x1_0000;
    assert Pow2(20) == 0x10_0000;
    assert Pow2(24) == 0x100_0000;
    assert Pow2(28) == 0x1000_0000;
  }

  /** A byte only meets the low byte of a register. */
  lemma XorByte(c: nat, b: nat)
    requires b < 0x100
    ensures Xor(c, b) == c / 0x100 * 0x100 + Xor(c % 0x100, b)
    ensures Xor(c % 0x100, b) < 0x100
    ensures Xor(c, b) / 0x100 == c / 0x100
  {
    PowersOfTwo();
    var h, l := c / 0x100, c % 0x100;
    XorDisjoint(h, l, 8);
    XorAssoc(h * 0x100, l, b);
    XorWidth(l, b, 8);
    XorDisjoint(h, Xor(l, b), 8);
  }
}
