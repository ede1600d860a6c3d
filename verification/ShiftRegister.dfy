/**
 * The reflected CRC register that both checksums of the system are built on: bits
 * enter at the low end, and a one leaving the low end folds the polynomial in.
 * Everything here holds for any polynomial whose top bit is set.
 */
module ShiftRegister {
  import opened Bytes
  import opened Bits

  /** A polynomial of exactly n bits, in reflected order. */
  ghost predicate Polynomial(p: nat, n: nat) {
    n > 0 && Pow2(n - 1) <= p < Pow2(n)
  }

  function BitStep(p: nat, c: nat): nat {
    if c % 2 == 1 then Xor(c / 2, p) else c / 2
  }

  function Steps(p: nat, c: nat, k: nat): nat {
    if k == 0 then c else BitStep(p, Steps(p, c, k - 1))
  }

  /** The register after one message byte, bit-serially. */
  function ByteStep(p: nat, c: nat, b: Byte): nat {
    Steps(p, Xor(c, b), 8)
  }

  /** The register after a message. */
  function Feed(p: nat, c: nat, s: seq<Byte>): nat {
    if s == [] then c else ByteStep(p, Feed(p, c, s[..|s| - 1]), s[|s| - 1])
  }

  lemma BitStepWidth(p: nat, n: nat, c: nat)
    requires Polynomial(p, n) && c < Pow2(n)
    ensures BitStep(p, c) < Pow2(n)
  {
    XorWidth(c / 2, p, n);
  }

  lemma {:induction false} StepsWidth(p: nat, n: nat, c: nat, k: nat)
    requires Polynomial(p, n) && c < Pow2(n)
    ensures Steps(p, c, k) < Pow2(n)
  {
    if k > 0 {
      StepsWidth(p, n, c, k - 1);
      BitStepWidth(p, n, Steps(p, c, k - 1));
    }
  }

  /** The top bit of the result tells whether the polynomial was folded in, so a step can be undone. */
  lemma BitStepInjective(p: nat, n: nat, x: nat, y: nat)
    requires Polynomial(p, n) && x < Pow2(n) && y < Pow2(n)
    requires BitStep(p, x) == BitStep(p, y)
    ensures x == y
  {
    assert x / 2 < Pow2(n - 1) && y / 2 < Pow2(n - 1);
    XorTopBit(x / 2, p, n - 1);
    XorTopBit(y / 2, p, n - 1);
    if x % 2 == 1 && y % 2 == 1 {
      XorInjective(x / 2, y / 2, p);
    }
  }

  lemma {:induction false} StepsInjective(p: nat, n: nat, x: nat, y: nat, k: nat)
    requires Polynomial(p, n) && x < Pow2(n) && y < Pow2(n)
    requires Steps(p, x, k) == Steps(p, y, k)
    ensures x == y
  {
    if k > 0 {
      StepsWidth(p, n, x, k - 1);
      StepsWidth(p, n, y, k - 1);
      BitStepInjective(p, n, Steps(p, x, k - 1), Steps(p, y, k - 1));
      StepsInjective(p, n, x, y, k - 1);
    }
  }

  lemma BitStepAdditive(p: nat, x: nat, y: nat)
    ensures BitStep(p, Xor(x, y)) == Xor(BitStep(p, x), BitStep(p, y))
  {
    XorStep(x, y);
    var u, v := x / 2, y / 2;
    if x % 2 == 1 && y % 2 == 1 {
      XorComm(v, p);
      XorAssoc(u, p, Xor(p, v));
      XorAssoc(p, p, v);
      XorSelf(p);
      XorComm(0, v);
      XorZero(v);
    } else if x % 2 == 1 {
      XorAssoc(u, p, v);
      XorComm(p, v);
      XorAssoc(u, v, p);
    } else if y % 2 == 1 {
      XorAssoc(u, v, p);
    }
  }

  /** The register is linear over exclusive or. */
  lemma {:induction false} StepsAdditive(p: nat, x: nat, y: nat, k: nat)
    ensures Steps(p, Xor(x, y), k) == Xor(Steps(p, x, k), Steps(p, y, k))
  {
    if k > 0 {
      StepsAdditive(p, x, y, k - 1);
      BitStepAdditive(p, Steps(p, x, k - 1), Steps(p, y, k - 1));
    }
  }

  lemma {:induction false} StepsSplit(p: nat, c: nat, j: nat, k: nat)
    ensures Steps(p, c, j + k) == Steps(p, Steps(p, c, j), k)
  {
    if k > 0 {
      StepsSplit(p, c, j, k - 1);
    }
  }

  /** A register whose low k bits are clear only shifts for k steps. */
  lemma {:induction false} StepsShift(p: nat, h: nat, k: nat)
    ensures Steps(p, h * Pow2(k), k) == h
  {
    if k > 0 {
      var w := Pow2(k);
      assert h * w == 2 * (h * Pow2(k - 1)) by {
        assert w == 2 * Pow2(k - 1);
      }
      assert BitStep(p, h * w) == h * Pow2(k - 1);
      assert Steps(p, h * w, 1) == BitStep(p, Steps(p, h * w, 0));
      StepsSplit(p, h * w, 1, k - 1);
      StepsShift(p, h, k - 1);
    }
  }

  /** Eight steps at once: shift by a byte and fold in the table entry of the low byte. */
  lemma TableShortcut(p: nat, w: nat)
    ensures Steps(p, w, 8) == Xor(w / 0x100, Steps(p, w % 0x100, 8))
  {
    PowersOfTwo();
    var h, l := w / 0x100, w % 0x100;
    XorDisjoint(h, l, 8);
    StepsAdditive(p, h * 0x100, l, 8);
    StepsShift(p, h, 8);
  }

  lemma ByteStepWidth(p: nat, n: nat, c: nat, b: Byte)
    requires Polynomial(p, n) && n >= 8 && c < Pow2(n)
    ensures Xor(c, b) < Pow2(n) && ByteStep(p, c, b) < Pow2(n)
  {
    ByteFits(n);
    XorWidth(c, b, n);
    StepsWidth(p, n, Xor(c, b), 8);
  }

  lemma {:induction false} ByteFits(n: nat)
    requires n >= 8
    ensures Pow2(n) >= 0x100
  {
    PowersOfTwo();
    if n > 8 {
      ByteFits(n - 1);
    }
  }

  lemma {:induction false} FeedWidth(p: nat, n: nat, c: nat, s: seq<Byte>)
    requires Polynomial(p, n) && n >= 8 && c < Pow2(n)
    ensures Feed(p, c, s) < Pow2(n)
  {
    if s != [] {
      FeedWidth(p, n, c, s[..|s| - 1]);
      ByteStepWidth(p, n, Feed(p, c, s[..|s| - 1]), s[|s| - 1]);
    }
  }

  /** Feeding two messages in turn is feeding their concatenation. */
  lemma {:induction false} FeedConcat(p: nat, c: nat, s: seq<Byte>, t: seq<Byte>)
    ensures Feed(p, c, s + t) == Feed(p, Feed(p, c, s), t)
  {
    if t == [] {
      assert s + t == s;
    } else {
      assert (s + t)[..|s + t| - 1] == s + t[..|t| - 1];
      FeedConcat(p, c, s, t[..|t| - 1]);
    }
  }

  /** Registers that differ still differ after the same message. */
  lemma {:induction false} FeedKeepsDistinct(p: nat, n: nat, x: nat, y: nat, s: seq<Byte>)
    requires Polynomial(p, n) && n >= 8 && x < Pow2(n) && y < Pow2(n)
    requires Feed(p, x, s) == Feed(p, y, s)
    ensures x == y
  {
    if s != [] {
      var i, b := s[..|s| - 1], s[|s| - 1];
      FeedWidth(p, n, x, i);
      FeedWidth(p, n, y, i);
      ByteStepWidth(p, n, Feed(p, x, i), b);
      ByteStepWidth(p, n, Feed(p, y, i), b);
      StepsInjective(p, n, Xor(Feed(p, x, i), b), Xor(Feed(p, y, i), b), 8);
      XorInjective(Feed(p, x, i), Feed(p, y, i), b);
      FeedKeepsDistinct(p, n, x, y, i);
    }
  }
}
