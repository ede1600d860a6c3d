/**
 * The low-pass filter of the sensor pipeline: a weighted mean of the clamped sample and the
 * filter state, with half the denominator added and C's division, which truncates towards
 * zero.
 */
module SensorFilter {

  /** Division as C does it. */
  function TruncDiv(a: int, b: nat): int
    requires b > 0
  {
    if a >= 0 then a / b else -((-a) / b)
  }

  /** The filter with alpha == num / den. */
  function Mix(num: nat, den: nat, c: int, p: int): int
    requires 0 < den && num <= den
  {
    TruncDiv(num * c + (den - num) * p + den / 2, den)
  }

  const ALPHA_NUM: nat := 1
  const ALPHA_DEN: nat := 10

  function Filter(c: int, p: int): int {
    Mix(ALPHA_NUM, ALPHA_DEN, c, p)
  }

  lemma MulMono(k: nat, a: int, b: int)
    requires a <= b
    ensures k * a <= k * b
  {
  }

  /** The weighted sum stays between den * lo and den * hi. */
  lemma MixSum(num: nat, den: nat, lo: int, hi: int, c: int, p: int)
    requires num <= den && lo <= c <= hi && lo <= p <= hi
    ensures den * lo <= num * c + (den - num) * p <= den * hi
  {
    MulMono(num, lo, c);
    MulMono(num, c, hi);
    MulMono(den - num, lo, p);
    MulMono(den - num, p, hi);
    assert num * lo + (den - num) * lo == den * lo;
    assert num * hi + (den - num) * hi == den * hi;
  }

  lemma TruncBounds(n: int, den: nat, lo: int, hi: int)
    requires den > 0 && den * lo <= n < den * (hi + 1) && 0 <= hi
    ensures lo <= TruncDiv(n, den) <= hi
  {
    if n >= 0 {
      assert n / den <= hi by {
        if n / den >= hi + 1 {
          MulMono(den, hi + 1, n / den);
          assert false;
        }
      }
      assert lo <= n / den by {
        if n / den + 1 <= lo {
          MulMono(den, n / den + 1, lo);
          assert false;
        }
      }
    } else {
      var m := (-n) / den;
      assert m <= -lo by {
        if m >= -lo + 1 {
          MulMono(den, -lo + 1, m);
          assert false;
        }
      }
    }
  }

  /** One step of the filter leaves no range with a non-negative upper end. */
  lemma MixStaysInRange(num: nat, den: nat, lo: int, hi: int, c: int, p: int)
    requires 0 < den && num <= den && lo <= c <= hi && lo <= p <= hi && 0 <= hi
    ensures lo <= Mix(num, den, c, p) <= hi
  {
    MixSum(num, den, lo, hi, c, p);
    assert den * (hi + 1) == den * hi + den;
    TruncBounds(num * c + (den - num) * p + den / 2, den, lo, hi);
  }

  /** On a range of negative values the truncation lets the filter climb out. */
  lemma MixLeavesNegativeRange(num: nat, den: nat, hi: int)
    requires 2 <= den && num <= den && hi < 0
    ensures Mix(num, den, hi, hi) == hi + 1
  {
    assert num * hi + (den - num) * hi == den * hi;
    var n := den * hi + den / 2;
    MulMono(den, hi, -1);
    assert -n == den * (-hi - 1) + (den - den / 2);
    Quotient(-n, den, -hi - 1, den - den / 2);
  }

  lemma Quotient(n: int, den: nat, q: int, r: int)
    requires den > 0 && n == den * q + r && 0 <= r < den
    ensures n / den == q
  {
    var x := n / den;
    assert den * x <= n < den * x + den;
    if x > q {
      MulMono(den, q + 1, x);
      assert false;
    } else if x < q {
      MulMono(den, x + 1, q);
      assert false;
    }
  }

  /** Every range is kept exactly when its upper end is not negative. */
  lemma RangeKeptIff(num: nat, den: nat, lo: int, hi: int)
    requires 2 <= den && num <= den && lo <= hi
    ensures (forall c, p :: lo <= c <= hi && lo <= p <= hi ==> lo <= Mix(num, den, c, p) <= hi) <==> 0 <= hi
  {
    if 0 <= hi {
      forall c, p | lo <= c <= hi && lo <= p <= hi ensures lo <= Mix(num, den, c, p) <= hi {
        MixStaysInRange(num, den, lo, hi, c, p);
      }
    } else {
      MixLeavesNegativeRange(num, den, hi);
    }
  }

  /* ---- a constant input ---- */

  function Distance(c: int, p: int): nat {
    if p >= c + 5 then p - (c + 5) else c + 5 - p
  }

  predicate AtRest(c: int, p: int) {
    Filter(c, p) == p
  }

  /**
   * One step towards a constant input: the state is at rest, or comes strictly closer to
   * c + 5; it never crosses it; and rest is only found in c - 4 .. c + 14.
   */
  lemma StepTowards(c: int, p: int)
    ensures AtRest(c, p) || Distance(c, Filter(c, p)) < Distance(c, p)
    ensures p <= c + 5 ==> Filter(c, p) <= c + 5
    ensures p >= c + 5 ==> Filter(c, p) >= c + 5
    ensures AtRest(c, p) ==> c - 4 <= p <= c + 14
    ensures AtRest(c, p) && c >= 0 && p >= 0 ==> p <= c + 5
    ensures c - 4 <= p <= c + 5 && c >= 0 && p >= 0 ==> AtRest(c, p)
  {
  }

  /** The state after n equal samples. */
  function After(c: int, p: int, n: nat): int {
    if n == 0 then p else Filter(c, After(c, p, n - 1))
  }

  lemma {:induction false} RestLasts(c: int, p: int, n: nat)
    ensures AtRest(c, After(c, p, n)) || Distance(c, After(c, p, n)) + n <= Distance(c, p)
    ensures c >= 0 && p >= 0 ==> After(c, p, n) >= 0
  {
    if n > 0 {
      RestLasts(c, p, n - 1);
      StepTowards(c, After(c, p, n - 1));
    }
  }

  /**
   * A constant input settles: after as many samples as the state was away from c + 5 it
   * rests for good, between c - 4 and c + 14, and at most c + 5 when nothing is negative.
   */
  lemma Settles(c: int, p: int, n: nat)
    requires n >= Distance(c, p)
    ensures AtRest(c, After(c, p, n)) && c - 4 <= After(c, p, n) <= c + 14
    ensures c >= 0 && p >= 0 ==> After(c, p, n) <= c + 5
  {
    RestLasts(c, p, n);
    StepTowards(c, After(c, p, n));
  }

  /** Both extremes of the rest interval occur. */
  lemma RestExtremes()
    ensures AtRest(1000, 996) && AtRest(1000, 1005)
    ensures AtRest(-1000, -986) && AtRest(-1000, -995)
  {
  }
}
