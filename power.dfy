/** Whole-number powers `b^k`, the only powers the calculator's formulas need. */
module Powers {

  /** `b^k` for a natural exponent, as `Math.pow(b, k)` computes it over the reals. */
  function Pow(b: real, k: nat): real
  {
    if k == 0 then 1.0 else b * Pow(b, k - 1)
  }

  lemma {:induction false} PowNonZero(b: real, k: nat)
    requires b != 0.0
    ensures Pow(b, k) != 0.0
  {
    if k > 0 {
      PowNonZero(b, k - 1);
    }
  }

  lemma {:induction false} PowPositive(b: real, k: nat)
    requires b > 0.0
    ensures Pow(b, k) > 0.0
  {
    if k > 0 {
      PowPositive(b, k - 1);
      assert b * Pow(b, k - 1) > 0.0 * Pow(b, k - 1);
    }
  }

  lemma {:induction false} PowOfOne(k: nat)
    ensures Pow(1.0, k) == 1.0
  {
    if k > 0 {
      PowOfOne(k - 1);
    }
  }

  lemma {:induction false} PowAtLeastOne(b: real, k: nat)
    requires b >= 1.0
    ensures Pow(b, k) >= 1.0
  {
    if k > 0 {
      PowAtLeastOne(b, k - 1);
      assert b * Pow(b, k - 1) >= 1.0 * Pow(b, k - 1);
    }
  }

  /** Powers of a base above one grow strictly with the exponent. */
  lemma {:induction false} PowIncreasing(b: real, j: nat, k: nat)
    requires b > 1.0 && j < k
    ensures 1.0 <= Pow(b, j) < Pow(b, k)
    decreases k - j
  {
    PowAtLeastOne(b, j);
    PowAtLeastOne(b, k - 1);
    if j < k - 1 {
      PowIncreasing(b, j, k - 1);
    }
    var prev := Pow(b, k - 1);
    assert b * prev > 1.0 * prev;
  }

  lemma PowMonotone(b: real, j: nat, k: nat)
    requires b > 1.0 && j <= k
    ensures Pow(b, j) <= Pow(b, k)
  {
    if j < k {
      PowIncreasing(b, j, k);
    }
  }

  /** Bernoulli's inequality for a non-negative rate: `(1+r)^n >= 1 + n*r`. */
  lemma {:induction false} Bernoulli(r: real, n: nat)
    requires r >= 0.0
    ensures Pow(1.0 + r, n) >= 1.0 + (n as real) * r
  {
    if n > 0 {
      Bernoulli(r, n - 1);
      BernoulliStep(r, (n - 1) as real, Pow(1.0 + r, n - 1));
    }
  }

  lemma BernoulliStep(r: real, m: real, prev: real)
    requires r >= 0.0 && m >= 0.0 && prev >= 1.0 + m * r
    ensures (1.0 + r) * prev >= 1.0 + (m + 1.0) * r
  {
    MulMonotone(1.0 + r, prev, 1.0 + m * r);
    MulNonNegative(m * r, r);
    assert (1.0 + r) * (1.0 + m * r) == 1.0 + (m + 1.0) * r + (m * r) * r;
  }

  lemma MulNonNegative(a: real, b: real)
    requires a >= 0.0 && b >= 0.0
    ensures a * b >= 0.0
  {
    if b > 0.0 {
      assert a * b >= 0.0 * b;
    }
  }

  /** Scaling by a non-negative factor keeps an inequality. */
  lemma MulMonotone(c: real, x: real, y: real)
    requires c >= 0.0 && x >= y
    ensures c * x >= c * y
  {
    MulNonNegative(c, x - y);
    assert c * (x - y) == c * x - c * y;
  }

  /** A positive factor keeps the sign of a non-negative one. */
  lemma PositiveProduct(a: real, e: real)
    requires a > 0.0 && e >= 0.0
    ensures a * e >= 0.0
    ensures e > 0.0 ==> a * e > 0.0
  {
    if e > 0.0 {
      assert a * e > 0.0 * e;
    }
  }

  /** Scaling by a positive `d` keeps the sign. */
  lemma SignOfQuotient(u: real, d: real, v: real)
    requires d > 0.0 && u * d == v
    ensures v > 0.0 <==> u > 0.0
    ensures v >= 0.0 ==> u >= 0.0
  {
    if u < 0.0 {
      assert u * d < 0.0 * d;
    } else if u > 0.0 {
      PositiveProduct(d, u);
    }
  }
}
