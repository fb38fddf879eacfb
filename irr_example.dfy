/**
 * The investment of 1000 that returns 1100 one period later, whose internal
 * rate of return is exactly 10% (`NetPresentValue.TenPercentIsRoot`).
 *
 * Its NPV is (100 - 1000 m) / (1 + m)^2, positive below 10% and negative
 * above. Every midpoint calculateIRR visits is a point
 * -0.99 + 2.98 k / 2^15 of a fixed grid, and the grid point nearest to 0.1
 * is more than 3e-5 away from it, where |NPV| is above 0.003. So no pass
 * finds |NPV| < 0.0001, and the search ends at the width exit with `null`.
 * With the width exit returning its last midpoint, the result is 10 within
 * 0.01.
 */
module TenPercentExample {
  import opened Wrappers
  import opened Powers
  import opened NetPresentValue
  import opened InternalRateOfReturn

  const Example: seq<real> := [-1000.0, 1100.0]

  /** The k-th of the 2^15 + 1 points that split the initial bracket evenly. */
  function Grid(k: int): real
  {
    InitialLow + (InitialHigh - InitialLow) * (k as real) / 32768.0
  }

  /** The NPV of the example, times (1 + m)^2, is 100 - 1000 m. */
  lemma ExampleNpv(m: real)
    requires 1.0 + m != 0.0
    ensures Npv(m, Example) * ((1.0 + m) * (1.0 + m)) == 100.0 - 1000.0 * m
  {
    NpvAppend(m, [-1000.0], 1100.0);
    NpvSingle(m, -1000.0);
    assert [-1000.0] + [1100.0] == Example;
    assert Pow(1.0 + m, 1) == 1.0 + m;
    assert Pow(1.0 + m, 2) == (1.0 + m) * (1.0 + m);
    TwoPeriodsScaled(1.0 + m, -1000.0, 1100.0);
  }

  lemma TwoPeriodsScaled(u: real, a: real, b: real)
    requires u != 0.0
    ensures (a / u + b / (u * u)) * (u * u) == a * u + b
  {
  }

  /** A value scaled by a factor in (0, 9) is at least 0.0001 in size when the product is at least 0.03. */
  lemma AwayFromZero(v: real, s: real, c: real)
    requires 0.0 < s < 9.0 && v * s == c && Abs(c) >= 0.03
    ensures Abs(v) >= Precision
  {
  }

  lemma SquareBelowNine(u: real)
    requires 0.0 < u < 3.0
    ensures 0.0 < u * u < 9.0
  {
    PositiveProduct(u, u);
    PositiveProduct(3.0 - u, 3.0 + u);
  }

  /** Across the bracket, the example's NPV times (1 + m)^2, a factor in (0, 9), is 100 - 1000 m. */
  lemma ExampleNpvScaled(m: real, u: real)
    requires InitialLow < m < InitialHigh && u == 1.0 + m
    ensures 0.0 < u * u < 9.0 && Npv(m, Example) * (u * u) == 100.0 - 1000.0 * m
  {
    ExampleNpv(m);
    SquareBelowNine(u);
  }

  /** Across the bracket the example's NPV is positive exactly below 10%. */
  lemma ExampleDecreasing()
    ensures DecreasingThrough(Example, 0.1)
  {
    forall m | InitialLow < m < InitialHigh
      ensures Npv(m, Example) > 0.0 <==> m < 0.1
    {
      var u := 1.0 + m;
      ExampleNpvScaled(m, u);
      SignOfQuotient(Npv(m, Example), u * u, 100.0 - 1000.0 * m);
    }
  }

  /** Where 100 - 1000 m is at least 0.03 in size, |NPV| is at least the precision. */
  lemma ExampleAwayFromRoot(m: real)
    requires InitialLow < m < InitialHigh
    requires Abs(100.0 - 1000.0 * m) >= 0.03
    ensures Abs(Npv(m, Example)) >= Precision
  {
    var u := 1.0 + m;
    ExampleNpvScaled(m, u);
    AwayFromZero(Npv(m, Example), u * u, 100.0 - 1000.0 * m);
  }

  /** No inner grid point is within 3e-5 of 0.1: the nearest are k = 11985 and k = 11986. */
  lemma GridAwayFromRoot(k: int)
    requires 0 < k < 32768
    ensures InitialLow < Grid(k) < InitialHigh
    ensures Abs(100.0 - 1000.0 * Grid(k)) >= 0.03
  {
    if k <= 11985 {
      assert (k as real) <= 11985.0;
    } else {
      assert (k as real) >= 11986.0;
    }
  }

  /**
   * The midpoint of grid points i and i + 2h is grid point i + h, where the
   * example's NPV is not near 0; with h = 1 both halves are narrower than the
   * precision.
   */
  lemma GridStep(i: int, h: nat)
    requires 0 <= i && 1 <= h && i + 2 * h <= 32768
    ensures InitialLow <= Grid(i) < Grid(i + 2 * h) <= InitialHigh
    ensures (Grid(i) + Grid(i + 2 * h)) / 2.0 == Grid(i + h)
    ensures Abs(Npv(Grid(i + h), Example)) >= Precision
    ensures h == 1 ==> Grid(i + 2 * h) - Grid(i + h) < Precision && Grid(i + h) - Grid(i) < Precision
  {
    GridAwayFromRoot(i + h);
    ExampleAwayFromRoot(Grid(i + h));
  }

  /**
   * From a bracket of grid points 2h apart, h = 2^(14 - passes), the loop of
   * calculateIRR never finds the example's root.
   */
  lemma {:induction false} ExampleMissedFrom(i: int, h: nat, passes: nat, attempts: nat)
    requires passes < MaxPasses && h == Pow2(MaxPasses - 1 - passes)
    requires 0 <= i && i + 2 * h <= 32768
    ensures Bisect(Example, Grid(i), Grid(i + 2 * h), attempts) == None
    decreases attempts
  {
    if attempts > 0 {
      GridStep(i, h);
      var low, mid, high := Grid(i), Grid(i + h), Grid(i + 2 * h);
      if passes + 1 < MaxPasses {
        var h' := Pow2(MaxPasses - 2 - passes);
        assert h == 2 * h';
        if Npv(mid, Example) > 0.0 {
          BisectNarrows(Example, low, high, attempts, mid, high);
          assert i + h + 2 * h' == i + 2 * h;
          ExampleMissedFrom(i + h, h', passes + 1, attempts - 1);
        } else {
          BisectNarrows(Example, low, high, attempts, low, mid);
          ExampleMissedFrom(i, h', passes + 1, attempts - 1);
        }
      } else if Npv(mid, Example) > 0.0 {
        BisectNarrows(Example, low, high, attempts, mid, high);
      } else {
        BisectNarrows(Example, low, high, attempts, low, mid);
      }
    }
  }

  /** The search starts with the grid's two ends, 2 * 2^14 points apart. */
  lemma ExampleMissedFromStart()
    ensures Bisect(Example, InitialLow, InitialHigh, MaxAttempts) == None
  {
    Pow2AtLastPasses();
    var first, half := 0, Pow2(MaxPasses - 1);
    assert Grid(first) == InitialLow && Grid(first + 2 * half) == InitialHigh;
    ExampleMissedFrom(first, half, 0, MaxAttempts);
  }

  /** The example has a negative and a positive flow, so calculateIRR searches. */
  lemma ExampleSearched(flows: seq<real>)
    requires flows == Example
    ensures Irr(flows) == Bisect(flows, InitialLow, InitialHigh, MaxAttempts)
  {
    assert flows[0] < 0.0 && flows[1] > 0.0;
  }

  /**
   * calculateIRR returns `null` for the flows [-1000, 1100], although 10% is
   * an exact root.
   */
  lemma ExampleMissed(flows: seq<real>)
    requires flows == Example
    ensures Npv(0.1, flows) == 0.0
    ensures Irr(flows) == None
  {
    TenPercentIsRoot();
    ExampleSearched(flows);
    ExampleMissedFromStart();
  }

  /** With the width exit returning its last midpoint, [-1000, 1100] gives 10% within 0.01. */
  lemma ExampleFixed(flows: seq<real>)
    requires flows == Example
    ensures IrrFixed(flows).Some?
    ensures Abs(IrrFixed(flows).value - 10.0) < 0.01
  {
    assert flows[0] < 0.0 && flows[1] > 0.0;
    ExampleDecreasing();
    IrrFixedNearRoot(flows, 0.1);
    var m := IrrFixed(flows).value / 100.0;
    if Abs(100.0 - 1000.0 * m) >= 0.03 {
      ExampleAwayFromRoot(m);
    }
  }
}
