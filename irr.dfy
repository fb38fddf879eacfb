/**
 * Internal rate of return by bisection (calculateIRR, script.js:80-99).
 *
 * The bracket starts at [-0.99, 1.99]; each pass evaluates the NPV at the
 * midpoint, returns the midpoint as a percentage when |NPV| < 0.0001, and
 * otherwise keeps the half on the side the sign of the NPV points to. The loop
 * gives up (returns `null`) when the bracket is narrower than 0.0001, or after
 * 100 passes. The width exit always comes first: the bracket is 2.98 wide and
 * 2.98 / 2^15 < 0.0001 <= 2.98 / 2^14, so the search stops after at most 15
 * passes.
 *
 * `Bisect` is the loop as a recursive function, and the method is proved to
 * compute it. Because the width exit returns `null`, a root is only found
 * when a midpoint happens to have |NPV| < 0.0001; `BisectFixed` is the same
 * search with the width exit returning its last midpoint, whose result has
 * |NPV| < 0.0001 or lies within 0.0001 of the root whenever the NPV changes
 * sign once across the bracket. Where `Bisect` returns a rate, `BisectFixed`
 * returns the same one.
 */
module InternalRateOfReturn {
  import opened Wrappers
  import opened Powers
  import opened NetPresentValue

  const Precision: real := 0.0001
  const InitialLow: real := -0.99
  const InitialHigh: real := 1.99
  const MaxAttempts: nat := 100

  /** The search gives up once the bracket is this many halvings narrow. */
  const MaxPasses: nat := 15

  function Abs(x: real): real { if x < 0.0 then -x else x }

  function Pow2(k: nat): (r: nat)
    ensures r >= 1
  {
    if k == 0 then 1 else 2 * Pow2(k - 1)
  }

  predicate HasNegative(flows: seq<real>) { exists i | 0 <= i < |flows| :: flows[i] < 0.0 }

  predicate HasPositive(flows: seq<real>) { exists i | 0 <= i < |flows| :: flows[i] > 0.0 }

  /** The width of the bracket after `passes` halvings of the initial one. */
  function Width(passes: nat): real
  {
    (InitialHigh - InitialLow) / (Pow2(passes) as real)
  }

  /** Each pass halves the bracket. */
  lemma WidthHalves(passes: nat)
    ensures Width(passes + 1) == Width(passes) / 2.0
  {
  }

  /** The bracket is narrower than the precision after 15 halvings, and not before. */
  lemma NarrowOnlyAtLastPass(passes: nat)
    requires passes <= MaxPasses
    ensures Width(passes) < Precision <==> passes == MaxPasses
  {
    Pow2AtLastPasses();
    var n := Pow2(passes) as real;
    assert Width(passes) == (InitialHigh - InitialLow) / n;
    if passes < MaxPasses {
      Pow2Monotone(passes, MaxPasses - 1);
      QuotientAtLeast(InitialHigh - InitialLow, n, 16384.0);
      assert Width(passes) >= (InitialHigh - InitialLow) / 16384.0;
    } else {
      assert n == 32768.0;
    }
  }

  /** Dividing by a smaller positive number gives more. */
  lemma QuotientAtLeast(x: real, n: real, bound: real)
    requires x > 0.0 && 0.0 < n <= bound
    ensures x / n >= x / bound
  {
    assert x / n * n == x == x / bound * bound;
    if x / n < x / bound {
      MulMonotone(n, x / bound, x / n);
      MulMonotone(x / bound, bound, n);
    }
  }

  lemma Pow2AtLastPasses()
    ensures Pow2(14) == 16384 && Pow2(15) == 32768
  {
    assert Pow2(1) == 2;
    assert Pow2(2) == 4;
    assert Pow2(3) == 8;
    assert Pow2(4) == 16;
    assert Pow2(5) == 32;
    assert Pow2(6) == 64;
    assert Pow2(7) == 128;
    assert Pow2(8) == 256;
    assert Pow2(9) == 512;
    assert Pow2(10) == 1024;
    assert Pow2(11) == 2048;
    assert Pow2(12) == 4096;
    assert Pow2(13) == 8192;
  }

  lemma {:induction false} Pow2Monotone(j: nat, k: nat)
    requires j <= k
    ensures Pow2(j) <= Pow2(k)
    decreases k - j
  {
    if j < k {
      Pow2Monotone(j, k - 1);
    }
  }

  /**
   * The loop of calculateIRR entered with the bracket [low, high] and
   * `attempts` passes left: the value the function returns from there on.
   */
  function Bisect(flows: seq<real>, low: real, high: real, attempts: nat): Option<real>
    requires InitialLow <= low < high <= InitialHigh
    decreases attempts
  {
    if attempts == 0 then None
    else
      var mid := (low + high) / 2.0;
      var npv := Npv(mid, flows);
      if Abs(npv) < Precision then Some(mid * 100.0)
      else if npv > 0.0 then
        if high - mid < Precision then None else Bisect(flows, mid, high, attempts - 1)
      else
        if mid - low < Precision then None else Bisect(flows, low, mid, attempts - 1)
  }

  /** calculateIRR as a function of the flows: the sign test, then the loop. */
  function Irr(flows: seq<real>): Option<real>
  {
    if !HasNegative(flows) || !HasPositive(flows) then None
    else Bisect(flows, InitialLow, InitialHigh, MaxAttempts)
  }

  /** A pass whose midpoint has a small enough NPV returns it as a percentage. */
  lemma BisectFound(flows: seq<real>, low: real, high: real, attempts: nat)
    requires InitialLow <= low < high <= InitialHigh && attempts > 0
    requires Abs(Npv((low + high) / 2.0, flows)) < Precision
    ensures Bisect(flows, low, high, attempts) == Some((low + high) / 2.0 * 100.0)
  {
  }

  /**
   * A pass that does not find a root goes on with the half `[low', high']` the
   * sign of the NPV picks, or gives up once that half is narrower than the precision.
   */
  lemma BisectNarrows(flows: seq<real>, low: real, high: real, attempts: nat, low': real, high': real)
    requires InitialLow <= low < high <= InitialHigh && attempts > 0
    requires Abs(Npv((low + high) / 2.0, flows)) >= Precision
    requires if Npv((low + high) / 2.0, flows) > 0.0 then low' == (low + high) / 2.0 && high' == high
             else low' == low && high' == (low + high) / 2.0
    ensures InitialLow <= low' < high' <= InitialHigh
    ensures Bisect(flows, low, high, attempts)
            == if high' - low' < Precision then None else Bisect(flows, low', high', attempts - 1)
  {
  }

  /**
   * calculateIRR. `passes` counts the bisection passes made (ghost: the source
   * does not report it).
   */
  method CalculateIrr(flows: seq<real>) returns (irr: Option<real>, ghost passes: nat)
    ensures irr == Irr(flows)
    ensures !HasNegative(flows) || !HasPositive(flows) ==> irr == None && passes == 0
    ensures irr.Some? ==> -99.0 < irr.value < 199.0
                          && Abs(Npv(irr.value / 100.0, flows)) < Precision
    ensures passes <= MaxPasses < MaxAttempts
    ensures irr.None? && HasNegative(flows) && HasPositive(flows) ==> passes == MaxPasses
  {
    var low, high := InitialLow, InitialHigh;
    var attempts := MaxAttempts;
    passes := 0;
    if !HasNegative(flows) || !HasPositive(flows) {
      return None, passes;
    }
    while attempts != 0
      invariant InitialLow <= low < high <= InitialHigh
      invariant passes < MaxPasses
      invariant attempts == MaxAttempts - passes
      invariant high - low == Width(passes)
      invariant Irr(flows) == Bisect(flows, low, high, attempts)
    {
      attempts := attempts - 1;
      var mid := (low + high) / 2.0;
      assert low < mid < high;
      var npv := Npv(mid, flows);
      ghost var oldLow, oldHigh := low, high;
      passes := passes + 1;
      if Abs(npv) < Precision {
        BisectFound(flows, low, high, attempts + 1);
        return Some(mid * 100.0), passes;
      }
      if npv > 0.0 {
        low := mid;
      } else {
        high := mid;
      }
      BisectNarrows(flows, oldLow, oldHigh, attempts + 1, low, high);
      WidthHalves(passes - 1);
      NarrowOnlyAtLastPass(passes);
      if high - low < Precision {
        break;
      }
    }
    return None, passes;
  }

  /** A result of the loop is a midpoint inside the bracket, as a percentage, where the NPV is near 0. */
  lemma {:induction false} BisectFindsRoot(flows: seq<real>, low: real, high: real, attempts: nat)
    requires InitialLow <= low < high <= InitialHigh
    ensures var r := Bisect(flows, low, high, attempts);
            r.Some? ==> low < r.value / 100.0 < high && Abs(Npv(r.value / 100.0, flows)) < Precision
    decreases attempts
  {
    if attempts > 0 {
      var mid := (low + high) / 2.0;
      assert mid * 100.0 / 100.0 == mid;
      if Abs(Npv(mid, flows)) >= Precision {
        BisectFindsRoot(flows, mid, high, attempts - 1);
        BisectFindsRoot(flows, low, mid, attempts - 1);
      }
    }
  }

  /**
   * Started after `passes` halvings with at least enough attempts left to reach
   * the 15th, the loop returns the same whatever the number of attempts.
   */
  lemma {:induction false} BudgetIrrelevant(flows: seq<real>, low: real, high: real, passes: nat, a: nat, b: nat)
    requires InitialLow <= low < high <= InitialHigh
    requires passes < MaxPasses && high - low == Width(passes)
    requires a >= MaxPasses - passes && b >= MaxPasses - passes
    ensures Bisect(flows, low, high, a) == Bisect(flows, low, high, b)
    decreases a
  {
    var mid := (low + high) / 2.0;
    WidthHalves(passes);
    NarrowOnlyAtLastPass(passes + 1);
    if Abs(Npv(mid, flows)) >= Precision && passes + 1 < MaxPasses {
      BudgetIrrelevant(flows, mid, high, passes + 1, a - 1, b - 1);
      BudgetIrrelevant(flows, low, mid, passes + 1, a - 1, b - 1);
    }
  }

  /** The budget of 100 attempts never binds: 15 would give the same result. */
  lemma BudgetNeverBinds(flows: seq<real>)
    ensures Bisect(flows, InitialLow, InitialHigh, MaxAttempts)
            == Bisect(flows, InitialLow, InitialHigh, MaxPasses)
  {
    BudgetIrrelevant(flows, InitialLow, InitialHigh, 0, MaxAttempts, MaxPasses);
  }

  /** calculateIRR: a result is a rate in (-99, 199) percent at which |NPV| < 0.0001. */
  lemma IrrFindsRoot(flows: seq<real>)
    ensures var r := Irr(flows);
            r.Some? ==> -99.0 < r.value < 199.0 && Abs(Npv(r.value / 100.0, flows)) < Precision
  {
    BisectFindsRoot(flows, InitialLow, InitialHigh, MaxAttempts);
  }

  /**
   * The loop with the width exit returning the last midpoint instead of
   * `null`: the bracket collapsing below the precision is a stop with a result.
   */
  function BisectFixed(flows: seq<real>, low: real, high: real, attempts: nat): Option<real>
    requires InitialLow <= low < high <= InitialHigh
    decreases attempts
  {
    if attempts == 0 then None
    else
      var mid := (low + high) / 2.0;
      var npv := Npv(mid, flows);
      if Abs(npv) < Precision then Some(mid * 100.0)
      else if npv > 0.0 then
        if high - mid < Precision then Some(mid * 100.0) else BisectFixed(flows, mid, high, attempts - 1)
      else
        if mid - low < Precision then Some(mid * 100.0) else BisectFixed(flows, low, mid, attempts - 1)
  }

  /** calculateIRR with the width exit returning the last midpoint. */
  function IrrFixed(flows: seq<real>): Option<real>
  {
    if !HasNegative(flows) || !HasPositive(flows) then None
    else BisectFixed(flows, InitialLow, InitialHigh, MaxAttempts)
  }

  /**
   * The two searches differ only at the width exit: where calculateIRR as
   * written finds a rate, the corrected search finds the same one.
   */
  lemma {:induction false} FixedAgreesWhenFound(flows: seq<real>, low: real, high: real, attempts: nat)
    requires InitialLow <= low < high <= InitialHigh
    ensures Bisect(flows, low, high, attempts).Some?
            ==> BisectFixed(flows, low, high, attempts) == Bisect(flows, low, high, attempts)
    decreases attempts
  {
    if attempts > 0 {
      var mid := (low + high) / 2.0;
      if Abs(Npv(mid, flows)) >= Precision {
        FixedAgreesWhenFound(flows, mid, high, attempts - 1);
        FixedAgreesWhenFound(flows, low, mid, attempts - 1);
      }
    }
  }

  /** Where calculateIRR returns a rate, the corrected calculateIRR returns the same rate. */
  lemma IrrFixedAgreesWhenFound(flows: seq<real>)
    ensures Irr(flows).Some? ==> IrrFixed(flows) == Irr(flows)
  {
    FixedAgreesWhenFound(flows, InitialLow, InitialHigh, MaxAttempts);
  }

  /** The NPV is positive below `root` and not positive from `root` on, across the bracket. */
  ghost predicate DecreasingThrough(flows: seq<real>, root: real)
  {
    InitialLow < root < InitialHigh
    && forall m | InitialLow < m < InitialHigh :: Npv(m, flows) > 0.0 <==> m < root
  }

  /**
   * With the fixed width exit, an NPV that changes sign once at `root` always
   * gives a result, inside the bracket, whose NPV or whose distance to `root`
   * is below the precision.
   */
  lemma {:induction false} BisectFixedNearRoot(flows: seq<real>, root: real, low: real, high: real,
                                               passes: nat, attempts: nat)
    requires DecreasingThrough(flows, root)
    requires InitialLow <= low <= root <= high <= InitialHigh && low < high
    requires passes < MaxPasses && high - low == Width(passes)
    requires attempts >= MaxPasses - passes
    ensures var r := BisectFixed(flows, low, high, attempts);
            r.Some? && InitialLow < r.value / 100.0 < InitialHigh
            && (Abs(Npv(r.value / 100.0, flows)) < Precision || Abs(r.value / 100.0 - root) < Precision)
    decreases attempts
  {
    var mid := (low + high) / 2.0;
    assert mid * 100.0 / 100.0 == mid;
    WidthHalves(passes);
    NarrowOnlyAtLastPass(passes + 1);
    if Abs(Npv(mid, flows)) >= Precision && passes + 1 < MaxPasses {
      if Npv(mid, flows) > 0.0 {
        BisectFixedNearRoot(flows, root, mid, high, passes + 1, attempts - 1);
      } else {
        BisectFixedNearRoot(flows, root, low, mid, passes + 1, attempts - 1);
      }
    }
  }

  /** The fixed calculateIRR on flows whose NPV changes sign once at `root`. */
  lemma IrrFixedNearRoot(flows: seq<real>, root: real)
    requires HasNegative(flows) && HasPositive(flows) && DecreasingThrough(flows, root)
    ensures var r := IrrFixed(flows);
            r.Some? && -99.0 < r.value < 199.0
            && (Abs(Npv(r.value / 100.0, flows)) < Precision || Abs(r.value / 100.0 - root) < Precision)
  {
    assert Pow2(0) == 1;
    BisectFixedNearRoot(flows, root, InitialLow, InitialHigh, 0, MaxAttempts);
  }
}
