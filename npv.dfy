/**
 * Net present value (calculateNPV, script.js:72-77).
 *
 * The source folds over the cash flows with `reduce`, discounting flow `i`
 * (0-based) by `(1 + rate)^(i + 1)`: the first flow is discounted one full
 * period. Numbers are exact reals; `parseFloat` on an already-parsed number is
 * the identity, and the `isNaN` guard on a discounted term can only fire where
 * `(1 + rate)^(i + 1)` is zero, that is at `rate == -1`, which `requires`
 * excludes.
 */
module NetPresentValue {
  import opened Powers

  /** The value of `flow` paid after `periods` periods, seen today. */
  function Discount(flow: real, rate: real, periods: nat): real
    requires 1.0 + rate != 0.0
  {
    PowNonZero(1.0 + rate, periods);
    flow / Pow(1.0 + rate, periods)
  }

  /** calculateNPV: the `reduce` fold, starting from 0. */
  function Npv(rate: real, flows: seq<real>): real
    requires 1.0 + rate != 0.0
  {
    NpvFrom(rate, flows, 0, 0.0)
  }

  /** The fold's step: `acc` is the running sum after the flows before index `i`. */
  function NpvFrom(rate: real, flows: seq<real>, i: nat, acc: real): real
    requires 1.0 + rate != 0.0
    requires i <= |flows|
    decreases |flows| - i
  {
    if i == |flows| then acc
    else NpvFrom(rate, flows, i + 1, acc + Discount(flows[i], rate, i + 1))
  }

  /**
   * Reference definition: the textbook sum over periods 1..n, built from the
   * last flow backwards, independent of the fold's accumulator.
   */
  ghost function DiscountedSum(rate: real, flows: seq<real>): real
    requires 1.0 + rate != 0.0
  {
    if flows == [] then 0.0
    else DiscountedSum(rate, flows[..|flows| - 1]) + Discount(flows[|flows| - 1], rate, |flows|)
  }

  /** The fold started at index `i` with accumulator `acc` adds the tail of the sum to `acc`. */
  lemma {:induction false} NpvFromIsSuffixSum(rate: real, flows: seq<real>, i: nat, acc: real)
    requires 1.0 + rate != 0.0
    requires i <= |flows|
    ensures NpvFrom(rate, flows, i, acc)
            == acc + (DiscountedSum(rate, flows) - DiscountedSum(rate, flows[..i]))
    decreases |flows| - i
  {
    if i == |flows| {
      assert flows[..i] == flows;
    } else {
      NpvFromIsSuffixSum(rate, flows, i + 1, acc + Discount(flows[i], rate, i + 1));
      assert flows[..i + 1][..i] == flows[..i];
    }
  }

  /** The fold computes the textbook discounted sum. */
  lemma NpvIsDiscountedSum(rate: real, flows: seq<real>)
    requires 1.0 + rate != 0.0
    ensures Npv(rate, flows) == DiscountedSum(rate, flows)
  {
    NpvFromIsSuffixSum(rate, flows, 0, 0.0);
    assert flows[..0] == [];
  }

  /** No flows, no value. */
  lemma NpvEmpty(rate: real)
    requires 1.0 + rate != 0.0
    ensures Npv(rate, []) == 0.0
  {
  }

  /** Appending a flow adds it discounted by one period more than the last flow before it. */
  lemma NpvAppend(rate: real, flows: seq<real>, x: real)
    requires 1.0 + rate != 0.0
    ensures Npv(rate, flows + [x]) == Npv(rate, flows) + Discount(x, rate, |flows| + 1)
  {
    NpvIsDiscountedSum(rate, flows + [x]);
    NpvIsDiscountedSum(rate, flows);
    assert (flows + [x])[..|flows|] == flows;
  }

  /** The first flow is discounted one full period, not zero. */
  lemma NpvSingle(rate: real, x: real)
    requires 1.0 + rate != 0.0
    ensures Npv(rate, [x]) == x / (1.0 + rate)
  {
    NpvAppend(rate, [], x);
    assert [] + [x] == [x];
    assert Pow(1.0 + rate, 1) == 1.0 + rate;
  }

  /** At a non-negative rate with no negative flow the value is not negative. */
  lemma {:induction false} NpvNonNegative(rate: real, flows: seq<real>)
    requires rate >= 0.0
    requires forall i | 0 <= i < |flows| :: flows[i] >= 0.0
    ensures Npv(rate, flows) >= 0.0
  {
    if flows != [] {
      var init := flows[..|flows| - 1];
      NpvNonNegative(rate, init);
      NpvAppend(rate, init, flows[|flows| - 1]);
      assert init + [flows[|flows| - 1]] == flows;
      PowPositive(1.0 + rate, |flows|);
    }
  }

  /** Investing 1000 to get 1100 back one period later has an NPV of exactly 0 at 10%. */
  lemma TenPercentIsRoot()
    ensures Npv(0.1, [-1000.0, 1100.0]) == 0.0
  {
    NpvAppend(0.1, [-1000.0], 1100.0);
    NpvSingle(0.1, -1000.0);
    assert [-1000.0] + [1100.0] == [-1000.0, 1100.0];
    assert Pow(1.1, 2) == 1.21;
  }
}
