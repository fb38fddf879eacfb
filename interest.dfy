/**
 * Simple and compound interest (the "simple" and "compound" branches of the
 * submit handler, script.js:575-638). `rate` is the yearly rate as a fraction
 * (the form's percentage divided by 100) and `time` the number of years.
 */
module Interest {
  import opened Powers

  /** What the result panel reports: the interest earned and the final total. */
  datatype Earnings = Earnings(interest: real, total: real)

  /** Simple interest: `amount * rate * time` on top of the principal. */
  function SimpleInterest(amount: real, rate: real, time: real): (e: Earnings)
    ensures e.total == amount + e.interest
    ensures rate == 0.0 || time == 0.0 ==> e.total == amount
  {
    var interest := amount * rate * time;
    Earnings(interest, amount + interest)
  }

  /**
   * Compound interest `amount * (1 + rate)^time`, for a whole number of
   * years; the interest is what the total adds to the principal.
   */
  function CompoundInterest(amount: real, rate: real, years: nat): (e: Earnings)
    ensures e.total == amount + e.interest
    ensures years == 0 || rate == 0.0 ==> e.total == amount && e.interest == 0.0
    ensures amount >= 0.0 && rate >= 0.0 ==> e.interest >= 0.0
  {
    PowOfOne(years);
    var growth := Pow(1.0 + rate, years);
    var total := amount * growth;
    if amount >= 0.0 && rate >= 0.0 then
      PowAtLeastOne(1.0 + rate, years);
      MulMonotone(amount, growth, 1.0);
      Earnings(total - amount, total)
    else
      Earnings(total - amount, total)
  }

  /**
   * Reference definition: the balance when the total of each year is
   * reinvested at the same rate for the next.
   */
  ghost function Reinvested(amount: real, rate: real, years: nat): real
  {
    if years == 0 then amount else Reinvested(amount, rate, years - 1) * (1.0 + rate)
  }

  /** Simple interest accrues in proportion to time: two spans earn what their sum earns. */
  lemma SimpleInterestAdditive(amount: real, rate: real, t1: real, t2: real)
    ensures SimpleInterest(amount, rate, t1 + t2).interest
            == SimpleInterest(amount, rate, t1).interest + SimpleInterest(amount, rate, t2).interest
  {
    assert amount * rate * (t1 + t2) == amount * rate * t1 + amount * rate * t2;
  }

  /** Compounding over one year earns exactly the simple interest. */
  lemma CompoundOneYear(amount: real, rate: real)
    ensures CompoundInterest(amount, rate, 1) == SimpleInterest(amount, rate, 1.0)
  {
    assert Pow(1.0 + rate, 1) == 1.0 + rate;
    assert amount * (1.0 + rate) == amount + amount * rate * 1.0;
  }

  /** For a non-negative principal and rate, compounding never earns less than simple interest. */
  lemma CompoundAtLeastSimple(amount: real, rate: real, years: nat)
    requires amount >= 0.0 && rate >= 0.0
    ensures CompoundInterest(amount, rate, years).total >= SimpleInterest(amount, rate, years as real).total
  {
    Bernoulli(rate, years);
    var g := Pow(1.0 + rate, years);
    var t := years as real;
    assert CompoundInterest(amount, rate, years).total == amount * g;
    MulMonotone(amount, g, 1.0 + t * rate);
    assert amount * (1.0 + t * rate) == amount + amount * rate * t;
  }

  /** The compound total is the balance of reinvesting every year's total. */
  lemma {:induction false} CompoundIsReinvested(amount: real, rate: real, years: nat)
    ensures CompoundInterest(amount, rate, years).total == Reinvested(amount, rate, years)
  {
    if years > 0 {
      CompoundIsReinvested(amount, rate, years - 1);
      Reassociate(amount, 1.0 + rate, Pow(1.0 + rate, years - 1));
    }
  }

  lemma Reassociate(a: real, q: real, p: real)
    ensures a * (q * p) == (a * p) * q
  {
  }
}
