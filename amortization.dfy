/**
 * Loan amortization: the level monthly payment (script.js:643-648) and the
 * schedule of generateAmortizationTable (script.js:102-140).
 *
 * The schedule is modelled as the rows the source renders, before any
 * currency conversion or `toFixed(2)` formatting: (period, payment, interest,
 * principal, max(0, balance)). The running balance itself is never clamped;
 * only the reported one is.
 */
module Amortization {
  import opened Wrappers
  import opened Powers

  /** One rendered row of the table. */
  datatype Row = Row(period: nat, payment: real, interest: real, principal: real, balance: real)

  function Max(a: real, b: real): real { if a < b then b else a }

  /** `Math.round(time * 12)`: the nearest whole number of months, halves rounded up. */
  function MonthsIn(years: real): (months: int)
    ensures -0.5 < months as real - years * 12.0 <= 0.5
    ensures years > 0.0 ==> months >= 0
  {
    (years * 12.0 + 0.5).Floor
  }

  /**
   * The level payment `amount * r * (1+r)^n / ((1+r)^n - 1)`. Where the
   * denominator is zero the source gets NaN or Infinity and reports an error
   * instead of a table; that is `None` here.
   */
  function MonthlyPayment(amount: real, monthlyRate: real, months: nat): Option<real>
  {
    var growth := Pow(1.0 + monthlyRate, months);
    if growth - 1.0 == 0.0 then None
    else Some((amount * (monthlyRate * growth)) / (growth - 1.0))
  }

  /**
   * For the non-negative rates the form admits, the payment formula fails
   * exactly when the rate is zero or there are no months.
   */
  lemma PaymentFailsIff(amount: real, monthlyRate: real, months: nat)
    requires monthlyRate >= 0.0
    ensures MonthlyPayment(amount, monthlyRate, months).None? <==> monthlyRate == 0.0 || months == 0
  {
    if monthlyRate == 0.0 {
      PowOfOne(months);
    } else if months > 0 {
      PowIncreasing(1.0 + monthlyRate, 0, months);
    }
  }

  /** The payment formula without its division: `payment * ((1+r)^n - 1) == amount * r * (1+r)^n`. */
  ghost predicate IsLevelPayment(amount: real, monthlyRate: real, months: nat, payment: real)
  {
    var growth := Pow(1.0 + monthlyRate, months);
    growth != 1.0 && payment * (growth - 1.0) == amount * monthlyRate * growth
  }

  /** The formula's result is the one payment that satisfies the undivided equation. */
  lemma MonthlyPaymentIsLevel(amount: real, monthlyRate: real, months: nat, payment: real)
    ensures MonthlyPayment(amount, monthlyRate, months) == Some(payment)
            <==> IsLevelPayment(amount, monthlyRate, months, payment)
  {
    var growth := Pow(1.0 + monthlyRate, months);
    if growth != 1.0 {
      var x := amount * (monthlyRate * growth);
      assert x == amount * monthlyRate * growth;
      QuotientUnique(x, growth - 1.0, payment);
      assert MonthlyPayment(amount, monthlyRate, months).Some?;
      assert MonthlyPayment(amount, monthlyRate, months).value == x / (growth - 1.0);
      assert IsLevelPayment(amount, monthlyRate, months, payment) <==> payment * (growth - 1.0) == x;
    }
  }

  lemma QuotientUnique(x: real, d: real, q: real)
    requires d != 0.0
    ensures q == x / d <==> q * d == x
  {
    if q * d == x {
      assert q == (q * d) / d;
    }
  }

  /** The running balance after `k` payments: each month it earns interest and the payment is taken off. */
  function BalanceAfter(amount: real, monthlyRate: real, payment: real, k: nat): real
  {
    if k == 0 then amount
    else
      var balance := BalanceAfter(amount, monthlyRate, payment, k - 1);
      balance - (payment - balance * monthlyRate)
  }

  /** The principal repaid by the rows of a table. */
  function TotalPrincipal(rows: seq<Row>): real
  {
    if rows == [] then 0.0 else TotalPrincipal(rows[..|rows| - 1]) + rows[|rows| - 1].principal
  }

  /**
   * Row `k` (0-based) of the table: period `k + 1`, the fixed payment split
   * into the month's interest on the running balance and the principal repaid,
   * which is what the balance drops by, and the new balance floored at zero.
   */
  ghost predicate IsScheduleRow(row: Row, k: nat, amount: real, monthlyRate: real, payment: real)
  {
    && row.period == k + 1
    && row.payment == payment
    && row.interest == BalanceAfter(amount, monthlyRate, payment, k) * monthlyRate
    && row.interest + row.principal == payment
    && BalanceAfter(amount, monthlyRate, payment, k + 1)
       == BalanceAfter(amount, monthlyRate, payment, k) - row.principal
    && row.balance == Max(0.0, BalanceAfter(amount, monthlyRate, payment, k + 1))
    && row.balance >= 0.0
  }

  /** generateAmortizationTable, row arithmetic only. */
  method GenerateAmortizationTable(amount: real, monthlyRate: real, months: nat, monthlyPayment: real)
    returns (rows: seq<Row>)
    ensures |rows| == months
    ensures forall k | 0 <= k < |rows| :: IsScheduleRow(rows[k], k, amount, monthlyRate, monthlyPayment)
    ensures TotalPrincipal(rows) == amount - BalanceAfter(amount, monthlyRate, monthlyPayment, months)
  {
    var balance := amount;
    rows := [];
    for i := 1 to months + 1
      invariant |rows| == i - 1
      invariant balance == BalanceAfter(amount, monthlyRate, monthlyPayment, i - 1)
      invariant forall k | 0 <= k < |rows| :: IsScheduleRow(rows[k], k, amount, monthlyRate, monthlyPayment)
      invariant TotalPrincipal(rows) == amount - balance
    {
      var interest := balance * monthlyRate;
      var principal := monthlyPayment - interest;
      ScheduleRowStep(amount, monthlyRate, monthlyPayment, i - 1, balance);
      balance := balance - principal;
      var row := Row(i, monthlyPayment, interest, principal, Max(0.0, balance));
      assert (rows + [row])[..|rows|] == rows;
      rows := rows + [row];
    }
  }

  /** The row the loop appends after `k` months, when `balance` is the running balance so far. */
  lemma ScheduleRowStep(amount: real, monthlyRate: real, payment: real, k: nat, balance: real)
    requires balance == BalanceAfter(amount, monthlyRate, payment, k)
    ensures BalanceAfter(amount, monthlyRate, payment, k + 1) == balance - (payment - balance * monthlyRate)
    ensures IsScheduleRow(Row(k + 1, payment, balance * monthlyRate, payment - balance * monthlyRate,
                              Max(0.0, balance - (payment - balance * monthlyRate))),
                          k, amount, monthlyRate, payment)
  {
  }

  /**
   * The level schedule's balance after `k` months is
   * `amount * ((1+r)^n - (1+r)^k) / ((1+r)^n - 1)`, stated here without the division.
   */
  ghost predicate LevelBalanceAt(amount: real, monthlyRate: real, growth: real, payment: real, k: nat)
  {
    ScaledBalance(amount, growth, Pow(1.0 + monthlyRate, k), BalanceAfter(amount, monthlyRate, payment, k))
  }

  /** `balance == amount * (growth - x) / (growth - 1)`, without the division. */
  ghost predicate ScaledBalance(amount: real, growth: real, x: real, balance: real)
  {
    balance * (growth - 1.0) == amount * (growth - x)
  }

  /**
   * Under the level payment the balance follows the closed form, month by
   * month; `growth` is `(1+r)^n` for the `n` months of the term.
   */
  lemma {:induction false} LevelBalance(amount: real, monthlyRate: real, growth: real, payment: real, k: nat)
    requires payment * (growth - 1.0) == amount * monthlyRate * growth
    ensures LevelBalanceAt(amount, monthlyRate, growth, payment, k)
  {
    if k > 0 {
      LevelBalance(amount, monthlyRate, growth, payment, k - 1);
      LevelBalanceStep(amount, monthlyRate, growth, payment,
                       Pow(1.0 + monthlyRate, k - 1), BalanceAfter(amount, monthlyRate, payment, k - 1),
                       Pow(1.0 + monthlyRate, k), BalanceAfter(amount, monthlyRate, payment, k));
    }
  }

  /**
   * One month of LevelBalance over plain reals: `g` is `(1+r)^n`, `x` is
   * `(1+r)^k` and `b` the balance after `k` months; primes are month `k + 1`.
   */
  lemma LevelBalanceStep(amount: real, r: real, g: real, payment: real, x: real, b: real, x': real, b': real)
    requires payment * (g - 1.0) == amount * r * g
    requires ScaledBalance(amount, g, x, b)
    requires x' == (1.0 + r) * x && b' == b - (payment - b * r)
    ensures ScaledBalance(amount, g, x', b')
  {
    assert b' == (1.0 + r) * b - payment;
    calc {
      b' * (g - 1.0);
      (1.0 + r) * (b * (g - 1.0)) - payment * (g - 1.0);
      (1.0 + r) * (amount * (g - x)) - amount * r * g;
      amount * (g - x');
    }
  }

  /** The level payment repays the loan exactly in the last month. */
  lemma LevelPaymentPaysOff(amount: real, monthlyRate: real, months: nat, payment: real)
    requires MonthlyPayment(amount, monthlyRate, months) == Some(payment)
    ensures BalanceAfter(amount, monthlyRate, payment, months) == 0.0
  {
    MonthlyPaymentIsLevel(amount, monthlyRate, months, payment);
    LevelPaysOff(amount, monthlyRate, months, payment);
  }

  lemma LevelPaysOff(amount: real, monthlyRate: real, months: nat, payment: real)
    requires IsLevelPayment(amount, monthlyRate, months, payment)
    ensures BalanceAfter(amount, monthlyRate, payment, months) == 0.0
  {
    LevelBalance(amount, monthlyRate, Pow(1.0 + monthlyRate, months), payment, months);
    PaidOffAlgebra(amount, Pow(1.0 + monthlyRate, months),
                   BalanceAfter(amount, monthlyRate, payment, months));
  }

  lemma PaidOffAlgebra(amount: real, g: real, b: real)
    requires g != 1.0 && ScaledBalance(amount, g, g, b)
    ensures b == 0.0
  {
    QuotientUnique(0.0, g - 1.0, b);
  }

  lemma DifferenceScaled(u: real, w: real, d: real, a: real, y: real, z: real)
    requires u * d == a * y && w * d == a * z
    ensures (u - w) * d == a * (y - z)
  {
  }

  /** The algebra behind LevelBalanceFalls, over plain reals: `x0` is `(1+r)^k`, `x1` is `(1+r)^(k+1)`, `g` is `(1+r)^n`. */
  lemma OrderAlgebra(amount: real, g: real, x0: real, x1: real, b0: real, b1: real)
    requires amount > 0.0
    requires 1.0 <= x0 < x1 <= g
    requires ScaledBalance(amount, g, x0, b0) && ScaledBalance(amount, g, x1, b1)
    ensures 0.0 <= b1 < b0 <= amount
  {
    ScaledNonNegative(amount, g, x1, b1);
    ScaledDrops(amount, g, x0, x1, b0, b1);
    ScaledAtMostLoan(amount, g, x0, b0);
  }

  lemma ScaledNonNegative(amount: real, g: real, x: real, b: real)
    requires amount > 0.0 && 1.0 < g && x <= g
    requires ScaledBalance(amount, g, x, b)
    ensures 0.0 <= b
  {
    PositiveProduct(amount, g - x);
    SignOfQuotient(b, g - 1.0, amount * (g - x));
  }

  lemma ScaledDrops(amount: real, g: real, x0: real, x1: real, b0: real, b1: real)
    requires amount > 0.0 && 1.0 < g && x0 < x1
    requires ScaledBalance(amount, g, x0, b0) && ScaledBalance(amount, g, x1, b1)
    ensures b1 < b0
  {
    DifferenceScaled(b0, b1, g - 1.0, amount, g - x0, g - x1);
    PositiveProduct(amount, (g - x0) - (g - x1));
    SignOfQuotient(b0 - b1, g - 1.0, amount * ((g - x0) - (g - x1)));
  }

  lemma ScaledAtMostLoan(amount: real, g: real, x: real, b: real)
    requires amount > 0.0 && 1.0 < g && 1.0 <= x
    requires ScaledBalance(amount, g, x, b)
    ensures b <= amount
  {
    var d := g - 1.0;
    DifferenceScaled(amount, b, d, amount, d, g - x);
    PositiveProduct(amount, d - (g - x));
    SignOfQuotient(amount - b, d, amount * (d - (g - x)));
  }

  /**
   * For a positive loan at a positive rate the running balance falls every
   * month of the term and never goes below zero: the clamp in the rendered
   * balance only absorbs rounding, never a real overpayment.
   */
  lemma LevelBalanceFalls(amount: real, monthlyRate: real, months: nat, payment: real, k: nat)
    requires amount > 0.0 && monthlyRate > 0.0
    requires MonthlyPayment(amount, monthlyRate, months) == Some(payment)
    requires k < months
    ensures 0.0 <= BalanceAfter(amount, monthlyRate, payment, k + 1)
                < BalanceAfter(amount, monthlyRate, payment, k) <= amount
  {
    MonthlyPaymentIsLevel(amount, monthlyRate, months, payment);
    LevelFalls(amount, monthlyRate, months, payment, k);
  }

  /** LevelBalanceFalls for any level payment. */
  lemma LevelFalls(amount: real, monthlyRate: real, months: nat, payment: real, k: nat)
    requires amount > 0.0 && monthlyRate > 0.0
    requires IsLevelPayment(amount, monthlyRate, months, payment)
    requires k < months
    ensures 0.0 <= BalanceAfter(amount, monthlyRate, payment, k + 1)
                < BalanceAfter(amount, monthlyRate, payment, k) <= amount
  {
    var q := 1.0 + monthlyRate;
    LevelBalance(amount, monthlyRate, Pow(q, months), payment, k);
    LevelBalance(amount, monthlyRate, Pow(q, months), payment, k + 1);
    PowOrder(q, k, months);
    OrderAlgebra(amount, Pow(q, months), Pow(q, k), Pow(q, k + 1),
                 BalanceAfter(amount, monthlyRate, payment, k),
                 BalanceAfter(amount, monthlyRate, payment, k + 1));
  }

  lemma PowOrder(q: real, k: nat, months: nat)
    requires q > 1.0 && k < months
    ensures 1.0 <= Pow(q, k) < Pow(q, k + 1) <= Pow(q, months)
  {
    PowIncreasing(q, k, k + 1);
    PowMonotone(q, k + 1, months);
  }
}
