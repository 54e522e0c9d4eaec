/**
 * The server's annuity engine (`personal-loan-api/src/utils/loanCalculations.ts`).
 *
 * Unlike the client-side scheduler, the monthly rate here is a FRACTION
 * (0.0139 means 1.39% a month), the running balance is never rounded, and
 * only the reported fields are rounded, half up, with the reported balance
 * clamped at zero.
 */
module LoanCalculations {
  import opened Rounding
  import opened LoanTypes
  import opened Js

  /** `Math.pow(x, n)` for a whole exponent. */
  function Pow(x: real, n: nat): real {
    if n == 0 then 1.0 else x * Pow(x, n - 1)
  }

  lemma {:induction false} PowPositive(x: real, n: nat)
    requires x > 0.0
    ensures Pow(x, n) > 0.0
  {
    if n > 0 {
      PowPositive(x, n - 1);
    }
  }

  /** Above one, every positive power grows with the exponent. */
  lemma {:induction false} PowGrows(x: real, n: nat)
    requires x > 1.0
    ensures Pow(x, n + 1) > Pow(x, n) >= 1.0
  {
    if n > 0 {
      PowGrows(x, n - 1);
    }
    PowPositive(x, n);
  }

  /** Between zero and one, every positive power shrinks with the exponent. */
  lemma {:induction false} PowShrinks(x: real, n: nat)
    requires 0.0 < x < 1.0
    ensures 0.0 < Pow(x, n + 1) < Pow(x, n) <= 1.0
  {
    if n > 0 {
      PowShrinks(x, n - 1);
    }
    PowPositive(x, n);
  }

  /** Multiplying by a non-negative factor keeps an inequality. */
  lemma MultiplyMonotone(k: real, a: real, b: real)
    requires k >= 0.0 && a <= b
    ensures k * a <= k * b
  {
    assert k * b - k * a == k * (b - a);
  }

  lemma PowAboveOne(x: real, n: nat)
    requires x > 1.0 && n >= 1
    ensures Pow(x, n) > 1.0
  {
    PowGrows(x, n - 1);
  }

  lemma PowBelowOne(x: real, n: nat)
    requires 0.0 < x < 1.0 && n >= 1
    ensures 0.0 < Pow(x, n) < 1.0
  {
    PowShrinks(x, n - 1);
  }

  /** `x |-> x^n` is strictly increasing on the non-negative reals. */
  lemma {:induction false} PowStrictlyMonotone(x: real, y: real, n: nat)
    requires 0.0 <= x < y
    requires n >= 1
    ensures Pow(x, n) < Pow(y, n)
  {
    if n > 1 {
      PowStrictlyMonotone(x, y, n - 1);
      if x > 0.0 {
        PowPositive(x, n - 1);
      }
      assert x * Pow(x, n - 1) <= x * Pow(y, n - 1);
      assert x * Pow(y, n - 1) < y * Pow(y, n - 1);
    }
  }

  /** The monthly rate `m` that `calculateMonthlyInterestRate(annualRate)` means
      to return: the fraction that, compounded over twelve months, gives the
      yearly percentage `annualRate`. */
  ghost predicate IsMonthlyRate(annualRate: real, m: real) {
    m > -1.0 && Pow(1.0 + m, 12) == 1.0 + annualRate / 100.0
  }

  /** A yearly rate has at most one monthly rate. */
  lemma MonthlyRateUnique(annualRate: real, m1: real, m2: real)
    requires IsMonthlyRate(annualRate, m1) && IsMonthlyRate(annualRate, m2)
    ensures m1 == m2
  {
    if 1.0 + m1 < 1.0 + m2 {
      PowStrictlyMonotone(1.0 + m1, 1.0 + m2, 12);
    } else if 1.0 + m2 < 1.0 + m1 {
      PowStrictlyMonotone(1.0 + m2, 1.0 + m1, 12);
    }
  }

  /** The monthly rate has the sign of the yearly rate; in particular a yearly
      rate of 0 gives a monthly rate of exactly 0. */
  lemma MonthlyRateSign(annualRate: real, m: real)
    requires IsMonthlyRate(annualRate, m)
    ensures m == 0.0 <==> annualRate == 0.0
    ensures m > 0.0 <==> annualRate > 0.0
    ensures m < 0.0 <==> annualRate < 0.0
  {
    if m > 0.0 {
      PowStrictlyMonotone(1.0, 1.0 + m, 12);
      assert Pow(1.0, 12) == 1.0;
    } else if m < 0.0 {
      PowStrictlyMonotone(1.0 + m, 1.0, 12);
      assert Pow(1.0, 12) == 1.0;
    }
  }

  /** The monthly rate for a positive yearly rate is positive and below the
      yearly rate spread evenly over the months (compounding). */
  lemma MonthlyRateBelowSimpleTwelfth(annualRate: real, m: real)
    requires IsMonthlyRate(annualRate, m)
    requires annualRate > 0.0
    ensures 0.0 < m < annualRate / 1200.0
  {
    MonthlyRateSign(annualRate, m);
    BernoulliStrict(m, 11);
  }

  /** Bernoulli's inequality, strictly: `(1 + m)^(n+1) > 1 + (n+1)·m` for
      `m > 0` and at least two factors. */
  lemma {:induction false} BernoulliStrict(m: real, n: nat)
    requires m > 0.0
    requires n >= 1
    ensures Pow(1.0 + m, n + 1) > 1.0 + (n + 1) as real * m
  {
    var p := Pow(1.0 + m, n);
    if n == 1 {
      assert Pow(1.0 + m, 0) == 1.0;
    } else {
      BernoulliStrict(m, n - 1);
    }
    assert p >= 1.0 + n as real * m;
    assert Pow(1.0 + m, n + 1) == (1.0 + m) * p;
    MultiplyMonotone(1.0 + m, 1.0 + n as real * m, p);
    var q := n as real * m;
    assert (1.0 + m) * (1.0 + q) == 1.0 + (n + 1) as real * m + q * m;
    assert q * m > 0.0;
  }

  /** `Math.round(m * 10000) / 100`: the monthly rate as a percentage with two
      decimals, as the simulation reports it. */
  function RatePercent(m: real): (r: real)
    ensures IsCents(r)
    ensures -0.005 < r - m * 100.0 <= 0.005
  {
    FromCents((m * 10000.0 + 0.5).Floor)
  }

  /** The reported percentage is the percentage rounded half up to cents. */
  lemma RatePercentIsRound2(m: real)
    ensures RatePercent(m) == Round2(m * 100.0)
  {
    assert m * 10000.0 == m * 100.0 * 100.0;
  }

  /** The personal-loan product (18.5% a year) compounds to 1.42% a month:
      its exact monthly rate lies strictly between 1.415% and 1.425%. */
  lemma PersonalLoanMonthlyRate(m: real)
    requires IsMonthlyRate(18.5, m)
    ensures 0.01415 < m < 0.01425
    ensures RatePercent(m) == 1.42
  {
    assert Pow(1.01415, 12) < 1.185;
    assert Pow(1.01425, 12) > 1.185;
    if m <= 0.01415 {
      if m < 0.01415 {
        PowStrictlyMonotone(1.0 + m, 1.01415, 12);
      }
      assert false;
    }
    if m >= 0.01425 {
      if m > 0.01425 {
        PowStrictlyMonotone(1.01425, 1.0 + m, 12);
      }
      assert false;
    }
    assert 141.5 < m * 10000.0 + 0.5 < 143.0;
  }

  /** `calculateMonthlyPayment(principal, monthlyRate, months)`: the even split
      of the principal at a zero rate, the annuity payment
      `P·r·f / (f − 1)` with `f = (1 + r)^months` otherwise. Division follows
      JavaScript, so a zero divisor gives an infinity or NaN. */
  function MonthlyPayment(principal: real, monthlyRate: real, months: nat): JsNum {
    if monthlyRate == 0.0 then Divide(principal, months as real)
    else
      var factor := Pow(1.0 + monthlyRate, months);
      Divide(principal * monthlyRate * factor, factor - 1.0)
  }

  /** The payment is a finite number whenever there is at least one month and
      the rate is above −100%; with no months it is not. */
  lemma MonthlyPaymentFinite(principal: real, monthlyRate: real, months: nat)
    ensures months >= 1 && monthlyRate > -1.0 ==> MonthlyPayment(principal, monthlyRate, months).Finite?
    ensures months == 0 && principal != 0.0 ==> !MonthlyPayment(principal, monthlyRate, months).Finite?
  {
    if months >= 1 && monthlyRate > 0.0 {
      PowGrows(1.0 + monthlyRate, months - 1);
    } else if months >= 1 && -1.0 < monthlyRate < 0.0 {
      PowShrinks(1.0 + monthlyRate, months - 1);
    }
  }

  /** The balance still owed after `k` months when every month adds interest
      at `rate` and subtracts `payment`, in exact arithmetic (never rounded). */
  function Balance(principal: real, payment: real, rate: real, k: nat): real {
    if k == 0 then principal
    else
      var b := Balance(principal, payment, rate, k - 1);
      b - (payment - b * rate)
  }

  /** The amortization of month `k + 1` (payment minus interest) grows
      geometrically: it is the first month's amortization times `(1 + r)^k`. */
  lemma {:induction false} AmortizationGeometric(principal: real, payment: real, rate: real, k: nat)
    ensures payment - Balance(principal, payment, rate, k) * rate
         == Pow(1.0 + rate, k) * (payment - principal * rate)
  {
    if k > 0 {
      AmortizationGeometric(principal, payment, rate, k - 1);
      var b := Balance(principal, payment, rate, k - 1);
      var a := payment - b * rate;
      var pk := Pow(1.0 + rate, k - 1);
      assert Balance(principal, payment, rate, k) == b - a;
      assert Pow(1.0 + rate, k) == (1.0 + rate) * pk;
      GeometricStep(b, a, payment, rate, pk, payment - principal * rate);
    }
  }

  /** One month of `AmortizationGeometric`, as plain algebra. */
  lemma GeometricStep(b: real, a: real, payment: real, rate: real, pk: real, c: real)
    requires a == payment - b * rate && a == pk * c
    ensures payment - (b - a) * rate == (1.0 + rate) * pk * c
  {
    assert payment - (b - a) * rate == a * (1.0 + rate);
  }

  /** Closed form of the balance, multiplied through by the rate:
      `B_k · r = P·r·f_k − p·(f_k − 1)` with `f_k = (1 + r)^k`. */
  lemma BalanceClosedForm(principal: real, payment: real, rate: real, k: nat)
    ensures Balance(principal, payment, rate, k) * rate
         == principal * rate * Pow(1.0 + rate, k) - payment * (Pow(1.0 + rate, k) - 1.0)
  {
    AmortizationGeometric(principal, payment, rate, k);
  }

  /** At a zero rate the balance falls by exactly one payment a month. */
  lemma {:induction false} ZeroRateBalance(principal: real, payment: real, k: nat)
    ensures Balance(principal, payment, 0.0, k) == principal - k as real * payment
  {
    if k > 0 {
      ZeroRateBalance(principal, payment, k - 1);
    }
  }

  /** The annuity payment pays the loan off: after `months` months the exact
      balance is 0. */
  lemma PaymentPaysOff(principal: real, monthlyRate: real, months: nat)
    requires months >= 1 && monthlyRate > -1.0
    ensures MonthlyPayment(principal, monthlyRate, months).Finite?
    ensures Balance(principal, MonthlyPayment(principal, monthlyRate, months).v, monthlyRate, months) == 0.0
  {
    MonthlyPaymentFinite(principal, monthlyRate, months);
    if monthlyRate == 0.0 {
      ZeroRatePaysOff(principal, months);
    } else {
      AnnuityPaysOff(principal, monthlyRate, months);
    }
  }

  /** At a zero rate, `months` equal payments of `principal / months` pay the
      loan off. */
  lemma ZeroRatePaysOff(principal: real, months: nat)
    requires months >= 1
    ensures MonthlyPayment(principal, 0.0, months) == Finite(principal / months as real)
    ensures Balance(principal, principal / months as real, 0.0, months) == 0.0
  {
    var n := months as real;
    ZeroRateBalance(principal, principal / n, months);
    assert n * (principal / n) == principal;
  }

  /** At a nonzero rate above −100%, the annuity payment pays the loan off. */
  lemma AnnuityPaysOff(principal: real, monthlyRate: real, months: nat)
    requires months >= 1 && monthlyRate > -1.0 && monthlyRate != 0.0
    ensures MonthlyPayment(principal, monthlyRate, months).Finite?
    ensures Balance(principal, MonthlyPayment(principal, monthlyRate, months).v, monthlyRate, months) == 0.0
  {
    MonthlyPaymentFinite(principal, monthlyRate, months);
    var f := Pow(1.0 + monthlyRate, months);
    var p := MonthlyPayment(principal, monthlyRate, months).v;
    assert p == principal * monthlyRate * f / (f - 1.0);
    var b := Balance(principal, p, monthlyRate, months);
    BalanceClosedForm(principal, p, monthlyRate, months);
    AnnuityCancels(principal, monthlyRate, f, p, b);
  }

  /** The algebra behind the payoff: with `p = P·r·f / (f − 1)` the closed form
      `B·r = P·r·f − p·(f − 1)` forces `B = 0`. */
  lemma AnnuityCancels(principal: real, rate: real, f: real, p: real, b: real)
    requires rate != 0.0 && f != 1.0
    requires p == principal * rate * f / (f - 1.0)
    requires b * rate == principal * rate * f - p * (f - 1.0)
    ensures b == 0.0
  {
    assert p * (f - 1.0) == principal * rate * f;
  }

  /** The annuity payment for a nonzero rate above −100% and at least one
      month, with the growth factor on the right side of 1. */
  lemma AnnuityFormula(principal: real, monthlyRate: real, months: nat)
    requires months >= 1 && monthlyRate > -1.0 && monthlyRate != 0.0
    ensures monthlyRate > 0.0 ==> Pow(1.0 + monthlyRate, months) > 1.0
    ensures monthlyRate < 0.0 ==> 0.0 < Pow(1.0 + monthlyRate, months) < 1.0
    ensures MonthlyPayment(principal, monthlyRate, months)
         == Finite(principal * monthlyRate * Pow(1.0 + monthlyRate, months) / (Pow(1.0 + monthlyRate, months) - 1.0))
  {
    if monthlyRate > 0.0 {
      PowAboveOne(1.0 + monthlyRate, months);
    } else {
      PowBelowOne(1.0 + monthlyRate, months);
    }
    AnnuityBranch(principal, monthlyRate, months);
  }

  /** The nonzero-rate branch of `MonthlyPayment`, once the factor is known
      to differ from 1. */
  lemma AnnuityBranch(principal: real, monthlyRate: real, months: nat)
    requires monthlyRate != 0.0 && Pow(1.0 + monthlyRate, months) != 1.0
    ensures MonthlyPayment(principal, monthlyRate, months)
         == Finite(principal * monthlyRate * Pow(1.0 + monthlyRate, months) / (Pow(1.0 + monthlyRate, months) - 1.0))
  {
  }

  /** The first month's amortization `p − P·r` is positive for a positive
      principal: `(p − P·r)·(f − 1) = P·r`, and `f − 1` has the sign of `r`. */
  lemma FirstAmortizationPositive(principal: real, rate: real, f: real, p: real)
    requires principal > 0.0 && rate != 0.0
    requires rate > 0.0 ==> f > 1.0
    requires rate < 0.0 ==> f < 1.0
    requires p == principal * rate * f / (f - 1.0)
    ensures p - principal * rate > 0.0
  {
    var a := p - principal * rate;
    var q := f - 1.0;
    assert p * q == principal * rate * f;
    assert a * q == principal * rate;
    if rate > 0.0 {
      assert principal * rate > 0.0;
    } else {
      assert principal * rate < 0.0;
    }
  }

  /** With the annuity payment `p` and a positive principal, every month's
      amortization `p − B_k·r` is positive. */
  lemma AmortizationPositive(principal: real, monthlyRate: real, months: nat, p: real, k: nat)
    requires principal > 0.0 && months >= 1 && monthlyRate > -1.0
    requires MonthlyPayment(principal, monthlyRate, months) == Finite(p)
    ensures p - Balance(principal, p, monthlyRate, k) * monthlyRate > 0.0
  {
    if monthlyRate == 0.0 {
      ZeroRatePaysOff(principal, months);
      assert p == principal / months as real;
    } else {
      AnnuityFormula(principal, monthlyRate, months);
      var f := Pow(1.0 + monthlyRate, months);
      assert p == principal * monthlyRate * f / (f - 1.0);
      FirstAmortizationPositive(principal, monthlyRate, f, p);
      AmortizationGeometric(principal, p, monthlyRate, k);
      PowPositive(1.0 + monthlyRate, k);
      PositiveProduct(Pow(1.0 + monthlyRate, k), p - principal * monthlyRate);
    }
  }

  /** With the annuity payment and a positive principal, the exact balance
      strictly decreases every month. */
  lemma BalanceStrictlyDecreases(principal: real, monthlyRate: real, months: nat, k: nat)
    requires principal > 0.0 && months >= 1 && monthlyRate > -1.0
    ensures MonthlyPayment(principal, monthlyRate, months).Finite?
    ensures var p := MonthlyPayment(principal, monthlyRate, months).v;
            Balance(principal, p, monthlyRate, k + 1) < Balance(principal, p, monthlyRate, k)
  {
    MonthlyPaymentFinite(principal, monthlyRate, months);
    var p := MonthlyPayment(principal, monthlyRate, months).v;
    AmortizationPositive(principal, monthlyRate, months, p, k);
  }

  lemma PositiveProduct(a: real, b: real)
    requires a > 0.0 && b > 0.0
    ensures a * b > 0.0
  {
  }

  /** Hence every balance up to the last month is between 0 and the principal. */
  lemma {:induction false} BalanceWithinPrincipal(principal: real, monthlyRate: real, months: nat, k: nat)
    requires principal > 0.0 && months >= 1 && monthlyRate > -1.0
    requires k <= months
    ensures MonthlyPayment(principal, monthlyRate, months).Finite?
    ensures var p := MonthlyPayment(principal, monthlyRate, months).v;
            0.0 <= Balance(principal, p, monthlyRate, k) <= principal
    decreases months - k
  {
    MonthlyPaymentFinite(principal, monthlyRate, months);
    var p := MonthlyPayment(principal, monthlyRate, months).v;
    if k == months {
      PaymentPaysOff(principal, monthlyRate, months);
    } else {
      BalanceWithinPrincipal(principal, monthlyRate, months, k + 1);
      BalanceStrictlyDecreases(principal, monthlyRate, months, k);
      if k > 0 {
        BalanceStrictlyDecreases(principal, monthlyRate, months, k - 1);
        BalanceFallsFromPrincipal(principal, monthlyRate, months, k - 1);
      }
    }
  }

  /** No balance after the first month exceeds the principal. */
  lemma {:induction false} BalanceFallsFromPrincipal(principal: real, monthlyRate: real, months: nat, k: nat)
    requires principal > 0.0 && months >= 1 && monthlyRate > -1.0
    ensures MonthlyPayment(principal, monthlyRate, months).Finite?
    ensures Balance(principal, MonthlyPayment(principal, monthlyRate, months).v, monthlyRate, k + 1) < principal
  {
    BalanceStrictlyDecreases(principal, monthlyRate, months, k);
    if k > 0 {
      BalanceFallsFromPrincipal(principal, monthlyRate, months, k - 1);
    }
  }

  /** For a positive rate, compounding over `n` months stays below `n` times
      the rate applied to the final factor: `f_n − 1 < n·r·f_n`. */
  lemma {:induction false} CompoundBelowLinear(rate: real, n: nat)
    requires rate > 0.0 && n >= 1
    ensures Pow(1.0 + rate, n) - 1.0 < n as real * rate * Pow(1.0 + rate, n)
  {
    var f := Pow(1.0 + rate, n);
    if n == 1 {
      assert Pow(1.0 + rate, 0) == 1.0;
      assert f == 1.0 + rate;
      assert rate < rate * (1.0 + rate);
    } else {
      var g := Pow(1.0 + rate, n - 1);
      CompoundBelowLinear(rate, n - 1);
      PowGrows(1.0 + rate, n - 1);
      assert f == g * (1.0 + rate);
      assert f - 1.0 == (g - 1.0) + rate * g;
      var m := (n - 1) as real;
      assert g - 1.0 < m * rate * g;
      MultiplyMonotone(n as real * rate, g, f);
      assert n as real * rate * g == m * rate * g + rate * g;
    }
  }

  /** For a positive principal and rate, the total of the payments exceeds the
      principal: `payment × months > principal`. */
  lemma TotalPaidExceedsPrincipal(principal: real, monthlyRate: real, months: nat)
    requires principal > 0.0 && monthlyRate > 0.0 && months >= 1
    ensures MonthlyPayment(principal, monthlyRate, months).Finite?
    ensures MonthlyPayment(principal, monthlyRate, months).v * months as real > principal
  {
    MonthlyPaymentFinite(principal, monthlyRate, months);
    TotalPaidExceeds(principal, monthlyRate, months, MonthlyPayment(principal, monthlyRate, months).v);
  }

  lemma TotalPaidExceeds(principal: real, monthlyRate: real, months: nat, p: real)
    requires principal > 0.0 && monthlyRate > 0.0 && months >= 1
    requires MonthlyPayment(principal, monthlyRate, months) == Finite(p)
    ensures p * months as real > principal
  {
    var f := Pow(1.0 + monthlyRate, months);
    AnnuityFormula(principal, monthlyRate, months);
    FiniteValue(MonthlyPayment(principal, monthlyRate, months), p, principal * monthlyRate * f / (f - 1.0));
    CompoundBelowLinear(monthlyRate, months);
    TotalExceeds(principal, monthlyRate, f, p, months as real);
  }

  lemma FiniteValue(x: JsNum, p: real, q: real)
    requires x == Finite(p) && x == Finite(q)
    ensures p == q
  {
  }

  /** The algebra behind the total: `p·(f − 1) = P·r·f` and `f − 1 < n·r·f`
      give `p·n > P`. */
  lemma TotalExceeds(principal: real, rate: real, f: real, p: real, n: real)
    requires principal > 0.0 && rate > 0.0 && f > 1.0 && n > 0.0
    requires p == principal * rate * f / (f - 1.0)
    requires f - 1.0 < n * rate * f
    ensures p * n > principal
  {
    var q := f - 1.0;
    assert p * q == principal * rate * f;
    assert p * n * q == principal * (n * rate * f);
    MultiplyMonotone(principal, q, n * rate * f);
    assert principal * q < principal * (n * rate * f);
    assert p * n * q > principal * q;
  }

  /** The row `generateAmortizationSchedule` reports for month `month` when the
      balance carried in is `balance`: interest is the balance times the rate
      (a fraction, not divided by 100), amortization is the rest of the
      payment, and each is rounded half up to cents only for reporting; the
      reported balance is also clamped at 0. */
  function ReportedRow(month: int, balance: real, payment: real, rate: real): Entry {
    var interest := balance * rate;
    var amortization := payment - interest;
    Entry(month, Round2(interest), Round2(amortization), Max0(Round2(balance - amortization)))
  }

  /** The rows for months `month..months`, carrying the unrounded balance. */
  function AnnuitySteps(balance: real, payment: real, rate: real, month: int, months: int): (s: seq<Entry>)
    decreases months - month
    ensures |s| == (if month > months then 0 else months - month + 1)
    ensures forall i :: 0 <= i < |s| ==> s[i].month == month + i
  {
    if month > months then []
    else
      var interest := balance * rate;
      var amortization := payment - interest;
      [ReportedRow(month, balance, payment, rate)] + AnnuitySteps(balance - amortization, payment, rate, month + 1, months)
  }

  /** `generateAmortizationSchedule(principal, monthlyPayment, monthlyRate, months)`:
      one row per month, numbered from 1, none when `months` is 0 or less. */
  function AmortizationSchedule(principal: real, monthlyPayment: real, monthlyRate: real, months: int): (s: seq<Entry>)
    ensures |s| == (if months > 0 then months else 0)
    ensures forall i :: 0 <= i < |s| ==> s[i].month == i + 1
  {
    AnnuitySteps(principal, monthlyPayment, monthlyRate, 1, months)
  }

  /** The first row of a run of rows, and the rest. */
  lemma AnnuityStepsUnfold(balance: real, payment: real, rate: real, month: int, months: int)
    requires month <= months
    ensures AnnuitySteps(balance, payment, rate, month, months)
         == [ReportedRow(month, balance, payment, rate)]
            + AnnuitySteps(balance - (payment - balance * rate), payment, rate, month + 1, months)
  {
  }

  lemma {:induction false} AnnuityStepsRows(principal: real, payment: real, rate: real, j: nat, months: int, i: nat)
    requires i < months - j
    ensures AnnuitySteps(Balance(principal, payment, rate, j), payment, rate, j + 1, months)[i]
         == ReportedRow(j + i + 1, Balance(principal, payment, rate, j + i), payment, rate)
    decreases i
  {
    var b := Balance(principal, payment, rate, j);
    BalanceNext(principal, payment, rate, j);
    AnnuityStepsUnfold(b, payment, rate, j + 1, months);
    if i > 0 {
      AnnuityStepsRows(principal, payment, rate, j + 1, months, i - 1);
    }
  }

  /** Row `i` of the schedule is the reported form of the exact balance after
      `i` months: the running balance is never rounded. */
  lemma AnnuityScheduleRow(principal: real, monthlyPayment: real, monthlyRate: real, months: int, i: nat)
    requires i < months
    ensures AmortizationSchedule(principal, monthlyPayment, monthlyRate, months)[i]
         == ReportedRow(i + 1, Balance(principal, monthlyPayment, monthlyRate, i), monthlyPayment, monthlyRate)
  {
    AnnuityStepsRows(principal, monthlyPayment, monthlyRate, 0, months, i);
  }

  /** Reading a reported row field by field: interest and amortization come
      from the exact balance carried in, the balance from the exact balance
      after the month, and none of the reported amounts is off by more than
      half a cent (the balance clamped at 0). */
  lemma ReportedRowFields(principal: real, payment: real, rate: real, k: nat)
    ensures var e := ReportedRow(k + 1, Balance(principal, payment, rate, k), payment, rate);
      && e.month == k + 1
      && e.interest == Round2(Balance(principal, payment, rate, k) * rate)
      && e.amortization == Round2(payment - Balance(principal, payment, rate, k) * rate)
      && e.balance == Max0(Round2(Balance(principal, payment, rate, k + 1)))
      && e.balance >= 0.0
  {
    BalanceNext(principal, payment, rate, k);
  }

  /** One month of the exact balance: interest is added, the payment taken off. */
  lemma BalanceNext(principal: real, payment: real, rate: real, k: nat)
    ensures Balance(principal, payment, rate, k + 1)
         == Balance(principal, payment, rate, k) - (payment - Balance(principal, payment, rate, k) * rate)
  {
  }

  /** Every reported balance is non-negative. */
  lemma ReportedBalancesNonNegative(principal: real, monthlyPayment: real, monthlyRate: real, months: int, i: nat)
    requires i < months
    ensures AmortizationSchedule(principal, monthlyPayment, monthlyRate, months)[i].balance >= 0.0
  {
    AnnuityScheduleRow(principal, monthlyPayment, monthlyRate, months, i);
  }

  /** With the annuity payment the last reported balance is exactly 0.00. */
  lemma LastReportedBalanceIsZero(principal: real, monthlyRate: real, months: nat)
    requires months >= 1 && monthlyRate > -1.0
    ensures MonthlyPayment(principal, monthlyRate, months).Finite?
    ensures AmortizationSchedule(principal, MonthlyPayment(principal, monthlyRate, months).v, monthlyRate, months)[months - 1].balance == 0.0
  {
    PaymentPaysOff(principal, monthlyRate, months);
    LastRowOfPaidOffLoan(principal, MonthlyPayment(principal, monthlyRate, months).v, monthlyRate, months);
  }

  /** A loan whose exact balance reaches 0 in its last month reports 0.00 there. */
  lemma LastRowOfPaidOffLoan(principal: real, payment: real, rate: real, months: nat)
    requires months >= 1
    requires Balance(principal, payment, rate, months) == 0.0
    ensures AmortizationSchedule(principal, payment, rate, months)[months - 1].balance == 0.0
  {
    var k: nat := months - 1;
    assert k + 1 == months;
    LastRowReportsZero(principal, payment, rate, k);
  }

  lemma LastRowReportsZero(principal: real, payment: real, rate: real, k: nat)
    requires Balance(principal, payment, rate, k + 1) == 0.0
    ensures AmortizationSchedule(principal, payment, rate, k + 1)[k].balance == 0.0
  {
    ReportedBalance(principal, payment, rate, k + 1, k);
    Round2OfCents(0.0);
  }

  /** The balance reported in row `i` is the exact balance after `i + 1`
      months, rounded half up to cents and clamped at 0. */
  lemma ReportedBalance(principal: real, payment: real, rate: real, months: int, i: nat)
    requires i < months
    ensures AmortizationSchedule(principal, payment, rate, months)[i].balance
         == Max0(Round2(Balance(principal, payment, rate, i + 1)))
  {
    AnnuityScheduleRow(principal, payment, rate, months, i);
    ReportedRowFields(principal, payment, rate, i);
  }

  /** With the annuity payment and a positive principal, the reported balances
      never increase from one month to the next. */
  lemma ReportedBalancesNonIncreasing(principal: real, monthlyRate: real, months: nat, i: nat)
    requires principal > 0.0 && monthlyRate > -1.0
    requires i + 1 < months
    ensures MonthlyPayment(principal, monthlyRate, months).Finite?
    ensures var s := AmortizationSchedule(principal, MonthlyPayment(principal, monthlyRate, months).v, monthlyRate, months);
            s[i + 1].balance <= s[i].balance
  {
    MonthlyPaymentFinite(principal, monthlyRate, months);
    var p := MonthlyPayment(principal, monthlyRate, months).v;
    ReportedBalance(principal, p, monthlyRate, months, i);
    ReportedBalance(principal, p, monthlyRate, months, i + 1);
    BalanceStrictlyDecreases(principal, monthlyRate, months, i + 1);
    Round2Monotone(Balance(principal, p, monthlyRate, i + 2), Balance(principal, p, monthlyRate, i + 1));
  }

  /** The source's loop, row by row: it builds exactly `AmortizationSchedule`. */
  method GenerateAmortizationSchedule(principal: real, monthlyPayment: real, monthlyRate: real, months: int)
    returns (schedule: seq<Entry>)
    ensures schedule == AmortizationSchedule(principal, monthlyPayment, monthlyRate, months)
    ensures |schedule| == (if months > 0 then months else 0)
  {
    schedule := [];
    var balance := principal;
    var month := 1;
    while month <= months
      invariant 1 <= month <= (if months >= 1 then months + 1 else 1)
      invariant schedule + AnnuitySteps(balance, monthlyPayment, monthlyRate, month, months)
                == AnnuitySteps(principal, monthlyPayment, monthlyRate, 1, months)
      decreases months - month
    {
      var interest := balance * monthlyRate;
      var amortization := monthlyPayment - interest;
      var row := ReportedRow(month, balance, monthlyPayment, monthlyRate);
      balance := balance - amortization;
      schedule := schedule + [row];
      month := month + 1;
    }
  }
}
