/**
 * The client-side amortization scheduler (`LoanCalculator`): a Price-system
 * schedule whose interest, amortization and balance are each rounded to cents
 * with banker's rounding, whose running balance is carried in rounded form,
 * and whose final month pays off whatever balance remains.
 *
 * The monthly rate is given as a PERCENT (1.39 means 1.39% a month) and is
 * divided by 100 before use.
 */
module LoanCalculator {
  import opened Rounding
  import opened LoanTypes

  /** One pass of the loop body, for month `month` of `months`. */
  function Step(balance: real, payment: real, rateDecimal: real, month: int, months: int): Entry {
    var interest := BankersRound(balance * rateDecimal);
    var amortization := BankersRound(if month == months then balance else payment - interest);
    Entry(month, interest, amortization, BankersRound(balance - amortization))
  }

  /** The fields of one pass, one by one. */
  lemma StepFields(balance: real, payment: real, rateDecimal: real, month: int, months: int)
    ensures var e := Step(balance, payment, rateDecimal, month, months);
      && e.month == month
      && e.interest == BankersRound(balance * rateDecimal)
      && e.amortization == BankersRound(if month == months then balance else payment - e.interest)
      && e.balance == BankersRound(balance - e.amortization)
      && IsCents(e.interest) && IsCents(e.amortization) && IsCents(e.balance)
  {
  }

  /** The balance a row starts from: the principal for the first row, the
      previous row's (rounded) balance afterwards. */
  function Prev(start: real, s: seq<Entry>, i: int): real
    requires 0 <= i <= |s|
  {
    if i == 0 then start else s[i - 1].balance
  }

  /** Row `i` is one pass of the loop body applied to the balance carried in. */
  ghost predicate RowRule(s: seq<Entry>, i: int, start: real, payment: real, rateDecimal: real, months: int)
    requires 0 <= i < |s|
  {
    s[i] == Step(Prev(start, s, i), payment, rateDecimal, s[i].month, months)
  }

  /** Every row of `s` obeys its rule. */
  ghost predicate AllRows(s: seq<Entry>, start: real, payment: real, rateDecimal: real, months: int) {
    forall i :: 0 <= i < |s| ==> RowRule(s, i, start, payment, rateDecimal, months)
  }

  /** Every amount in the schedule is a whole number of cents. */
  ghost predicate AllCents(s: seq<Entry>) {
    forall i :: 0 <= i < |s| ==> IsCents(s[i].interest) && IsCents(s[i].amortization) && IsCents(s[i].balance)
  }

  /** The rows for months `month..months`, starting from `balance`. */
  function Steps(balance: real, payment: real, rateDecimal: real, month: int, months: int): (s: seq<Entry>)
    decreases months - month
    ensures |s| == (if month > months then 0 else months - month + 1)
    ensures forall i :: 0 <= i < |s| ==> s[i].month == month + i
  {
    if month > months then []
    else
      var e := Step(balance, payment, rateDecimal, month, months);
      [e] + Steps(e.balance, payment, rateDecimal, month + 1, months)
  }

  /** The first row of a run of rows, and the rest. */
  lemma StepsUnfold(balance: real, payment: real, rateDecimal: real, month: int, months: int)
    requires month <= months
    ensures var e := Step(balance, payment, rateDecimal, month, months);
      Steps(balance, payment, rateDecimal, month, months) == [e] + Steps(e.balance, payment, rateDecimal, month + 1, months)
  {
  }

  /** Each row produced by `Steps` is the loop body applied to the previous
      row's balance. */
  lemma {:induction false} StepsFollowRules(balance: real, payment: real, rateDecimal: real, month: int, months: int)
    ensures AllRows(Steps(balance, payment, rateDecimal, month, months), balance, payment, rateDecimal, months)
    decreases months - month
  {
    if month <= months {
      var s := Steps(balance, payment, rateDecimal, month, months);
      var e := Step(balance, payment, rateDecimal, month, months);
      var rest := Steps(e.balance, payment, rateDecimal, month + 1, months);
      assert s == [e] + rest;
      StepsFollowRules(e.balance, payment, rateDecimal, month + 1, months);
      forall i | 0 <= i < |s| ensures RowRule(s, i, balance, payment, rateDecimal, months) {
        if i > 0 {
          assert s[i] == rest[i - 1];
          assert Prev(balance, s, i) == Prev(e.balance, rest, i - 1);
          assert RowRule(rest, i - 1, e.balance, payment, rateDecimal, months);
        }
      }
    }
  }

  /** `generateAmortizationSchedule(principal, monthlyPayment, monthlyRate, months)`
      as a function: `monthlyRate` is a percent. One row per month, numbered
      from 1; no rows at all when `months` is 0 or less. */
  function Schedule(principal: real, monthlyPayment: real, monthlyRate: real, months: int): (s: seq<Entry>)
    ensures |s| == (if months > 0 then months else 0)
    ensures forall i :: 0 <= i < |s| ==> s[i].month == i + 1
  {
    Steps(principal, monthlyPayment, monthlyRate / 100.0, 1, months)
  }

  /** The schedule is the loop body applied month after month. */
  lemma ScheduleFollowsLoop(principal: real, monthlyPayment: real, monthlyRate: real, months: int)
    ensures AllRows(Schedule(principal, monthlyPayment, monthlyRate, months), principal, monthlyPayment, monthlyRate / 100.0, months)
  {
    StepsFollowRules(principal, monthlyPayment, monthlyRate / 100.0, 1, months);
  }

  /** Row `i` of the schedule: interest is the rounded percentage of the
      balance carried in, amortization is the rounded remainder of the payment
      (the whole carried balance in the last month), the balance is the
      rounded difference, and all three are whole cents. */
  lemma ScheduleRow(principal: real, monthlyPayment: real, monthlyRate: real, months: int, i: int)
    requires 0 <= i < months
    ensures Schedule(principal, monthlyPayment, monthlyRate, months)[i].interest
         == BankersRound(Prev(principal, Schedule(principal, monthlyPayment, monthlyRate, months), i) * (monthlyRate / 100.0))
    ensures Schedule(principal, monthlyPayment, monthlyRate, months)[i].amortization
         == BankersRound(if i == months - 1 then Prev(principal, Schedule(principal, monthlyPayment, monthlyRate, months), i)
                         else monthlyPayment - Schedule(principal, monthlyPayment, monthlyRate, months)[i].interest)
    ensures Schedule(principal, monthlyPayment, monthlyRate, months)[i].balance
         == BankersRound(Prev(principal, Schedule(principal, monthlyPayment, monthlyRate, months), i)
                         - Schedule(principal, monthlyPayment, monthlyRate, months)[i].amortization)
    ensures IsCents(Schedule(principal, monthlyPayment, monthlyRate, months)[i].interest)
    ensures IsCents(Schedule(principal, monthlyPayment, monthlyRate, months)[i].amortization)
    ensures IsCents(Schedule(principal, monthlyPayment, monthlyRate, months)[i].balance)
  {
    var s := Schedule(principal, monthlyPayment, monthlyRate, months);
    ScheduleFollowsLoop(principal, monthlyPayment, monthlyRate, months);
    assert RowRule(s, i, principal, monthlyPayment, monthlyRate / 100.0, months);
    var prev := Prev(principal, s, i);
    StepFields(prev, monthlyPayment, monthlyRate / 100.0, i + 1, months);
  }

  /** Every interest, amortization and balance the schedule reports is a whole
      number of cents. */
  lemma ScheduleInCents(principal: real, monthlyPayment: real, monthlyRate: real, months: int)
    ensures AllCents(Schedule(principal, monthlyPayment, monthlyRate, months))
  {
    forall i | 0 <= i < months {
      ScheduleRow(principal, monthlyPayment, monthlyRate, months, i);
    }
  }

  /** The last month pays off whatever is left: its balance is exactly 0.00,
      whatever the principal, payment and rate. */
  lemma FinalBalanceIsZero(principal: real, monthlyPayment: real, monthlyRate: real, months: int)
    requires months >= 1
    ensures Schedule(principal, monthlyPayment, monthlyRate, months)[months - 1].balance == 0.0
  {
    var s := Schedule(principal, monthlyPayment, monthlyRate, months);
    ScheduleRow(principal, monthlyPayment, monthlyRate, months, months - 1);
    BankersResidueIsZero(Prev(principal, s, months - 1));
  }

  /** The source's loop, row by row: it builds exactly `Schedule`. */
  method GenerateAmortizationSchedule(principal: real, monthlyPayment: real, monthlyRate: real, months: int)
    returns (schedule: seq<Entry>)
    ensures schedule == Schedule(principal, monthlyPayment, monthlyRate, months)
    ensures |schedule| == (if months > 0 then months else 0)
  {
    schedule := [];
    var remainingBalance := principal;
    var monthlyRateDecimal := monthlyRate / 100.0;
    var month := 1;
    while month <= months
      invariant 1 <= month <= (if months >= 1 then months + 1 else 1)
      invariant schedule + Steps(remainingBalance, monthlyPayment, monthlyRateDecimal, month, months)
                == Steps(principal, monthlyPayment, monthlyRateDecimal, 1, months)
      decreases months - month
    {
      // one pass of the loop body: interest, amortization, rounded balance
      var entry := Step(remainingBalance, monthlyPayment, monthlyRateDecimal, month, months);
      schedule := schedule + [entry];
      remainingBalance := entry.balance;
      month := month + 1;
    }
  }

  /** The rules pin the schedule down: any sequence of rows obeying them is
      the one the scheduler builds. */
  lemma {:induction false} RulesDetermineSchedule(s: seq<Entry>, principal: real, monthlyPayment: real, monthlyRate: real, months: int)
    requires |s| == (if months > 0 then months else 0)
    requires forall i :: 0 <= i < |s| ==> s[i].month == i + 1
    requires AllRows(s, principal, monthlyPayment, monthlyRate / 100.0, months)
    ensures s == Schedule(principal, monthlyPayment, monthlyRate, months)
  {
    var t := Schedule(principal, monthlyPayment, monthlyRate, months);
    ScheduleFollowsLoop(principal, monthlyPayment, monthlyRate, months);
    var k := 0;
    while k < |s|
      invariant 0 <= k <= |s|
      invariant s[..k] == t[..k]
    {
      assert RowRule(s, k, principal, monthlyPayment, monthlyRate / 100.0, months);
      assert RowRule(t, k, principal, monthlyPayment, monthlyRate / 100.0, months);
      assert Prev(principal, s, k) == Prev(principal, t, k) by {
        if k > 0 { assert s[k - 1] == s[..k][k - 1] == t[..k][k - 1] == t[k - 1]; }
      }
      assert s[..k + 1] == s[..k] + [s[k]];
      assert t[..k + 1] == t[..k] + [t[k]];
      k := k + 1;
    }
    assert s == s[..k] && t == t[..k];
  }

  /** With a cent-valued payment, interest and amortization add up to the
      payment in every month but the last. */
  lemma PaymentSplitsExactly(principal: real, monthlyPayment: real, monthlyRate: real, months: int, i: int)
    requires IsCents(monthlyPayment)
    requires 0 <= i < months - 1
    ensures var s := Schedule(principal, monthlyPayment, monthlyRate, months);
            s[i].interest + s[i].amortization == monthlyPayment
  {
    var s := Schedule(principal, monthlyPayment, monthlyRate, months);
    ScheduleRow(principal, monthlyPayment, monthlyRate, months, i);
    CentsArithmetic(monthlyPayment, s[i].interest);
    BankersRoundOfCents(monthlyPayment - s[i].interest);
  }

  /** Total amortization over a run of rows. */
  function SumAmortization(s: seq<Entry>): real {
    if s == [] then 0.0 else s[0].amortization + SumAmortization(s[1..])
  }

  /** Starting from a cent-valued balance, the amortizations of the remaining
      months add up to exactly that balance. */
  lemma {:induction false} StepsAmortizeBalance(balance: real, payment: real, rateDecimal: real, month: int, months: int)
    requires IsCents(balance)
    requires month <= months
    ensures SumAmortization(Steps(balance, payment, rateDecimal, month, months)) == balance
    decreases months - month
  {
    var s := Steps(balance, payment, rateDecimal, month, months);
    var e := s[0];
    assert s[1..] == Steps(e.balance, payment, rateDecimal, month + 1, months);
    CentsArithmetic(balance, e.amortization);
    BankersRoundOfCents(balance - e.amortization);
    if month < months {
      StepsAmortizeBalance(e.balance, payment, rateDecimal, month + 1, months);
    } else {
      BankersRoundOfCents(balance);
    }
  }

  /** For a cent-valued principal and at least one month the amortizations
      sum exactly to the principal: the balance telescopes down to 0.00. */
  lemma AmortizationsSumToPrincipal(principal: real, monthlyPayment: real, monthlyRate: real, months: int)
    requires IsCents(principal)
    requires months >= 1
    ensures SumAmortization(Schedule(principal, monthlyPayment, monthlyRate, months)) == principal
  {
    StepsAmortizeBalance(principal, monthlyPayment, monthlyRate / 100.0, 1, months);
  }

  /** A month's balance is no larger than the balance carried in: before the
      last month whenever the payment covers the month's interest, and in
      the last month whenever the balance carried in is not negative (the
      forced payoff ends at 0.00). The first month needs a cent-valued
      principal, since rounding the principal itself may raise it; later
      months carry in a rounded balance. */
  lemma BalanceNonIncreasing(principal: real, monthlyPayment: real, monthlyRate: real, months: int, i: int)
    requires 0 <= i < months
    requires i > 0 || IsCents(principal)
    ensures var s := Schedule(principal, monthlyPayment, monthlyRate, months);
            i < months - 1 && monthlyPayment >= s[i].interest ==> s[i].balance <= Prev(principal, s, i)
    ensures var s := Schedule(principal, monthlyPayment, monthlyRate, months);
            i == months - 1 && Prev(principal, s, i) >= 0.0 ==> s[i].balance <= Prev(principal, s, i)
  {
    var s := Schedule(principal, monthlyPayment, monthlyRate, months);
    var prev := Prev(principal, s, i);
    if i == months - 1 {
      FinalBalanceIsZero(principal, monthlyPayment, monthlyRate, months);
    } else {
      ScheduleRow(principal, monthlyPayment, monthlyRate, months, i);
      if i > 0 {
        ScheduleRow(principal, monthlyPayment, monthlyRate, months, i - 1);
      }
      assert IsCents(prev);
      if monthlyPayment >= s[i].interest {
        BankersMonotone(0.0, monthlyPayment - s[i].interest);
        assert BankersRound(0.0) == 0.0;
        BankersMonotone(prev - s[i].amortization, prev);
        BankersRoundOfCents(prev);
      }
    }
  }

  /** A one-month loan: a single row that repays the (rounded) principal and
      ends at 0.00. */
  lemma SingleMonth(principal: real, monthlyPayment: real, monthlyRate: real)
    ensures Schedule(principal, monthlyPayment, monthlyRate, 1)
         == [Entry(1, BankersRound(principal * (monthlyRate / 100.0)), BankersRound(principal), 0.0)]
  {
    var s := Schedule(principal, monthlyPayment, monthlyRate, 1);
    ScheduleRow(principal, monthlyPayment, monthlyRate, 1, 0);
    FinalBalanceIsZero(principal, monthlyPayment, monthlyRate, 1);
    assert s == [s[0]];
  }

  /** The reference amortization table: R$ 10.000,00 over 12 months at
      1.39% a month with an installment of R$ 910,53. */
  function ReferenceTable(): seq<Entry> {
    [
      Entry(1, 139.00, 771.53, 9228.47),
      Entry(2, 128.28, 782.25, 8446.22),
      Entry(3, 117.40, 793.13, 7653.09),
      Entry(4, 106.38, 804.15, 6848.94),
      Entry(5, 95.20, 815.33, 6033.61),
      Entry(6, 83.87, 826.66, 5206.95),
      Entry(7, 72.38, 838.15, 4368.80),
      Entry(8, 60.73, 849.80, 3519.00),
      Entry(9, 48.91, 861.62, 2657.38),
      Entry(10, 36.94, 873.59, 1783.79),
      Entry(11, 24.79, 885.74, 898.05),
      Entry(12, 12.48, 898.05, 0.00)
    ]
  }

  /** Row `k` of the reference table is one pass of the loop body applied
      to the balance carried in from row `k - 1`. */
  lemma ReferenceRow1()
    ensures RowRule(ReferenceTable(), 0, 10000.0, 910.53, 1.39 / 100.0, 12)
  {
  }

  lemma ReferenceRow2()
    ensures RowRule(ReferenceTable(), 1, 10000.0, 910.53, 1.39 / 100.0, 12)
  {
  }

  lemma ReferenceRow3()
    ensures RowRule(ReferenceTable(), 2, 10000.0, 910.53, 1.39 / 100.0, 12)
  {
  }

  lemma ReferenceRow4()
    ensures RowRule(ReferenceTable(), 3, 10000.0, 910.53, 1.39 / 100.0, 12)
  {
  }

  lemma ReferenceRow5()
    ensures RowRule(ReferenceTable(), 4, 10000.0, 910.53, 1.39 / 100.0, 12)
  {
  }

  lemma ReferenceRow6()
    ensures RowRule(ReferenceTable(), 5, 10000.0, 910.53, 1.39 / 100.0, 12)
  {
  }

  lemma ReferenceRow7()
    ensures RowRule(ReferenceTable(), 6, 10000.0, 910.53, 1.39 / 100.0, 12)
  {
  }

  lemma ReferenceRow8()
    ensures RowRule(ReferenceTable(), 7, 10000.0, 910.53, 1.39 / 100.0, 12)
  {
  }

  lemma ReferenceRow9()
    ensures RowRule(ReferenceTable(), 8, 10000.0, 910.53, 1.39 / 100.0, 12)
  {
  }

  lemma ReferenceRow10()
    ensures RowRule(ReferenceTable(), 9, 10000.0, 910.53, 1.39 / 100.0, 12)
  {
  }

  lemma ReferenceRow11()
    ensures RowRule(ReferenceTable(), 10, 10000.0, 910.53, 1.39 / 100.0, 12)
  {
  }

  lemma ReferenceRow12()
    ensures RowRule(ReferenceTable(), 11, 10000.0, 910.53, 1.39 / 100.0, 12)
  {
  }

  /** Every row of the reference table obeys the loop body. */
  lemma ReferenceRow(i: int)
    requires 0 <= i < 12
    ensures RowRule(ReferenceTable(), i, 10000.0, 910.53, 1.39 / 100.0, 12)
  {
    if i == 0 { ReferenceRow1(); }
    else if i == 1 { ReferenceRow2(); }
    else if i == 2 { ReferenceRow3(); }
    else if i == 3 { ReferenceRow4(); }
    else if i == 4 { ReferenceRow5(); }
    else if i == 5 { ReferenceRow6(); }
    else if i == 6 { ReferenceRow7(); }
    else if i == 7 { ReferenceRow8(); }
    else if i == 8 { ReferenceRow9(); }
    else if i == 9 { ReferenceRow10(); }
    else if i == 10 { ReferenceRow11(); }
    else { ReferenceRow12(); }
  }

  /** The scheduler reproduces the reference table row for row. */
  lemma ReferenceScheduleMatches()
    ensures Schedule(10000.0, 910.53, 1.39, 12) == ReferenceTable()
  {
    var rateDecimal := 1.39 / 100.0;
    forall i | 0 <= i < 12 ensures RowRule(ReferenceTable(), i, 10000.0, 910.53, rateDecimal, 12) {
      ReferenceRow(i);
    }
    RulesDetermineSchedule(ReferenceTable(), 10000.0, 910.53, 1.39, 12);
  }
}
