/**
 * The loan arithmetic behind the equated monthly installment (EMI):
 * powers, the month-by-month loan balance, and the annuity formula.
 */
module Annuity {
  import opened Outcome
  import opened Algebra

  /**
   * acc multiplied n times by x. Written with an accumulator so that
   * unfolding it only multiplies plain numbers.
   */
  function ScaleBy(acc: real, x: real, n: nat): real
    decreases n
  {
    if n == 0 then acc else ScaleBy(acc * x, x, n - 1)
  }

  /** x raised to a natural power. */
  function Pow(x: real, n: nat): real
  {
    ScaleBy(1.0, x, n)
  }

  lemma {:induction false} ScaleByIsProduct(acc: real, x: real, n: nat)
    ensures ScaleBy(acc, x, n) == acc * Pow(x, n)
    decreases n
  {
    if n > 0 {
      ScaleByIsProduct(acc * x, x, n - 1);
      ScaleByIsProduct(x, x, n - 1);
      assert acc * x * Pow(x, n - 1) == acc * (x * Pow(x, n - 1));
    }
  }

  /** One more factor: x^(n+1) == x * x^n. */
  lemma PowSucc(x: real, n: nat)
    ensures Pow(x, n + 1) == x * Pow(x, n)
  {
    ScaleByIsProduct(x, x, n);
  }

  lemma {:induction false} PowNonZero(x: real, n: nat)
    requires x != 0.0
    ensures Pow(x, n) != 0.0
  {
    if n > 0 {
      PowNonZero(x, n - 1);
      PowSucc(x, n - 1);
      MulNonZero(x, Pow(x, n - 1));
    }
  }

  /**
   * Python's `float ** int`: a negative exponent takes the reciprocal,
   * and zero raised to a negative power raises ZeroDivisionError.
   */
  function IntPow(x: real, n: int): (p: Result<real>)
    ensures n >= 0 ==> p == Ok(Pow(x, n))
    ensures p.Err? <==> x == 0.0 && n < 0
    ensures p.Ok? && n < 0 ==> p.value * Pow(x, -n) == 1.0
  {
    if n >= 0 then Ok(Pow(x, n))
    else if x == 0.0 then Err(ZeroDivisionError)
    else
      PowNonZero(x, -n);
      Ok(1.0 / Pow(x, -n))
  }

  /** Monthly interest rate for an annual rate given in percent. */
  function MonthlyRate(annualPercent: real): (r: real)
    ensures r * 12.0 * 100.0 == annualPercent
    ensures r == 0.0 <==> annualPercent == 0.0
  {
    annualPercent / (12.0 * 100.0)
  }

  /**
   * Outstanding loan after k monthly payments: in the first month the loan
   * grows by the monthly rate and one payment is subtracted, and the
   * remaining k - 1 months start from that balance.
   */
  function Balance(principal: real, rate: real, payment: real, k: nat): real
    decreases k
  {
    if k == 0 then principal
    else Balance(principal * (1.0 + rate) - payment, rate, payment, k - 1)
  }

  /**
   * The annuity formula P * r * (1+r)^n / ((1+r)^n - 1); its denominator
   * must not be zero.
   */
  function AnnuityPayment(principal: real, rate: real, months: nat): real
    requires Pow(1.0 + rate, months) != 1.0
  {
    principal * rate * Pow(1.0 + rate, months) / (Pow(1.0 + rate, months) - 1.0)
  }

  lemma AnnuityClearsDenominator(principal: real, rate: real, months: nat)
    requires Pow(1.0 + rate, months) != 1.0
    ensures AnnuityPayment(principal, rate, months) * (Pow(1.0 + rate, months) - 1.0)
         == principal * rate * Pow(1.0 + rate, months)
  {}

  /** Closed form of the balance, scaled by the rate so that no division is needed. */
  lemma {:induction false} BalanceClosedForm(principal: real, rate: real, payment: real, k: nat)
    decreases k
    ensures Balance(principal, rate, payment, k) * rate
         == principal * rate * Pow(1.0 + rate, k) - payment * (Pow(1.0 + rate, k) - 1.0)
  {
    if k > 0 {
      var next := principal * (1.0 + rate) - payment;
      PowSucc(1.0 + rate, k - 1);
      BalanceClosedForm(next, rate, payment, k - 1);
      BalanceStep(Balance(next, rate, payment, k - 1), rate, payment, principal, Pow(1.0 + rate, k - 1));
    }
  }

  /** With no interest, or no months, the growth factor is exactly 1. */
  lemma {:induction false} FlatGrowth(rate: real, months: nat)
    requires rate == 0.0 || months == 0
    ensures Pow(1.0 + rate, months) == 1.0
  {
    if months > 0 {
      FlatGrowth(rate, months - 1);
      PowSucc(1.0 + rate, months - 1);
    }
  }

  /** A growth factor other than 1 needs a non-zero rate and at least one month. */
  lemma GrowthNotFlat(rate: real, months: nat)
    requires Pow(1.0 + rate, months) != 1.0
    ensures rate != 0.0 && months >= 1
  {
    if rate == 0.0 || months == 0 {
      FlatGrowth(rate, months);
      assert false;
    }
  }

  /** The annuity is the one and only constant payment that pays the loan off in `months`. */
  lemma AnnuityIsOnlyPayoff(principal: real, rate: real, payment: real, months: nat)
    requires Pow(1.0 + rate, months) != 1.0
    ensures Balance(principal, rate, payment, months) == 0.0
        <==> payment == AnnuityPayment(principal, rate, months)
  {
    GrowthNotFlat(rate, months);
    BalanceClosedForm(principal, rate, payment, months);
    AnnuityClearsDenominator(principal, rate, months);
    PayoffAlgebra(Balance(principal, rate, payment, months), rate, principal, Pow(1.0 + rate, months),
                  payment, AnnuityPayment(principal, rate, months));
  }

  /** Paying the annuity every month brings the balance to exactly zero after the last month. */
  lemma AnnuityPaysOff(principal: real, rate: real, months: nat)
    requires Pow(1.0 + rate, months) != 1.0
    ensures Balance(principal, rate, AnnuityPayment(principal, rate, months), months) == 0.0
  {
    AnnuityIsOnlyPayoff(principal, rate, AnnuityPayment(principal, rate, months), months);
  }

  /** Without interest the balance falls by one payment per month. */
  lemma {:induction false} BalanceWithoutInterest(principal: real, payment: real, k: nat)
    ensures Balance(principal, 0.0, payment, k) == principal - k as real * payment
    decreases k
  {
    if k > 0 {
      BalanceWithoutInterest(principal * (1.0 + 0.0) - payment, payment, k - 1);
    }
  }

  /**
   * At zero interest the annuity formula's denominator vanishes, yet the
   * straight-line payment principal / months would pay the loan off.
   */
  lemma ZeroRateStraightLinePaysOff(principal: real, months: nat)
    requires months >= 1
    ensures Pow(1.0 + 0.0, months) - 1.0 == 0.0
    ensures Balance(principal, 0.0, principal / months as real, months) == 0.0
  {
    var share := principal / months as real;
    FlatGrowth(0.0, months);
    BalanceWithoutInterest(principal, share, months);
    SharesAddUp(principal, months as real);
    assert Balance(principal, 0.0, share, months) == principal - months as real * share;
  }

  /** Bernoulli's inequality for a non-negative rate. */
  lemma {:induction false} Bernoulli(rate: real, n: nat)
    requires rate >= 0.0
    ensures Pow(1.0 + rate, n) >= 1.0 + n as real * rate
  {
    if n > 0 {
      Bernoulli(rate, n - 1);
      PowSucc(1.0 + rate, n - 1);
      BernoulliStep(rate, Pow(1.0 + rate, n - 1), (n - 1) as real);
    }
  }

  /** Growth over n months stays below n months' interest on the grown amount. */
  lemma {:induction false} GrowthBelowLinear(rate: real, n: nat)
    requires rate > 0.0
    ensures Pow(1.0 + rate, n) - 1.0 <= n as real * rate * Pow(1.0 + rate, n)
    ensures n >= 1 ==> Pow(1.0 + rate, n) - 1.0 < n as real * rate * Pow(1.0 + rate, n)
  {
    if n > 0 {
      GrowthBelowLinear(rate, n - 1);
      Bernoulli(rate, n - 1);
      PowSucc(1.0 + rate, n - 1);
      GrowthStep(rate, Pow(1.0 + rate, n - 1), (n - 1) as real);
    }
  }

  /**
   * With a positive loan and rate and at least one month, the installment is
   * defined and lies strictly above both the interest on the whole loan and
   * the straight-line share of the principal, and at most their sum.
   */
  lemma AnnuityBounds(principal: real, rate: real, months: nat)
    requires principal > 0.0 && rate > 0.0 && months >= 1
    ensures Pow(1.0 + rate, months) > 1.0
    ensures AnnuityPayment(principal, rate, months) > principal * rate
    ensures AnnuityPayment(principal, rate, months) * months as real > principal
    ensures AnnuityPayment(principal, rate, months) * months as real <= principal + principal * rate * months as real
  {
    Bernoulli(rate, months);
    GrowthBelowLinear(rate, months);
    MulPos(months as real, rate);
    var g := Pow(1.0 + rate, months);
    var e := AnnuityPayment(principal, rate, months);
    AnnuityClearsDenominator(principal, rate, months);
    InstallmentAlgebra(principal, rate, months as real, g, e);
  }

  /** A zero balance on a loan with interest is only reachable when the growth factor is not 1. */
  lemma PayoffNeedsGrowth(principal: real, rate: real, payment: real, months: nat)
    requires principal != 0.0 && rate != 0.0
    requires Balance(principal, rate, payment, months) == 0.0
    ensures Pow(1.0 + rate, months) != 1.0
  {
    MulNonZero(principal, rate);
    BalanceClosedForm(principal, rate, payment, months);
  }

  /**
   * The denominator (1 + r)^n - 1 of the formula cannot be used: either the
   * power itself raises (zero to a negative power) or it equals 1.
   */
  predicate FormulaUndefined(rate: real, months: int)
  {
    var growth := IntPow(1.0 + rate, months);
    growth.Err? || growth.value == 1.0
  }

  /**
   * The installment branch of the calculation block: no installment without
   * a loan, otherwise the annuity formula, which raises ZeroDivisionError when
   * its denominator is zero.
   */
  function MonthlyInstallment(loan: real, rate: real, months: int): (e: Result<real>)
    ensures loan <= 0.0 ==> e == Ok(0.0)
    ensures e.Err? <==> loan > 0.0 && FormulaUndefined(rate, months)
    ensures loan > 0.0 && months >= 0 && e.Ok? ==> Balance(loan, rate, e.value, months) == 0.0
    ensures loan > 0.0 && months >= 0 && e.Ok? ==> e.value == AnnuityPayment(loan, rate, months)
    ensures loan > 0.0 && months < 0 && e.Ok? ==> e.value * (1.0 - Pow(1.0 + rate, -months)) == loan * rate
  {
    if loan > 0.0 then
      match IntPow(1.0 + rate, months)
      case Err(err) => Err(err)
      case Ok(growth) =>
        if growth - 1.0 == 0.0 then Err(ZeroDivisionError)
        else
          FormulaPaysOff(loan, rate, months, growth);
          Ok(loan * rate * growth / (growth - 1.0))
    else Ok(0.0)
  }

  /**
   * For a tenure of whole months, the formula evaluated on the power is the
   * annuity; for a negative tenure it is evaluated on the reciprocal power.
   */
  lemma FormulaPaysOff(loan: real, rate: real, months: int, growth: real)
    requires IntPow(1.0 + rate, months) == Ok(growth) && growth != 1.0
    ensures months >= 0 ==> loan * rate * growth / (growth - 1.0) == AnnuityPayment(loan, rate, months)
    ensures months >= 0 ==> Balance(loan, rate, loan * rate * growth / (growth - 1.0), months) == 0.0
    ensures months < 0 ==>
              loan * rate * growth / (growth - 1.0) * (1.0 - Pow(1.0 + rate, -months)) == loan * rate
  {
    if months >= 0 {
      assert growth == Pow(1.0 + rate, months);
      AnnuityPaysOff(loan, rate, months);
    } else {
      ReciprocalGrowth(loan, rate, growth, Pow(1.0 + rate, -months));
    }
  }

  /**
   * A negative tenure with a loan at positive interest does not raise: the
   * formula then yields a negative installment.
   */
  lemma NegativeTenureInstallment(loan: real, rate: real, months: int)
    requires loan > 0.0 && rate > 0.0 && months < 0
    ensures MonthlyInstallment(loan, rate, months).Ok?
    ensures MonthlyInstallment(loan, rate, months).value < 0.0
  {
    var q := Pow(1.0 + rate, -months);
    Bernoulli(rate, -months);
    MulPos((-months) as real, rate);
    assert IntPow(1.0 + rate, months).value * q == 1.0;
    MulPos(loan, rate);
    var e := MonthlyInstallment(loan, rate, months);
    if e.value >= 0.0 {
      MulNonNeg(e.value, q - 1.0);
      assert false;
    }
  }

  /**
   * With no interest, over any tenure, or over a zero tenure the formula's
   * denominator vanishes: a negative power of 1 is 1 as well.
   */
  lemma FlatFormulaUndefined(rate: real, months: int)
    requires rate == 0.0 || months == 0
    ensures FormulaUndefined(rate, months)
  {
    if months >= 0 {
      FlatGrowth(rate, months);
    } else {
      assert IntPow(1.0 + rate, months).value * Pow(1.0 + rate, -months) == 1.0;
      FlatGrowth(rate, -months);
    }
  }

  /** A loan raises when the rate is zero, or when 1 + r is zero and the tenure negative. */
  lemma InstallmentNeedsInterest(loan: real, rate: real, months: int)
    requires loan > 0.0 && MonthlyInstallment(loan, rate, months).Ok?
    ensures rate != 0.0 && (months < 0 ==> rate != -1.0)
  {
    if rate == 0.0 {
      FlatFormulaUndefined(rate, months);
      assert false;
    }
  }

  /** For a tenure of n >= 0 months, a payment that clears the loan is the program's installment. */
  lemma PayoffIsInstallment(loan: real, rate: real, months: int, e: real)
    requires loan > 0.0 && rate != 0.0 && months >= 0
    requires Balance(loan, rate, e, months) == 0.0
    ensures MonthlyInstallment(loan, rate, months) == Ok(e)
  {
    PayoffNeedsGrowth(loan, rate, e, months);
    AnnuityIsOnlyPayoff(loan, rate, e, months);
  }

  /** For a negative tenure, a payment satisfying the reciprocal relation is the program's installment. */
  lemma ReciprocalPaymentIsInstallment(loan: real, rate: real, months: int, e: real)
    requires loan > 0.0 && rate != 0.0 && rate != -1.0 && months < 0
    requires e * (1.0 - Pow(1.0 + rate, -months)) == loan * rate
    ensures MonthlyInstallment(loan, rate, months) == Ok(e)
  {
    var q := Pow(1.0 + rate, -months);
    var d := 1.0 - q;
    MulNonZero(loan, rate);
    assert d != 0.0;
    assert IntPow(1.0 + rate, months).value * q == 1.0;
    var v := MonthlyInstallment(loan, rate, months).value;
    Cancel(v, e, d);
  }

  /**
   * On a loan, the program's installment is e exactly when the rate is not
   * zero, the growth factor 1 + r is not zero for a negative tenure, and e
   * satisfies the payoff relation: for a tenure of n >= 0 months it clears
   * the loan, for a negative tenure e * (1 - (1+r)^|n|) == loan * r.
   */
  lemma InstallmentCharacterised(loan: real, rate: real, months: int, e: real)
    requires loan > 0.0
    ensures MonthlyInstallment(loan, rate, months) == Ok(e)
        <==> && rate != 0.0
             && (months < 0 ==> rate != -1.0)
             && (months >= 0 ==> Balance(loan, rate, e, months) == 0.0)
             && (months < 0 ==> e * (1.0 - Pow(1.0 + rate, -months)) == loan * rate)
  {
    if MonthlyInstallment(loan, rate, months) == Ok(e) {
      InstallmentNeedsInterest(loan, rate, months);
    } else if rate != 0.0 && months >= 0 && Balance(loan, rate, e, months) == 0.0 {
      PayoffIsInstallment(loan, rate, months, e);
    } else if rate != 0.0 && rate != -1.0 && months < 0
              && e * (1.0 - Pow(1.0 + rate, -months)) == loan * rate {
      ReciprocalPaymentIsInstallment(loan, rate, months, e);
    }
  }

  /** With positive interest and at least one month the formula is defined. */
  lemma PositiveRateFormulaDefined(rate: real, months: int)
    requires rate > 0.0 && months >= 1
    ensures !FormulaUndefined(rate, months)
  {
    Bernoulli(rate, months);
    MulPos(months as real, rate);
  }

  /** (-1)^(2k) == 1. */
  lemma {:induction false} EvenPowerOfMinusOne(k: nat)
    ensures Pow(-1.0, 2 * k) == 1.0
  {
    if k > 0 {
      EvenPowerOfMinusOne(k - 1);
      PowSucc(-1.0, 2 * k - 2);
      PowSucc(-1.0, 2 * k - 1);
    }
  }

  /**
   * The denominator also vanishes at a monthly rate of -2 (an annual rate of
   * -2400 percent), since the growth factor is then -1 and a tenure in whole
   * years is an even number of months.
   */
  lemma MinusTwoRateFormulaUndefined(years: nat)
    ensures FormulaUndefined(-2.0, 12 * years)
  {
    EvenPowerOfMinusOne(6 * years);
  }
}
