/**
 * The financial calculation of the solar plant planner: five inputs
 * (capacity, tariff, loan share, interest rate, tenure) and three fixed
 * assumptions become project cost, energy, revenue, loan installment,
 * maintenance and net profit.
 */
module SolarPlanner {
  import opened Outcome
  import opened Algebra
  import opened Annuity

  // The bank-friendly fixed assumptions.
  const PLANT_COST_PER_MW: real := 3.5e7     // rupees per MW of capacity
  const CUF: real := 0.17                    // capacity utilisation factor
  const MAINTENANCE_PER_MW: real := 6e5      // rupees per MW per year

  const HOURS_PER_YEAR: real := 8760.0
  const KW_PER_MW: real := 1000.0
  const MONTHS_PER_YEAR: real := 12.0
  const DAYS_PER_YEAR: real := 365.0

  datatype Assumptions = Assumptions(plantCostPerMw: real, cuf: real, maintenancePerMw: real)
  {
    /** Expected kWh per kWp per year. */
    function SpecificYield(): real
    {
      cuf * HOURS_PER_YEAR
    }
  }

  const FIXED: Assumptions := Assumptions(PLANT_COST_PER_MW, CUF, MAINTENANCE_PER_MW)

  /** The five sidebar inputs; the loan share and the tenure are whole numbers. */
  datatype Inputs = Inputs(capacityMw: real, tariff: real, loanPercent: int, interestRate: real, loanYears: int)
  {
    /** What the input widgets guarantee: at least 0.1 MW, and a loan share from 0 to 90 percent. */
    predicate WithinWidgetBounds()
    {
      capacityMw >= 0.1 && 0 <= loanPercent <= 90
    }
  }

  datatype Costs = Costs(total: real, loan: real, equity: real)
  datatype Energy = Energy(annual: real, monthly: real, daily: real)
  datatype Revenue = Revenue(annual: real, monthly: real)
  datatype LoanService = LoanService(monthly: real, yearly: real)
  datatype Maintenance = Maintenance(yearly: real, monthly: real)
  datatype Profit = Profit(yearly: real, monthly: real)

  datatype Outputs = Outputs(
    costs: Costs,
    energy: Energy,
    revenue: Revenue,
    emi: LoanService,
    maintenance: Maintenance,
    profit: Profit)

  /**
   * The project costs capacity times the plant cost per MW; the loan is the
   * given percentage of it and the equity is the rest.
   */
  ghost predicate CostSplit(a: Assumptions, capacityMw: real, loanPercent: int, c: Costs)
  {
    && c.total == capacityMw * a.plantCostPerMw
    && c.loan * 100.0 == c.total * loanPercent as real
    && c.loan + c.equity == c.total
  }

  /** Project cost, split into the bank loan and the owner's equity. */
  function CostsOf(a: Assumptions, capacityMw: real, loanPercent: int): (c: Costs)
    ensures CostSplit(a, capacityMw, loanPercent, c)
    ensures c.total >= 0.0 && 0 <= loanPercent <= 90 ==>
              0.0 <= c.loan <= 0.9 * c.total && c.equity >= 0.1 * c.total
    ensures c.total > 0.0 ==> (c.loan > 0.0 <==> loanPercent > 0)
  {
    var total := capacityMw * a.plantCostPerMw;
    var loan := total * loanPercent as real / 100.0;
    LoanShareBounds(total, loanPercent);
    Costs(total, loan, total - loan)
  }

  lemma LoanShareBounds(total: real, loanPercent: int)
    ensures total >= 0.0 && 0 <= loanPercent <= 90 ==>
              0.0 <= total * loanPercent as real <= 90.0 * total
    ensures total > 0.0 ==> (total * loanPercent as real > 0.0 <==> loanPercent > 0)
  {
    var p := loanPercent as real;
    if total >= 0.0 && 0 <= loanPercent <= 90 {
      MulNonNeg(total, p);
      MulMono(total, 90.0, p);
    }
    if total > 0.0 {
      if loanPercent > 0 {
        MulPos(total, p);
      } else {
        MulMono(total, 0.0, p);
      }
    }
  }

  /**
   * A year produces capacity (in kW) times CUF times 8760 hours of energy;
   * a month is a twelfth of it and a day a 365th.
   */
  ghost predicate EnergyYield(a: Assumptions, capacityMw: real, e: Energy)
  {
    && e.annual == capacityMw * KW_PER_MW * a.cuf * HOURS_PER_YEAR
    && e.annual == MONTHS_PER_YEAR * e.monthly
    && e.annual == DAYS_PER_YEAR * e.daily
  }

  /** Energy produced per year, month and day. */
  function EnergyOf(a: Assumptions, capacityMw: real): (e: Energy)
    ensures EnergyYield(a, capacityMw, e)
  {
    var annual := capacityMw * KW_PER_MW * a.SpecificYield();
    Energy(annual, annual / MONTHS_PER_YEAR, annual / DAYS_PER_YEAR)
  }

  /** A year's revenue is the year's energy at the tariff; a month's is a twelfth of it. */
  ghost predicate Sales(annualUnits: real, tariff: real, r: Revenue)
  {
    && r.annual == annualUnits * tariff
    && r.annual == MONTHS_PER_YEAR * r.monthly
  }

  /** Income from selling the energy at the tariff. */
  function RevenueOf(annualUnits: real, tariff: real): (r: Revenue)
    ensures Sales(annualUnits, tariff, r)
  {
    var annual := annualUnits * tariff;
    Revenue(annual, annual / MONTHS_PER_YEAR)
  }

  /**
   * No installment without a loan; otherwise the constant monthly payment
   * that pays the loan off over the tenure. A negative tenure is not rejected:
   * the formula is then evaluated on the reciprocal power, which ties the
   * installment e to the loan P by e * (1 - (1+r)^|n|) == P * r. A year is
   * twelve installments.
   */
  ghost predicate Repayment(loan: real, interestRate: real, loanYears: int, s: LoanService)
  {
    && (loan <= 0.0 ==> s.monthly == 0.0)
    && (loan > 0.0 && loanYears >= 0 ==>
          Balance(loan, MonthlyRate(interestRate), s.monthly, 12 * loanYears) == 0.0)
    && (loan > 0.0 && loanYears < 0 ==>
          s.monthly * (1.0 - Pow(1.0 + MonthlyRate(interestRate), -12 * loanYears))
          == loan * MonthlyRate(interestRate))
    && s.yearly == MONTHS_PER_YEAR * s.monthly
  }

  /**
   * The loan installment, monthly and yearly. The monthly rate is the annual
   * percentage over 1200 and the tenure counts 12 months per year.
   */
  function LoanServiceOf(loan: real, interestRate: real, loanYears: int): (s: Result<LoanService>)
    ensures loan <= 0.0 ==> s == Ok(LoanService(0.0, 0.0))
    ensures s.Err? <==> loan > 0.0 && FormulaUndefined(MonthlyRate(interestRate), 12 * loanYears)
    ensures s.Ok? ==> Repayment(loan, interestRate, loanYears, s.value)
  {
    var monthlyRate := MonthlyRate(interestRate);
    var totalMonths := 12 * loanYears;
    match MonthlyInstallment(loan, monthlyRate, totalMonths)
    case Err(err) => Err(err)
    case Ok(monthly) => Ok(LoanService(monthly, MONTHS_PER_YEAR * monthly))
  }

  /** Maintenance costs capacity times the yearly cost per MW; a month is a twelfth of it. */
  ghost predicate Upkeep(a: Assumptions, capacityMw: real, m: Maintenance)
  {
    && m.yearly == capacityMw * a.maintenancePerMw
    && m.yearly == MONTHS_PER_YEAR * m.monthly
  }

  /** Yearly and monthly maintenance. */
  function MaintenanceOf(a: Assumptions, capacityMw: real): (m: Maintenance)
    ensures Upkeep(a, capacityMw, m)
  {
    var yearly := capacityMw * a.maintenancePerMw;
    Maintenance(yearly, yearly / MONTHS_PER_YEAR)
  }

  /** Profit, installments and maintenance add up to the revenue; a month's profit is a twelfth of a year's. */
  ghost predicate Remainder(annualRevenue: real, emiYearly: real, maintenanceYearly: real, p: Profit)
  {
    && p.yearly + emiYearly + maintenanceYearly == annualRevenue
    && p.yearly == MONTHS_PER_YEAR * p.monthly
  }

  /** What is left of the revenue after the installments and maintenance; it is not clamped at zero. */
  function ProfitOf(annualRevenue: real, emiYearly: real, maintenanceYearly: real): (p: Profit)
    ensures Remainder(annualRevenue, emiYearly, maintenanceYearly, p)
    ensures p.yearly < 0.0 <==> annualRevenue < emiYearly + maintenanceYearly
  {
    var yearly := annualRevenue - emiYearly - maintenanceYearly;
    Profit(yearly, yearly / MONTHS_PER_YEAR)
  }

  /**
   * The relations every set of outputs must satisfy, stated independently of
   * the order of computation. The installment is characterised by paying the
   * loan off over the tenure rather than by the annuity formula.
   */
  ghost predicate Consistent(a: Assumptions, inp: Inputs, o: Outputs)
  {
    && CostSplit(a, inp.capacityMw, inp.loanPercent, o.costs)
    && EnergyYield(a, inp.capacityMw, o.energy)
    && Sales(o.energy.annual, inp.tariff, o.revenue)
    && Repayment(o.costs.loan, inp.interestRate, inp.loanYears, o.emi)
    && Upkeep(a, inp.capacityMw, o.maintenance)
    && Remainder(o.revenue.annual, o.emi.yearly, o.maintenance.yearly, o.profit)
  }

  /**
   * One evaluation of the calculation block. It fails exactly when Python
   * would raise ZeroDivisionError: a loan is taken and the annuity formula's
   * denominator cannot be used.
   */
  function Evaluate(a: Assumptions, inp: Inputs): (r: Result<Outputs>)
    requires inp.WithinWidgetBounds()
    ensures r.Err? <==> CostsOf(a, inp.capacityMw, inp.loanPercent).loan > 0.0
                        && FormulaUndefined(MonthlyRate(inp.interestRate), 12 * inp.loanYears)
    ensures r.Ok? ==> Consistent(a, inp, r.value)
  {
    var costs := CostsOf(a, inp.capacityMw, inp.loanPercent);
    var energy := EnergyOf(a, inp.capacityMw);
    var revenue := RevenueOf(energy.annual, inp.tariff);
    match LoanServiceOf(costs.loan, inp.interestRate, inp.loanYears)
    case Err(err) => Err(err)
    case Ok(emi) =>
      var maintenance := MaintenanceOf(a, inp.capacityMw);
      var profit := ProfitOf(revenue.annual, emi.yearly, maintenance.yearly);
      Ok(Outputs(costs, energy, revenue, emi, maintenance, profit))
  }

  /** A loan at zero interest, or at -1200 percent over a negative tenure, makes the calculation raise. */
  lemma EvaluateNeedsInterest(a: Assumptions, inp: Inputs)
    requires inp.WithinWidgetBounds() && Evaluate(a, inp).Ok?
    ensures Evaluate(a, inp).value.costs.loan > 0.0 ==>
              inp.interestRate != 0.0 && (inp.loanYears < 0 ==> inp.interestRate != -1200.0)
  {
    var loan := CostsOf(a, inp.capacityMw, inp.loanPercent).loan;
    if loan > 0.0 {
      InstallmentNeedsInterest(loan, MonthlyRate(inp.interestRate), 12 * inp.loanYears);
    }
  }

  /** An installment meeting the repayment relation, on a loan the formula can price, is the program's. */
  lemma RepaymentIsLoanService(loan: real, interestRate: real, loanYears: int, s: LoanService)
    requires Repayment(loan, interestRate, loanYears, s)
    requires loan > 0.0 ==> interestRate != 0.0 && (loanYears < 0 ==> interestRate != -1200.0)
    ensures LoanServiceOf(loan, interestRate, loanYears) == Ok(s)
  {
    var rate := MonthlyRate(interestRate);
    var months := 12 * loanYears;
    if loan > 0.0 {
      assert rate == -1.0 ==> interestRate == -1200.0;
      assert -months == -12 * loanYears;
      InstallmentCharacterised(loan, rate, months, s.monthly);
    }
  }

  /** Outputs satisfying every relation, on a loan the formula can price, are the calculation's outputs. */
  lemma ConsistentIsEvaluated(a: Assumptions, inp: Inputs, o: Outputs)
    requires inp.WithinWidgetBounds() && Consistent(a, inp, o)
    requires o.costs.loan > 0.0 ==>
               inp.interestRate != 0.0 && (inp.loanYears < 0 ==> inp.interestRate != -1200.0)
    ensures Evaluate(a, inp) == Ok(o)
  {
    assert CostsOf(a, inp.capacityMw, inp.loanPercent) == o.costs;
    RepaymentIsLoanService(o.costs.loan, inp.interestRate, inp.loanYears, o.emi);
    assert EnergyOf(a, inp.capacityMw) == o.energy;
    assert RevenueOf(o.energy.annual, inp.tariff) == o.revenue;
    assert MaintenanceOf(a, inp.capacityMw) == o.maintenance;
    assert ProfitOf(o.revenue.annual, o.emi.yearly, o.maintenance.yearly) == o.profit;
  }

  /**
   * The calculation succeeds with outputs o exactly when o satisfies every
   * relation and, if a loan is taken, the interest rate is not zero and, for
   * a negative tenure, not -1200 percent (where Python raises 0.0 to a
   * negative power). At zero interest a straight-line installment would
   * satisfy the relations, but the formula divides by zero.
   */
  lemma EvaluateCharacterised(a: Assumptions, inp: Inputs, o: Outputs)
    requires inp.WithinWidgetBounds()
    ensures Evaluate(a, inp) == Ok(o)
        <==> && Consistent(a, inp, o)
             && (o.costs.loan > 0.0 ==>
                   inp.interestRate != 0.0 && (inp.loanYears < 0 ==> inp.interestRate != -1200.0))
  {
    if Evaluate(a, inp) == Ok(o) {
      EvaluateNeedsInterest(a, inp);
    } else if Consistent(a, inp, o)
              && (o.costs.loan > 0.0 ==>
                    inp.interestRate != 0.0 && (inp.loanYears < 0 ==> inp.interestRate != -1200.0)) {
      ConsistentIsEvaluated(a, inp, o);
    }
  }

  /** Without a loan there is no installment and the profit is revenue less maintenance. */
  lemma NoLoanNoInstallment(a: Assumptions, inp: Inputs)
    requires inp.WithinWidgetBounds() && inp.loanPercent == 0
    ensures Evaluate(a, inp).Ok?
    ensures Evaluate(a, inp).value.costs.loan == 0.0
    ensures Evaluate(a, inp).value.costs.equity == Evaluate(a, inp).value.costs.total
    ensures Evaluate(a, inp).value.emi == LoanService(0.0, 0.0)
    ensures Evaluate(a, inp).value.profit.yearly
         == Evaluate(a, inp).value.revenue.annual - Evaluate(a, inp).value.maintenance.yearly
  {}

  /**
   * A loan at zero interest, or over a zero tenure, makes the calculation
   * divide by zero.
   */
  lemma FlatLoanRaises(a: Assumptions, inp: Inputs)
    requires inp.WithinWidgetBounds() && a.plantCostPerMw > 0.0 && inp.loanPercent > 0
    requires inp.interestRate == 0.0 || inp.loanYears == 0
    ensures Evaluate(a, inp) == Err(ZeroDivisionError)
  {
    MulPos(inp.capacityMw, a.plantCostPerMw);
    FlatFormulaUndefined(MonthlyRate(inp.interestRate), 12 * inp.loanYears);
  }

  /**
   * With positive interest and a tenure of at least one year the calculation
   * succeeds; the installment on a loan exceeds the monthly interest on the
   * whole loan, and over the tenure it repays more than the loan but at most
   * the loan plus a full month's interest on it for every month.
   */
  lemma PositiveRateSucceeds(a: Assumptions, inp: Inputs)
    requires inp.WithinWidgetBounds() && inp.interestRate > 0.0 && inp.loanYears >= 1
    ensures Evaluate(a, inp).Ok?
    ensures var o := Evaluate(a, inp).value;
            var rate := MonthlyRate(inp.interestRate);
            var months := (12 * inp.loanYears) as real;
            o.costs.loan > 0.0 ==>
              && o.emi.monthly > o.costs.loan * rate
              && o.emi.monthly * months > o.costs.loan
              && o.emi.monthly * months <= o.costs.loan + o.costs.loan * rate * months
  {
    var rate := MonthlyRate(inp.interestRate);
    PositiveRateFormulaDefined(rate, 12 * inp.loanYears);
    var loan := CostsOf(a, inp.capacityMw, inp.loanPercent).loan;
    if loan > 0.0 {
      AnnuityBounds(loan, rate, 12 * inp.loanYears);
    }
  }

  /**
   * A negative tenure at positive interest is accepted: the installment on a
   * loan comes out negative, so the reported profit exceeds revenue less
   * maintenance.
   */
  lemma NegativeTenureRaisesProfit(a: Assumptions, inp: Inputs)
    requires inp.WithinWidgetBounds() && a.plantCostPerMw > 0.0 && inp.loanPercent > 0
    requires inp.interestRate > 0.0 && inp.loanYears < 0
    ensures Evaluate(a, inp).Ok?
    ensures Evaluate(a, inp).value.emi.monthly < 0.0
    ensures Evaluate(a, inp).value.profit.yearly
          > Evaluate(a, inp).value.revenue.annual - Evaluate(a, inp).value.maintenance.yearly
  {
    MulPos(inp.capacityMw, a.plantCostPerMw);
    var loan := CostsOf(a, inp.capacityMw, inp.loanPercent).loan;
    NegativeTenureInstallment(loan, MonthlyRate(inp.interestRate), 12 * inp.loanYears);
  }

  /**
   * Under the fixed assumptions and within the widget bounds, a successful
   * calculation borrows at most 90 percent of the cost and funds at least
   * 10 percent from equity.
   */
  lemma LoanWithinWidgetShare(inp: Inputs)
    requires inp.WithinWidgetBounds() && Evaluate(FIXED, inp).Ok?
    ensures var c := Evaluate(FIXED, inp).value.costs;
            && c.total > 0.0
            && 0.0 <= c.loan <= 0.9 * c.total
            && c.equity >= 0.1 * c.total
  {
    var c := CostsOf(FIXED, inp.capacityMw, inp.loanPercent);
    assert c.total == inp.capacityMw * PLANT_COST_PER_MW;
  }

  /**
   * The default inputs: 2 MW, tariff 3.5, 70 percent loan at 9 percent over
   * 15 years, under the fixed assumptions. (The rate and tenure are
   * parameters so that the solver does not expand the 180-fold power.)
   */
  lemma DefaultScenario(interestRate: real, loanYears: int)
    requires interestRate == 9.0 && loanYears == 15
    ensures FIXED.SpecificYield() == 1489.2
    ensures MonthlyRate(interestRate) == 0.0075
    ensures var r := Evaluate(FIXED, Inputs(2.0, 3.5, 70, interestRate, loanYears));
            && r.Ok?
            && r.value.costs == Costs(7e7, 4.9e7, 2.1e7)
            && r.value.energy == Energy(2978400.0, 248200.0, 8160.0)
            && r.value.revenue.annual == 10424400.0
            && r.value.maintenance == Maintenance(1.2e6, 1e5)
            && r.value.emi.monthly == MonthlyInstallment(4.9e7, 0.0075, 12 * loanYears).value
  {
    PositiveRateSucceeds(FIXED, Inputs(2.0, 3.5, 70, interestRate, loanYears));
  }

  /** The smallest plant without a loan, at any rate and tenure: equity is the whole cost and nothing is repaid. */
  lemma MinimumPlantWithoutLoan(interestRate: real, loanYears: int)
    ensures var r := Evaluate(FIXED, Inputs(0.1, 3.5, 0, interestRate, loanYears));
            && r.Ok?
            && r.value.costs == Costs(3.5e6, 0.0, 3.5e6)
            && r.value.emi == LoanService(0.0, 0.0)
  {
    NoLoanNoInstallment(FIXED, Inputs(0.1, 3.5, 0, interestRate, loanYears));
  }

  /** Profit is not clamped: with a zero tariff and no loan it is minus the maintenance. */
  lemma ProfitCanBeNegative(interestRate: real, loanYears: int)
    ensures var r := Evaluate(FIXED, Inputs(1.0, 0.0, 0, interestRate, loanYears));
            r.Ok? && r.value.profit == Profit(-6e5, -5e4)
  {
    var inp := Inputs(1.0, 0.0, 0, interestRate, loanYears);
    NoLoanNoInstallment(FIXED, inp);
    var o := Evaluate(FIXED, inp).value;
    assert o.revenue.annual == 0.0;
    assert o.maintenance.yearly == 6e5;
  }
}
