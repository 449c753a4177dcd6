# Solar power plant financial planner — a Dafny model of its calculation

The planner is a one-page dashboard. It takes five inputs:

- plant capacity in MW
- the tariff per unit of energy
- the share of the cost borrowed from a bank, in percent
- the bank's annual interest rate, in percent
- the loan tenure in years

From them it derives:

- the project cost, split into loan and equity
- the energy produced per year, month and day
- the revenue
- the monthly and yearly loan installment (EMI, from the annuity formula)
- the maintenance cost
- the net profit

This project models that calculation and the fixed assumptions it uses, and proves how the figures relate to one another.

Files:

- `outcome.dfy` (module `Outcome`): the `Result` of a calculation. The only error modelled is `ZeroDivisionError`. The program raises it when the annuity formula's denominator is zero, and also when `1 + r` is 0 and the tenure is negative, because Python then raises `0.0` to a negative power (an annual rate of −1200 percent).
- `algebra.dfy` (module `Algebra`): small ordered-field facts about products of variables, used by the proofs.
- `annuity.dfy` (module `Annuity`): the loan mathematics.
  - `Pow` computes `(1 + r)^n`, and `IntPow` models Python's `float ** int`, negative exponents included.
  - `MonthlyRate` converts the annual percentage.
  - `Balance` gives the outstanding loan after k monthly payments.
  - `AnnuityPayment` is the bare formula. Its precondition is that the denominator is non-zero.
  - `MonthlyInstallment` is the program's branch: no installment without a loan, the formula otherwise, and `ZeroDivisionError` where the denominator is zero.
- `planner.dfy` (module `SolarPlanner`): the calculation itself.
  - The fixed assumptions: plant cost 3.5e7 per MW, CUF 0.17 (specific yield CUF × 8760 hours), and maintenance 6e5 per MW per year. They form the `Assumptions` value `FIXED`.
  - The `Inputs`, and the widget bounds as the predicate `WithinWidgetBounds`: capacity at least 0.1, loan percent an integer from 0 to 90.
  - One function per step of the calculation, and `Evaluate` for the whole block.
  - Each step is specified by a relation (`CostSplit`, `EnergyYield`, `Sales`, `Repayment`, `Upkeep`, `Remainder`). Those relations do not depend on the order of computation.
  - `Repayment` describes the installment by what it achieves: constant payments that bring the balance to exactly zero at the end of the tenure. It does not repeat the formula.

The tariff, interest rate and tenure are not bounded by their widgets, so the model accepts any value for them. That includes a negative tenure, for which Python raises `1 + r` to a negative integer power. The formula then does not raise at a positive rate. It yields a negative installment e, tied to the loan P by e · (1 − (1+r)^|n|) = P · r, and the reported profit exceeds revenue less maintenance (`NegativeTenureInstallment`, `NegativeTenureRaisesProfit`).

The code has no special case for zero interest. With a loan and a zero rate, or a zero tenure, the formula's denominator `(1 + r)^n − 1` is zero and Python raises `ZeroDivisionError`. A common convention is a straight-line installment at zero interest; the code at app.py:75-81 has none, and the model follows the code. `ZeroRateStraightLinePaysOff` shows that such a fallback would have paid the loan off. `EvaluateCharacterised` shows that, on a loan, there are exactly two gaps between "the outputs satisfy every relation" and "the calculation succeeds". One is the missing fallback at zero interest. The other is an annual rate of −1200 percent over a negative tenure, where Python raises `0.0` to a negative power.

## Model

| member | source | states |
|---|---|---|
| Annuity.IntPow | app.py:77-78 | Python's `float ** int`: for a non-negative exponent, the n-fold product. It raises ZeroDivisionError exactly when the base is 0 and the exponent negative. Otherwise a negative exponent gives the reciprocal of the positive power. |
| Annuity.MonthlyRate | app.py:72 | The monthly rate times 12 × 100 is the annual percentage. It is zero exactly when the annual rate is zero. |
| Annuity.MonthlyInstallment | app.py:73-81 | Without a loan the installment is 0. It fails with ZeroDivisionError exactly when there is a loan and `(1+r)^n` raises or equals 1. Otherwise, for a tenure of n ≥ 0 months, the installment is the annuity and paying it n times leaves a zero balance. For a negative tenure n, the installment e satisfies e · (1 − (1+r)^−n) = P · r. |
| Annuity.NegativeTenureInstallment | app.py:75-81 | With a loan at a positive rate and a negative tenure, the formula does not raise and the installment is negative. |
| Annuity.InstallmentCharacterised | app.py:75-81 | On a loan, the program's installment is e if and only if the rate is non-zero, 1 + r is non-zero for a negative tenure, and e satisfies the payoff relation: for n ≥ 0 months it clears the loan, and for a negative tenure e · (1 − (1+r)^|n|) = loan · r. |
| Annuity.BalanceClosedForm | app.py:76-79 | After k payments e at rate r, the balance times r equals P·r·(1+r)^k − e·((1+r)^k − 1). |
| Annuity.AnnuityIsOnlyPayoff | app.py:76-79 | When the denominator is non-zero, a constant payment clears the loan in n months if and only if it equals the annuity formula. |
| Annuity.AnnuityPaysOff | app.py:76-79 | Paying the annuity every month brings the balance to exactly zero after the last month. |
| Annuity.AnnuityBounds | app.py:76-79 | With a positive loan and rate and at least one month: the growth factor exceeds 1, the installment exceeds the month's interest on the whole loan, the n installments together exceed the loan, and they total at most the loan plus n months' interest on it. |
| Annuity.PayoffNeedsGrowth | app.py:76-79 | At a non-zero rate on a non-zero loan, a zero final balance is only possible when `(1+r)^n ≠ 1`, that is, when the formula is defined. |
| Annuity.FlatGrowth | app.py:77-78 | At zero rate, or over zero months, `(1+r)^n` is exactly 1. |
| Annuity.GrowthNotFlat | app.py:77-78 | A growth factor other than 1 needs a non-zero rate and at least one month. |
| Annuity.FlatFormulaUndefined | app.py:72-79 | At zero interest over any tenure, negative ones included, or over a zero tenure, the formula's denominator is zero. |
| Annuity.PositiveRateFormulaDefined | app.py:72-79 | At a positive rate with at least one month the denominator is non-zero. |
| Annuity.MinusTwoRateFormulaUndefined | app.py:72-79 | At an annual rate of −2400 percent the growth factor is −1, and over whole years the denominator is again zero. |
| Annuity.ZeroRateStraightLinePaysOff | app.py:75-81 | At zero interest the denominator is zero, yet paying principal / n each month would clear the loan. The code has no such fallback. |
| SolarPlanner.CostsOf | app.py:61-63 | The total is capacity times plant cost per MW. The loan is that percentage of the total, and loan + equity = total. With a non-negative total and a percent in [0, 90]: 0 ≤ loan ≤ 0.9 × total and equity ≥ 0.1 × total. With a positive total, there is a loan exactly when the percent is positive. |
| SolarPlanner.EnergyOf | app.py:65-67 | Annual units = capacity × 1000 × CUF × 8760 = 12 × monthly units = 365 × daily units. |
| SolarPlanner.RevenueOf | app.py:69-70 | Annual revenue = annual units × tariff = 12 × monthly revenue. |
| SolarPlanner.LoanServiceOf | app.py:72-83 | Without a loan both installments are 0. It fails exactly when there is a loan and the formula is undefined at rate/1200 over 12 × years months. Otherwise, for a tenure ≥ 0, the monthly installment clears the loan over the tenure. For a negative tenure of −n months it satisfies e · (1 − (1+r)^n) = loan · r. In every case yearly = 12 × monthly. |
| SolarPlanner.MaintenanceOf | app.py:85-86 | Yearly maintenance = capacity × maintenance per MW = 12 × monthly maintenance. |
| SolarPlanner.ProfitOf | app.py:88-89 | Yearly profit + yearly installments + yearly maintenance = annual revenue, and yearly profit = 12 × monthly profit. The profit is negative exactly when revenue falls short of installments plus maintenance, so it is not clamped. |
| SolarPlanner.Evaluate | app.py:61-89 | The calculation fails exactly when there is a loan and the installment formula is undefined. When it succeeds, the outputs satisfy every relation above. |
| SolarPlanner.EvaluateCharacterised | app.py:61-89 | For every input within the widget bounds, the calculation yields exactly the outputs o if and only if o satisfies every relation and, when a loan is taken, the interest rate is non-zero and, for a negative tenure, not −1200 percent. |
| SolarPlanner.EvaluateNeedsInterest | app.py:72-81 | A successful calculation with a loan has a non-zero rate, and for a negative tenure a rate other than −1200 percent. |
| SolarPlanner.ConsistentIsEvaluated | app.py:61-89 | Outputs that satisfy every relation, on a loan with a rate the formula can price, are exactly what the calculation returns. |
| SolarPlanner.RepaymentIsLoanService | app.py:72-83 | A monthly and yearly installment meeting the repayment relation, on a loan with a rate the formula can price, is what the program computes. |
| SolarPlanner.LoanWithinWidgetShare | app.py:41-63 | Under the fixed assumptions and within the widget bounds, a successful calculation has a positive total cost, a loan between 0 and 0.9 × total, and equity of at least 0.1 × total. |
| SolarPlanner.NoLoanNoInstallment | app.py:75-88 | At 0 percent loan the calculation succeeds at any rate and tenure. The loan is 0, equity is the whole cost, both installments are 0, and yearly profit = revenue − maintenance. |
| SolarPlanner.FlatLoanRaises | app.py:72-79 | With a loan, a zero interest rate or a zero tenure makes the calculation raise ZeroDivisionError. |
| SolarPlanner.PositiveRateSucceeds | app.py:72-83 | At a positive rate and a tenure of at least a year the calculation succeeds. The installment on a loan exceeds the monthly interest on it, and over the tenure it repays more than the loan but at most the loan plus a month's interest per month. |
| SolarPlanner.NegativeTenureRaisesProfit | app.py:72-89 | With a loan at a positive rate and a negative tenure, the calculation succeeds, the monthly installment is negative, and the yearly profit exceeds revenue less maintenance. |
| SolarPlanner.DefaultScenario | app.py:8-86 | At the default inputs (2 MW, tariff 3.5, 70 percent at 9 percent over 15 years), the specific yield is 1489.2 and the monthly rate is 0.0075. Cost 7e7 splits into a 4.9e7 loan and 2.1e7 equity. Energy is 2,978,400 kWh a year, 248,200 a month and 8,160 a day. Revenue is 10,424,400. Maintenance is 1.2e6 a year and 1e5 a month. The installment is the one on 4.9e7 at 0.0075 over 180 months. |
| SolarPlanner.MinimumPlantWithoutLoan | app.py:61-83 | The smallest plant (0.1 MW) without a loan costs 3.5e6, all of it equity, and pays no installment, whatever the rate and tenure. |
| SolarPlanner.ProfitCanBeNegative | app.py:85-89 | A 1 MW plant at tariff 0 without a loan makes a yearly profit of −6e5 and a monthly profit of −5e4: the loss is the maintenance. |

## Left out

- The Streamlit page, sidebar widgets, metric cards and dividers: these are presentation. Only the widget bounds are kept, as the precondition `WithinWidgetBounds`.
- The pandas tables and bar charts, and the Excel export into an in-memory buffer with its download button: presentation and I/O through outside libraries.
- Formatting of figures into crore and lakh with rounding, and the rounded specific yield shown in the export: text formatting only.
- IEEE double arithmetic: the model computes over exact reals. It does not model rounding, or the `OverflowError` that Python raises when `(1 + r) ** n` exceeds the float range. Results therefore agree with the program only up to floating-point rounding. Rounding can also decide whether the program fails at all: for a non-zero monthly rate r with −2⁻⁵⁴ ≤ r ≤ 2⁻⁵³, Python computes `1 + r` as exactly 1.0 and raises `ZeroDivisionError`, while `Evaluate` returns a result.
- Annuity.AnnuityPayment: the bare formula takes a non-zero denominator as its precondition. The error the program raises instead is modelled one level up, by `MonthlyInstallment`, `LoanServiceOf` and `Evaluate`.
- SolarPlanner.DefaultScenario: the default installment (about 496,991 per month) is not computed to a number. It is identified as the annuity on 4.9e7 at 0.0075 over 180 months, and `PositiveRateSucceeds` bounds it.
- Re-running the calculation on the same inputs: the program reruns it top to bottom on every interaction, and the model's functions are deterministic, so no separate idempotence statement is made.
