# Mortgage instalments, verified in Dafny

This project models the calculation core of a small mortgage calculator. The core is `project.py`. It has two routines:

- `monthly_payment_equal(loan, r, p)` gives the equal monthly payment (an annuity). A `while` loop adds up the present-value-of-annuity factor `sigma = x^-1 + x^-2 + ... + x^-p`. Here `x = 1 + r/100/12` is the monthly growth factor for a nominal annual rate of `r` percent. The routine returns `loan / sigma`.
- `monthly_payment_decreasing(loan, r, m)` gives the decreasing-instalment schedule. A `for` loop counts an index `n` down from `m` to `1`. For each `n` it appends `loan/m * (1 + n*r/100/12)` to a list. So for a positive loan at a positive rate, period 1 gets the largest instalment and period `m` the smallest. `ScheduleStrictlyDecreasingIff` proves that the schedule falls exactly when `loan * r > 0`.

Everything is in one module, `Mortgage` (`mortgage.dfy`), and all arithmetic is over exact `real`s. Both routines are `method`s with the loops of `project.py`. Their loop invariants tie them to ghost specification functions:

- `SigmaSum(x, j)` is the factor after `j` terms, added in ascending order.
- `DecreasingSchedule(loan, r, m)` is the whole schedule.

Lemmas about those functions state what the formulas promise.

The routines do not check their inputs, and neither does the model. It has no preconditions that `project.py` does not have. Where `project.py` fails, the model returns a `Result`:

- `monthly_payment_equal` raises a division by zero in three cases. When `p < 1` the loop adds nothing and `loan / 0` fails. When `r = -1200` the base is zero and `0.0 ** -1` fails. When a negative base makes the terms cancel to zero (for example `r = -2400`, `p = 2`), `loan / sigma` fails. The model returns `Failure(ZeroDivisionError)` in exactly these cases. For any rate above -1200 and any `p >= 1` it proves success.
- `monthly_payment_decreasing` with `m < 1` never runs its loop body and returns an empty list. The model does the same.

`loan` and `r` are taken as reals. The command line only passes integers, and those are a special case.

## Model

| member | source | states |
|---|---|---|
| `Mortgage.MonthlyPaymentEqual` | project.py:10-17 | fails exactly when p < 1, the factor 1 + r/1200 is zero or sigma sums to zero; otherwise payment * sigma == loan, with sigma the p terms x^-1..x^-p summed in ascending order; always succeeds for p >= 1 and r > -1200 |
| `Mortgage.PowNegIsPowOfReciprocal` | project.py:14 | the term `x ** (-i)` equals (1/x)^i for every nonzero x |
| `Mortgage.SigmaPositive` | project.py:11-17 | for a positive factor and p >= 1, sigma > 0, so the final division is defined |
| `Mortgage.SigmaAtZeroRate` | project.py:13-15 | at rate 0 every term is 1 and sigma == p |
| `Mortgage.SigmaBelowTermCount` | project.py:13-15 | at a positive rate and for p >= 1, every term is below 1 and sigma < p |
| `Mortgage.SigmaDecreasesWithFactor` | project.py:13-15 | for positive growth factors (rates above -1200) and p >= 1, a larger factor gives a strictly smaller sigma |
| `Mortgage.SigmaClosedForm` | project.py:11-15 | the direct summation agrees with the geometric-series closed form sigma * (x - 1) == 1 - x^-p |
| `Mortgage.EqualPaymentAtZeroRate` | project.py:14-17 | at rate 0 the payment is loan / p |
| `Mortgage.EqualPaymentsExceedLoan` | project.py:14-17 | for a positive loan and a positive rate, payment * p > loan (interest is paid) |
| `Mortgage.EqualPaymentIncreasesWithRate` | project.py:14-17 | for a positive loan, a higher rate (above -1200) gives a strictly higher payment |
| `Mortgage.AnnuityFormula` | project.py:10-17 | the payment satisfies the annuity formula payment * (1 - x^-p) == loan * (x - 1) |
| `Mortgage.MonthlyPaymentDecreasing` | project.py:19-27 | the schedule has max(m, 0) entries, and position k holds loan/m * (1 + (m - k) * r/1200), the reversed loop index |
| `Mortgage.InstallmentSplit` | project.py:23 | each instalment is the principal slice loan/m plus n months of interest on one slice |
| `Mortgage.FirstAndLastInstallment` | project.py:21-25 | the first period pays loan/m + loan*r/1200, i.e. interest on the whole loan; the last pays loan/m * (1 + r/1200) |
| `Mortgage.FirstInstallmentOfTestLoan` | test_project.py:4-15 | for loan 50000, rate 7 and 60 months the first instalment is exactly 1125 |
| `Mortgage.ScheduleGap` | project.py:21-25 | positions i and j differ by (j - i) months of interest on one slice |
| `Mortgage.ScheduleStrictlyDecreasingIff` | project.py:21-25 | for m >= 2 the schedule is strictly decreasing if and only if loan * r > 0 |
| `Mortgage.ScheduleFlatIff` | project.py:21-25 | every entry equals loan/m if and only if loan * r == 0 |
| `Mortgage.ScheduleAtLeastSlice` | project.py:23 | when loan * r >= 0 no entry is below loan/m |
| `Mortgage.ScheduleIncreasesWithRate` | project.py:23 | for a positive loan a higher rate raises every entry strictly |
| `Mortgage.ScheduleTotal` | project.py:19-27 | the schedule sums to loan + loan * r * (m + 1) / 2400 |
| `Mortgage.ScheduleInterestNonNegative` | project.py:19-27 | the schedule sums to at least the loan if and only if loan * r >= 0 |

## Left out

- Argument parsing (`project.py:3-7`) and the `__main__` block (`project.py:30-33`). These are command-line I/O only.
- The `print` calls inside `monthly_payment_decreasing` (`project.py:22`, `project.py:24`). They write to the console and do not affect the returned list.
- IEEE floating-point behaviour. The model computes with exact reals. It does not reproduce rounding, the effect of summation order on `sigma`, overflow, or a base that is zero only after rounding.
- The `Mortgage` class that `test_project.py` imports is not part of this model. It is not defined in `project.py`. Input validation, rounding to cents, totals, remaining balances and the overpayment variant belong to that class and have no code here. The instalment test's expected value 1125 is proved, as `FirstInstallmentOfTestLoan`.
- The equal-instalment figure 990.06 for loan 50000, rate 7 and 60 months is not proved. It depends on rounding to cents, and the exact value involves rationals of about 190 digits.
