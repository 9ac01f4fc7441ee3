/**
 * The two instalment formulas of a mortgage calculator (the functions
 * monthly_payment_equal and monthly_payment_decreasing of project.py), over
 * exact reals.
 *
 * - MonthlyPaymentEqual: the equal-instalment (annuity) payment, the loan
 *   divided by the present-value-of-annuity factor
 *   sigma = x^-1 + x^-2 + ... + x^-p, where x = 1 + r/100/12 is the monthly
 *   growth factor for a nominal annual rate of r percent.
 * - MonthlyPaymentDecreasing: the decreasing-instalment schedule, in which
 *   period k+1 pays loan/m * (1 + (m - k) * r/100/12).
 *
 * Neither routine checks its inputs. Where project.py fails (a division
 * by zero) the model returns Failure(ZeroDivisionError); where it silently
 * returns an empty schedule the model does too.
 */
module Mortgage {

  /** The one exception the instalment routines can raise. */
  datatype Error = ZeroDivisionError

  datatype Result<T> = Success(value: T) | Failure(error: Error)

  // ---------------------------------------------------------------------
  // Powers
  // ---------------------------------------------------------------------

  /** x raised to the natural power n. */
  function Pow(x: real, n: nat): (y: real)
    ensures x != 0.0 ==> y != 0.0
    ensures x > 0.0 ==> y > 0.0
  {
    if n == 0 then 1.0 else x * Pow(x, n - 1)
  }

  /** x raised to the negative power -n (`x ** (-n)` in monthly_payment_equal), which is
      defined only for a nonzero base. */
  function PowNeg(x: real, n: nat): (y: real)
    requires x != 0.0
    ensures y * Pow(x, n) == 1.0
  {
    1.0 / Pow(x, n)
  }

  lemma PowNegPositive(x: real, n: nat)
    requires x > 0.0
    ensures PowNeg(x, n) > 0.0
  {
    assert PowNeg(x, n) * Pow(x, n) == 1.0;
  }

  /** One more negative power is the previous one divided by x. */
  lemma PowNegStep(x: real, n: nat)
    requires x != 0.0 && n >= 1
    ensures PowNeg(x, n) * x == PowNeg(x, n - 1)
  {
    var a, b := Pow(x, n - 1), PowNeg(x, n);
    assert b * (x * a) == 1.0;
    assert (b * x) * a == 1.0;
  }

  /** x^-n is the n-th power of the reciprocal 1/x. */
  lemma {:induction false} PowNegIsPowOfReciprocal(x: real, n: nat)
    requires x != 0.0
    ensures PowNeg(x, n) == Pow(1.0 / x, n)
  {
    if n > 0 {
      PowNegIsPowOfReciprocal(x, n - 1);
      PowNegStep(x, n);
      assert PowNeg(x, n) == PowNeg(x, n - 1) * (1.0 / x);
    }
  }

  lemma MulStrictlyMonotone(a: real, b: real, c: real)
    requires a < b && c > 0.0
    ensures a * c < b * c
  {
  }

  lemma ReciprocalDecreasing(a: real, b: real)
    requires 0.0 < a < b
    ensures 1.0 / b < 1.0 / a
  {
  }

  lemma {:induction false} PowOfOne(n: nat)
    ensures Pow(1.0, n) == 1.0
  {
    if n > 0 {
      PowOfOne(n - 1);
    }
  }

  lemma {:induction false} PowAboveOne(x: real, n: nat)
    requires x > 1.0 && n >= 1
    ensures Pow(x, n) > 1.0
  {
    if n > 1 {
      PowAboveOne(x, n - 1);
      var a := Pow(x, n - 1);
      assert x * a > 1.0 * a;
    }
  }

  lemma {:induction false} PowStrictlyIncreasing(x: real, y: real, n: nat)
    requires 0.0 < x < y && n >= 1
    ensures Pow(x, n) < Pow(y, n)
  {
    if n > 1 {
      PowStrictlyIncreasing(x, y, n - 1);
      var a, b := Pow(x, n - 1), Pow(y, n - 1);
      MulStrictlyMonotone(x, y, a);
      MulStrictlyMonotone(a, b, y);
      calc {
        Pow(x, n);
        == x * a;
        < y * a;
        == a * y;
        < b * y;
        == Pow(y, n);
      }
    }
  }

  // ---------------------------------------------------------------------
  // Equal instalments: monthly_payment_equal
  // ---------------------------------------------------------------------

  /** The monthly growth factor 1 + r/100/12 for a nominal annual rate of r percent. */
  function MonthlyFactor(r: real): (x: real)
  {
    1.0 + r / 100.0 / 12.0
  }

  /** The annuity factor x^-1 + ... + x^-j, accumulated in ascending order of
      the exponent as the loop of monthly_payment_equal adds its terms. */
  ghost function SigmaSum(x: real, j: nat): (sigma: real)
    requires x != 0.0
  {
    if j == 0 then 0.0 else SigmaSum(x, j - 1) + PowNeg(x, j)
  }

  /**
   * The equal monthly payment for `loan` repaid over `p` months at nominal
   * annual rate `r`: the loop accumulates the annuity factor and the payment
   * is the loan divided by it. It fails with a division by zero when no term
   * is added (p < 1), when the factor 1 + r/1200 is zero (zero raised to a
   * negative power) and when the terms cancel to zero; at any rate above
   * -1200 percent it succeeds for every p >= 1.
   */
  method MonthlyPaymentEqual(loan: real, r: real, p: int) returns (res: Result<real>)
    ensures res.Failure? <==>
      p < 1 || MonthlyFactor(r) == 0.0 || SigmaSum(MonthlyFactor(r), p) == 0.0
    ensures res.Success? ==> res.value * SigmaSum(MonthlyFactor(r), p) == loan
    ensures p >= 1 && r > -1200.0 ==> res.Success?
  {
    var x := MonthlyFactor(r);
    var sigma := 0.0;
    var i := 1;
    while i <= p
      invariant 1 <= i && (p >= 1 ==> i <= p + 1) && (p < 1 ==> i == 1)
      invariant x == 0.0 ==> i == 1 && sigma == 0.0
      invariant x != 0.0 ==> sigma == SigmaSum(x, i - 1)
    {
      if x == 0.0 {
        return Failure(ZeroDivisionError);
      }
      sigma := sigma + PowNeg(x, i);
      i := i + 1;
    }
    if p >= 1 && r > -1200.0 {
      SigmaPositive(x, p);
    }
    if sigma == 0.0 {
      return Failure(ZeroDivisionError);
    }
    return Success(loan / sigma);
  }

  /** For a positive growth factor and at least one term the annuity factor
      is positive, so the payment's division is defined. */
  lemma {:induction false} SigmaPositive(x: real, p: nat)
    requires x > 0.0 && p >= 1
    ensures SigmaSum(x, p) > 0.0
  {
    PowNegPositive(x, p);
    if p > 1 {
      SigmaPositive(x, p - 1);
    }
  }

  /** At a zero rate every term is 1, so the annuity factor is the term count. */
  lemma {:induction false} SigmaAtZeroRate(p: nat)
    ensures SigmaSum(MonthlyFactor(0.0), p) == p as real
  {
    if p > 0 {
      SigmaAtZeroRate(p - 1);
      PowOfOne(p);
    }
  }

  /** At a positive rate every term is below 1, so the factor is below the term count. */
  lemma {:induction false} SigmaBelowTermCount(x: real, p: nat)
    requires x > 1.0 && p >= 1
    ensures SigmaSum(x, p) < p as real
  {
    PowAboveOne(x, p);
    var a := Pow(x, p);
    assert PowNeg(x, p) * a == 1.0;
    if p > 1 {
      SigmaBelowTermCount(x, p - 1);
    }
  }

  /** A larger growth factor discounts every term more, so the factor shrinks. */
  lemma {:induction false} SigmaDecreasesWithFactor(x: real, y: real, p: nat)
    requires 0.0 < x < y && p >= 1
    ensures SigmaSum(y, p) < SigmaSum(x, p)
  {
    PowStrictlyIncreasing(x, y, p);
    var a, b := Pow(x, p), Pow(y, p);
    ReciprocalDecreasing(a, b);
    assert PowNeg(y, p) < PowNeg(x, p);
    if p > 1 {
      SigmaDecreasesWithFactor(x, y, p - 1);
    }
  }

  /** The direct summation agrees with the closed geometric-series form
      (x - 1) * sigma == 1 - x^-p. */
  lemma {:induction false} SigmaClosedForm(x: real, p: nat)
    requires x != 0.0
    ensures SigmaSum(x, p) * (x - 1.0) == 1.0 - PowNeg(x, p)
  {
    if p > 0 {
      SigmaClosedForm(x, p - 1);
      PowNegStep(x, p);
    }
  }

  /** At a zero rate the annuity payment is the loan split evenly over the months. */
  lemma EqualPaymentAtZeroRate(loan: real, p: nat, payment: real)
    requires p >= 1
    requires payment * SigmaSum(MonthlyFactor(0.0), p) == loan
    ensures payment == loan / p as real
  {
    SigmaAtZeroRate(p);
  }

  /** At a positive rate the p payments together exceed the loan: interest is paid. */
  lemma EqualPaymentsExceedLoan(loan: real, r: real, p: nat, payment: real)
    requires loan > 0.0 && r > 0.0 && p >= 1
    requires payment * SigmaSum(MonthlyFactor(r), p) == loan
    ensures payment * p as real > loan
  {
    var s := SigmaSum(MonthlyFactor(r), p);
    SigmaBelowTermCount(MonthlyFactor(r), p);
    SigmaPositive(MonthlyFactor(r), p);
    assert payment > 0.0;
    assert payment * s < payment * p as real;
  }

  /** A higher rate gives a strictly higher equal payment for the same loan and term. */
  lemma EqualPaymentIncreasesWithRate(loan: real, r1: real, r2: real, p: nat, payment1: real, payment2: real)
    requires loan > 0.0 && -1200.0 < r1 < r2 && p >= 1
    requires payment1 * SigmaSum(MonthlyFactor(r1), p) == loan
    requires payment2 * SigmaSum(MonthlyFactor(r2), p) == loan
    ensures payment1 < payment2
  {
    var s1, s2 := SigmaSum(MonthlyFactor(r1), p), SigmaSum(MonthlyFactor(r2), p);
    SigmaDecreasesWithFactor(MonthlyFactor(r1), MonthlyFactor(r2), p);
    SigmaPositive(MonthlyFactor(r2), p);
    assert 0.0 < s2 < s1;
    assert payment1 > 0.0;
    assert payment1 * s2 < payment1 * s1;
  }

  /** The payment satisfies the textbook annuity formula
      payment * (1 - x^-p) == loan * (x - 1), where x - 1 is the monthly rate. */
  lemma AnnuityFormula(loan: real, r: real, p: nat, payment: real)
    requires MonthlyFactor(r) != 0.0
    requires payment * SigmaSum(MonthlyFactor(r), p) == loan
    ensures payment * (1.0 - PowNeg(MonthlyFactor(r), p)) == loan * (MonthlyFactor(r) - 1.0)
  {
    var x := MonthlyFactor(r);
    SigmaClosedForm(x, p);
    assert payment * (SigmaSum(x, p) * (x - 1.0)) == (payment * SigmaSum(x, p)) * (x - 1.0);
  }

  // ---------------------------------------------------------------------
  // Decreasing instalments: monthly_payment_decreasing
  // ---------------------------------------------------------------------

  /** The instalment monthly_payment_decreasing computes for loop index n of an m-month loan:
      the principal slice loan/m plus interest on n slices. */
  function Installment(loan: real, r: real, m: int, n: int): (amount: real)
    requires m >= 1
  {
    loan / m as real * (1.0 + n as real * r / 100.0 / 12.0)
  }

  /** The interest on one principal slice for one month. */
  function SliceInterest(loan: real, r: real, m: int): (interest: real)
    requires m >= 1
  {
    loan / m as real * r / 1200.0
  }

  /** The schedule in chronological order: the loop index runs from m down to
      1, so period k + 1 (position k) holds the instalment for index m - k.
      No period at all when m < 1. */
  ghost function DecreasingSchedule(loan: real, r: real, m: int): seq<real>
  {
    if m < 1 then [] else seq(m, k requires 0 <= k < m => Installment(loan, r, m, m - k))
  }

  ghost predicate StrictlyDecreasing(s: seq<real>)
  {
    forall i, j :: 0 <= i < j < |s| ==> s[i] > s[j]
  }

  function Sum(s: seq<real>): (total: real)
  {
    if s == [] then 0.0 else s[0] + Sum(s[1..])
  }

  /**
   * The decreasing-instalment schedule for `loan` over `m` months at nominal
   * annual rate `r`, built by appending one instalment per loop index, the
   * index counting down from m to 1.
   */
  method MonthlyPaymentDecreasing(loan: real, r: real, m: int) returns (schedule: seq<real>)
    ensures |schedule| == if m < 1 then 0 else m
    ensures forall k :: 0 <= k < |schedule| ==> schedule[k] == Installment(loan, r, m, m - k)
    ensures schedule == DecreasingSchedule(loan, r, m)
  {
    schedule := [];
    var n := m;
    while n >= 1
      invariant m < 1 ==> n == m && schedule == []
      invariant m >= 1 ==> 0 <= n <= m && |schedule| == m - n
      invariant forall k :: 0 <= k < |schedule| ==> schedule[k] == Installment(loan, r, m, m - k)
    {
      var installment := Installment(loan, r, m, n);
      schedule := schedule + [installment];
      n := n - 1;
    }
  }

  /** Each instalment is the principal slice plus interest on n slices. */
  lemma InstallmentSplit(loan: real, r: real, m: int, n: int)
    requires m >= 1
    ensures Installment(loan, r, m, n) == loan / m as real + n as real * SliceInterest(loan, r, m)
  {
    var q := loan / m as real;
    assert q * (1.0 + n as real * r / 100.0 / 12.0) == q + n as real * (q * r / 1200.0);
  }

  /** The one-slice interest has the sign of loan * r, and m of them make the
      interest on the whole loan. */
  lemma SliceInterestSign(loan: real, r: real, m: int)
    requires m >= 1
    ensures SliceInterest(loan, r, m) * m as real == loan * r / 1200.0
    ensures SliceInterest(loan, r, m) > 0.0 <==> loan * r > 0.0
    ensures SliceInterest(loan, r, m) == 0.0 <==> loan * r == 0.0
  {
    var q := loan / m as real;
    assert q * m as real == loan;
    assert (q * r / 1200.0) * m as real == (q * m as real) * r / 1200.0;
  }

  /** The first period pays the slice plus a month's interest on the whole
      loan; the last pays the slice plus a month's interest on one slice. */
  lemma FirstAndLastInstallment(loan: real, r: real, m: int)
    requires m >= 1
    ensures DecreasingSchedule(loan, r, m)[0] == loan / m as real + loan * r / 1200.0
    ensures DecreasingSchedule(loan, r, m)[m - 1] == loan / m as real * (1.0 + r / 1200.0)
  {
    InstallmentSplit(loan, r, m, m);
    SliceInterestSign(loan, r, m);
    assert DecreasingSchedule(loan, r, m)[m - 1] == Installment(loan, r, m, 1);
    assert 1 as real * r / 100.0 / 12.0 == r / 1200.0;
  }

  /** With loan 50000, rate 7 and 60 months the first instalment is 1125. */
  lemma FirstInstallmentOfTestLoan()
    ensures DecreasingSchedule(50000.0, 7.0, 60)[0] == 1125.0
  {
    FirstAndLastInstallment(50000.0, 7.0, 60);
  }

  /** Any two positions i and j differ by (j - i) months of interest on one
      slice; consecutive periods differ by exactly one. */
  lemma ScheduleGap(loan: real, r: real, m: int, i: int, j: int)
    requires m >= 1 && 0 <= i < m && 0 <= j < m
    ensures DecreasingSchedule(loan, r, m)[i] - DecreasingSchedule(loan, r, m)[j]
            == (j - i) as real * SliceInterest(loan, r, m)
  {
    InstallmentSplit(loan, r, m, m - i);
    InstallmentSplit(loan, r, m, m - j);
    var d := SliceInterest(loan, r, m);
    assert (m - i) as real * d - (m - j) as real * d == (j - i) as real * d;
  }

  /** With two or more periods the schedule falls strictly from the first
      period to the last exactly when loan and rate have the same sign
      (in particular for a positive loan at a positive rate). */
  lemma ScheduleStrictlyDecreasingIff(loan: real, r: real, m: int)
    requires m >= 2
    ensures StrictlyDecreasing(DecreasingSchedule(loan, r, m)) <==> loan * r > 0.0
  {
    var s := DecreasingSchedule(loan, r, m);
    var d := SliceInterest(loan, r, m);
    SliceInterestSign(loan, r, m);
    if loan * r > 0.0 {
      forall i, j | 0 <= i < j < |s|
        ensures s[i] > s[j]
      {
        ScheduleGap(loan, r, m, i, j);
        assert (j - i) as real * d > 0.0;
      }
    } else {
      ScheduleGap(loan, r, m, 0, 1);
      assert s[0] - s[1] == d;
    }
  }

  /** Every period pays exactly the principal slice loan/m exactly when the
      loan or the rate is zero. */
  lemma ScheduleFlatIff(loan: real, r: real, m: int)
    requires m >= 1
    ensures (forall k :: 0 <= k < m ==> DecreasingSchedule(loan, r, m)[k] == loan / m as real)
            <==> loan * r == 0.0
  {
    var s := DecreasingSchedule(loan, r, m);
    var d := SliceInterest(loan, r, m);
    SliceInterestSign(loan, r, m);
    if loan * r == 0.0 {
      forall k | 0 <= k < m
        ensures s[k] == loan / m as real
      {
        InstallmentSplit(loan, r, m, m - k);
      }
    } else {
      InstallmentSplit(loan, r, m, 1);
      assert s[m - 1] - loan / m as real == d;
    }
  }

  /** When loan and rate do not have opposite signs no period pays less than
      the principal slice. */
  lemma ScheduleAtLeastSlice(loan: real, r: real, m: int)
    requires m >= 1 && loan * r >= 0.0
    ensures forall k :: 0 <= k < m ==> DecreasingSchedule(loan, r, m)[k] >= loan / m as real
  {
    var s := DecreasingSchedule(loan, r, m);
    var d := SliceInterest(loan, r, m);
    SliceInterestSign(loan, r, m);
    forall k | 0 <= k < m
      ensures s[k] >= loan / m as real
    {
      InstallmentSplit(loan, r, m, m - k);
      assert (m - k) as real * d >= 0.0;
    }
  }

  /** For a positive loan a higher rate raises every period's instalment. */
  lemma ScheduleIncreasesWithRate(loan: real, r1: real, r2: real, m: int)
    requires m >= 1 && loan > 0.0 && r1 < r2
    ensures forall k :: 0 <= k < m ==>
      DecreasingSchedule(loan, r1, m)[k] < DecreasingSchedule(loan, r2, m)[k]
  {
    var s1, s2 := DecreasingSchedule(loan, r1, m), DecreasingSchedule(loan, r2, m);
    var q := loan / m as real;
    assert q > 0.0;
    forall k | 0 <= k < m
      ensures s1[k] < s2[k]
    {
      var n := (m - k) as real;
      var f1, f2 := 1.0 + n * r1 / 100.0 / 12.0, 1.0 + n * r2 / 100.0 / 12.0;
      assert n * r1 < n * r2;
      assert f1 < f2;
      assert q * f1 < q * f2;
      assert s1[k] == q * f1 && s2[k] == q * f2;
    }
  }

  /** The sum of an arithmetic progression a + (top - k) * d, k = 0 .. n-1,
      doubled to stay clear of halving. */
  lemma {:induction false} ArithmeticSum(s: seq<real>, a: real, d: real, top: real)
    requires forall k :: 0 <= k < |s| ==> s[k] == a + (top - k as real) * d
    ensures 2.0 * Sum(s) == 2.0 * |s| as real * a + d * (2.0 * |s| as real * top - |s| as real * (|s| as real - 1.0))
  {
    if s != [] {
      var t := s[1..];
      forall k | 0 <= k < |t|
        ensures t[k] == a + ((top - 1.0) - k as real) * d
      {
        assert t[k] == s[k + 1];
      }
      ArithmeticSum(t, a, d, top - 1.0);
      var n := |s| as real;
      assert |t| as real == n - 1.0;
      assert 2.0 * top + 2.0 * (n - 1.0) * (top - 1.0) - (n - 1.0) * (n - 2.0)
             == 2.0 * n * top - n * (n - 1.0);
      assert d * (2.0 * top) + d * (2.0 * (n - 1.0) * (top - 1.0) - (n - 1.0) * (n - 2.0))
             == d * (2.0 * n * top - n * (n - 1.0));
    }
  }

  /** The schedule repays the loan plus interest loan * r * (m + 1) / 2400:
      the slices sum to the loan and the interest is on 1 + 2 + ... + m slices. */
  lemma ScheduleTotal(loan: real, r: real, m: int)
    requires m >= 1
    ensures Sum(DecreasingSchedule(loan, r, m)) == loan + loan * r * (m + 1) as real / 2400.0
  {
    var s := DecreasingSchedule(loan, r, m);
    var d := SliceInterest(loan, r, m);
    var q := loan / m as real;
    var M := m as real;
    forall k | 0 <= k < |s|
      ensures s[k] == q + (M - k as real) * d
    {
      InstallmentSplit(loan, r, m, m - k);
    }
    ArithmeticSum(s, q, d, M);
    SliceInterestSign(loan, r, m);
    assert q * M == loan;
    assert d * (2.0 * M * M - M * (M - 1.0)) == (d * M) * (M + 1.0);
  }

  /** The total repaid is at least the loan, i.e. the interest is non-negative,
      exactly when loan and rate do not have opposite signs. */
  lemma ScheduleInterestNonNegative(loan: real, r: real, m: int)
    requires m >= 1
    ensures Sum(DecreasingSchedule(loan, r, m)) >= loan <==> loan * r >= 0.0
  {
    ScheduleTotal(loan, r, m);
    var M1 := (m + 1) as real;
    assert loan * r * M1 / 2400.0 >= 0.0 <==> loan * r >= 0.0;
  }
}
