/**
 * Shared arithmetic of the charging-station model: compound growth and plain
 * and running totals of cash flows, which the projection loop computes itself,
 * and closed forms of the two finance-library calls the model makes, the level
 * annuity payment that repays a loan and the net present value. Money and
 * rates are reals.
 */
module Finance {

  /** x raised to the natural power n. */
  function Pow(x: real, n: nat): real
  {
    if n == 0 then 1.0 else x * Pow(x, n - 1)
  }

  lemma {:induction false} PowOne(n: nat)
    ensures Pow(1.0, n) == 1.0
  {
    if n > 0 {
      PowOne(n - 1);
    }
  }

  lemma {:induction false} PowPositive(x: real, n: nat)
    requires x > 0.0
    ensures Pow(x, n) > 0.0
  {
    if n > 0 {
      PowPositive(x, n - 1);
    }
  }

  /** A factor of at least one never shrinks a power as the exponent grows. */
  lemma {:induction false} PowMonotone(x: real, a: nat, b: nat)
    requires x >= 1.0 && a <= b
    ensures 1.0 <= Pow(x, a) <= Pow(x, b)
  {
    if a < b {
      PowMonotone(x, a, b - 1);
      var p := Pow(x, b - 1);
      assert Pow(x, b) == x * p;
      assert (x - 1.0) * p >= 0.0;
    } else if a > 0 {
      PowMonotone(x, a - 1, a - 1);
      var p := Pow(x, a - 1);
      assert (x - 1.0) * p >= 0.0;
    }
  }

  lemma PowAboveOne(x: real, n: nat)
    requires x > 1.0 && n >= 1
    ensures Pow(x, n) > 1.0
  {
    PowMonotone(x, n - 1, n - 1);
    var p := Pow(x, n - 1);
    assert (x - 1.0) * p > 0.0;
  }

  /**
   * The level end-of-year payment that repays `principal` in `n` instalments
   * at `rate` per year: r·P·(1+r)^n / ((1+r)^n − 1), which is r·P / (1 − (1+r)^−n),
   * and P / n when the rate is zero.
   */
  function AnnuityPayment(principal: real, rate: real, n: nat): (payment: real)
    requires rate >= 0.0 && n >= 1
    ensures principal >= 0.0 ==> payment >= 0.0
    ensures Balance(principal, rate, payment, n) == 0.0
  {
    if rate == 0.0 then
      var payment := principal / n as real;
      BalanceInterestFree(principal, payment, n);
      assert n as real * payment == principal;
      payment
    else
      var g := Pow(1.0 + rate, n);
      PowAboveOne(1.0 + rate, n);
      var payment := principal * rate * g / (g - 1.0);
      AnnuityRepays(principal, rate, n, g, payment);
      QuotientNonNegative(principal, rate * g, g - 1.0);
      payment
  }

  lemma QuotientNonNegative(x: real, y: real, d: real)
    requires y >= 0.0 && d > 0.0
    ensures x >= 0.0 ==> x * y / d >= 0.0
  {
    if x >= 0.0 {
      assert x * y >= 0.0;
    }
  }

  /** What is still owed after k yearly payments: a year's interest accrues, then one payment is made. */
  function Balance(principal: real, rate: real, payment: real, k: nat): real
  {
    if k == 0 then principal else Balance(principal, rate, payment, k - 1) * (1.0 + rate) - payment
  }

  /** Closed form of the balance, scaled by the rate so that it also holds at rate zero. */
  lemma {:induction false} BalanceClosedForm(principal: real, rate: real, payment: real, k: nat)
    ensures Balance(principal, rate, payment, k) * rate
            == principal * rate * Pow(1.0 + rate, k) - payment * (Pow(1.0 + rate, k) - 1.0)
  {
    if k > 0 {
      BalanceClosedForm(principal, rate, payment, k - 1);
      var b := Balance(principal, rate, payment, k - 1);
      var g := Pow(1.0 + rate, k - 1);
      assert Pow(1.0 + rate, k) == (1.0 + rate) * g;
      BalanceStep(principal, rate, payment, b, g);
    }
  }

  /** One year of the balance recurrence, as algebra on plain reals. */
  lemma BalanceStep(principal: real, rate: real, payment: real, b: real, g: real)
    requires b * rate == principal * rate * g - payment * (g - 1.0)
    ensures (b * (1.0 + rate) - payment) * rate
            == principal * rate * ((1.0 + rate) * g) - payment * ((1.0 + rate) * g - 1.0)
  {
  }

  lemma {:induction false} BalanceInterestFree(principal: real, payment: real, k: nat)
    ensures Balance(principal, 0.0, payment, k) == principal - k as real * payment
  {
    if k > 0 {
      BalanceInterestFree(principal, payment, k - 1);
    }
  }

  lemma AnnuityRepays(principal: real, rate: real, n: nat, g: real, payment: real)
    requires rate > 0.0 && g == Pow(1.0 + rate, n) && g > 1.0
    requires payment == principal * rate * g / (g - 1.0)
    ensures Balance(principal, rate, payment, n) == 0.0
  {
    BalanceClosedForm(principal, rate, payment, n);
    assert payment * (g - 1.0) == principal * rate * g;
    var b := Balance(principal, rate, payment, n);
    assert b * rate == 0.0;
  }

  /** Sum of a sequence, accumulated from the front. */
  function Sum(s: seq<real>): real
  {
    if s == [] then 0.0 else Sum(s[..|s| - 1]) + s[|s| - 1]
  }

  /** The running totals of s: the first flow, then each total plus the next flow. */
  function RunningSums(s: seq<real>): (r: seq<real>)
    ensures |r| == |s|
    ensures |s| > 0 ==> r[0] == s[0]
  {
    if |s| <= 1 then s
    else
      var p := RunningSums(s[..|s| - 1]);
      p + [p[|p| - 1] + s[|s| - 1]]
  }

  /** Each running total after the first is the one before it plus the next flow. */
  lemma {:induction false} RunningSumsStep(s: seq<real>, i: nat)
    requires 1 <= i < |s|
    ensures RunningSums(s)[i] == RunningSums(s)[i - 1] + s[i]
  {
    if i < |s| - 1 {
      RunningSumsStep(s[..|s| - 1], i);
    }
  }

  /** Each running total is the sum of the flows up to and including its own. */
  lemma {:induction false} RunningSumsArePrefixSums(s: seq<real>, i: nat)
    requires i < |s|
    ensures RunningSums(s)[i] == Sum(s[..i + 1])
  {
    if i == 0 {
      assert s[..1][..0] == [];
    } else {
      RunningSumsArePrefixSums(s, i - 1);
      RunningSumsStep(s, i);
      assert s[..i + 1][..i] == s[..i];
    }
  }

  /** Appending a flow appends the previous running total plus that flow. */
  lemma {:induction false} RunningSumsAppend(s: seq<real>, x: real)
    requires s != []
    ensures RunningSums(s + [x]) == RunningSums(s) + [RunningSums(s)[|s| - 1] + x]
  {
    assert (s + [x])[..|s|] == s;
  }

  /**
   * Net present value: the sum of cf[t] / (1 + rate)^t, where the first flow
   * (t = 0) is not discounted.
   */
  function Npv(rate: real, cf: seq<real>): real
    requires rate > -1.0
  {
    if cf == [] then 0.0
    else
      PowPositive(1.0 + rate, |cf| - 1);
      Npv(rate, cf[..|cf| - 1]) + cf[|cf| - 1] / Pow(1.0 + rate, |cf| - 1)
  }

  /** Without discounting, the net present value is the plain sum of the flows. */
  lemma {:induction false} NpvAtZeroRate(cf: seq<real>)
    ensures Npv(0.0, cf) == Sum(cf)
  {
    if cf != [] {
      NpvAtZeroRate(cf[..|cf| - 1]);
      PowOne(|cf| - 1);
    }
  }

  lemma DivideMonotone(x: real, y: real, p: real)
    requires x <= y && p > 0.0
    ensures x / p <= y / p
  {
    assert y / p - x / p == (y - x) / p;
  }

  /** A cash-flow sequence that is at least as large in every year has at least the same net present value. */
  lemma {:induction false} NpvMonotone(rate: real, a: seq<real>, b: seq<real>)
    requires rate > -1.0 && |a| == |b|
    requires forall t :: 0 <= t < |a| ==> a[t] <= b[t]
    ensures Npv(rate, a) <= Npv(rate, b)
  {
    if a != [] {
      var n := |a| - 1;
      NpvMonotone(rate, a[..n], b[..n]);
      PowPositive(1.0 + rate, n);
      DivideMonotone(a[n], b[n], Pow(1.0 + rate, n));
    }
  }
}
