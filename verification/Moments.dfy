/** Running sums and sums of squares of a sequence of real samples: what the latency statistics and
    the confidence intervals accumulate, and the inequalities that make a variance out of them. */
module Moments {

  /** A product together with its sign. */
  ghost function Times(a: real, b: real): (r: real)
    ensures (a > 0.0 && b > 0.0) || (a < 0.0 && b < 0.0) ==> r > 0.0
    ensures (a > 0.0 && b < 0.0) || (a < 0.0 && b > 0.0) ==> r < 0.0
    ensures a == 0.0 || b == 0.0 ==> r == 0.0
  {
    a * b
  }

  ghost function Quotient(a: real, n: real): (q: real)
    requires n > 0.0
    ensures q * n == a
  {
    a / n
  }

  ghost function Sum(s: seq<real>): real {
    if s == [] then 0.0 else Sum(s[..|s| - 1]) + s[|s| - 1]
  }

  ghost function SumSquares(s: seq<real>): real {
    if s == [] then 0.0 else SumSquares(s[..|s| - 1]) + Times(s[|s| - 1], s[|s| - 1])
  }

  lemma SumsSnoc(s: seq<real>, x: real)
    ensures Sum(s + [x]) == Sum(s) + x
    ensures SumSquares(s + [x]) == SumSquares(s) + x * x
  {}

  ghost function Mean(s: seq<real>): real
    requires s != []
  {
    Quotient(Sum(s), |s| as real)
  }

  /** The mean of the squares less the square of the mean, as the source computes it. */
  ghost function Variance(s: seq<real>): real
    requires s != []
  {
    Quotient(SumSquares(s), |s| as real) - Mean(s) * Mean(s)
  }

  lemma MeanTimesLength(s: seq<real>)
    requires s != []
    ensures Mean(s) * |s| as real == Sum(s)
  {}

  ghost predicate AllEqual(s: seq<real>, x: real) {
    forall i :: 0 <= i < |s| ==> s[i] == x
  }

  ghost predicate AllBetween(s: seq<real>, lo: real, hi: real) {
    forall i :: 0 <= i < |s| ==> lo <= s[i] <= hi
  }

  // ---------------------------------------------------------------- variance as a deviation

  /** The sum of the squared distances to x. */
  ghost function Deviation(s: seq<real>, x: real): (d: real)
    ensures d >= 0.0
  {
    if s == [] then 0.0
    else Deviation(s[..|s| - 1], x) + Times(s[|s| - 1] - x, s[|s| - 1] - x)
  }

  ghost function DeviationForm(n: real, sum: real, squares: real, x: real): real {
    squares - 2.0 * x * sum + n * x * x
  }

  lemma {:induction false} DeviationExpand(s: seq<real>, x: real)
    ensures Deviation(s, x) == DeviationForm(|s| as real, Sum(s), SumSquares(s), x)
  {
    hide Times;
    if s != [] {
      hide DeviationForm;
      var m := |s| - 1;
      DeviationExpand(s[..m], x);
      DeviationStep(m as real, Sum(s[..m]), SumSquares(s[..m]), s[m], x);
    }
  }

  lemma DeviationStep(n: real, sum: real, squares: real, a: real, x: real)
    ensures DeviationForm(n, sum, squares, x) + Times(a - x, a - x)
         == DeviationForm(n + 1.0, sum + a, squares + Times(a, a), x)
  {}

  lemma {:induction false} DeviationZero(s: seq<real>, x: real)
    ensures Deviation(s, x) == 0.0 <==> AllEqual(s, x)
  {
    hide Times;
    if s != [] {
      var m := |s| - 1;
      DeviationZero(s[..m], x);
      assert AllEqual(s, x) <==> AllEqual(s[..m], x) && s[m] - x == 0.0;
    }
  }

  /** The variance is the mean squared deviation from the mean: never negative, and zero exactly
      when all samples agree. */
  lemma VarianceIsDeviation(s: seq<real>)
    requires s != []
    ensures Variance(s) * |s| as real == Deviation(s, Mean(s))
    ensures Variance(s) >= 0.0
    ensures Variance(s) == 0.0 <==> AllEqual(s, s[0])
  {
    hide Mean, Variance, Deviation, Sum, SumSquares;
    VarianceScaled(s);
    DeviationZero(s, Mean(s));
    Factor(Variance(s), |s| as real);
    if AllEqual(s, s[0]) {
      MeanOfEqual(s, s[0]);
    }
  }

  lemma VarianceScaled(s: seq<real>)
    requires s != []
    ensures Variance(s) * |s| as real == Deviation(s, Mean(s))
  {
    hide Deviation, Sum, SumSquares, Quotient;
    DeviationExpand(s, Mean(s));
    Scaled(|s| as real, Mean(s), Quotient(SumSquares(s), |s| as real), Sum(s), SumSquares(s));
  }

  lemma Scaled(n: real, m: real, q: real, sum: real, squares: real)
    requires m * n == sum && q * n == squares
    ensures (q - m * m) * n == DeviationForm(n, sum, squares, m)
  {}

  lemma Factor(v: real, n: real)
    requires n > 0.0
    ensures v * n >= 0.0 <==> v >= 0.0
    ensures v * n == 0.0 <==> v == 0.0
  {}

  lemma {:induction false} SumOfEqual(s: seq<real>, x: real)
    requires AllEqual(s, x)
    ensures Sum(s) == |s| as real * x
  {
    if s != [] {
      SumOfEqual(s[..|s| - 1], x);
    }
  }

  lemma MeanOfEqual(s: seq<real>, x: real)
    requires s != [] && AllEqual(s, x)
    ensures Mean(s) == x
  {
    SumOfEqual(s, x);
    hide Sum;
    Factor(Mean(s) - x, |s| as real);
  }

  // ---------------------------------------------------------------- variance between bounds

  /** The sum of the products of the distances to two bounds. */
  ghost function Spread(s: seq<real>, lo: real, hi: real): real {
    if s == [] then 0.0 else Spread(s[..|s| - 1], lo, hi) + Times(hi - s[|s| - 1], s[|s| - 1] - lo)
  }

  ghost function SpreadForm(n: real, sum: real, squares: real, lo: real, hi: real): real {
    (hi + lo) * sum - squares - n * hi * lo
  }

  lemma {:induction false} SpreadExpand(s: seq<real>, lo: real, hi: real)
    ensures Spread(s, lo, hi) == SpreadForm(|s| as real, Sum(s), SumSquares(s), lo, hi)
  {
    hide Times;
    if s != [] {
      hide SpreadForm;
      var m := |s| - 1;
      SpreadExpand(s[..m], lo, hi);
      SpreadStep(m as real, Sum(s[..m]), SumSquares(s[..m]), s[m], lo, hi);
    }
  }

  lemma SpreadStep(n: real, sum: real, squares: real, a: real, lo: real, hi: real)
    ensures SpreadForm(n, sum, squares, lo, hi) + Times(hi - a, a - lo)
         == SpreadForm(n + 1.0, sum + a, squares + Times(a, a), lo, hi)
  {}

  lemma {:induction false} SpreadNonNegative(s: seq<real>, lo: real, hi: real)
    requires AllBetween(s, lo, hi)
    ensures Spread(s, lo, hi) >= 0.0
  {
    hide Times;
    if s != [] {
      SpreadNonNegative(s[..|s| - 1], lo, hi);
    }
  }

  lemma {:induction false} SumBetween(s: seq<real>, lo: real, hi: real)
    requires AllBetween(s, lo, hi)
    ensures |s| as real * lo <= Sum(s) <= |s| as real * hi
  {
    if s != [] {
      var m := |s| - 1;
      SumBetween(s[..m], lo, hi);
      NextMultiple(m as real, lo);
      NextMultiple(m as real, hi);
    }
  }

  lemma NextMultiple(n: real, x: real)
    ensures (n + 1.0) * x == n * x + x
  {}

  /** Samples between two bounds have their mean between them, and the variance is limited by the
      product of the mean's distances to the bounds. */
  lemma VarianceBound(s: seq<real>, lo: real, hi: real)
    requires s != [] && AllBetween(s, lo, hi)
    ensures lo <= Mean(s) <= hi
    ensures Variance(s) <= (hi - Mean(s)) * (Mean(s) - lo)
  {
    hide Spread, SpreadForm, Sum, SumSquares, Quotient;
    assert lo <= Mean(s) <= hi by {
      SumBetween(s, lo, hi);
      MeanTimesLength(s);
      MeanBetween(|s| as real, Mean(s), Sum(s), lo, hi);
    }
    assert SpreadForm(|s| as real, Sum(s), SumSquares(s), lo, hi) >= 0.0 by {
      SpreadNonNegative(s, lo, hi);
      SpreadExpand(s, lo, hi);
    }
    SpreadScaled(|s| as real, Mean(s), Quotient(SumSquares(s), |s| as real), Sum(s), SumSquares(s), lo, hi);
  }

  lemma MeanBetween(n: real, m: real, sum: real, lo: real, hi: real)
    requires n > 0.0 && m * n == sum && n * lo <= sum <= n * hi
    ensures lo <= m <= hi
  {}

  lemma SpreadScaled(n: real, m: real, q: real, sum: real, squares: real, lo: real, hi: real)
    requires n > 0.0 && m * n == sum && q * n == squares
    requires SpreadForm(n, sum, squares, lo, hi) >= 0.0
    ensures q - m * m <= (hi - m) * (m - lo)
  {}
}
