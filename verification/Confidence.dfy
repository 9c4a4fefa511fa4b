/** Repeating a test until its results are confident: the options that bound the repetition, the running
    statistics of the results, and the loop that stops on them.  Reals stand for doubles. */
module Confidence {
  import opened Doubles
  import opened Moments

  datatype Option<T> = None | Some(value: T)

  // ---------------------------------------------------------------- options -i and -I

  datatype Settings = Settings(iterationMin: int, iterationMax: int, confidenceLevel: int, interval: real)

  const DEFAULTS := Settings(1, 1, 0, 0.0)

  /** An empty argument is None; `-i` takes the maximum first. */
  datatype Flag = Iterations(max: Option<int>, min: Option<int>) | Level(level: Option<int>, width: Option<real>)

  function Clamp(x: int): int {
    if x < 3 then 3 else if x > 30 then 30 else x
  }

  /** The settings after an option, or None where the program exits. */
  function Parsed(s: Settings, f: Flag): Option<Settings> {
    match f
    case Iterations(max, min) =>
      var lo := if min.Some? then min.value else s.iterationMin;
      var hi := if max.Some? then max.value else s.iterationMax;
      Some(Settings(Clamp(lo), Clamp(if hi < lo then lo else hi),
                    if s.confidenceLevel == 0 then 99 else s.confidenceLevel,
                    if s.interval == 0.0 then 0.05 else s.interval))
    case Level(level, width) =>
      var l := if level.Some? then level.value else s.confidenceLevel;
      var w := if width.Some? then width.value / 100.0 else s.interval;
      if l != 95 && l != 99 then None
      else Some(Settings(if s.iterationMin == 1 then 3 else s.iterationMin,
                         if s.iterationMax == 1 then 10 else s.iterationMax,
                         l, if w == 0.0 then 0.05 else w))
  }

  function ParsedAll(s: Settings, flags: seq<Flag>): Option<Settings>
    decreases |flags|
  {
    if flags == [] then Some(s)
    else
      match Parsed(s, flags[0])
      case None => None
      case Some(s') => ParsedAll(s', flags[1..])
  }

  /** Either a test runs once, or the bounds lie between 3 and 30 and a known level is set. */
  predicate Sound(s: Settings) {
    || (s.iterationMin == s.iterationMax == 1 && s.confidenceLevel == 0)
    || (3 <= s.iterationMin <= s.iterationMax <= 30 && (s.confidenceLevel == 95 || s.confidenceLevel == 99))
  }

  lemma {:induction false} OptionsSound(s: Settings, flags: seq<Flag>)
    requires Sound(s) && ParsedAll(s, flags).Some?
    ensures Sound(ParsedAll(s, flags).value)
    ensures flags != [] ==> ParsedAll(s, flags).value.iterationMin >= 3
    decreases |flags|
  {
    if flags != [] {
      OptionsSound(Parsed(s, flags[0]).value, flags[1..]);
    }
  }

  /** `-i`: numbers of runs from 3 to 30 are taken as given, a maximum below the minimum is raised to it, and
      anything else goes to the nearer end; an argument left empty keeps its value, and both a level and an
      interval are there afterwards. */
  lemma IterationsHonoured(s: Settings, max: Option<int>, min: Option<int>)
    ensures Parsed(s, Iterations(max, min)).Some?
    ensures var s' := Parsed(s, Iterations(max, min)).value;
      var lo := if min == None then s.iterationMin else min.value;
      var hi := if max == None then s.iterationMax else max.value;
      && (3 <= lo <= 30 ==> s'.iterationMin == lo) && (lo < 3 ==> s'.iterationMin == 3)
      && (lo > 30 ==> s'.iterationMin == 30)
      && (lo <= hi && 3 <= hi <= 30 ==> s'.iterationMax == hi) && (lo <= hi && hi < 3 ==> s'.iterationMax == 3)
      && (lo <= hi && hi > 30 ==> s'.iterationMax == 30) && (hi < lo ==> s'.iterationMax == s'.iterationMin)
      && (if s.confidenceLevel == 0 then s'.confidenceLevel == 99 else s'.confidenceLevel == s.confidenceLevel)
      && (if s.interval == 0.0 then s'.interval == 0.05 else s'.interval == s.interval)
  {}

  /** `-I`: the level must be 95 or 99, and the interval is a hundredth of the width in percent; a number of runs
      that is still one becomes 3 at least and 10 at most. */
  lemma LevelHonoured(s: Settings, level: int, width: real)
    ensures Parsed(s, Level(Some(level), Some(width))).Some? <==> level == 95 || level == 99
    ensures level == 95 || level == 99 ==>
      var s' := Parsed(s, Level(Some(level), Some(width))).value;
      && s'.confidenceLevel == level
      && (if width == 0.0 then s'.interval == 0.05 else 100.0 * s'.interval == width)
      && (if s.iterationMin == 1 then s'.iterationMin == 3 else s'.iterationMin == s.iterationMin)
      && (if s.iterationMax == 1 then s'.iterationMax == 10 else s'.iterationMax == s.iterationMax)
  {}

  class Options {
    var iterationMin: int
    var iterationMax: int
    var confidenceLevel: int
    var interval: real

    ghost function Now(): Settings
      reads this
    {
      Settings(iterationMin, iterationMax, confidenceLevel, interval)
    }

    constructor ()
      ensures Now() == DEFAULTS
    {
      iterationMin, iterationMax, confidenceLevel, interval := 1, 1, 0, 0.0;
    }

    method SetIterations(max: Option<int>, min: Option<int>)
      modifies this
      ensures Some(Now()) == Parsed(old(Now()), Iterations(max, min))
    {
      if max.Some? { iterationMax := max.value; }
      if min.Some? { iterationMin := min.value; }
      if iterationMax < iterationMin { iterationMax := iterationMin; }
      if iterationMax < 3 { iterationMax := 3; }
      if iterationMin < 3 { iterationMin := 3; }
      if iterationMax > 30 { iterationMax := 30; }
      if iterationMin > 30 { iterationMin := 30; }
      if confidenceLevel == 0 { confidenceLevel := 99; }
      if interval == 0.0 { interval := 0.05; }
    }

    /** `ok` is false where the program exits. */
    method SetLevel(level: Option<int>, width: Option<real>) returns (ok: bool)
      modifies this
      ensures ok ==> Some(Now()) == Parsed(old(Now()), Level(level, width))
      ensures !ok ==> Parsed(old(Now()), Level(level, width)) == None
    {
      if level.Some? { confidenceLevel := level.value; }
      if confidenceLevel != 95 && confidenceLevel != 99 {
        return false;
      }
      if width.Some? { interval := width.value / 100.0; }
      if iterationMin == 1 { iterationMin := 3; }
      if iterationMax == 1 { iterationMax := 10; }
      if interval == 0.0 { interval := 0.05; }
      ok := true;
    }
  }

  // ---------------------------------------------------------------- the table of confid()

  function T95(): (t: seq<real>)
    ensures |t| == 30 && forall i :: 0 <= i < 30 ==> t[i] > 2.0
  {
    [12.706, 4.303, 3.182, 2.776, 2.571, 2.447, 2.365, 2.306, 2.262, 2.228,
    2.201, 2.179, 2.160, 2.145, 2.131, 2.120, 2.110, 2.101, 2.093, 2.086,
    2.080, 2.074, 2.069, 2.064, 2.060, 2.056, 2.052, 2.048, 2.045, 2.042]
  }

  function T99(): (t: seq<real>)
    ensures |t| == 30 && forall i :: 0 <= i < 30 ==> t[i] > 2.0
  {
    [63.657, 9.925, 5.841, 4.604, 4.032, 3.707, 3.499, 3.355, 3.250, 3.169,
    3.106, 3.055, 3.012, 2.977, 2.947, 2.921, 2.898, 2.878, 2.861, 2.845,
    2.831, 2.819, 2.807, 2.797, 2.787, 2.779, 2.771, 2.763, 2.756, 2.750]
  }

  /** None for an entry of the table that is never written. */
  function Confid(level: int, freedom: int): (t: Option<real>)
    ensures (level == 95 || level == 99) && 1 <= freedom <= 30 ==> t.Some? && t.value > 2.0
  {
    if level == 95 then (if 1 <= freedom <= 30 then Some(T95()[freedom - 1]) else None)
    else if level == 99 then (if 1 <= freedom <= 30 then Some(T99()[freedom - 1]) else None)
    else Some(0.0)
  }

  /** Sum of the first m terms of 1 + 1/2 x + 1*3/(2*4) x^2 + ..., from the k-th term on and divided by it. */
  function StudentSeries(x: real, k: nat, m: nat): real
    decreases m - k
  {
    if k + 1 >= m then 1.0
    else 1.0 + (2 * k + 1) as real / (2 * k + 2) as real * x * StudentSeries(x, k + 1, m)
  }

  /** The square of the probability that a Student variable with 2 m degrees of freedom lies between -t and t. */
  function StudentSquared(t: real, m: nat): real
    requires m > 0
  {
    var n := (2 * m) as real;
    if n + t * t == 0.0 then 0.0
    else
      var x := n / (n + t * t);
      (1.0 - x) * StudentSeries(x, 0, m) * StudentSeries(x, 0, m)
  }

  /** t is the two-sided quantile, rounded to three decimals. */
  predicate IsQuantile(p: real, t: real, m: nat)
    requires m > 0
  {
    StudentSquared(t - 0.0005, m) <= p * p <= StudentSquared(t + 0.0005, m)
  }

  /** For two to ten degrees of freedom, where these are even and Student's distribution is algebraic, the table
      holds its quantile for the level... */
  lemma CriticalValues(level: int, m: nat)
    requires (level == 95 || level == 99) && 1 <= m <= 5
    ensures IsQuantile(level as real / 100.0, Confid(level, 2 * m).value, m)
  {
    hide IsQuantile, Confid;
    Quantiles95();
    Quantiles99();
    EvenEntries95();
    EvenEntries99();
  }

  lemma EvenEntries95()
    ensures Confid(95, 2) == Some(4.303) && Confid(95, 4) == Some(2.776) && Confid(95, 6) == Some(2.447)
    ensures Confid(95, 8) == Some(2.306) && Confid(95, 10) == Some(2.228)
  {
    hide T99;
  }

  lemma EvenEntries99()
    ensures Confid(99, 2) == Some(9.925) && Confid(99, 4) == Some(4.604) && Confid(99, 6) == Some(3.707)
    ensures Confid(99, 8) == Some(3.355) && Confid(99, 10) == Some(3.169)
  {
    hide T95;
  }

  lemma Quantiles95()
    ensures IsQuantile(0.95, 4.303, 1) && IsQuantile(0.95, 2.776, 2) && IsQuantile(0.95, 2.447, 3)
    ensures IsQuantile(0.95, 2.306, 4) && IsQuantile(0.95, 2.228, 5)
  {}

  lemma Quantiles99()
    ensures IsQuantile(0.99, 9.925, 1) && IsQuantile(0.99, 4.604, 2) && IsQuantile(0.99, 3.707, 3)
    ensures IsQuantile(0.99, 3.355, 4) && IsQuantile(0.99, 3.169, 5)
  {}

  /** ... and over the whole table the values decrease with the freedom, and those for 99 are the larger ones. */
  lemma CriticalValuesOrdered(freedom: int)
    requires 1 <= freedom <= 30
    ensures Confid(95, freedom).value < Confid(99, freedom).value
    ensures forall level, more :: (level == 95 || level == 99) && freedom < more <= 30 ==>
      Confid(level, more).value < Confid(level, freedom).value
  {
    hide T95, T99;
    Decrease95();
    Decrease99();
    TablesApart();
    forall level, more | (level == 95 || level == 99) && freedom < more <= 30
      ensures Confid(level, more).value < Confid(level, freedom).value
    {
      DecreasingAt(if level == 95 then T95() else T99(), freedom - 1, more - 1);
    }
  }

  lemma Decrease95()
    ensures forall i :: 0 <= i < 29 ==> T95()[i + 1] < T95()[i]
  {}

  lemma Decrease99()
    ensures forall i :: 0 <= i < 29 ==> T99()[i + 1] < T99()[i]
  {}

  lemma TablesApart()
    ensures forall i :: 0 <= i < 30 ==> T95()[i] < T99()[i]
  {}

  lemma {:induction false} DecreasingAt(t: seq<real>, i: nat, j: nat)
    requires i < j < |t| && forall k :: 0 <= k < |t| - 1 ==> t[k + 1] < t[k]
    ensures t[j] < t[i]
  {
    if i + 1 < j {
      DecreasingAt(t, i, j - 1);
    }
    assert t[j - 1 + 1] < t[j - 1];
  }

  // ---------------------------------------------------------------- calculate_confidence

  datatype Series = Series(sum: real, squareSum: real, mean: real, variance: real)

  const CLEARED := Series(0.0, 0.0, 0.0, 0.0)

  function Extended(s: Series, x: real, n: int): Series
    requires n > 0
  {
    var sum, squares := s.sum + x, s.squareSum + x * x;
    var mean := sum / n as real;
    Series(sum, squares, mean, squares / n as real - mean * mean)
  }

  /** The series of a history of results: its mean and variance are those of all results so far. */
  ghost predicate Summarizes(s: Series, xs: seq<real>) {
    && s.sum == Sum(xs) && s.squareSum == SumSquares(xs)
    && (xs != [] ==> s.mean == Mean(xs) && s.variance == Variance(xs))
  }

  ghost function SeriesOf(xs: seq<real>): (s: Series)
    requires xs != []
    ensures forall s' :: Summarizes(s', xs) <==> s' == s
  {
    Series(Sum(xs), SumSquares(xs), Mean(xs), Variance(xs))
  }

  lemma ExtendedSummarizes(s: Series, xs: seq<real>, x: real)
    requires Summarizes(s, xs)
    ensures Summarizes(Extended(s, x, |xs| + 1), xs + [x])
  {}

  /** What a history's series says about it: the mean is its arithmetic mean, and the variance is never
      negative and zero exactly when all results agree. */
  lemma SeriesMoments(s: Series, xs: seq<real>)
    requires Summarizes(s, xs) && xs != []
    ensures s.mean * |xs| as real == Sum(xs)
    ensures s.variance >= 0.0
    ensures s.variance == 0.0 <==> AllEqual(xs, xs[0])
  {
    hide Sum, SumSquares, Mean, Variance, Deviation;
    MeanTimesLength(xs);
    VarianceIsDeviation(xs);
  }

  /** `sqrt` is the library's square root. */
  ghost predicate IsSqrt(sqrt: real -> real) {
    forall x :: x >= 0.0 ==> sqrt(x) >= 0.0 && sqrt(x) * sqrt(x) == x
  }

  /** The margin left of the requested interval: negative while a series is not confident. */
  function Margin(interval: real, t: real, s: Series, n: int, sqrt: real -> real): Double
    requires n > 1
  {
    Subtract(interval, Divide(WidthOf(t, sqrt(s.variance / (n as real - 1.0))), s.mean))
  }

  /** The requested confidence, without the square root. */
  predicate Confident(interval: real, t: real, s: Series, n: int) {
    interval >= 0.0 &&
    4.0 * t * t * s.variance <= interval * interval * s.mean * s.mean * (n as real - 1.0)
  }

  /** What lets a series pass: confidence, or a negative mean, as of a CPU utilisation that was not measured
      and is set to -1; no non-negative interval is too narrow for that. */
  predicate Passes(interval: real, t: real, s: Series, n: int) {
    if s.mean > 0.0 then Confident(interval, t, s, n)
    else
      && s.mean < 0.0
      && (interval >= 0.0
          || interval * interval * s.mean * s.mean * (n as real - 1.0) <= 4.0 * t * t * s.variance)
  }

  predicate NotNegative(d: Double) { AtLeast(d, Fin(0.0)) }

  lemma MarginOfRoot(interval: real, t: real, s: Series, n: int, root: real)
    requires n > 1 && t >= 0.0 && root >= 0.0
    requires root * root * (n as real - 1.0) == s.variance
    ensures s.mean > 0.0 ==> (interval * s.mean >= WidthOf(t, root) <==> Passes(interval, t, s, n))
    ensures s.mean < 0.0 ==> (interval * s.mean <= WidthOf(t, root) <==> Passes(interval, t, s, n))
  {
    var a, b, k := WidthOf(t, root), interval * s.mean, n as real - 1.0;
    SquareOrder(a, b);
    ScaledOrder(a * a, b * b, k);
    ScaledOrder(b * b, a * a, k);
    SquaresExpand(t, root, interval, s.mean, k, s.variance);
    assert Times(interval, s.mean) == b;
  }

  lemma SquareOrder(a: real, b: real)
    requires a >= 0.0
    ensures b >= a <==> b >= 0.0 && a * a <= b * b
    ensures b <= a <==> b < 0.0 || b * b <= a * a
  {
    if b >= 0.0 {
      assert Times(b - a, b + a) == b * b - a * a;
      if b + a == 0.0 {
        assert a == 0.0 && b == 0.0;
      }
    }
  }

  lemma ScaledOrder(x: real, y: real, k: real)
    requires k > 0.0
    ensures x <= y <==> x * k <= y * k
  {}

  lemma SquaresExpand(t: real, root: real, interval: real, mean: real, k: real, variance: real)
    requires root * root * k == variance
    ensures (2.0 * t * root) * (2.0 * t * root) * k == 4.0 * t * t * variance
    ensures (interval * mean) * (interval * mean) * k == interval * interval * mean * mean * k
  {}

  /** A margin is non-negative exactly when the series passes, whatever the sign of its mean, and no number
      exactly when all results are zero. */
  lemma MarginIff(interval: real, t: real, xs: seq<real>, s: Series, sqrt: real -> real)
    requires |xs| > 1 && Summarizes(s, xs) && t > 0.0 && IsSqrt(sqrt)
    ensures NotNegative(Margin(interval, t, s, |xs|, sqrt)) <==> Passes(interval, t, s, |xs|)
    ensures Margin(interval, t, s, |xs|, sqrt) == NaN <==> AllEqual(xs, 0.0)
  {
    hide Sum, SumSquares, Mean, Variance, Passes;
    var k := |xs| as real - 1.0;
    var v := Quotient(s.variance, k);
    VarianceIsDeviation(xs);
    Factor(v, k);
    var root := sqrt(v);
    assert root >= 0.0 && root * root == v;
    assert root * root * k == s.variance;
    ZeroMoments(xs);
    hide IsSqrt, Summarizes;
    MarginSignAt(interval, WidthOf(t, root), s.mean);
    MarginOfRoot(interval, t, s, |xs|, root);
    if s.mean == 0.0 {
      ZeroMeanFails(interval, t, s, |xs|);
    }
    WidthZero(t, root);
  }

  /** The size of a margin: the full width of the confidence interval, 2 t sqrt(var / (n - 1)), is what is missing
      from the margin to the requested interval, relative to the mean. */
  lemma MarginWidth(interval: real, t: real, xs: seq<real>, s: Series, sqrt: real -> real)
    requires |xs| > 1 && Summarizes(s, xs) && t > 0.0 && IsSqrt(sqrt) && s.mean != 0.0
    ensures Margin(interval, t, s, |xs|, sqrt).Fin?
    ensures var width := (interval - Margin(interval, t, s, |xs|, sqrt).r) * s.mean;
      width >= 0.0 && width * width * (|xs| as real - 1.0) == 4.0 * t * t * s.variance
  {
    hide Sum, SumSquares, Mean, Variance;
    var k := |xs| as real - 1.0;
    var v := Quotient(s.variance, k);
    VarianceIsDeviation(xs);
    Factor(v, k);
    var root := sqrt(v);
    assert root >= 0.0 && root * root == v;
    hide IsSqrt, Summarizes;
    SquaresExpand(t, root, 0.0, 0.0, k, s.variance);
    MarginTimesMean(interval, WidthOf(t, root), s.mean);
  }

  lemma MarginTimesMean(interval: real, a: real, mean: real)
    requires mean != 0.0
    ensures var margin := Subtract(interval, Divide(a, mean));
      margin.Fin? && (interval - margin.r) * mean == a
  {}

  lemma ZeroMoments(xs: seq<real>)
    requires xs != []
    ensures Mean(xs) == 0.0 && Variance(xs) == 0.0 <==> AllEqual(xs, 0.0)
  {
    hide Mean, Variance;
    VarianceIsDeviation(xs);
    if AllEqual(xs, 0.0) {
      MeanOfEqual(xs, 0.0);
    } else if Variance(xs) == 0.0 {
      MeanOfEqual(xs, xs[0]);
    }
  }

  lemma ZeroMeanFails(interval: real, t: real, s: Series, n: int)
    requires s.mean == 0.0
    ensures !Passes(interval, t, s, n)
  {}

  function WidthOf(t: real, root: real): (a: real)
    ensures t >= 0.0 && root >= 0.0 ==> a >= 0.0
  {
    assert Times(t, root) == t * root;
    2.0 * t * root
  }

  lemma WidthZero(t: real, root: real)
    requires t > 0.0 && root >= 0.0
    ensures WidthOf(t, root) == 0.0 <==> root * root == 0.0
  {
    assert Times(t, root) == t * root && Times(root, root) == root * root;
  }

  lemma MarginSignAt(interval: real, a: real, mean: real)
    requires a >= 0.0
    ensures var margin := Subtract(interval, Divide(a, mean));
      && (mean > 0.0 ==> (NotNegative(margin) <==> interval * mean >= a))
      && (mean < 0.0 ==> (NotNegative(margin) <==> interval * mean <= a))
      && (mean == 0.0 ==> !NotNegative(margin))
      && (margin == NaN <==> mean == 0.0 && a == 0.0)
  {}

  /** One run of a test. */
  datatype Measurement = Measurement(time: real, result: real, locCpu: real, remCpu: real, locSd: real, remSd: real)

  function TimeOf(m: Measurement): real { m.time }
  function ResultOf(m: Measurement): real { m.result }
  function LocCpuOf(m: Measurement): real { m.locCpu }
  function RemCpuOf(m: Measurement): real { m.remCpu }
  function LocSdOf(m: Measurement): real { m.locSd }
  function RemSdOf(m: Measurement): real { m.remSd }

  ghost function Column(runs: seq<Measurement>, f: Measurement -> real): (c: seq<real>)
    ensures |c| == |runs|
  {
    seq(|runs|, i requires 0 <= i < |runs| => f(runs[i]))
  }

  lemma ColumnFields(runs: seq<Measurement>)
    ensures forall i :: 0 <= i < |runs| ==>
      && Column(runs, TimeOf)[i] == runs[i].time && Column(runs, ResultOf)[i] == runs[i].result
      && Column(runs, LocCpuOf)[i] == runs[i].locCpu && Column(runs, RemCpuOf)[i] == runs[i].remCpu
      && Column(runs, LocSdOf)[i] == runs[i].locSd && Column(runs, RemSdOf)[i] == runs[i].remSd
  {
    forall i | 0 <= i < |runs|
      ensures Column(runs, TimeOf)[i] == runs[i].time && Column(runs, ResultOf)[i] == runs[i].result
      ensures Column(runs, LocCpuOf)[i] == runs[i].locCpu && Column(runs, RemCpuOf)[i] == runs[i].remCpu
      ensures Column(runs, LocSdOf)[i] == runs[i].locSd && Column(runs, RemSdOf)[i] == runs[i].remSd
    {
      assert Column(runs, TimeOf)[i] == TimeOf(runs[i]) && Column(runs, ResultOf)[i] == ResultOf(runs[i]);
      assert Column(runs, LocCpuOf)[i] == LocCpuOf(runs[i]) && Column(runs, RemCpuOf)[i] == RemCpuOf(runs[i]);
      assert Column(runs, LocSdOf)[i] == LocSdOf(runs[i]) && Column(runs, RemSdOf)[i] == RemSdOf(runs[i]);
    }
  }

  lemma ColumnSnoc(s: Series, runs: seq<Measurement>, m: Measurement, f: Measurement -> real)
    requires Summarizes(s, Column(runs, f))
    ensures Summarizes(Extended(s, f(m), |runs| + 1), Column(runs + [m], f))
  {
    assert Column(runs + [m], f) == Column(runs, f) + [f(m)];
    ExtendedSummarizes(s, Column(runs, f), f(m));
  }

  /** The smallest of the three margins, or the margin of the result alone. */
  function Smallest(result: Double, locCpu: Double, remCpu: Double, resultOnly: bool): Double {
    if !resultOnly then MinDouble(MinDouble(result, locCpu), remCpu) else result
  }

  /** What the variable `confidence` holds after some runs. */
  ghost function ConfidenceAfter(s: Settings, resultOnly: bool, sqrt: real -> real, runs: seq<Measurement>): Double
    requires Sound(s) && |runs| <= 31
  {
    if |runs| <= 1 then Fin(-10.0)
    else Smallest(MarginOf(s, sqrt, runs, ResultOf), MarginOf(s, sqrt, runs, LocCpuOf),
                  MarginOf(s, sqrt, runs, RemCpuOf), resultOnly)
  }

  lemma ConfidenceBefore(s: Settings, resultOnly: bool, sqrt: real -> real)
    requires Sound(s)
    ensures ConfidenceAfter(s, resultOnly, sqrt, []) == Fin(-10.0)
  {}

  ghost function MarginOf(s: Settings, sqrt: real -> real, runs: seq<Measurement>, f: Measurement -> real): Double
    requires Sound(s) && 2 <= |runs| <= 31
  {
    Margin(s.interval, Confid(s.confidenceLevel, |runs| - 1).value, SeriesOf(Column(runs, f)), |runs|, sqrt)
  }

  ghost predicate Passing(s: Settings, runs: seq<Measurement>, f: Measurement -> real)
    requires Sound(s) && 2 <= |runs| <= 31
  {
    Passes(s.interval, Confid(s.confidenceLevel, |runs| - 1).value, SeriesOf(Column(runs, f)), |runs|)
  }

  ghost predicate Zeros(runs: seq<Measurement>, f: Measurement -> real) {
    forall i :: 0 <= i < |runs| ==> f(runs[i]) == 0.0
  }

  lemma MarginOfIff(s: Settings, sqrt: real -> real, runs: seq<Measurement>, f: Measurement -> real)
    requires Sound(s) && s.confidenceLevel != 0 && 2 <= |runs| <= 31 && IsSqrt(sqrt)
    ensures NotNegative(MarginOf(s, sqrt, runs, f)) <==> Passing(s, runs, f)
    ensures MarginOf(s, sqrt, runs, f) == NaN <==> Zeros(runs, f)
  {
    var c := Column(runs, f);
    hide Margin, Passes, IsSqrt, Summarizes, Sum, SumSquares, Mean, Variance;
    MarginIff(s.interval, Confid(s.confidenceLevel, |runs| - 1).value, c, SeriesOf(c), sqrt);
    assert AllEqual(c, 0.0) <==> Zeros(runs, f) by {
      assert forall i :: 0 <= i < |runs| ==> c[i] == f(runs[i]);
    }
  }

  /** Which runs end the repetition.  The confidence is no number exactly when the series compared last holds
      nothing but zeros; otherwise it is non-negative exactly when that series passes and the others do, but
      a series of zeros hides those compared before it.  So where the loop is satisfied every series that
      counts passes if and only if none of them consists of zeros. */
  lemma ConfidenceIff(s: Settings, resultOnly: bool, sqrt: real -> real, runs: seq<Measurement>)
    requires Sound(s) && s.confidenceLevel != 0 && 2 <= |runs| <= 31 && IsSqrt(sqrt)
    ensures var c := ConfidenceAfter(s, resultOnly, sqrt, runs);
      && (c == NaN <==> Zeros(runs, if resultOnly then ResultOf else RemCpuOf))
      && (NotNegative(c) <==>
           if resultOnly then Passing(s, runs, ResultOf)
           else Passing(s, runs, RemCpuOf)
                && (Zeros(runs, LocCpuOf)
                    || (Passing(s, runs, LocCpuOf) && (Passing(s, runs, ResultOf) || Zeros(runs, ResultOf)))))
      && (!Less(c, Fin(0.0)) <==> NotNegative(c) || c == NaN)
      && (!Less(c, Fin(0.0)) ==>
           (AllPassing(s, resultOnly, runs)
            <==> !Zeros(runs, ResultOf) && (resultOnly || (!Zeros(runs, LocCpuOf) && !Zeros(runs, RemCpuOf)))))
  {
    hide MarginOf, Passing, Zeros, IsSqrt;
    MarginOfIff(s, sqrt, runs, ResultOf);
    MarginOfIff(s, sqrt, runs, LocCpuOf);
    MarginOfIff(s, sqrt, runs, RemCpuOf);
  }

  /** The promise: the result and, unless only that counts, both CPU utilisations pass. */
  ghost predicate AllPassing(s: Settings, resultOnly: bool, runs: seq<Measurement>)
    requires Sound(s) && 2 <= |runs| <= 31
  {
    Passing(s, runs, ResultOf) && (resultOnly || (Passing(s, runs, LocCpuOf) && Passing(s, runs, RemCpuOf)))
  }

  ghost function Runs(measure: nat -> Measurement, n: nat): (runs: seq<Measurement>)
    ensures |runs| == n
  {
    seq(n, i requires 0 <= i < n => measure(i))
  }

  lemma RunsNone(measure: nat -> Measurement)
    ensures Runs(measure, 0) == []
  {}

  lemma RunsSnoc(measure: nat -> Measurement, n: nat)
    ensures Runs(measure, n + 1) == Runs(measure, n) + [measure(n)]
  {}

  lemma TableWritten(s: Settings, freedom: nat)
    requires Sound(s) && freedom <= 30
    ensures freedom > 0 ==> Confid(s.confidenceLevel, freedom).Some?
  {}

  // ---------------------------------------------------------------- inputs on which the promises fail

  /** The settings after `-i 10,3`. */
  const TEN_THREE := Settings(3, 10, 99, 0.05)

  /** The first run measures something and no other does. */
  function Spike(locCpu: real, remCpu: real): nat -> Measurement {
    i => Measurement(1.0, if i == 0 then 1.0 else 0.0, locCpu, remCpu, -1.0, -1.0)
  }

  lemma {:induction false} SpikeSums(c: seq<real>)
    requires c != [] && c[0] == 1.0 && forall i :: 0 < i < |c| ==> c[i] == 0.0
    ensures Sum(c) == 1.0 && SumSquares(c) == 1.0
  {
    if |c| > 1 {
      SpikeSums(c[..|c| - 1]);
    } else {
      assert c[..0] == [];
    }
  }

  lemma SpikeFails(runs: seq<Measurement>, locCpu: real, remCpu: real)
    requires 2 <= |runs| <= 31 && runs == Runs(Spike(locCpu, remCpu), |runs|)
    ensures !Passing(TEN_THREE, runs, ResultOf) && !Zeros(runs, ResultOf)
  {
    hide Column, Runs, Confid, Sum, SumSquares, Mean, Variance, Summarizes, Passes;
    var c, t := Column(runs, ResultOf), Confid(99, |runs| - 1).value;
    SpikeColumn(runs, locCpu, remCpu);
    SpikeMoments(c);
    SpikeTooWide(Mean(c), Variance(c), |c| as real, t);
    TooWideFails(t, SeriesOf(c), |runs|);
  }

  lemma TooWideFails(t: real, s: Series, n: int)
    requires s.mean > 0.0 && 4.0 * t * t * s.variance > 0.05 * 0.05 * s.mean * s.mean * (n as real - 1.0)
    ensures !Passes(0.05, t, s, n)
  {}

  lemma SpikeColumn(runs: seq<Measurement>, locCpu: real, remCpu: real)
    requires runs != [] && runs == Runs(Spike(locCpu, remCpu), |runs|)
    ensures var c := Column(runs, ResultOf);
      c[0] == 1.0 == ResultOf(runs[0]) && forall i :: 0 < i < |c| ==> c[i] == 0.0
  {
    var all := Runs(Spike(locCpu, remCpu), |runs|);
    assert forall i :: 0 <= i < |runs| ==>
      all[i] == Spike(locCpu, remCpu)(i) && Column(runs, ResultOf)[i] == ResultOf(all[i]);
  }

  lemma SpikeMoments(c: seq<real>)
    requires c != [] && c[0] == 1.0 && forall i :: 0 < i < |c| ==> c[i] == 0.0
    ensures Mean(c) * |c| as real == 1.0 && Variance(c) == Mean(c) - Mean(c) * Mean(c)
  {
    hide Sum, SumSquares;
    SpikeSums(c);
  }

  lemma SpikeTooWide(mean: real, variance: real, n: real, t: real)
    requires n >= 2.0 && mean * n == 1.0 && variance == mean - mean * mean && t > 2.0
    ensures mean > 0.0 && 4.0 * t * t * variance > 0.05 * 0.05 * mean * mean * (n - 1.0)
  {
    var w := mean * mean * (n - 1.0);
    assert w == mean * (mean * n) - mean * mean == variance;
    assert mean > 0.0 by { assert Times(mean, n) == 1.0; }
    assert w > 0.0 by { assert Times(mean, mean) > 0.0 && Times(mean * mean, n - 1.0) == w; }
    assert t * t > 4.0 by { assert Times(t - 2.0, t + 2.0) > 0.0; }
    assert Times(4.0 * t * t - 0.05 * 0.05, w) > 0.0;
  }

  lemma ConstantPasses(runs: seq<Measurement>, f: Measurement -> real, x: real)
    requires 2 <= |runs| <= 31 && x < 0.0 && forall i :: 0 <= i < |runs| ==> f(runs[i]) == x
    ensures Passing(TEN_THREE, runs, f)
  {
    var c := Column(runs, f);
    assert forall i :: 0 <= i < |c| ==> c[i] == f(runs[i]);
    MeanOfEqual(c, x);
    hide Mean, Variance, Confid;
  }

  /** Neither result is confident: of three runs without any result the confidence is no number, and local
      CPU utilisations of zero hide a result that varies too much.  Both end the loop after three runs. */
  lemma UnconfidentStops(sqrt: real -> real)
    requires IsSqrt(sqrt)
    ensures var zeros := Runs(_ => Measurement(1.0, 0.0, -1.0, -1.0, -1.0, -1.0), 3);
      ConfidenceAfter(TEN_THREE, true, sqrt, zeros) == NaN && !Passing(TEN_THREE, zeros, ResultOf)
    ensures var hidden := Runs(Spike(0.0, -1.0), 3);
      NotNegative(ConfidenceAfter(TEN_THREE, false, sqrt, hidden)) && !Passing(TEN_THREE, hidden, ResultOf)
  {
    var zeros := Runs(_ => Measurement(1.0, 0.0, -1.0, -1.0, -1.0, -1.0), 3);
    var hidden := Runs(Spike(0.0, -1.0), 3);
    assert Zeros(zeros, ResultOf) && Zeros(hidden, LocCpuOf);
    ConstantPasses(hidden, RemCpuOf, -1.0);
    SpikeFails(hidden, 0.0, -1.0);
    hide Passing, Zeros, ConfidenceAfter, IsSqrt;
    ConfidenceIff(TEN_THREE, true, sqrt, zeros);
    ConfidenceIff(TEN_THREE, false, sqrt, hidden);
  }

  /** A maximum of ten is missed by a result that never becomes confident: after each of three to nine runs
      the loop wants another, and the ninth is the last. */
  lemma MaximumMissed(sqrt: real -> real, k: nat)
    requires IsSqrt(sqrt) && 3 <= k <= 9
    ensures Parsed(DEFAULTS, Iterations(Some(10), Some(3))) == Some(TEN_THREE)
    ensures MostRuns(TEN_THREE) == 9 < TEN_THREE.iterationMax
    ensures Less(ConfidenceAfter(TEN_THREE, false, sqrt, Runs(Spike(-1.0, -1.0), k)), Fin(0.0))
  {
    var runs := Runs(Spike(-1.0, -1.0), k);
    SpikeFails(runs, -1.0, -1.0);
    assert LocCpuOf(runs[0]) == RemCpuOf(runs[0]) == -1.0;
    assert !Zeros(runs, LocCpuOf) && !Zeros(runs, RemCpuOf);
    hide Passing, Zeros, ConfidenceAfter, IsSqrt;
    ConfidenceIff(TEN_THREE, false, sqrt, runs);
  }

  /** The code compares with < where the option's name suggests <=. */
  function MostRuns(s: Settings): int {
    if s.iterationMin < s.iterationMax - 1 then s.iterationMax - 1 else s.iterationMin
  }

  /** The requested maximum is within reach exactly when it is the minimum. */
  lemma MaximumReachedIff(s: Settings)
    requires Sound(s)
    ensures MostRuns(s) == s.iterationMax <==> s.iterationMin == s.iterationMax
  {}

  class Statistics {
    var localTime: Series
    var result: Series
    var localCpu: Series
    var remoteCpu: Series
    var localServiceDemand: Series
    var remoteServiceDemand: Series
    var resultConfid: Double
    var locCpuConfid: Double
    var remCpuConfid: Double
    var confidence: Double

    /** The measurements since init_stat. */
    ghost var runs: seq<Measurement>

    ghost predicate Valid()
      reads this`localTime, this`result, this`localCpu, this`remoteCpu, this`localServiceDemand,
            this`remoteServiceDemand, this`runs
    {
      && Summarizes(localTime, Column(runs, TimeOf)) && Summarizes(result, Column(runs, ResultOf))
      && Summarizes(localCpu, Column(runs, LocCpuOf)) && Summarizes(remoteCpu, Column(runs, RemCpuOf))
      && Summarizes(localServiceDemand, Column(runs, LocSdOf)) && Summarizes(remoteServiceDemand, Column(runs, RemSdOf))
    }

    constructor ()
      ensures Valid() && runs == [] && confidence == Fin(-10.0)
    {
      localTime, result, localCpu, remoteCpu := CLEARED, CLEARED, CLEARED, CLEARED;
      localServiceDemand, remoteServiceDemand := CLEARED, CLEARED;
      resultConfid, locCpuConfid, remCpuConfid, confidence := Fin(-10.0), Fin(-10.0), Fin(-10.0), Fin(-10.0);
      runs := [];
    }

    method InitStat()
      modifies this
      ensures Valid() && runs == [] && confidence == Fin(-10.0)
      ensures resultConfid == old(resultConfid) && locCpuConfid == old(locCpuConfid)
        && remCpuConfid == old(remCpuConfid)
    {
      localTime, result, localCpu, remoteCpu := CLEARED, CLEARED, CLEARED, CLEARED;
      localServiceDemand, remoteServiceDemand := CLEARED, CLEARED;
      confidence := Fin(-10.0);
      runs := [];
    }

    /** The sums, means and variances of all six series. */
    method ExtendSeries(iterations: int, m: Measurement)
      requires Valid() && iterations == |runs| + 1
      modifies this`localTime, this`result, this`localCpu, this`remoteCpu, this`localServiceDemand,
               this`remoteServiceDemand, this`runs
      ensures Valid() && runs == old(runs) + [m]
    {
      ColumnSnoc(localTime, runs, m, TimeOf);
      ColumnSnoc(result, runs, m, ResultOf);
      ColumnSnoc(localCpu, runs, m, LocCpuOf);
      ColumnSnoc(remoteCpu, runs, m, RemCpuOf);
      ColumnSnoc(localServiceDemand, runs, m, LocSdOf);
      ColumnSnoc(remoteServiceDemand, runs, m, RemSdOf);
      hide Extended, Summarizes, Confid, Margin, Column, MinDouble;
      localTime := Extended(localTime, TimeOf(m), iterations);
      result := Extended(result, ResultOf(m), iterations);
      localCpu := Extended(localCpu, LocCpuOf(m), iterations);
      remoteCpu := Extended(remoteCpu, RemCpuOf(m), iterations);
      localServiceDemand := Extended(localServiceDemand, LocSdOf(m), iterations);
      remoteServiceDemand := Extended(remoteServiceDemand, RemSdOf(m), iterations);
      runs := runs + [m];
    }

    method CalculateConfidence(iterations: int, m: Measurement, s: Settings, resultOnly: bool, sqrt: real -> real)
      requires Valid() && iterations == |runs| + 1
      requires iterations > 1 ==> Confid(s.confidenceLevel, iterations - 1).Some?
      modifies this
      ensures Valid() && runs == old(runs) + [m]
      ensures iterations == 1 ==> confidence == old(confidence)
      ensures iterations > 1 ==>
        var t := Confid(s.confidenceLevel, iterations - 1).value;
        && resultConfid == Margin(s.interval, t, result, iterations, sqrt)
        && locCpuConfid == Margin(s.interval, t, localCpu, iterations, sqrt)
        && remCpuConfid == Margin(s.interval, t, remoteCpu, iterations, sqrt)
        && confidence == Smallest(resultConfid, locCpuConfid, remCpuConfid, resultOnly)
    {
      hide Valid, Confid, Margin;
      ExtendSeries(iterations, m);
      if iterations > 1 {
        var t := Confid(s.confidenceLevel, iterations - 1).value;
        resultConfid := Margin(s.interval, t, result, iterations, sqrt);
        locCpuConfid := Margin(s.interval, t, localCpu, iterations, sqrt);
        remCpuConfid := Margin(s.interval, t, remoteCpu, iterations, sqrt);
        if !resultOnly {
          confidence := MinDouble(MinDouble(resultConfid, locCpuConfid), remCpuConfid);
        } else {
          confidence := resultConfid;
        }
      }
    }

    /** The series in the fields are those of the measurements. */
    lemma ConfidenceOfRuns(s: Settings, resultOnly: bool, sqrt: real -> real)
      requires Valid() && Sound(s) && 1 <= |runs| <= 31
      ensures ConfidenceAfter(s, resultOnly, sqrt, runs) ==
        if |runs| == 1 then Fin(-10.0)
        else
          var t := Confid(s.confidenceLevel, |runs| - 1).value;
          Smallest(Margin(s.interval, t, result, |runs|, sqrt), Margin(s.interval, t, localCpu, |runs|, sqrt),
                   Margin(s.interval, t, remoteCpu, |runs|, sqrt), resultOnly)
    {
      hide Margin, Summarizes, Smallest, Confid;
    }

    /** The loop around a test; `measure(i)` is what the i-th run measures.  It never reads an entry of
        the table that is not written, runs at least iterationMin times and at most iterationMax - 1
        times (or iterationMin, if that is more), and stops in between as soon as the confidence is not
        negative: which is when it is a number at least zero, unless all results of the series compared last
        are zero. */
    method RunTests(s: Settings, resultOnly: bool, sqrt: real -> real, measure: nat -> Measurement)
      returns (count: nat)
      requires Sound(s)
      modifies this
      ensures s.iterationMin <= count <= MostRuns(s)
      ensures Valid() && runs == Runs(measure, count)
      ensures confidence == ConfidenceAfter(s, resultOnly, sqrt, runs)
      ensures forall k: nat :: s.iterationMin <= k < count ==>
        Less(ConfidenceAfter(s, resultOnly, sqrt, Runs(measure, k)), Fin(0.0))
      ensures count < MostRuns(s) ==> !Less(confidence, Fin(0.0))
      ensures count < MostRuns(s) && IsSqrt(sqrt) ==>
        (NotNegative(confidence) <==> !Zeros(runs, if resultOnly then ResultOf else RemCpuOf))
      ensures count == MostRuns(s) <==> forall k: nat :: s.iterationMin <= k < MostRuns(s) ==>
        Less(ConfidenceAfter(s, resultOnly, sqrt, Runs(measure, k)), Fin(0.0))
    {
      hide ConfidenceAfter, IsSqrt, Zeros, Runs, Valid, Confid, Margin, Smallest;
      RunsNone(measure);
      InitStat();
      ConfidenceBefore(s, resultOnly, sqrt);
      var iteration := 1;
      while (Less(confidence, Fin(0.0)) && iteration < s.iterationMax) || iteration <= s.iterationMin
        invariant 1 <= iteration <= MostRuns(s) + 1
        invariant Valid() && runs == Runs(measure, iteration - 1)
        invariant confidence == ConfidenceAfter(s, resultOnly, sqrt, runs)
        invariant forall k: nat :: s.iterationMin <= k < iteration - 1 ==>
          Less(ConfidenceAfter(s, resultOnly, sqrt, Runs(measure, k)), Fin(0.0))
        decreases MostRuns(s) + 1 - iteration
      {
        TableWritten(s, iteration - 1);
        RunsSnoc(measure, iteration - 1);
        CalculateConfidence(iteration, measure(iteration - 1), s, resultOnly, sqrt);
        ConfidenceOfRuns(s, resultOnly, sqrt);
        iteration := iteration + 1;
      }
      count := iteration - 1;
      if count < MostRuns(s) && IsSqrt(sqrt) {
        ConfidenceIff(s, resultOnly, sqrt, runs);
      }
    }

    method RetrieveConfidentValues() returns (m: Measurement)
      requires Valid() && runs != []
      ensures m == Measurement(Mean(Column(runs, TimeOf)), Mean(Column(runs, ResultOf)),
                               Mean(Column(runs, LocCpuOf)), Mean(Column(runs, RemCpuOf)),
                               Mean(Column(runs, LocSdOf)), Mean(Column(runs, RemSdOf)))
    {
      m := Measurement(localTime.mean, result.mean, localCpu.mean, remoteCpu.mean,
                       localServiceDemand.mean, remoteServiceDemand.mean);
    }
  }
}
