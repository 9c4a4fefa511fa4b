/** CPU utilisation from nanosecond counters whose interrupt time runs in parallel with the others: the
    interrupt time is taken out of idle, user and kernel in proportion, in 64-bit integer arithmetic. */
module CpuCorrection {
  import opened Division
  import opened Moments

  const ACCURACY := 100_000
  const TWO64 := 0x1_0000_0000_0000_0000

  datatype Counters = Counters(idle: int, user: int, kernel: int, interrupt: int)

  /** A correction that ends early reports -1; one that divides by zero ends the program. */
  datatype Correction =
    | Corrected(counters: Counters, fractionIdle: int)
    | InterruptDominates
    | DividesByZero

  function Wrap(x: int): (r: int)
    ensures 0 <= r < TWO64
  {
    x % TWO64
  }

  function Delta(start: Counters, end: Counters): Counters {
    Counters(Wrap(end.idle - start.idle), Wrap(end.user - start.user),
             Wrap(end.kernel - start.kernel), Wrap(end.interrupt - start.interrupt))
  }

  /** Differences of 64-bit counters: exact where a counter did not wrap, and right modulo 2^64 always. */
  lemma DeltaExact(start: Counters, end: Counters)
    ensures var d := Delta(start, end);
      && (0 <= start.idle <= end.idle < TWO64 ==> d.idle == end.idle - start.idle)
      && (0 <= start.user <= end.user < TWO64 ==> d.user == end.user - start.user)
      && (0 <= start.kernel <= end.kernel < TWO64 ==> d.kernel == end.kernel - start.kernel)
      && (0 <= start.interrupt <= end.interrupt < TWO64 ==> d.interrupt == end.interrupt - start.interrupt)
      && (start.idle + d.idle - end.idle) % TWO64 == 0 && (start.user + d.user - end.user) % TWO64 == 0
      && (start.kernel + d.kernel - end.kernel) % TWO64 == 0
      && (start.interrupt + d.interrupt - end.interrupt) % TWO64 == 0
  {}

  /** The body of the per-CPU loop, on unsigned 64-bit integers. */
  function Correct(d: Counters): Correction {
    var total := Wrap(d.idle + d.user + d.kernel);
    if d.interrupt > total then InterruptDominates
    else if total == 0 then DividesByZero
    else
      WithFraction(WithoutInterrupt(d, total))
  }

  function WithoutInterrupt(d: Counters, total: int): Counters
    requires total > 0
  {
    Counters(Wrap(d.idle - WrappedShare(d.idle, total, d.interrupt)),
             Wrap(d.user - WrappedShare(d.user, total, d.interrupt)),
             Wrap(d.kernel - WrappedShare(d.kernel, total, d.interrupt)),
             d.interrupt)
  }

  function WithFraction(corrected: Counters): Correction {
    var total := Wrap(corrected.idle + corrected.user + corrected.kernel + corrected.interrupt);
    if total == 0 then DividesByZero
    else Corrected(corrected, Wrap(corrected.idle * ACCURACY) / total)
  }

  function WrappedShare(part: int, total: int, interrupt: int): int
    requires total > 0
  {
    Wrap(interrupt * (Wrap(part * ACCURACY) / total)) / ACCURACY
  }

  // ---------------------------------------------------------------- exact arithmetic

  function Fraction(part: int, total: int): int
    requires total > 0
  {
    part * ACCURACY / total
  }

  /** How much of the interrupt time is taken out of one counter. */
  function Share(part: int, total: int, interrupt: int): int
    requires total > 0
  {
    interrupt * Fraction(part, total) / ACCURACY
  }

  lemma DivisionBounds(a: int, b: int)
    requires a >= 0 && b > 0
    ensures a / b >= 0 && a / b * b <= a < a / b * b + b
  {}

  lemma MulMono(a: int, b: int, c: int)
    requires a <= b && c >= 0
    ensures a * c <= b * c
  {}

  lemma FractionBounds(part: int, total: int)
    requires 0 <= part <= total && total > 0
    ensures var f := Fraction(part, total);
      0 <= f <= ACCURACY && f * total <= part * ACCURACY < f * total + total
  {}

  lemma ShareBounds(part: int, total: int, interrupt: int)
    requires 0 <= part <= total && total > 0 && 0 <= interrupt <= total
    ensures var f := Fraction(part, total);
      var s := Share(part, total, interrupt);
      0 <= s <= part && s <= interrupt && s * ACCURACY <= interrupt * f < s * ACCURACY + ACCURACY
  {
    var f := Fraction(part, total);
    FractionBounds(part, total);
    MulMono(0, interrupt, f);
    DivisionBounds(interrupt * f, ACCURACY);
    MulMono(interrupt, total, f);
    MulMono(f, ACCURACY, interrupt);
  }

  /** Without overflow the 64-bit arithmetic is exact: nothing wraps and no counter underflows. */
  lemma ShareIsExact(part: int, total: int, interrupt: int)
    requires 0 <= part <= total && total > 0 && 0 <= interrupt <= total
    requires part * ACCURACY < TWO64 && interrupt * Fraction(part, total) < TWO64
    ensures WrappedShare(part, total, interrupt) == Share(part, total, interrupt)
    ensures Wrap(part - Share(part, total, interrupt)) == part - Share(part, total, interrupt)
  {
    NoWrap(part * ACCURACY);
    assert Wrap(part * ACCURACY) / total == Fraction(part, total);
    hide Wrap, Fraction;
    assert 0 <= interrupt * Fraction(part, total) by {
      FractionBounds(part, total);
      MulMono(0, Fraction(part, total), interrupt);
    }
    NoWrap(interrupt * Fraction(part, total));
    assert 0 <= Share(part, total, interrupt) <= part by { ShareBounds(part, total, interrupt); }
    NoWrap(part - Share(part, total, interrupt));
  }

  lemma NoWrap(x: int)
    requires 0 <= x < TWO64
    ensures Wrap(x) == x
  {}

  /** The three shares together take out at most the interrupt time, and fall short of it by less than
      3 + 2 * interrupt / 100000. */
  lemma SharesSum(idle: int, user: int, kernel: int, interrupt: int)
    requires 0 <= idle && 0 <= user && 0 <= kernel
    requires idle + user + kernel > 0 && 0 <= interrupt <= idle + user + kernel
    ensures var total := idle + user + kernel;
      var shares := Share(idle, total, interrupt) + Share(user, total, interrupt) + Share(kernel, total, interrupt);
      shares <= interrupt && ACCURACY * (interrupt - shares) < 3 * ACCURACY + 2 * interrupt
  {
    hide Share, Fraction;
    var total := idle + user + kernel;
    FractionsOf(idle, user, kernel);
    ShareBounds(idle, total, interrupt);
    ShareBounds(user, total, interrupt);
    ShareBounds(kernel, total, interrupt);
    SharesFromFractions(Share(idle, total, interrupt), Share(user, total, interrupt), Share(kernel, total, interrupt),
                        Fraction(idle, total), Fraction(user, total), Fraction(kernel, total), interrupt);
  }

  lemma FractionsOf(idle: int, user: int, kernel: int)
    requires 0 <= idle && 0 <= user && 0 <= kernel && idle + user + kernel > 0
    ensures var total := idle + user + kernel;
      ACCURACY - 2 <= Fraction(idle, total) + Fraction(user, total) + Fraction(kernel, total) <= ACCURACY
  {
    hide Fraction;
    var total := idle + user + kernel;
    FractionBounds(idle, total);
    FractionBounds(user, total);
    FractionBounds(kernel, total);
    FractionsSum(Fraction(idle, total), Fraction(user, total), Fraction(kernel, total), total);
  }

  lemma SharesFromFractions(s1: int, s2: int, s3: int, f1: int, f2: int, f3: int, interrupt: int)
    requires interrupt >= 0 && ACCURACY - 2 <= f1 + f2 + f3 <= ACCURACY
    requires s1 * ACCURACY <= interrupt * f1 < s1 * ACCURACY + ACCURACY
    requires s2 * ACCURACY <= interrupt * f2 < s2 * ACCURACY + ACCURACY
    requires s3 * ACCURACY <= interrupt * f3 < s3 * ACCURACY + ACCURACY
    ensures s1 + s2 + s3 <= interrupt
    ensures ACCURACY * (interrupt - (s1 + s2 + s3)) < 3 * ACCURACY + 2 * interrupt
  {
    assert interrupt * f1 + interrupt * f2 + interrupt * f3 == (f1 + f2 + f3) * interrupt;
    MulMono(f1 + f2 + f3, ACCURACY, interrupt);
    MulMono(ACCURACY - 2, f1 + f2 + f3, interrupt);
  }

  lemma FractionsSum(f1: int, f2: int, f3: int, total: int)
    requires total > 0
    requires f1 * total + f2 * total + f3 * total <= total * ACCURACY
    requires total * ACCURACY < f1 * total + f2 * total + f3 * total + 3 * total
    ensures ACCURACY - 2 <= f1 + f2 + f3 <= ACCURACY
  {
    var f := f1 + f2 + f3;
    assert f1 * total + f2 * total + f3 * total == f * total;
    if f > ACCURACY {
      MulMono(ACCURACY + 1, f, total);
    }
    if f < ACCURACY - 2 {
      MulMono(f, ACCURACY - 3, total);
    }
  }

  /** What is left of a counter, scaled, is its exact proportion up to rounding. */
  lemma CorrectedPart(part: int, total: int, interrupt: int)
    requires 0 <= part <= total && total > 0 && 0 <= interrupt <= total
    ensures var left := part - Share(part, total, interrupt);
      var exact := ACCURACY * (part * (total - interrupt));
      exact <= left * ACCURACY * total < exact + interrupt * total + ACCURACY * total
  {
    var f, s := Fraction(part, total), Share(part, total, interrupt);
    FractionBounds(part, total);
    ShareBounds(part, total, interrupt);
    hide Share, Fraction;
    var left := part - s;
    assert left * ACCURACY == part * ACCURACY - s * ACCURACY;
    MulMono(part * ACCURACY - interrupt * f, left * ACCURACY, total);
    MulMono(left * ACCURACY + 1, part * ACCURACY - interrupt * f + ACCURACY, total);
    MulMono(f * total, part * ACCURACY, interrupt);
    MulMono(part * ACCURACY, f * total + total, interrupt);
    Rearranged(part, total, interrupt, f, left);
  }

  lemma Rearranged(idle: int, total: int, interrupt: int, f: int, left: int)
    ensures (idle * ACCURACY - interrupt * f) * total
         == ACCURACY * (idle * (total - interrupt)) + (idle * ACCURACY * interrupt - f * total * interrupt)
    ensures (idle * ACCURACY - interrupt * f + ACCURACY) * total
         == ACCURACY * (idle * (total - interrupt)) + (idle * ACCURACY * interrupt - f * total * interrupt)
            + ACCURACY * total
    ensures (f * total + total) * interrupt == f * total * interrupt + interrupt * total
    ensures (left * ACCURACY + 1) * total == left * ACCURACY * total + total
  {}

  // ---------------------------------------------------------------- one CPU

  /** Counters for which no product that the correction forms overflows 64 bits. */
  predicate Fits(d: Counters) {
    && 0 <= d.idle && 0 <= d.user && 0 <= d.kernel && 0 <= d.interrupt < TWO64
    && d.idle * ACCURACY < TWO64 && d.user * ACCURACY < TWO64 && d.kernel * ACCURACY < TWO64
    && (0 < Total(d) && d.interrupt <= Total(d) ==>
         && d.interrupt * Fraction(d.idle, Total(d)) < TWO64
         && d.interrupt * Fraction(d.user, Total(d)) < TWO64
         && d.interrupt * Fraction(d.kernel, Total(d)) < TWO64)
  }

  function Total(d: Counters): int { d.idle + d.user + d.kernel }

  /** A sum that fits when scaled is enough, but not needed. */
  lemma SmallCountersFit(d: Counters)
    requires 0 <= d.idle && 0 <= d.user && 0 <= d.kernel && 0 <= d.interrupt < TWO64
    requires Total(d) * ACCURACY < TWO64
    ensures Fits(d)
  {
    if 0 < Total(d) && d.interrupt <= Total(d) {
      hide Fraction;
      ProductFits(d.idle, Total(d), d.interrupt);
      ProductFits(d.user, Total(d), d.interrupt);
      ProductFits(d.kernel, Total(d), d.interrupt);
    }
  }

  lemma ProductFits(part: int, total: int, interrupt: int)
    requires 0 <= part <= total && total > 0 && 0 <= interrupt <= total && total * ACCURACY < TWO64
    ensures interrupt * Fraction(part, total) < TWO64
  {
    FractionBounds(part, total);
    MulMono(Fraction(part, total), ACCURACY, interrupt);
  }

  function CorrectedCounters(d: Counters): Counters
    requires Total(d) > 0
  {
    var t := Total(d);
    Counters(d.idle - Share(d.idle, t, d.interrupt), d.user - Share(d.user, t, d.interrupt),
             d.kernel - Share(d.kernel, t, d.interrupt), d.interrupt)
  }

  lemma CorrectedCountersBounds(d: Counters)
    requires Fits(d) && 0 < Total(d) && d.interrupt <= Total(d)
    ensures var c, t, i := CorrectedCounters(d), Total(d), d.interrupt;
      && 0 <= c.idle <= d.idle && 0 <= c.user <= d.user && 0 <= c.kernel <= d.kernel && c.interrupt == i
      && t <= Total(c) + i && ACCURACY * (Total(c) + i - t) < 3 * ACCURACY + 2 * i
  {
    ShareBounds(d.idle, Total(d), d.interrupt);
    ShareBounds(d.user, Total(d), d.interrupt);
    ShareBounds(d.kernel, Total(d), d.interrupt);
    SharesSum(d.idle, d.user, d.kernel, d.interrupt);
  }

  /** The three outcomes, and when each occurs; where a correction is made nothing wraps. */
  lemma CorrectCases(d: Counters)
    requires Fits(d)
    ensures Correct(d) == InterruptDominates <==> d.interrupt > Total(d)
    ensures Correct(d) == DividesByZero <==> Total(d) == 0 && d.interrupt == 0
    ensures Total(d) > 0 && d.interrupt <= Total(d) ==>
      var c := CorrectedCounters(d);
      Total(c) + c.interrupt > 0 && Correct(d) == Corrected(c, Fraction(c.idle, Total(c) + c.interrupt))
  {
    NoWrap(Total(d));
    if Total(d) > 0 && d.interrupt <= Total(d) {
      CorrectIsExact(d);
      hide Correct;
    }
  }

  lemma CorrectIsExact(d: Counters)
    requires Fits(d) && 0 < Total(d) && d.interrupt <= Total(d)
    ensures var c := CorrectedCounters(d);
      Total(c) + c.interrupt > 0 && Correct(d) == Corrected(c, Fraction(c.idle, Total(c) + c.interrupt))
  {
    hide Wrap, WithFraction, WithoutInterrupt, CorrectedCounters, Fraction;
    var t, c := Total(d), CorrectedCounters(d);
    NoWrap(t);
    assert 0 <= c.idle <= d.idle && t <= Total(c) + c.interrupt < TWO64 by { CorrectedCountersBounds(d); }
    CountersExact(d);
    FractionIsExact(c, t);
  }

  lemma CountersExact(d: Counters)
    requires Fits(d) && 0 < Total(d) && d.interrupt <= Total(d)
    ensures WithoutInterrupt(d, Total(d)) == CorrectedCounters(d)
  {
    hide WrappedShare, Share, Wrap;
    ShareIsExact(d.idle, Total(d), d.interrupt);
    ShareIsExact(d.user, Total(d), d.interrupt);
    ShareIsExact(d.kernel, Total(d), d.interrupt);
  }

  lemma FractionIsExact(c: Counters, t: int)
    requires 0 <= c.idle && c.idle * ACCURACY < TWO64
    requires 0 < t <= Total(c) + c.interrupt < TWO64
    ensures WithFraction(c) == Corrected(c, Fraction(c.idle, Total(c) + c.interrupt))
  {
    NoWrap(c.idle * ACCURACY);
    NoWrap(Total(c) + c.interrupt);
    hide Wrap;
  }

  /** How far f / 100000 may be from idle * (t - i) / t^2: by less than 1/100000 + 3/t + 2i/(100000 t) below
      and 1/t + i/(100000 t) above, stated without division. */
  predicate IdleErrorBounded(f: int, idle: int, t: int, i: int) {
    && ACCURACY * (idle * (t - i)) - t * t - (3 * ACCURACY + 2 * i) * t < f * t * t
    && f * t * t < ACCURACY * (idle * (t - i)) + ACCURACY * t + i * t
  }

  /** A corrected counter is the exact proportion part * (t - i) / t up to rounding, stated without division. */
  predicate Proportional(left: int, part: int, t: int, i: int) {
    var exact := ACCURACY * (part * (t - i));
    exact <= left * ACCURACY * t < exact + i * t + ACCURACY * t
  }

  /** All three counters lose interrupt time in proportion. */
  lemma CorrectedInProportion(d: Counters)
    requires Fits(d) && 0 < Total(d) && d.interrupt <= Total(d)
    ensures var c, t, i := CorrectedCounters(d), Total(d), d.interrupt;
      Proportional(c.idle, d.idle, t, i) && Proportional(c.user, d.user, t, i) && Proportional(c.kernel, d.kernel, t, i)
  {
    hide Share;
    CorrectedPart(d.idle, Total(d), d.interrupt);
    CorrectedPart(d.user, Total(d), d.interrupt);
    CorrectedPart(d.kernel, Total(d), d.interrupt);
  }

  /** No corrected counter underflows or grows; the corrected total lies at most 3 + 2I/100000 above the
      measured one; and the idle fraction differs from the exact idle * (T - I) / T^2 by rounding only. */
  lemma CorrectionAccuracy(d: Counters)
    requires Fits(d) && 0 < Total(d) && d.interrupt <= Total(d)
    ensures Correct(d).Corrected?
    ensures var c, f, t, i := Correct(d).counters, Correct(d).fractionIdle, Total(d), d.interrupt;
      && 0 <= c.idle <= d.idle && 0 <= c.user <= d.user && 0 <= c.kernel <= d.kernel && c.interrupt == i
      && t <= Total(c) + i && ACCURACY * (Total(c) + i - t) < 3 * ACCURACY + 2 * i
      && 0 <= f <= ACCURACY
      && IdleErrorBounded(f, d.idle, t, i)
  {
    hide Correct, Share, Fraction, CorrectedCounters, IdleErrorBounded;
    var t, i := Total(d), d.interrupt;
    CorrectCases(d);
    CorrectedCountersBounds(d);
    var c := CorrectedCounters(d);
    CorrectedInProportion(d);
    var t' := Total(c) + i;
    FractionBounds(c.idle, t');
    IdleFractionBounded(c.idle, d.idle, t, t', Correct(d).fractionIdle, i);
  }

  lemma IdleFractionBounded(left: int, idle: int, t: int, t': int, f: int, i: int)
    requires 0 < t <= t' && ACCURACY * (t' - t) < 3 * ACCURACY + 2 * i
    requires 0 <= left <= t' && i >= 0
    requires 0 <= f && f * t' <= left * ACCURACY < f * t' + t'
    requires var exact := ACCURACY * (idle * (t - i));
      exact <= left * ACCURACY * t < exact + i * t + ACCURACY * t
    ensures IdleErrorBounded(f, idle, t, i)
  {
    IdleFractionError(left, t, t', f, i, ACCURACY * (idle * (t - i)));
  }

  lemma IdleFractionError(left: int, t: int, t': int, f: int, i: int, exact: int)
    requires 0 < t <= t' && ACCURACY * (t' - t) < 3 * ACCURACY + 2 * i
    requires 0 <= left <= t' && i >= 0
    requires 0 <= f && f * t' <= left * ACCURACY < f * t' + t'
    requires exact <= left * ACCURACY * t < exact + i * t + ACCURACY * t
    ensures exact - t * t - (3 * ACCURACY + 2 * i) * t < f * t * t < exact + ACCURACY * t + i * t
  {
    var y := left * ACCURACY;
    assert f * t * t < exact + ACCURACY * t + i * t by {
      FractionBelow(y, t, t', f);
      MulMono(f * t, y, t);
    }
    assert exact - t * t - (3 * ACCURACY + 2 * i) * t < f * t * t by {
      FractionAbove(y, t, t', f);
      ErrorBelow(y, f * t, t, ACCURACY * (t' - t), 3 * ACCURACY + 2 * i, exact);
    }
  }

  lemma ErrorBelow(y: int, ft: int, t: int, gap: int, slack: int, exact: int)
    requires 0 < t && gap < slack && exact <= y * t && y - gap - t < ft
    ensures exact - t * t - slack * t < ft * t
  {}

  lemma FractionBelow(y: int, t: int, t': int, f: int)
    requires 0 < t <= t' && 0 <= f && f * t' <= y
    ensures f * t <= y
  {}

  lemma FractionAbove(y: int, t: int, t': int, f: int)
    requires 0 < t <= t' && y <= ACCURACY * t' && y < f * t' + t'
    ensures y - ACCURACY * (t' - t) - t < f * t
  {}

  // ---------------------------------------------------------------- all CPUs

  /** The utilisation in percent before it is corrected for the elapsed time. */
  function Percent(fractionIdle: int): real {
    100.0 - fractionIdle as real / ACCURACY as real * 100.0
  }

  function Scaled(fractionIdle: int, factor: real): real {
    Percent(fractionIdle) * factor
  }

  /** `Punted` is the reported -1. */
  datatype Utilisation = Average(percent: real) | Punted | Aborted

  function CorrectionFactor(libElapsed: real, elapsed: real): real {
    if elapsed != 0.0 then 1.0 + (libElapsed - elapsed) / elapsed else 1.0
  }

  /** Scaling a utilisation measured over one time to another. */
  lemma FactorRescales(libElapsed: real, elapsed: real)
    ensures elapsed != 0.0 ==> CorrectionFactor(libElapsed, elapsed) * elapsed == libElapsed
    ensures elapsed == 0.0 ==> CorrectionFactor(libElapsed, elapsed) == 1.0
  {
    if elapsed != 0.0 {
      var q := (libElapsed - elapsed) / elapsed;
      assert q * elapsed == libElapsed - elapsed;
      assert (1.0 + q) * elapsed == elapsed + q * elapsed;
    }
  }

  /** How far 100 - u may be from 100 * idle * (t - i) / t^2, stated without division. */
  predicate BusyErrorBounded(u: real, idle: int, t: int, i: int) {
    (ACCURACY * (idle * (t - i)) - t * t - (3 * ACCURACY + 2 * i) * t) as real
      < 1000.0 * (100.0 - u) * (t * t) as real
      < (ACCURACY * (idle * (t - i)) + ACCURACY * t + i * t) as real
  }

  lemma BusyFromIdle(f: int, u: real, idle: int, t: int, i: int)
    requires IdleErrorBounded(f, idle, t, i) && 1000.0 * (100.0 - u) == f as real
    ensures BusyErrorBounded(u, idle, t, i)
  {
    var exact := ACCURACY * (idle * (t - i));
    assert f * t * t == f * (t * t);
    BetweenReals(exact - t * t - (3 * ACCURACY + 2 * i) * t, f, t * t, exact + ACCURACY * t + i * t, f as real);
  }

  lemma BetweenReals(lo: int, f: int, square: int, hi: int, x: real)
    requires lo < f * square < hi && x == f as real
    ensures lo as real < x * square as real < hi as real
  {
    assert (f * square) as real == f as real * square as real;
  }

  /** What is reported for one CPU is its busy share: a hundred less the idle time without its share of the
      interrupt time, up to rounding, and exact at both ends. */
  lemma UtilisationAccuracy(d: Counters, factor: real)
    requires Fits(d) && 0 < Total(d) && d.interrupt <= Total(d)
    ensures Correct(d).Corrected?
    ensures var f, t, i := Correct(d).fractionIdle, Total(d), d.interrupt;
      var u := Scaled(f, 1.0);
      && Scaled(f, factor) == u * factor
      && BusyErrorBounded(u, d.idle, t, i)
      && (d.idle == t && i == 0 ==> Scaled(f, factor) == 0.0)
      && (d.idle == 0 ==> Scaled(f, factor) == 100.0 * factor)
  {
    hide Correct, Fits, Scaled, IdleErrorBounded, BusyErrorBounded;
    CorrectionAccuracy(d);
    var f := Correct(d).fractionIdle;
    UtilisationOfFraction(f, factor);
    BusyFromIdle(f, Scaled(f, 1.0), d.idle, Total(d), d.interrupt);
    IdleAtBothEnds(d);
  }

  lemma UtilisationOfFraction(f: int, factor: real)
    ensures Scaled(f, factor) == Scaled(f, 1.0) * factor
    ensures 1000.0 * (100.0 - Scaled(f, 1.0)) == f as real
    ensures f == ACCURACY ==> Scaled(f, factor) == 0.0
    ensures f == 0 ==> Scaled(f, factor) == 100.0 * factor
  {}

  lemma IdleAtBothEnds(d: Counters)
    requires Fits(d) && 0 < Total(d) && d.interrupt <= Total(d)
    ensures Correct(d).Corrected?
    ensures d.idle == Total(d) && d.interrupt == 0 ==> Correct(d).fractionIdle == ACCURACY
    ensures d.idle == 0 ==> Correct(d).fractionIdle == 0
  {
    hide Correct, CorrectedCounters, Fraction;
    CorrectCases(d);
    CorrectedCountersBounds(d);
    FractionAtEnds(CorrectedCounters(d).idle, Total(CorrectedCounters(d)) + d.interrupt);
  }

  lemma FractionAtEnds(part: int, total: int)
    requires total > 0
    ensures part == 0 ==> Fraction(part, total) == 0
    ensures part == total ==> Fraction(part, total) == ACCURACY
  {
    Remainder(0, 0, total, 0);
    Remainder(ACCURACY * total, ACCURACY, total, 0);
  }

  /** The sum of the utilisations of the first n CPUs, or the first failure among them. */
  function Accumulated(starting: seq<Counters>, ending: seq<Counters>, factor: real, n: nat): Utilisation
    requires n <= |starting| == |ending|
  {
    if n == 0 then Average(0.0)
    else
      match Accumulated(starting, ending, factor, n - 1)
      case Punted => Punted
      case Aborted => Aborted
      case Average(sum) =>
        match Correct(Delta(starting[n - 1], ending[n - 1]))
        case InterruptDominates => Punted
        case DividesByZero => Aborted
        case Corrected(_, f) => Average(sum + Scaled(f, factor))
  }

  lemma {:induction false} FailureStays(starting: seq<Counters>, ending: seq<Counters>, factor: real, n: nat, m: nat)
    requires n <= m <= |starting| == |ending| && !Accumulated(starting, ending, factor, n).Average?
    ensures Accumulated(starting, ending, factor, m) == Accumulated(starting, ending, factor, n)
  {
    if n < m {
      FailureStays(starting, ending, factor, n, m - 1);
    }
  }

  /** What the loop leaves for the first n CPUs. */
  ghost predicate Processed(starting: seq<Counters>, ending: seq<Counters>, factor: real, n: nat,
                            delta: array<Counters>, corrected: array<Counters>, perCpu: array<real>)
    requires n <= |starting| == |ending| == delta.Length == corrected.Length == perCpu.Length
    reads delta, corrected, perCpu
  {
    forall i :: 0 <= i < n ==>
      && delta[i] == Delta(starting[i], ending[i])
      && Correct(delta[i]).Corrected? && corrected[i] == Correct(delta[i]).counters
      && perCpu[i] == Scaled(Correct(delta[i]).fractionIdle, factor)
  }

  /** One pass of the loop. */
  method CorrectCpu(start: Counters, end: Counters, factor: real, i: nat,
                    delta: array<Counters>, corrected: array<Counters>, perCpu: array<real>)
    returns (outcome: Correction)
    requires i < delta.Length == corrected.Length == perCpu.Length && delta != corrected
    modifies delta, corrected, perCpu
    ensures delta[i] == Delta(start, end) && outcome == Correct(delta[i])
    ensures corrected[i] == if outcome.Corrected? then outcome.counters else old(corrected[i])
    ensures perCpu[i] == match outcome
                         case Corrected(_, fractionIdle) => Scaled(fractionIdle, factor)
                         case InterruptDominates => -1.0
                         case DividesByZero => old(perCpu[i])
    ensures forall j :: 0 <= j < delta.Length && j != i ==>
      delta[j] == old(delta[j]) && corrected[j] == old(corrected[j]) && perCpu[j] == old(perCpu[j])
  {
    hide Correct, Scaled, Delta;
    delta[i] := Delta(start, end);
    outcome := Correct(delta[i]);
    match outcome {
      case InterruptDominates => perCpu[i] := -1.0;
      case DividesByZero =>
      case Corrected(counters, fractionIdle) =>
        corrected[i] := counters;
        perCpu[i] := Scaled(fractionIdle, factor);
    }
  }

  /** `done` CPUs are processed; if there is one more it is the first to fail, and no entry after it is
      written. */
  method CalcCpuUtil(starting: seq<Counters>, ending: seq<Counters>, libElapsed: real, elapsed: real,
                     delta: array<Counters>, corrected: array<Counters>, perCpu: array<real>)
    returns (result: Utilisation, ghost done: nat)
    requires 0 < |starting| == |ending| == delta.Length == corrected.Length == perCpu.Length
    requires delta != corrected
    modifies delta, corrected, perCpu
    ensures var factor := CorrectionFactor(libElapsed, elapsed);
      && done <= |starting| && Processed(starting, ending, factor, done, delta, corrected, perCpu)
      && match Accumulated(starting, ending, factor, |starting|)
         case Average(_) => done == |starting| && result == Average(Mean(perCpu[..]))
         case Punted =>
           && result == Punted && done < |starting|
           && Correct(Delta(starting[done], ending[done])) == InterruptDominates && perCpu[done] == -1.0
         case Aborted =>
           && result == Aborted && done < |starting|
           && Correct(Delta(starting[done], ending[done])) == DividesByZero && perCpu[done] == old(perCpu[done])
    ensures done < |starting| ==>
      delta[done] == Delta(starting[done], ending[done]) && corrected[done] == old(corrected[done])
    ensures forall i :: done < i < |starting| ==>
      delta[i] == old(delta[i]) && corrected[i] == old(corrected[i]) && perCpu[i] == old(perCpu[i])
  {
    var factor := CorrectionFactor(libElapsed, elapsed);
    var sum := 0.0;
    hide Correct, Scaled, Delta, CorrectionFactor, Sum, SumSquares, Mean, Accumulated;
    AccumulatedNone(starting, ending, factor);
    EmptySum();
    for i := 0 to |starting|
      invariant Accumulated(starting, ending, factor, i) == Average(sum) && sum == Sum(perCpu[..i])
      invariant Processed(starting, ending, factor, i, delta, corrected, perCpu)
      invariant forall j :: i <= j < |starting| ==>
        delta[j] == old(delta[j]) && corrected[j] == old(corrected[j]) && perCpu[j] == old(perCpu[j])
    {
      ghost var before := perCpu[..i];
      AccumulatedNext(starting, ending, factor, i);
      var outcome := CorrectCpu(starting[i], ending[i], factor, i, delta, corrected, perCpu);
      if !outcome.Corrected? {
        FailureStays(starting, ending, factor, i + 1, |starting|);
        return if outcome.InterruptDominates? then Punted else Aborted, i;
      }
      assert perCpu[..i + 1] == before + [perCpu[i]];
      SumsSnoc(before, perCpu[i]);
      sum := sum + perCpu[i];
    }
    assert perCpu[..|starting|] == perCpu[..];
    MeanFromSum(perCpu[..]);
    result, done := Average(sum / |starting| as real), |starting|;
  }

  lemma AccumulatedNone(starting: seq<Counters>, ending: seq<Counters>, factor: real)
    requires |starting| == |ending|
    ensures Accumulated(starting, ending, factor, 0) == Average(0.0)
  {}

  lemma AccumulatedNext(starting: seq<Counters>, ending: seq<Counters>, factor: real, n: nat)
    requires n < |starting| == |ending| && Accumulated(starting, ending, factor, n).Average?
    ensures var c := Correct(Delta(starting[n], ending[n]));
      var next := Accumulated(starting, ending, factor, n + 1);
      && (c == InterruptDominates ==> next == Punted)
      && (c == DividesByZero ==> next == Aborted)
      && (c.Corrected? ==>
           next == Average(Accumulated(starting, ending, factor, n).percent + Scaled(c.fractionIdle, factor)))
  {}

  lemma EmptySum()
    ensures Sum([]) == 0.0
  {}

  lemma MeanFromSum(s: seq<real>)
    requires s != []
    ensures Mean(s) == Sum(s) / |s| as real
  {}

  ghost predicate Measurable(starting: seq<Counters>, ending: seq<Counters>, n: nat)
    requires n <= |starting| == |ending|
  {
    forall i :: 0 <= i < n ==>
      var d := Delta(starting[i], ending[i]); Fits(d) && 0 < Total(d) && d.interrupt <= Total(d)
  }

  function Limit(n: nat, factor: real): real {
    n as real * (100.0 * factor)
  }

  lemma {:induction false} SumInRange(starting: seq<Counters>, ending: seq<Counters>, factor: real, n: nat)
    requires n <= |starting| == |ending| && factor >= 0.0 && Measurable(starting, ending, n)
    ensures Accumulated(starting, ending, factor, n).Average?
    ensures 0.0 <= Accumulated(starting, ending, factor, n).percent <= Limit(n, factor)
  {
    if n > 0 {
      hide Correct, Fits, Total, Scaled, Percent, Limit;
      SumInRange(starting, ending, factor, n - 1);
      OneCpuInRange(Delta(starting[n - 1], ending[n - 1]), factor);
      NextLimit(n, factor);
    }
  }

  /** Wherever the counters fit and no CPU reports more interrupt time than total time, the reported
      average lies between 0 and 100 percent of the correction factor. */
  lemma AverageInRange(starting: seq<Counters>, ending: seq<Counters>, factor: real)
    requires 0 < |starting| == |ending| && factor >= 0.0 && Measurable(starting, ending, |starting|)
    ensures Accumulated(starting, ending, factor, |starting|).Average?
    ensures var sum := Accumulated(starting, ending, factor, |starting|).percent;
      0.0 <= sum / |starting| as real <= 100.0 * factor
  {
    SumInRange(starting, ending, factor, |starting|);
    hide Accumulated, Measurable;
    DivideLimit(Accumulated(starting, ending, factor, |starting|).percent, |starting|, factor);
  }

  lemma DivideLimit(sum: real, n: nat, factor: real)
    requires n > 0 && 0.0 <= sum <= Limit(n, factor)
    ensures 0.0 <= sum / n as real <= 100.0 * factor
  {}

  lemma NextLimit(n: nat, factor: real)
    requires n > 0
    ensures Limit(n, factor) == Limit(n - 1, factor) + 100.0 * factor
  {}

  lemma OneCpuInRange(d: Counters, factor: real)
    requires Fits(d) && 0 < Total(d) && d.interrupt <= Total(d) && factor >= 0.0
    ensures Correct(d).Corrected?
    ensures 0.0 <= Percent(Correct(d).fractionIdle) <= 100.0
    ensures 0.0 <= Scaled(Correct(d).fractionIdle, factor) <= 100.0 * factor
  {
    hide Correct, Percent, Scaled;
    FractionInRange(d);
    PercentInRange(Correct(d).fractionIdle);
    ScaledInRange(Correct(d).fractionIdle, factor);
  }

  lemma ScaledInRange(f: int, factor: real)
    requires 0.0 <= Percent(f) <= 100.0 && factor >= 0.0
    ensures 0.0 <= Scaled(f, factor) <= 100.0 * factor
  {
    hide Percent;
    ProductNonNegative(Percent(f), factor);
    ProductNonNegative(100.0 - Percent(f), factor);
  }

  lemma FractionInRange(d: Counters)
    requires Fits(d) && 0 < Total(d) && d.interrupt <= Total(d)
    ensures Correct(d).Corrected? && 0 <= Correct(d).fractionIdle <= ACCURACY
  {
    hide Correct;
    CorrectionAccuracy(d);
  }

  lemma PercentInRange(f: int)
    requires 0 <= f <= ACCURACY
    ensures 0.0 <= Percent(f) <= 100.0
  {}

  lemma ProductNonNegative(a: real, b: real)
    requires a >= 0.0 && b >= 0.0
    ensures a * b >= 0.0
  {}
}
