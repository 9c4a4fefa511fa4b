/** The histogram object: decade rows of cells, running statistics and the ring of outstanding
    timestamps, all updated in place. */
module LatencyHistogram {
  import opened Division
  import opened Counting
  import opened Histogram
  import opened Moments
  import opened Timestamps
  import TimestampRing

  ghost function Reals(s: seq<int>): (r: seq<real>)
    ensures |r| == |s|
    ensures forall i :: 0 <= i < |s| ==> r[i] == s[i] as real
  {
    seq(|s|, i requires 0 <= i < |s| => s[i] as real)
  }

  class HistogramStruct {
    /** The eight rows, from unit_usec to ten_sec. */
    const cells: array2<int>
    var ridiculous: int
    var total: int
    var sum: int
    var sumsquare: real
    var hmin: int
    var hmax: int
    const limit: int
    var count: int
    var producer: int
    var consumer: int
    const timeOnes: array<Timestamp>
    const timeTwo: Timestamp

    /** Every difference ever added, and those added while statistics were kept. */
    ghost var added: seq<int>
    ghost var tracked: seq<int>

    // ------------------------------------------------------------ invariants

    /** Each cell counts the differences of `s` that belong in it. */
    ghost predicate CellsHold(s: seq<int>)
      reads this`ridiculous, cells
    {
      && cells.Length0 == ROWS && cells.Length1 == NUM_OF_BUCKET
      && (forall row, cell :: 0 <= row < ROWS && 0 <= cell < NUM_OF_BUCKET ==>
           cells[row, cell] == Count(s, InCell(row, cell)))
      && ridiculous == Count(s, Ridiculous())
    }

    /** The running statistics of `s`, and the sum of squares of `squared`. */
    ghost predicate StatisticsHold(s: seq<int>, squared: seq<int>)
      reads this`total, this`sum, this`sumsquare, this`hmin, this`hmax
    {
      SumsOf(s, squared, total, sum, sumsquare) && ExtremesOf(s, hmin, hmax)
    }

    ghost predicate RingAllocated()
      reads timeOnes
    {
      && timeOnes.Length == limit
      && (forall i, j :: 0 <= i < j < limit ==> timeOnes[i] != timeOnes[j])
      && (forall i :: 0 <= i < limit ==> timeOnes[i] != timeTwo)
    }

    ghost function Ring(): TimestampRing.Ring
      requires RingAllocated()
      reads this`count, this`producer, this`consumer, timeOnes, timeOnes[..]
    {
      TimestampRing.Ring(limit, count, producer, consumer, Slots())
    }

    ghost function Slots(): (slots: seq<TimeVal>)
      requires RingAllocated()
      reads timeOnes, timeOnes[..]
      ensures |slots| == limit
      ensures forall i :: 0 <= i < limit ==> slots[i] == timeOnes[i].Value()
    {
      seq(limit, i requires 0 <= i < limit reads timeOnes, timeOnes[..] => timeOnes[i].Value())
    }

    ghost predicate Valid()
      reads this, cells, timeOnes, timeOnes[..]
    {
      CellsHold(added) && StatisticsHold(added, tracked) && RingAllocated() && Ring().WellFormed()
    }

    // ------------------------------------------------------------ HIST_new_n, HIST_purge

    constructor NewN(maxOutstanding: nat)
      ensures Valid() && added == [] && tracked == []
      ensures limit == maxOutstanding + 1
      ensures TimestampRing.Represents(Ring(), [])
      ensures fresh(cells) && fresh(timeOnes) && fresh(timeTwo)
      ensures forall i :: 0 <= i < limit ==> fresh(timeOnes[i])
    {
      var rows := ClearedRows();
      var slots, spare := AllocatedSlots(maxOutstanding + 1);
      cells := rows;
      ridiculous, total, sum, sumsquare, hmin, hmax := 0, 0, 0, 0.0, 0, 0;
      limit := maxOutstanding + 1;
      count, producer, consumer := 0, 0, 0;
      timeOnes := slots;
      timeTwo := spare;
      added, tracked := [], [];
      new;
      assert CellsHold([]);
      assert StatisticsHold([], []);
    }

    /** All cells of all rows, set to zero together as HIST_clear does. */
    static method ClearedRows() returns (rows: array2<int>)
      ensures fresh(rows) && rows.Length0 == ROWS && rows.Length1 == NUM_OF_BUCKET
      ensures forall row, cell :: 0 <= row < ROWS && 0 <= cell < NUM_OF_BUCKET ==> rows[row, cell] == 0
    {
      rows := new int[ROWS, NUM_OF_BUCKET];
      for i := 0 to NUM_OF_BUCKET
        invariant forall row, cell :: 0 <= row < ROWS && 0 <= cell < i ==> rows[row, cell] == 0
      {
        rows[0, i], rows[1, i], rows[2, i], rows[3, i] := 0, 0, 0, 0;
        rows[4, i], rows[5, i], rows[6, i], rows[7, i] := 0, 0, 0, 0;
      }
    }

    /** The slots of the ring, and one timestamp more for the end of a difference. */
    static method AllocatedSlots(n: nat) returns (slots: array<Timestamp>, spare: Timestamp)
      requires n > 0
      ensures fresh(slots) && slots.Length == n && fresh(spare)
      ensures forall i :: 0 <= i < n ==> fresh(slots[i]) && slots[i] != spare
      ensures forall i, j :: 0 <= i < j < n ==> slots[i] != slots[j]
    {
      var first := new Timestamp();
      spare := new Timestamp();
      slots := new Timestamp[n](_ => first);
      var i := 1;
      while i < n
        invariant 1 <= i <= n
        invariant forall j :: 0 <= j < n ==> fresh(slots[j]) && slots[j] != spare
        invariant forall j :: i <= j < n ==> slots[j] == first
        invariant forall j, k :: 0 <= j < k < i ==> slots[j] != slots[k]
      {
        slots[i] := new Timestamp();
        i := i + 1;
      }
    }

    method Purge()
      requires Valid()
      modifies this`count, this`producer, this`consumer
      ensures Valid()
      ensures Ring() == TimestampRing.Purge(old(Ring()))
    {
      count, producer, consumer := 0, 0, 0;
    }

    // ------------------------------------------------------------ HIST_add

    /** Records a difference; `keepStatistics` is the global flag for the sum of squares. */
    method Add(timeDelta: int, keepStatistics: bool)
      requires Valid()
      modifies this`ridiculous, this`total, this`sum, this`sumsquare, this`hmin, this`hmax,
               this`added, this`tracked, cells
      ensures Valid()
      ensures added == old(added) + [timeDelta]
      ensures tracked == old(tracked) + (if keepStatistics then [timeDelta] else [])
      ensures Ring() == old(Ring())
    {
      hide SumsOf, ExtremesOf, Count, Slots;
      ghost var squared := tracked + (if keepStatistics then [timeDelta] else []);
      if timeDelta < 0 {
        ridiculous := ridiculous + 1;
        AddedOne(timeDelta);
        AddedNegative(added, tracked, timeDelta, keepStatistics, total, sum, sumsquare, hmin, hmax);
      } else {
        AddStatistics(timeDelta, keepStatistics);
        AddCell(timeDelta);
      }
      added := added + [timeDelta];
      tracked := squared;
    }

    lemma AddedOne(x: int)
      ensures Count(added + [x], Ridiculous()) == Count(added, Ridiculous()) + (if Ridiculous()(x) then 1 else 0)
      ensures forall row: nat, cell: nat :: Count(added + [x], InCell(row, cell))
                == Count(added, InCell(row, cell)) + (if InCell(row, cell)(x) then 1 else 0)
    {}

    method AddStatistics(timeDelta: nat, keepStatistics: bool)
      requires StatisticsHold(added, tracked)
      modifies this`total, this`sum, this`sumsquare, this`hmin, this`hmax
      ensures StatisticsHold(added + [timeDelta], tracked + (if keepStatistics then [timeDelta] else []))
    {
      hide SumsOf, ExtremesOf, Squared;
      SumsSnocCounted(added, tracked, timeDelta, keepStatistics, total, sum, sumsquare);
      ExtremesSnoc(added, tracked, timeDelta, total, sum, sumsquare, hmin, hmax);
      if total == 0 {
        hmin, hmax := timeDelta, timeDelta;
      }
      total := total + 1;
      sum := sum + timeDelta;
      if keepStatistics {
        sumsquare := sumsquare + Squared(timeDelta);
      }
      hmin := if hmin < timeDelta then hmin else timeDelta;
      hmax := if hmax > timeDelta then hmax else timeDelta;
    }

    /** One more in the cell of the difference, or in `ridiculous` past the last row. */
    method AddCell(timeDelta: nat)
      requires CellsHold(added)
      modifies this`ridiculous, cells
      ensures CellsHold(added + [timeDelta])
    {
      var base := (NUM_OF_BUCKET / 10) as real;
      assert base == 10.0;
      var row, val := Locate(timeDelta);
      AddedOne(timeDelta);
      OneCell(timeDelta);
      hide Count, InCell, Row, Cell;
      if row < ROWS {
        var cell := (val * base).Floor;
        cells[row, cell] := cells[row, cell] + 1;
      } else {
        ridiculous := ridiculous + 1;
      }
    }

    /** The cascade that divides by ten until the value is below ten. */
    static method Locate(timeDelta: nat) returns (row: nat, val: real)
      ensures row == Row(timeDelta)
      ensures row < ROWS ==> Cell(timeDelta) == (val * 10.0).Floor
    {
      val := timeDelta as real;
      if val < 10.0 { row := 0; }
      else {
        val := val / 10.0;
        if val < 10.0 { row := 1; }
        else {
          val := val / 10.0;
          if val < 10.0 { row := 2; }
          else {
            val := val / 10.0;
            if val < 10.0 { row := 3; }
            else {
              val := val / 10.0;
              if val < 10.0 { row := 4; }
              else {
                val := val / 10.0;
                if val < 10.0 { row := 5; }
                else {
                  val := val / 10.0;
                  if val < 10.0 { row := 6; }
                  else {
                    val := val / 10.0;
                    if val < 10.0 { row := 7; } else { row := ROWS; }
                  }
                }
              }
            }
          }
        }
      }
      if row < ROWS {
        ScaledCell(timeDelta, row, val);
      }
    }

    // ------------------------------------------------------------ HIST_timestamp_start, _stop_add

    method TimestampStart(now: TimeVal)
      requires Valid()
      modifies this`count, this`producer, timeOnes[producer]
      ensures Valid()
      ensures Ring() == TimestampRing.Start(old(Ring()), now)
    {
      hide CellsHold, StatisticsHold, Slots;
      timeOnes[producer].Take(now);
      producer := producer + 1;
      producer := producer % limit;
      count := count + 1;
    }

    /** `ok` is false when the source exits on an empty queue. */
    method TimestampStopAdd(now: TimeVal, keepStatistics: bool) returns (ok: bool)
      requires Valid()
      modifies this, cells, timeTwo
      ensures Valid()
      ensures match TimestampRing.Stop(old(Ring()), now)
        case Exited => !ok && Ring() == old(Ring()) && added == old(added) && tracked == old(tracked)
        case Added(ring, delta) =>
          && ok && Ring() == ring && added == old(added) + [delta]
          && tracked == old(tracked) + (if keepStatistics then [delta] else [])
    {
      hide CellsHold, StatisticsHold, Slots;
      if consumer == producer {
        return false;
      }
      timeTwo.Take(now);
      var delta := DeltaMicro(timeOnes[consumer], timeTwo);
      assert Slots() == old(Slots());
      Add(delta, keepStatistics);
      consumer := consumer + 1;
      consumer := consumer % limit;
      count := count - 1;
      ok := true;
    }

    // ------------------------------------------------------------ rows

    /** What the first `n` cells of a row hold. */
    ghost function RowPrefix(row: nat, n: nat): int
      requires row < cells.Length0 && n <= cells.Length1
      reads this, cells
    {
      if n == 0 then 0 else RowPrefix(row, n - 1) + cells[row, n - 1]
    }

    /** The cells before a position count the samples that precede it in the order of the search. */
    lemma {:induction false} RowPrefixCounts(row: nat, n: nat)
      requires CellsHold(added) && row < ROWS && n <= NUM_OF_BUCKET
      ensures Count(added, Before(row, n)) == Count(added, Before(row, 0)) + RowPrefix(row, n)
    {
      if n > 0 {
        RowPrefixCounts(row, n - 1);
        BeforeNext(added, row, n - 1);
      }
    }

    method SumRow(row: nat) returns (s: int)
      requires cells.Length1 == NUM_OF_BUCKET && row < cells.Length0
      ensures s == RowPrefix(row, NUM_OF_BUCKET)
    {
      s := 0;
      for i := 0 to NUM_OF_BUCKET
        invariant s == RowPrefix(row, i)
      {
        s := s + cells[row, i];
      }
    }

    /** The ten columns printed for a row: each is the sum of a tenth of its cells. */
    method OutputRow(row: nat) returns (columns: seq<int>)
      requires cells.Length1 == NUM_OF_BUCKET && row < cells.Length0
      ensures |columns| == 10
      ensures forall i :: 0 <= i < 10 ==>
                columns[i] == RowPrefix(row, (i + 1) * BASE) - RowPrefix(row, i * BASE)
      ensures Printed(columns) == RowPrefix(row, NUM_OF_BUCKET)
    {
      var base := NUM_OF_BUCKET / 10;
      columns := [];
      for i := 0 to 10
        invariant |columns| == i
        invariant forall k :: 0 <= k < i ==>
                    columns[k] == RowPrefix(row, (k + 1) * BASE) - RowPrefix(row, k * BASE)
        invariant Printed(columns) == RowPrefix(row, i * BASE)
      {
        var sum := 0;
        for j := i * base to (i + 1) * base
          invariant sum == RowPrefix(row, j) - RowPrefix(row, i * BASE)
        {
          sum := sum + cells[row, j];
        }
        assert (columns + [sum])[..i] == columns;
        columns := columns + [sum];
      }
    }

    ghost function RowsPrefix(rows: nat): int
      requires rows <= cells.Length0
      reads this, cells
    {
      if rows == 0 then 0 else RowsPrefix(rows - 1) + RowPrefix(rows - 1, cells.Length1)
    }

    lemma {:induction false} RowsPrefixCounts(rows: nat)
      requires CellsHold(added) && rows <= ROWS
      ensures RowsPrefix(rows) == Count(added, Before(rows, 0))
    {
      if rows == 0 {
        BeforeFirst(added);
      } else {
        RowsPrefixCounts(rows - 1);
        RowPrefixCounts(rows - 1, NUM_OF_BUCKET);
        BeforeNextRow(added, rows - 1);
      }
    }

    /** Nothing added is lost: the cells of all rows and `ridiculous` account for the total and the
        negative differences, and the cells below a tenth of an upper row stay empty. */
    lemma Conservation()
      requires Valid()
      ensures RowsPrefix(ROWS) + ridiculous == total + Count(added, Negative()) == |added|
      ensures forall row, cell :: 0 < row < ROWS && 0 <= cell < BASE ==> cells[row, cell] == 0
    {
      RowsPrefixCounts(ROWS);
      Partition(added);
      CountedLength(added);
      forall row, cell | 0 < row < ROWS && 0 <= cell < BASE ensures cells[row, cell] == 0 {
        UsedCell(added, row, cell);
      }
    }

    // ------------------------------------------------------------ HIST_get_stats

    /** `variance` is the square of the reported standard deviation. */
    method GetStats() returns (min: int, max: int, mean: real, variance: real)
      requires Valid()
      ensures min == hmin && max == hmax
      ensures total == 0 ==> mean == 0.0 && variance == 0.0
      ensures total > 0 ==> mean == Mean(Reals(Counted(added)))
      ensures total > 0 && tracked == added ==> variance == Variance(Reals(Counted(added)))
    {
      hide Sum, SumSquares, Counted, Mean, Variance, VarianceFromSums;
      min := hmin;
      max := hmax;
      if total != 0 {
        mean := sum as real / total as real;
        variance := VarianceFromSums(total as real, sum as real, sumsquare);
        VarianceOfSums(Reals(Counted(added)), sum as real, sumsquare);
      } else {
        mean, variance := 0.0, 0.0;
      }
    }

    /** With statistics kept throughout, the recorded extremes enclose the mean, and the reported
        variance is never negative, zero exactly when all counted differences agree, and limited by
        the distances of the mean to the extremes. */
    lemma StatisticsBounds()
      requires Valid() && tracked == added && total > 0
      ensures var c := Reals(Counted(added));
        && hmin as real <= Mean(c) <= hmax as real
        && 0.0 <= Variance(c) <= (hmax as real - Mean(c)) * (Mean(c) - hmin as real)
        && (Variance(c) == 0.0 <==> forall x | x in Counted(added) :: x == hmin)
    {
      hide Sum, SumSquares, Counted, Mean, Variance;
      SampleBounds(Counted(added), hmin, hmax);
    }

    // ------------------------------------------------------------ HIST_search_bucket, HIST_get_percentile

    /** One row searched from the running counter `current`: `hit` is the first cell at which the
        counter reaches `num`, or NUM_OF_BUCKET if there is none. */
    ghost predicate Searched(row: nat, num: int, current: int, scale: real, hit: nat,
                             result: CInt, last': int, current': int)
      requires cells.Length1 == NUM_OF_BUCKET && row < cells.Length0
      reads this, cells
    {
      && hit <= NUM_OF_BUCKET
      && (hit > 0 ==> current + RowPrefix(row, hit) < num)
      && (hit == NUM_OF_BUCKET ==> result == Int(0) && current' == current + RowPrefix(row, hit))
      && (hit < NUM_OF_BUCKET ==>
           && last' == current + RowPrefix(row, hit)
           && current' == current + RowPrefix(row, hit + 1) >= num
           && result == Interpolated(hit, num - last', current' - last', scale))
    }

    method SearchBucket(row: nat, num: int, last: int, current: int, scale: real)
      returns (result: CInt, last': int, current': int, ghost hit: nat)
      requires cells.Length0 == ROWS && cells.Length1 == NUM_OF_BUCKET && row < ROWS
      ensures Searched(row, num, current, scale, hit, result, last', current')
      ensures CellsHold(added) && scale == Scale(row) as real && Searching(row, num, current) ==>
        if result == Int(0) then Searching(row + 1, num, current') else IsPercentile(added, num, result)
    {
      hide CellsHold, Searching, IsPercentile, Interpolated;
      last', current' := last, current;
      for i := 0 to NUM_OF_BUCKET
        invariant current' == current + RowPrefix(row, i)
        invariant i > 0 ==> current' < num
      {
        last' := current';
        current' := current' + cells[row, i];
        if current' >= num {
          hit := i;
          result := Interpolated(i, num - last', current' - last', scale);
          if CellsHold(added) && scale == Scale(row) as real && Searching(row, num, current) {
            RowStep(row, num, current, hit, result, last', current');
          }
          return;
        }
      }
      hit := NUM_OF_BUCKET;
      result := Int(0);
      if CellsHold(added) && scale == Scale(row) as real && Searching(row, num, current) {
        RowStep(row, num, current, hit, result, last', current');
      }
    }

    method GetPercentile(percentile: real) returns (result: CInt)
      requires Valid() && percentile >= 0.0
      ensures exists rank: nat ::
        rank as real <= percentile * total as real < (rank + 1) as real && IsPercentile(added, rank, result)
    {
      hide Rank, Searching, Searched, IsPercentile, Scale, SumsOf, ExtremesOf, Count;
      var num := Rank(percentile, total);
      RankOfRun(percentile);
      var last, current := 0, 0;
      ghost var hit;
      if num == 0 {
        PercentileAtZero(added, Int(0));
        return Int(0);
      }
      SearchStart(num);
      Scales();
      result, last, current, hit := SearchBucket(0, num, last, current, 1.0);
      if result != Int(0) { return; }
      result, last, current, hit := SearchBucket(1, num, last, current, 10.0);
      if result != Int(0) { return; }
      result, last, current, hit := SearchBucket(2, num, last, current, 100.0);
      if result != Int(0) { return; }
      result, last, current, hit := SearchBucket(3, num, last, current, 1000.0);
      if result != Int(0) { return; }
      result, last, current, hit := SearchBucket(4, num, last, current, 10000.0);
      if result != Int(0) { return; }
      result, last, current, hit := SearchBucket(5, num, last, current, 100000.0);
      if result != Int(0) { return; }
      result, last, current, hit := SearchBucket(6, num, last, current, 1000000.0);
      if result != Int(0) { return; }
      result, last, current, hit := SearchBucket(7, num, last, current, 10000000.0);
      if result != Int(0) { return; }
      SearchEnd(num, current);
      result := Int(100_000_000);
    }

    lemma Scales()
      ensures Scale(0) as real == 1.0 && Scale(1) as real == 10.0 && Scale(2) as real == 100.0
      ensures Scale(3) as real == 1000.0 && Scale(4) as real == 10000.0 && Scale(5) as real == 100000.0
      ensures Scale(6) as real == 1000000.0 && Scale(7) as real == 10000000.0
    {}

    lemma RankOfRun(percentile: real)
      requires Valid() && percentile >= 0.0
      ensures Rank(percentile, total) >= 0
    {
      RankNonNegative(percentile, total);
    }

    lemma SearchStart(num: int)
      requires num > 0
      ensures Searching(0, num, 0)
    {
      BeforeFirst(added);
    }

    lemma SearchEnd(num: int, current: int)
      requires Searching(ROWS, num, current)
      ensures IsPercentile(added, num, Int(100_000_000))
    {}

    lemma SortedLength(sorted: seq<int>)
      requires Valid() && SortedSamples(added, sorted)
      ensures |sorted| == total
    {
      assert |sorted| == |multiset(sorted)| == |multiset(Counted(added))|;
    }

    /** What a reported percentile says about the differences added: the rank is the percentile of their
        number, truncated, and the accuracy of the search holds for the sample of that rank. */
    lemma ReportedPercentile(percentile: real, rank: nat, result: CInt, sorted: seq<int>)
      requires Valid() && 0.0 <= percentile <= 1.0
      requires rank as real <= percentile * total as real < (rank + 1) as real
      requires IsPercentile(added, rank, result) && SortedSamples(added, sorted)
      ensures rank <= |sorted| == total
      ensures rank == 0 ==> result == Int(0)
      ensures rank > 0 ==>
        var d := sorted[rank - 1];
        && (result == Undefined <==> d == 0)
        && (1 <= d < SATURATED ==> 10 * (result.n - d) <= d && 10 * (d - result.n) <= d)
        && (d >= SATURATED ==> result == Int(SATURATED))
    {
      hide IsPercentile, SortedSamples, StatisticsHold, CellsHold, Counted;
      SortedLength(sorted);
      RankAtMost(percentile, total, rank);
      if rank > 0 {
        PercentileAccuracy(added, sorted, rank, result);
      } else {
        PercentileAtZero(added, result);
      }
    }

    /** The state of the search on entry to a row.  A rank among the zeros leaves the counters past
        the rank when the first row's result, 0, is taken for "not found". */
    ghost predicate Searching(row: nat, num: int, current: int)
      reads this
    {
      var zeros := Count(added, Before(0, 1));
      (current == Count(added, Before(row, 0)) < num && (row > 0 ==> zeros < num))
      || (row == 1 && 1 <= num <= zeros == current)
    }

    lemma RowStep(row: nat, num: int, current: int, hit: nat, result: CInt, last': int, current': int)
      requires CellsHold(added) && row < ROWS
      requires Searching(row, num, current)
      requires Searched(row, num, current, Scale(row) as real, hit, result, last', current')
      ensures result == Int(0) ==> Searching(row + 1, num, current')
      ensures result != Int(0) ==> IsPercentile(added, num, result)
    {
      hide Count, Before, InCell, IsPercentile, Scale;
      if row == 1 && num <= Count(added, Before(0, 1)) {
        StepAfterZeros(num, current, hit, result, last', current');
      } else if hit == NUM_OF_BUCKET {
        StepPastRow(row, num, current, current');
      } else {
        StepHit(row, num, current, hit, result, last', current');
      }
    }

    lemma StepAfterZeros(num: int, current: int, hit: nat, result: CInt, last': int, current': int)
      requires CellsHold(added) && 1 <= num <= Count(added, Before(0, 1)) == current
      requires Searched(1, num, current, Scale(1) as real, hit, result, last', current')
      ensures IsPercentile(added, num, result) && result == Undefined
    {
      hide Count;
      assert hit == 0 by {
        RowPrefixCounts(1, hit);
        CountMonotone(added, Before(1, 0), Before(1, hit));
      }
      assert RowPrefix(1, 1) == RowPrefix(1, 0) + cells[1, 0];
      UsedCell(added, 1, 0);
    }

    lemma StepPastRow(row: nat, num: int, current: int, current': int)
      requires CellsHold(added) && row < ROWS
      requires current == Count(added, Before(row, 0)) && current' == current + RowPrefix(row, NUM_OF_BUCKET) < num
      ensures Searching(row + 1, num, current')
    {
      hide Count;
      RowPrefixCounts(row, NUM_OF_BUCKET);
      BeforeNextRow(added, row);
      CountMonotone(added, Before(0, 1), Before(row, NUM_OF_BUCKET));
    }

    lemma StepHit(row: nat, num: int, current: int, hit: nat, result: CInt, last': int, current': int)
      requires CellsHold(added) && row < ROWS && hit < NUM_OF_BUCKET
      requires current == Count(added, Before(row, 0)) < num && (row > 0 ==> Count(added, Before(0, 1)) < num)
      requires Searched(row, num, current, Scale(row) as real, hit, result, last', current')
      ensures result == Int(0) ==> Searching(row + 1, num, current')
      ensures result != Int(0) ==> IsPercentile(added, num, result)
    {
      hide Count, Before, InCell, IsPercentile, Scale, Interpolated;
      RowPrefixCounts(row, hit);
      RowPrefixCounts(row, hit + 1);
      BeforeNext(added, row, hit);
      HitRank(added, num, row, hit, result);
    }
  }

  lemma SampleBounds(s: seq<int>, lo: int, hi: int)
    requires lo in s && hi in s && forall x | x in s :: lo <= x <= hi
    ensures lo as real <= Mean(Reals(s)) <= hi as real
    ensures 0.0 <= Variance(Reals(s)) <= (hi as real - Mean(Reals(s))) * (Mean(Reals(s)) - lo as real)
    ensures Variance(Reals(s)) == 0.0 <==> forall x | x in s :: x == lo
  {
    var c := Reals(s);
    hide Sum, SumSquares, Mean, Variance, Reals, AllEqual;
    assert AllBetween(c, lo as real, hi as real) by {
      assert forall i :: 0 <= i < |s| ==> s[i] in s;
    }
    hide AllBetween;
    VarianceBound(c, lo as real, hi as real);
    VarianceIsDeviation(c);
    AllEqualReals(s, lo);
  }

  lemma AllEqualReals(s: seq<int>, lo: int)
    requires lo in s
    ensures AllEqual(Reals(s), Reals(s)[0]) <==> forall x | x in s :: x == lo
  {
    if AllEqual(Reals(s), Reals(s)[0]) {
      var j :| 0 <= j < |s| && s[j] == lo;
      forall x | x in s ensures x == lo {
        var i :| 0 <= i < |s| && s[i] == x;
        assert Reals(s)[i] == Reals(s)[0] == Reals(s)[j];
      }
    } else {
      var i :| 0 <= i < |s| && Reals(s)[i] != Reals(s)[0];
      assert s[i] in s && s[0] in s;
    }
  }

  lemma VarianceOfSums(s: seq<real>, sum: real, squares: real)
    requires s != [] && sum == Sum(s)
    ensures sum / |s| as real == Mean(s)
    ensures squares == SumSquares(s) ==>
      VarianceFromSums(|s| as real, sum, squares) == Variance(s)
  {}

  function VarianceFromSums(n: real, sum: real, squares: real): real
    requires n > 0.0
  {
    assert Times(n, n) > 0.0;
    (squares * n - sum * sum) / (n * n)
  }

  /** The number of samples a percentile stands for, truncated. */
  function Rank(percentile: real, total: int): (rank: int)
    ensures rank as real <= percentile * total as real < (rank + 1) as real
  {
    (percentile * total as real).Floor
  }

  lemma RankNonNegative(percentile: real, total: int)
    requires percentile >= 0.0 && total >= 0
    ensures Rank(percentile, total) >= 0
  {}

  lemma RankAtMost(percentile: real, total: int, rank: nat)
    requires percentile <= 1.0 && total >= 0 && rank as real <= percentile * total as real
    ensures rank <= total
  {
    assert Times(1.0 - percentile, total as real) == total as real - percentile * total as real;
  }

  lemma PercentileAtZero(s: seq<int>, r: CInt)
    ensures IsPercentile(s, 0, r) <==> r == Int(0)
  {}

  function Interpolated(cell: nat, within: int, inCell: int, scale: real): CInt {
    if inCell == 0 then Undefined
    else Int((Position(cell, within, inCell) * scale / BASE as real).Floor)
  }

  /** The cell that holds the rank yields the percentile, unless it is the cell of the zeros. */
  lemma HitRank(s: seq<int>, num: int, row: nat, cell: nat, result: CInt)
    requires HoldsRank(s, num, row, cell)
    requires result == Interpolated(cell, num - Count(s, Before(row, cell)), Count(s, InCell(row, cell)),
                                    Scale(row) as real)
    ensures if row == 0 && cell == 0 then result == Int(0)
            else result != Int(0) && IsPercentile(s, num, result)
  {
    hide Count, Before, InCell, Scale, Interpolated, IsInterpolated;
    HitIsInterpolated(s, num, row, cell, result);
    InterpolatedInCell(s, num, row, cell, result);
    HoldsRankNonEmpty(s, num, row, cell);
    ZeroOnlyInFirstCell(row, cell, result.n);
    if row != 0 || cell != 0 {
      BetweenFirstAndLast(s, row, cell);
    }
  }

  lemma HitIsInterpolated(s: seq<int>, num: int, row: nat, cell: nat, result: CInt)
    requires HoldsRank(s, num, row, cell)
    requires result == Interpolated(cell, num - Count(s, Before(row, cell)), Count(s, InCell(row, cell)),
                                    Scale(row) as real)
    ensures IsInterpolated(s, num, row, cell, result)
  {
    hide Count, Before, InCell, Scale;
    HoldsRankNonEmpty(s, num, row, cell);
  }

  lemma BetweenFirstAndLast(s: seq<int>, row: nat, cell: nat)
    requires row < ROWS && (row != 0 || cell != 0)
    ensures Count(s, Before(0, 1)) <= Count(s, Before(row, cell))
    ensures Count(s, Before(row, cell + 1)) <= Count(s, Before(ROWS, 0))
  {
    hide Count, Row, Cell;
    CountMonotone(s, Before(0, 1), Before(row, cell));
    CountMonotone(s, Before(row, cell + 1), Before(ROWS, 0));
  }

  lemma ZeroOnlyInFirstCell(row: nat, cell: nat, r: int)
    requires row < ROWS && (if row == 0 then cell % BASE == 0 else cell >= BASE)
    requires cell * Scale(row) <= BASE * r <= (cell + 1) * Scale(row)
    ensures r == 0 <==> row == 0 && cell == 0
  {}

  function Squared(x: int): real { x as real * x as real }

  ghost predicate SumsOf(s: seq<int>, squared: seq<int>, total: int, sum: int, sumsquare: real) {
    && total == |Counted(s)|
    && sum as real == Sum(Reals(Counted(s)))
    && sumsquare == SumSquares(Reals(Counted(squared)))
  }

  ghost predicate ExtremesOf(s: seq<int>, lo: int, hi: int) {
    var c := Counted(s);
    && (c != [] ==> lo in c && hi in c)
    && (forall x | x in c :: lo <= x <= hi)
  }

  lemma SumsSnocCounted(s: seq<int>, squared: seq<int>, x: nat, keep: bool, total: int, sum: int, sumsquare: real)
    requires SumsOf(s, squared, total, sum, sumsquare)
    ensures SumsOf(s + [x], squared + (if keep then [x] else []), total + 1, sum + x,
                   if keep then sumsquare + Squared(x) else sumsquare)
  {
    CountedSnoc(s, x);
    CountedSnoc(squared, x);
    assert squared + [] == squared;
    SumsOfCounted(Counted(s), x);
    SumsOfCounted(Counted(squared), x);
    hide Sum, SumSquares, Counted, Reals;
  }

  lemma ExtremesSnoc(s: seq<int>, squared: seq<int>, x: nat, total: int, sum: int, sumsquare: real,
                     lo: int, hi: int)
    requires SumsOf(s, squared, total, sum, sumsquare) && ExtremesOf(s, lo, hi)
    ensures if total == 0 then ExtremesOf(s + [x], x, x)
            else ExtremesOf(s + [x], if lo < x then lo else x, if hi > x then hi else x)
  {}

  lemma AddedNegative(s: seq<int>, squared: seq<int>, x: int, keep: bool,
                      total: int, sum: int, sumsquare: real, lo: int, hi: int)
    requires x < 0 && SumsOf(s, squared, total, sum, sumsquare) && ExtremesOf(s, lo, hi)
    ensures SumsOf(s + [x], squared + (if keep then [x] else []), total, sum, sumsquare)
    ensures ExtremesOf(s + [x], lo, hi)
  {
    CountedSnoc(s, x);
    CountedSnoc(squared, x);
    assert squared + [] == squared;
  }

  lemma SumsOfCounted(s: seq<int>, x: int)
    ensures Sum(Reals(s + [x])) == Sum(Reals(s)) + x as real
    ensures SumSquares(Reals(s + [x])) == SumSquares(Reals(s)) + Squared(x)
  {
    assert Reals(s + [x]) == Reals(s) + [x as real];
    SumsSnoc(Reals(s), x as real);
  }

  /** The sum of the columns printed for a row. */
  ghost function Printed(columns: seq<int>): int {
    if columns == [] then 0 else Printed(columns[..|columns| - 1]) + columns[|columns| - 1]
  }

  lemma OneCell(x: nat)
    ensures forall row: nat, cell: nat ::
      InCell(row, cell)(x) <==> row == Row(x) && row < ROWS && cell == Cell(x)
    ensures Ridiculous()(x) <==> Row(x) == ROWS
    ensures Row(x) < ROWS ==> Cell(x) < NUM_OF_BUCKET
  {}

  /** Dividing by ten until the value is below ten finds the decade, and a tenth of that decade's unit
      is the cell. */
  lemma ScaledCell(d: nat, row: nat, val: real)
    requires row < ROWS && val * Scale(row) as real == d as real
    requires val < 10.0 && (row > 0 ==> val >= 1.0)
    ensures Row(d) == row && Cell(d) == (val * 10.0).Floor
  {
    RowUnique(d, row);
    FloorOfQuotient(10 * d, val * 10.0, Scale(row));
  }

  lemma RowUnique(d: nat, row: nat)
    requires row < ROWS && d < 10 * Scale(row) && (row > 0 ==> Scale(row) <= d)
    ensures Row(d) == row
  {}
}
