/** What the latency histogram records and what its percentile search finds, stated on the
    sequence of every time difference ever added. */
module Histogram {
  import opened Counting
  import opened Division

  const NUM_OF_BUCKET := 100
  const BASE := NUM_OF_BUCKET / 10
  const ROWS := 8
  const SATURATED := 100_000_000

  /** A C `int` obtained by converting a double: converting a quotient by zero has no value. */
  datatype CInt = Int(n: int) | Undefined

  // ---------------------------------------------------------------- cells

  function Scale(row: nat): int
    requires row <= ROWS
  {
    if row == 0 then 1 else if row == 1 then 10 else if row == 2 then 100
    else if row == 3 then 1_000 else if row == 4 then 10_000 else if row == 5 then 100_000
    else if row == 6 then 1_000_000 else if row == 7 then 10_000_000 else SATURATED
  }

  /** The decade of a time difference; 8 when it is past the last row. */
  function Row(d: nat): (row: nat)
    ensures row <= ROWS
    ensures row > 0 ==> Scale(row) <= d
    ensures row < ROWS ==> d < 10 * Scale(row)
  {
    if d < 10 then 0 else if d < 100 then 1 else if d < 1_000 then 2
    else if d < 10_000 then 3 else if d < 100_000 then 4 else if d < 1_000_000 then 5
    else if d < 10_000_000 then 6 else if d < SATURATED then 7 else 8
  }

  function Cell(d: nat): (cell: nat)
    requires Row(d) < ROWS
    ensures cell < NUM_OF_BUCKET
    ensures Row(d) == 0 ==> cell == 10 * d
    ensures Row(d) > 0 ==> cell >= BASE
  {
    10 * d / Scale(Row(d))
  }

  ghost function InCell(row: nat, cell: nat): int -> bool {
    x => 0 <= x && Row(x) == row && row < ROWS && Cell(x) == cell
  }

  /** Counted before the given cell in the order the search visits the cells. */
  ghost function Before(row: nat, cell: nat): int -> bool {
    x => 0 <= x && (Row(x) < row || (Row(x) == row && row < ROWS && Cell(x) < cell))
  }

  ghost function NonNegative(): int -> bool { x => 0 <= x }
  ghost function Negative(): int -> bool { x => x < 0 }
  ghost function Ridiculous(): int -> bool { x => x < 0 || x >= SATURATED }

  /** The cells are visited in increasing order of the values they hold. */
  lemma CellsOrdered(d: nat, e: nat, row: nat, cell: nat)
    requires d <= e
    ensures Before(row, cell)(e) ==> Before(row, cell)(d)
  {}

  lemma BeforeNext(s: seq<int>, row: nat, cell: nat)
    ensures Count(s, Before(row, cell + 1)) == Count(s, Before(row, cell)) + Count(s, InCell(row, cell))
  {}

  lemma BeforeNextRow(s: seq<int>, row: nat)
    requires row < ROWS
    ensures Count(s, Before(row, NUM_OF_BUCKET)) == Count(s, Before(row + 1, 0))
  {}

  lemma BeforeFirst(s: seq<int>)
    ensures Count(s, Before(0, 0)) == 0
  {}

  /** The first row only uses every tenth cell; the rows above it never use their first tenth, so no
      value is recorded in two rows. */
  lemma UsedCell(s: seq<int>, row: nat, cell: nat)
    requires row < ROWS
    ensures Count(s, InCell(row, cell)) > 0 ==> if row == 0 then cell % BASE == 0 else cell >= BASE
  {
    if (row == 0 && cell % BASE != 0) || (row > 0 && cell < BASE) {
      CountNone(s, InCell(row, cell));
    }
  }

  /** Everything added is in a cell or ridiculous, and everything but the negatives is in the total. */
  lemma Partition(s: seq<int>)
    ensures Count(s, Before(ROWS, 0)) + Count(s, Ridiculous()) == |s|
    ensures Count(s, NonNegative()) + Count(s, Negative()) == |s|
  {}

  // ---------------------------------------------------------------- percentiles

  /** The value returned for the `within`-th of `inCell` samples of a cell. */
  function Interpolate(row: nat, cell: nat, within: int, inCell: int): int
    requires row < ROWS && inCell > 0
  {
    (Position(cell, within, inCell) * Scale(row) as real / BASE as real).Floor
  }

  /** A place inside a cell, in cells from the start of the row. */
  function Position(cell: nat, within: int, inCell: int): real
    requires inCell != 0
  {
    cell as real + within as real / inCell as real
  }

  lemma PositionBounds(cell: nat, within: int, inCell: int)
    requires 1 <= within <= inCell
    ensures cell as real < Position(cell, within, inCell) <= (cell + 1) as real
  {}

  ghost predicate HoldsRank(s: seq<int>, rank: int, row: nat, cell: nat) {
    row < ROWS && cell < NUM_OF_BUCKET &&
    Count(s, Before(row, cell)) < rank <= Count(s, Before(row, cell + 1))
  }

  lemma HoldsRankNonEmpty(s: seq<int>, rank: int, row: nat, cell: nat)
    requires HoldsRank(s, rank, row, cell)
    ensures Count(s, InCell(row, cell)) >= rank - Count(s, Before(row, cell)) > 0
    ensures if row == 0 then cell % BASE == 0 else cell >= BASE
  {
    BeforeNext(s, row, cell);
    UsedCell(s, row, cell);
  }

  /** The returned value for the sample of rank `rank` among all counted samples. */
  ghost predicate IsPercentile(s: seq<int>, rank: int, r: CInt) {
    if rank == 0 then r == Int(0)
    else if rank <= Count(s, Before(0, 1)) then r == Undefined
    else if rank > Count(s, Before(ROWS, 0)) then r == Int(SATURATED)
    else exists row: nat, cell: nat :: HoldsRank(s, rank, row, cell) && IsInterpolated(s, rank, row, cell, r)
  }

  ghost predicate IsInterpolated(s: seq<int>, rank: int, row: nat, cell: nat, r: CInt)
    requires HoldsRank(s, rank, row, cell)
  {
    HoldsRankNonEmpty(s, rank, row, cell);
    r == Int(Interpolate(row, cell, rank - Count(s, Before(row, cell)), Count(s, InCell(row, cell))))
  }

  /** The interpolated value stays inside the closed range of its cell. */
  lemma InterpolateBounds(row: nat, cell: nat, within: int, inCell: int)
    requires row < ROWS && 1 <= within <= inCell
    requires row == 0 ==> cell % BASE == 0
    ensures cell * Scale(row) <= BASE * Interpolate(row, cell, within, inCell) <= (cell + 1) * Scale(row)
  {
    PositionBounds(cell, within, inCell);
    hide Position;
    if row == 0 {
      FirstRowFloor(cell, Position(cell, within, inCell));
    } else {
      UpperRowFloor(cell, Position(cell, within, inCell), row);
    }
  }

  lemma FirstRowFloor(cell: nat, at: real)
    requires cell % BASE == 0 && cell as real < at <= (cell + 1) as real
    ensures BASE * (at * Scale(0) as real / BASE as real).Floor == cell
  {
    var q := cell / BASE;
    assert at * Scale(0) as real == at;
    assert q as real < at / 10.0 < (q + 1) as real;
  }

  lemma UpperRowFloor(cell: nat, at: real, row: nat)
    requires 0 < row < ROWS && cell as real < at <= (cell + 1) as real
    ensures cell * Scale(row) <= BASE * (at * Scale(row) as real / BASE as real).Floor <= (cell + 1) * Scale(row)
  {
    var u := Scale(row) / BASE;
    assert Scale(row) == BASE * u && u > 0;
    hide Scale;
    ScaledPosition(cell, at, u);
    assert at * Scale(row) as real / BASE as real == at * u as real;
  }

  lemma ScaledPosition(cell: nat, at: real, u: int)
    requires u > 0 && cell as real < at <= (cell + 1) as real
    ensures cell * u <= (at * u as real).Floor <= (cell + 1) * u
  {}

  lemma ProductMonotone(a: real, b: real, u: real)
    requires a <= b && u > 0.0
    ensures a * u <= b * u
  {}

  /** The samples of a cell are taken to divide it evenly: the within-th of inCell is reported at that share of
      the cell's width, truncated. */
  lemma InterpolateEvenly(row: nat, cell: nat, within: int, inCell: int)
    requires row < ROWS && 1 <= within <= inCell
    ensures var r := Interpolate(row, cell, within, inCell);
      BASE * inCell * r <= (cell * inCell + within) * Scale(row) < BASE * inCell * (r + 1)
  {
    hide Position, Scale, Interpolate;
    ScalePositive(row);
    PositionScaled(cell, within, inCell);
    InterpolateFloor(row, cell, within, inCell);
    var place, n := cell * inCell + within, BASE * inCell;
    var q := Position(cell, within, inCell) * Scale(row) as real / BASE as real;
    TenTenths(Position(cell, within, inCell) * Scale(row) as real);
    FloorEvenly(Position(cell, within, inCell), Scale(row), place, inCell, q);
    QuotientBracket(place * Scale(row), n, Interpolate(row, cell, within, inCell));
  }

  lemma InterpolateFloor(row: nat, cell: nat, within: int, inCell: int)
    requires row < ROWS && inCell > 0
    ensures Interpolate(row, cell, within, inCell)
         == (Position(cell, within, inCell) * Scale(row) as real / BASE as real).Floor
  {
    hide Position, Scale;
  }

  lemma TenTenths(x: real)
    ensures x / BASE as real * 10.0 == x
  {
    var base := BASE as real;
    assert base == 10.0;
    assert x / base * base == x;
    SameProduct(base, 10.0, x / base);
  }

  lemma FloorEvenly(at: real, u: int, place: nat, inCell: int, q: real)
    requires inCell > 0 && u > 0 && at * inCell as real == place as real && q * 10.0 == at * u as real
    ensures place * u >= 0 && q.Floor == place * u / (10 * inCell)
  {
    ShareOfCell(at, u as real, inCell as real, place as real, q);
    RealProduct(place, u);
    NonNegativeProduct(place, u);
    FloorOfQuotient(place * u, q, 10 * inCell);
  }

  lemma NonNegativeProduct(a: nat, b: nat)
    ensures a * b >= 0
  {}

  lemma QuotientBracket(a: nat, n: nat, r: int)
    requires n > 0 && r == a / n
    ensures n * r <= a < n * (r + 1)
  {
    QuotientExact(a, n);
  }

  lemma ScalePositive(row: nat)
    requires row < ROWS
    ensures Scale(row) > 0
  {}

  lemma PositionScaled(cell: nat, within: int, inCell: int)
    requires inCell > 0
    ensures Position(cell, within, inCell) * inCell as real == (cell * inCell + within) as real
  {
    var n := inCell as real;
    assert within as real / n * n == within as real;
    assert Position(cell, within, inCell) * n == cell as real * n + within as real / n * n;
    RealProduct(cell, inCell);
  }

  lemma ShareOfCell(at: real, u: real, inCell: real, place: real, q: real)
    requires at * inCell == place && q * 10.0 == at * u
    ensures q * (10.0 * inCell) == place * u
  {
    assert q * (10.0 * inCell) == q * 10.0 * inCell;
    SameProduct(q * 10.0, at * u, inCell);
    SameProduct(at * inCell, place, u);
  }

  lemma SameProduct(a: real, b: real, u: real)
    requires a == b
    ensures a * u == b * u
  {}

  /** Inside one cell a later sample never reports a smaller time. */
  lemma InterpolateMonotone(row: nat, cell: nat, within: int, within': int, inCell: int)
    requires row < ROWS && 1 <= within <= within' <= inCell
    ensures Interpolate(row, cell, within, inCell) <= Interpolate(row, cell, within', inCell)
  {
    assert Position(cell, within, inCell) <= Position(cell, within', inCell);
    var u := Scale(row) as real;
    hide Position, Scale;
    ProductMonotone(Position(cell, within, inCell), Position(cell, within', inCell), u);
  }

  /** The time differences that reach the statistics: a negative one is only counted as ridiculous. */
  ghost function Counted(s: seq<int>): (c: seq<int>)
    ensures forall x | x in c :: 0 <= x
    ensures |c| <= |s|
  {
    if s == [] then []
    else if s[|s| - 1] < 0 then Counted(s[..|s| - 1])
    else Counted(s[..|s| - 1]) + [s[|s| - 1]]
  }

  lemma CountedSnoc(s: seq<int>, x: int)
    ensures Counted(s + [x]) == if x < 0 then Counted(s) else Counted(s) + [x]
  {}

  lemma {:induction false} CountCounted(s: seq<int>, p: int -> bool)
    requires forall x :: p(x) ==> 0 <= x
    ensures Count(Counted(s), p) == Count(s, p)
  {
    if s != [] {
      var m := |s| - 1;
      CountCounted(s[..m], p);
      if 0 <= s[m] {
        CountSnoc(Counted(s[..m]), s[m], p);
      }
    }
  }

  lemma CountedLength(s: seq<int>)
    ensures |Counted(s)| == Count(s, NonNegative())
  {}

  /** `sorted` lists the counted samples in increasing order. */
  ghost predicate SortedSamples(s: seq<int>, sorted: seq<int>) {
    Sorted(sorted) && multiset(sorted) == multiset(Counted(s))
  }

  /** The ranked sample and the counters of the search. */
  lemma RankedSample(s: seq<int>, sorted: seq<int>, rank: nat)
    requires SortedSamples(s, sorted) && 1 <= rank <= |sorted|
    ensures 0 <= sorted[rank - 1]
    ensures forall row: nat, cell: nat ::
      Before(row, cell)(sorted[rank - 1]) <==> rank <= Count(s, Before(row, cell))
  {
    var c, d := Counted(s), sorted[rank - 1];
    assert d in multiset(sorted);
    assert d in c;
    SortedRank(sorted, rank);
    CountPermutation(sorted, c, LessThan(d));
    CountPermutation(sorted, c, AtMost(d));
    forall row: nat, cell: nat
      ensures Before(row, cell)(d) <==> rank <= Count(s, Before(row, cell))
    {
      CountCounted(s, Before(row, cell));
      if Before(row, cell)(d) {
        forall x | x in c && AtMost(d)(x) ensures Before(row, cell)(x) { CellsOrdered(x, d, row, cell); }
        CountMonotone(c, AtMost(d), Before(row, cell));
      } else {
        forall x | x in c && Before(row, cell)(x) ensures LessThan(d)(x) {
          if d <= x { CellsOrdered(d, x, row, cell); }
        }
        CountMonotone(c, Before(row, cell), LessThan(d));
      }
    }
  }

  /** The accuracy the header promises, with its exact domain: for the sample `d` of the requested
      rank the search divides by zero iff d is 0, is exact below 10 microseconds, is within a tenth
      of d below 100 seconds, and saturates from there on. */
  lemma PercentileAccuracy(s: seq<int>, sorted: seq<int>, rank: nat, r: CInt)
    requires SortedSamples(s, sorted) && 1 <= rank <= |sorted|
    requires IsPercentile(s, rank, r)
    ensures var d := sorted[rank - 1];
      && 0 <= d
      && (r == Undefined <==> d == 0)
      && (1 <= d < 10 ==> r == Int(d))
      && (1 <= d < SATURATED ==> 10 * (r.n - d) <= d && 10 * (d - r.n) <= d)
      && (d >= SATURATED ==> r == Int(SATURATED))
  {
    hide Interpolate, Count;
    var d := sorted[rank - 1];
    RankedSample(s, sorted, rank);
    assert Before(0, 1)(d) <==> rank <= Count(s, Before(0, 1));
    assert Before(ROWS, 0)(d) <==> rank <= Count(s, Before(ROWS, 0));
    if 1 <= d < SATURATED {
      var row: nat, cell: nat :| HoldsRank(s, rank, row, cell) && IsInterpolated(s, rank, row, cell, r);
      CellOfRank(s, d, rank, row, cell);
      InterpolatedInCell(s, rank, row, cell, r);
      hide Row, Cell, Before;
      WithinCell(d, r.n);
    }
  }

  /** The ranked sample lies in the cell that holds the rank. */
  lemma CellOfRank(s: seq<int>, d: nat, rank: int, row: nat, cell: nat)
    requires HoldsRank(s, rank, row, cell)
    requires Before(row, cell)(d) <==> rank <= Count(s, Before(row, cell))
    requires Before(row, cell + 1)(d) <==> rank <= Count(s, Before(row, cell + 1))
    ensures Row(d) == row && Cell(d) == cell
  {
    hide Count;
  }

  /** Two values of a cell differ by a tenth of either at most, and in the first row not at all. */
  lemma WithinCell(d: nat, r: int)
    requires 1 <= d < SATURATED && Row(d) < ROWS
    requires Cell(d) * Scale(Row(d)) <= BASE * r <= (Cell(d) + 1) * Scale(Row(d))
    ensures 10 * (r - d) <= d && 10 * (d - r) <= d
    ensures d < 10 ==> r == d
  {
    hide Cell, Row;
    CellBounds(d);
  }

  /** So what is reported is within a tenth exactly for these samples; saturation still is for a while. */
  lemma WithinTenthIff(s: seq<int>, sorted: seq<int>, rank: nat, r: CInt)
    requires SortedSamples(s, sorted) && 1 <= rank <= |sorted|
    requires IsPercentile(s, rank, r)
    ensures var d := sorted[rank - 1];
      r.Int? && 10 * (r.n - d) <= d && 10 * (d - r.n) <= d <==> 1 <= d <= 111_111_111
  {
    hide SortedSamples, IsPercentile;
    PercentileAccuracy(s, sorted, rank, r);
  }

  /** The only sample is 0: every search divides by zero. */
  lemma ZeroSample(r: CInt)
    requires IsPercentile([0], 1, r)
    ensures r == Undefined
  {
    PercentileAccuracy([0], [0], 1, r);
  }

  lemma CellBounds(d: nat)
    requires Row(d) < ROWS
    ensures Cell(d) * Scale(Row(d)) <= 10 * d < (Cell(d) + 1) * Scale(Row(d))
  {}

  /** The search has exactly one outcome for every rank. */
  lemma PercentileUnique(s: seq<int>, rank: int, r: CInt, r': CInt)
    requires IsPercentile(s, rank, r) && IsPercentile(s, rank, r')
    ensures r == r'
  {
    if rank != 0 && Count(s, Before(0, 1)) < rank <= Count(s, Before(ROWS, 0)) {
      var row: nat, cell: nat :| HoldsRank(s, rank, row, cell) && IsInterpolated(s, rank, row, cell, r);
      var row': nat, cell': nat :| HoldsRank(s, rank, row', cell') && IsInterpolated(s, rank, row', cell', r');
      HoldsRankOrdered(s, rank, rank, row, cell, row', cell');
      HoldsRankOrdered(s, rank, rank, row', cell', row, cell);
    }
  }

  predicate CellAtMost(row: nat, cell: nat, row': nat, cell': nat) {
    row < row' || (row == row' && cell <= cell')
  }

  /** A larger rank is held by the same cell or a later one. */
  lemma HoldsRankOrdered(s: seq<int>, a: int, b: int, row: nat, cell: nat, row': nat, cell': nat)
    requires a <= b && HoldsRank(s, a, row, cell) && HoldsRank(s, b, row', cell')
    ensures CellAtMost(row, cell, row', cell')
  {
    if !CellAtMost(row, cell, row', cell') {
      CountMonotone(s, Before(row', cell' + 1), Before(row, cell));
    }
  }

  /** A higher rank never reports a smaller time, across cells, rows and saturation. */
  lemma PercentileMonotone(s: seq<int>, a: int, b: int, ra: CInt, rb: CInt)
    requires Count(s, Before(0, 1)) < a <= b
    requires IsPercentile(s, a, ra) && IsPercentile(s, b, rb)
    ensures ra.Int? && rb.Int? && ra.n <= rb.n
  {
    hide Interpolate, Count, Before, InCell;
    if a <= Count(s, Before(ROWS, 0)) {
      var row: nat, cell: nat :| HoldsRank(s, a, row, cell) && IsInterpolated(s, a, row, cell, ra);
      InterpolatedInCell(s, a, row, cell, ra);
      if b > Count(s, Before(ROWS, 0)) {
        RowsOrdered(row, cell, ROWS, BASE);
      } else {
        var row': nat, cell': nat :| HoldsRank(s, b, row', cell') && IsInterpolated(s, b, row', cell', rb);
        InterpolatedInCell(s, b, row', cell', rb);
        HoldsRankOrdered(s, a, b, row, cell, row', cell');
        if row == row' && cell == cell' {
          HoldsRankNonEmpty(s, b, row, cell);
          InterpolateMonotone(row, cell, a - Count(s, Before(row, cell)), b - Count(s, Before(row, cell)),
                              Count(s, InCell(row, cell)));
        } else {
          RowsOrdered(row, cell, row', cell');
        }
      }
    }
  }

  lemma InterpolatedInCell(s: seq<int>, rank: int, row: nat, cell: nat, r: CInt)
    requires HoldsRank(s, rank, row, cell) && IsInterpolated(s, rank, row, cell, r)
    ensures r.Int? && cell * Scale(row) <= BASE * r.n <= (cell + 1) * Scale(row)
    ensures row > 0 ==> cell >= BASE
  {
    HoldsRankNonEmpty(s, rank, row, cell);
    InterpolateBounds(row, cell, rank - Count(s, Before(row, cell)), Count(s, InCell(row, cell)));
  }

  /** A cell ends before the next one of its row starts, and a row where the next row starts. */
  lemma RowsOrdered(row: nat, cell: nat, row': nat, cell': nat)
    requires cell < NUM_OF_BUCKET && row' <= ROWS
    requires (row == row' && cell < cell') || (row < row' && cell' >= BASE)
    ensures (cell + 1) * Scale(row) <= cell' * Scale(row')
  {}
}
