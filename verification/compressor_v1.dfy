/**
 * The peak encoder of the first compression prototype: a canvas of byte cells,
 * the column peak finder (a rise that starts at a strict increase and ends at
 * the next strict decrease becomes one (column, centre row, weight) triple),
 * and the byte counts the prototype compares: the full grid, three bytes per
 * peak, two bytes per column with a nonzero first derivative.
 */
module CompressorV1 {
  import opened Wrappers
  import opened Bits

  /** A detected peak: its column, its centre row and its weight. */
  datatype Peak = Peak(col: nat, row: int, weight: int)

  /** Python's `round` on a float: to the nearest integer, ties to the even neighbour. */
  function PyRound(r: real): int
  {
    var f := r.Floor;
    var frac := r - f as real;
    if frac < 0.5 then f
    else if frac > 0.5 then f + 1
    else if f % 2 == 0 then f
    else f + 1
  }

  /** `np.ceil`: the least integer at or above r. */
  function Ceil(r: real): int
  {
    -((-r).Floor)
  }

  /** The centre of a rise from row `start` to row `last` is `round((start + last) / 2)`. */
  function Center(start: int, last: int): int
  {
    PyRound((start + last) as real / 2.0)
  }

  /** The weight of a rise `len` rows long is `ceil((len + 0.1) / 2)`. */
  function Weight(len: int): int
  {
    Ceil((len as real + 0.1) / 2.0)
  }

  /**
   * The centre lies between the two ends of the rise; it is their midpoint when
   * that is a whole row, and otherwise the even one of the two rows around it.
   */
  lemma CenterBetween(start: nat, last: nat)
    requires start <= last
    ensures start <= Center(start, last) <= last
    ensures (start + last) % 2 == 0 ==> 2 * Center(start, last) == start + last
    ensures (start + last) % 2 == 1 ==>
      Center(start, last) % 2 == 0 && (2 * Center(start, last) == start + last - 1 || 2 * Center(start, last) == start + last + 1)
  {
    var s := start + last;
    var r := s as real / 2.0;
    var h := s / 2;
    if s % 2 == 0 {
      assert r == h as real;
      assert r.Floor == h;
    } else {
      assert s == 2 * h + 1;
      assert r == h as real + 0.5;
      assert r.Floor == h;
    }
  }

  /** The weight of a rise of `len >= 1` rows is `len / 2 + 1`, so it is at least 1. */
  lemma WeightValue(len: nat)
    requires len >= 1
    ensures Weight(len) == len / 2 + 1 >= 1
  {
    var q := len / 2 + 1;
    var x := (len as real + 0.1) / 2.0;
    assert len == 2 * (q - 1) + len % 2;
    assert (q - 1) as real < x < q as real;
    assert (-x).Floor == -q;
  }

  /** The peak of a rise that started at row `start` and ended before row `y`. */
  function MakePeak(x: nat, start: int, y: int): Peak
  {
    Peak(x, Center(start, y - 1), Weight(y - start))
  }

  lemma MakePeakFacts(x: nat, start: nat, y: nat)
    requires start < y
    ensures MakePeak(x, start, y).col == x
    ensures start <= MakePeak(x, start, y).row <= y - 1
    ensures MakePeak(x, start, y).weight == (y - start) / 2 + 1
  {
    CenterBetween(start, y - 1);
    WeightValue(y - start);
  }

  /** The scanner's state: whether a rise is open, the row it started at, the peaks found so far. */
  datatype Scan = Scan(rising: bool, start: nat, found: seq<Peak>)

  /**
   * One row of the scan: a strict increase opens a rise unless one is open; a
   * strict decrease closes an open rise into a peak; an equal neighbour changes nothing.
   */
  function ScanStep(x: nat, column: seq<uint8>, y: nat, st: Scan): Scan
    requires 1 <= y < |column|
  {
    if column[y] > column[y - 1] then
      if !st.rising then Scan(true, y, st.found) else st
    else if column[y] < column[y - 1] && st.rising then
      Scan(false, st.start, st.found + [MakePeak(x, st.start, y)])
    else st
  }

  /** The state after rows 1 .. y-1. */
  function ScanTo(x: nat, column: seq<uint8>, y: nat): Scan
    requires 1 <= y <= |column|
    decreases y
  {
    if y == 1 then Scan(false, 0, []) else ScanStep(x, column, y - 1, ScanTo(x, column, y - 1))
  }

  /** The peaks of one column: those closed inside it, then a rise still open at the bottom. */
  function ColumnPeaks(x: nat, column: seq<uint8>): seq<Peak>
  {
    if |column| == 0 then []
    else
      var st := ScanTo(x, column, |column|);
      if st.rising then st.found + [MakePeak(x, st.start, |column|)] else st.found
  }

  /** Every peak of column x lies in that column, strictly below the top row, with weight at least 1. */
  predicate PeaksOfColumn(ps: seq<Peak>, x: nat, height: nat)
  {
    forall p :: p in ps ==> p.col == x && 1 <= p.row < height && p.weight >= 1
  }

  lemma {:induction false} ScanFacts(x: nat, column: seq<uint8>, y: nat)
    requires 1 <= y <= |column|
    ensures ScanTo(x, column, y).rising ==> 1 <= ScanTo(x, column, y).start < y
    ensures PeaksOfColumn(ScanTo(x, column, y).found, x, |column|)
    ensures 2 * |ScanTo(x, column, y).found| + (if ScanTo(x, column, y).rising then 1 else 0) <= y - 1
    decreases y
  {
    if y > 1 {
      ScanFacts(x, column, y - 1);
      var st := ScanTo(x, column, y - 1);
      if st.rising {
        MakePeakFacts(x, st.start, y - 1);
        WeightValue(y - 1 - st.start);
      }
    }
  }

  /**
   * The peaks of a column lie in it, below the top row, with weight at least 1,
   * and a column of h rows holds at most h / 2 of them: each takes a rising and
   * a falling row.
   */
  lemma ColumnPeaksFacts(x: nat, column: seq<uint8>)
    ensures PeaksOfColumn(ColumnPeaks(x, column), x, |column|)
    ensures |ColumnPeaks(x, column)| <= |column| / 2
  {
    if |column| > 0 {
      var h := |column|;
      ScanFacts(x, column, h);
      var st := ScanTo(x, column, h);
      if st.rising {
        MakePeakFacts(x, st.start, h);
      }
    }
  }

  /** A flat column has no peak: equal neighbours neither open nor close a rise. */
  lemma {:induction false} FlatColumnNoPeaks(x: nat, column: seq<uint8>)
    requires forall y :: 0 < y < |column| ==> column[y] == column[0]
    ensures ColumnPeaks(x, column) == []
  {
    if |column| > 0 {
      FlatScan(x, column, |column|);
    }
  }

  lemma {:induction false} FlatScan(x: nat, column: seq<uint8>, y: nat)
    requires 1 <= y <= |column|
    requires forall k :: 0 < k < |column| ==> column[k] == column[0]
    ensures ScanTo(x, column, y) == Scan(false, 0, [])
    decreases y
  {
    if y > 1 {
      FlatScan(x, column, y - 1);
    }
  }

  /**
   * A column that increases all the way down holds one rise that never closes:
   * its peak is the one for a rise from row 1 to the bottom row.
   */
  lemma IncreasingColumnOnePeak(x: nat, column: seq<uint8>)
    requires |column| >= 2
    requires forall y :: 1 <= y < |column| ==> column[y] > column[y - 1]
    ensures ColumnPeaks(x, column) == [MakePeak(x, 1, |column|)]
    ensures ColumnPeaks(x, column)[0].row == Center(1, |column| - 1)
    ensures ColumnPeaks(x, column)[0].weight == (|column| - 1) / 2 + 1
  {
    IncreasingScan(x, column, |column|);
    MakePeakFacts(x, 1, |column|);
  }

  lemma {:induction false} IncreasingScan(x: nat, column: seq<uint8>, y: nat)
    requires 2 <= y <= |column|
    requires forall k :: 1 <= k < |column| ==> column[k] > column[k - 1]
    ensures ScanTo(x, column, y) == Scan(true, 1, [])
    decreases y
  {
    if y > 2 {
      IncreasingScan(x, column, y - 1);
    }
  }

  /** A rise over rows 1..4 closed at row 5: centre round(2.5) is 2 (ties go to even), weight ceil(4.1 / 2) is 3. */
  lemma HalfEvenExample()
    ensures ColumnPeaks(7, [0, 1, 2, 3, 4, 1]) == [Peak(7, 2, 3)]
  {
    var column: seq<uint8> := [0, 1, 2, 3, 4, 1];
    assert ScanTo(7, column, 6) == Scan(false, 1, [MakePeak(7, 1, 5)]);
    MakePeakFacts(7, 1, 5);
    CenterBetween(1, 4);
  }

  /** A plateau does not close a rise: [0, 5, 5, 9, 3] holds one peak, over rows 1..3. */
  lemma PlateauExample()
    ensures ColumnPeaks(0, [0, 5, 5, 9, 3]) == [Peak(0, 2, 2)]
  {
    var column: seq<uint8> := [0, 5, 5, 9, 3];
    assert ScanTo(0, column, 5) == Scan(false, 1, [MakePeak(0, 1, 4)]);
    MakePeakFacts(0, 1, 4);
    CenterBetween(1, 3);
  }

  /** Every row of the grid holds `width` cells. */
  predicate Rectangular(grid: seq<seq<uint8>>, width: nat)
  {
    forall y :: 0 <= y < |grid| ==> |grid[y]| == width
  }

  /** `grid[:, x]`: column x, top to bottom. */
  function Column(grid: seq<seq<uint8>>, x: nat): seq<uint8>
    requires forall y :: 0 <= y < |grid| ==> x < |grid[y]|
  {
    seq(|grid|, y requires 0 <= y < |grid| => grid[y][x])
  }

  /** The peaks of columns 0 .. x-1, column by column. */
  function AllPeaks(grid: seq<seq<uint8>>, width: nat, x: nat): seq<Peak>
    requires Rectangular(grid, width) && x <= width
  {
    if x == 0 then [] else AllPeaks(grid, width, x - 1) + ColumnPeaks(x - 1, Column(grid, x - 1))
  }

  /** Peaks listed in column order. */
  predicate OrderedByColumn(ps: seq<Peak>)
  {
    forall i, j :: 0 <= i < j < |ps| ==> ps[i].col <= ps[j].col
  }

  /** Peaks of earlier columns followed by the peaks of column c stay in column order. */
  lemma AppendColumnOrdered(prev: seq<Peak>, cur: seq<Peak>, c: nat)
    requires OrderedByColumn(prev) && forall p :: p in prev ==> p.col < c
    requires forall p :: p in cur ==> p.col == c
    ensures OrderedByColumn(prev + cur)
  {
    var all := prev + cur;
    forall i, j | 0 <= i < j < |all|
      ensures all[i].col <= all[j].col
    {
      if j >= |prev| {
        assert all[j] in cur;
        if i < |prev| {
          assert all[i] in prev;
        } else {
          assert all[i] in cur;
        }
      }
    }
  }

  /** The peaks of the first x columns lie in those columns, below the top row, with weight at least 1. */
  lemma {:induction false} AllPeaksInColumns(grid: seq<seq<uint8>>, width: nat, x: nat)
    requires Rectangular(grid, width) && x <= width
    ensures forall p :: p in AllPeaks(grid, width, x) ==> p.col < x && 1 <= p.row < |grid| && p.weight >= 1
  {
    if x > 0 {
      AllPeaksInColumns(grid, width, x - 1);
      var prev, col := AllPeaks(grid, width, x - 1), Column(grid, x - 1);
      var cur := ColumnPeaks(x - 1, col);
      ColumnPeaksFacts(x - 1, col);
      assert |col| == |grid|;
      assert AllPeaks(grid, width, x) == prev + cur;
      forall p: Peak | p in prev + cur
        ensures p.col < x && 1 <= p.row < |grid| && p.weight >= 1
      {
        if p !in prev {
          assert p in cur;
        }
      }
    }
  }

  /** The peaks come column by column, left to right. */
  lemma {:induction false} AllPeaksOrdered(grid: seq<seq<uint8>>, width: nat, x: nat)
    requires Rectangular(grid, width) && x <= width
    ensures OrderedByColumn(AllPeaks(grid, width, x))
  {
    if x > 0 {
      AllPeaksOrdered(grid, width, x - 1);
      AllPeaksInColumns(grid, width, x - 1);
      var prev, col := AllPeaks(grid, width, x - 1), Column(grid, x - 1);
      var cur := ColumnPeaks(x - 1, col);
      ColumnPeaksFacts(x - 1, col);
      assert AllPeaks(grid, width, x) == prev + cur;
      AppendColumnOrdered(prev, cur, x - 1);
    }
  }

  /** At most height / 2 peaks per column. */
  lemma {:induction false} AllPeaksCount(grid: seq<seq<uint8>>, width: nat, x: nat)
    requires Rectangular(grid, width) && x <= width
    ensures |AllPeaks(grid, width, x)| <= x * (|grid| / 2)
  {
    if x > 0 {
      var half := |grid| / 2;
      AllPeaksCount(grid, width, x - 1);
      var prev, col := AllPeaks(grid, width, x - 1), Column(grid, x - 1);
      var cur := ColumnPeaks(x - 1, col);
      ColumnPeaksFacts(x - 1, col);
      assert |col| == |grid|;
      assert |AllPeaks(grid, width, x)| == |prev| + |cur|;
      MulSucc(x - 1, half);
    }
  }

  /** The drawing canvas: `height` rows of `width` byte cells and the last peaks computed. */
  class Canvas {
    const width: nat
    const height: nat
    var grid: seq<seq<uint8>>
    var peaks: seq<Peak>

    predicate Valid()
      reads this
    {
      |grid| == height && Rectangular(grid, width)
    }

    /** A blank 28 x 40 canvas without peaks. */
    constructor()
      ensures Valid() && width == 28 && height == 40 && peaks == []
      ensures forall y, x :: 0 <= y < height && 0 <= x < width ==> grid[y][x] == 0
    {
      width := 28;
      height := 40;
      grid := seq(40, _ => seq(28, _ => 0));
      peaks := [];
    }

    /** `compute_peaks`: replaces the peaks with those of every column, left to right. */
    method ComputePeaks()
      requires Valid()
      modifies this
      ensures Valid() && grid == old(grid)
      ensures peaks == AllPeaks(grid, width, width)
    {
      var g := grid;
      var found: seq<Peak> := [];
      for x := 0 to width
        invariant grid == g
        invariant found == AllPeaks(g, width, x)
      {
        var column := Column(g, x);
        found := AppendColumnPeaks(x, column, found);
      }
      peaks := found;
    }

    /** `clear_peaks`. */
    method ClearPeaks()
      modifies this
      ensures peaks == [] && grid == old(grid)
    {
      peaks := [];
    }
  }

  /** The scan of one column inside `compute_peaks`, appending to the peaks found so far. */
  method AppendColumnPeaks(x: nat, column: seq<uint8>, peaks0: seq<Peak>) returns (peaks: seq<Peak>)
    ensures peaks == peaks0 + ColumnPeaks(x, column)
  {
    peaks := peaks0;
    if |column| == 0 {
      return;
    }
    var rising := false;
    var startRise := 0;
    ghost var found: seq<Peak> := [];
    for y := 1 to |column|
      invariant ScanTo(x, column, y) == Scan(rising, startRise, found)
      invariant peaks == peaks0 + found
    {
      if column[y] > column[y - 1] {
        if !rising {
          rising := true;
          startRise := y;
        }
      } else if column[y] < column[y - 1] && rising {
        var centerY := PyRound((startRise + (y - 1)) as real / 2.0);
        var peak := Peak(x, centerY, Ceil(((y - startRise) as real + 0.1) / 2.0));
        peaks := peaks + [peak];
        found := found + [peak];
        rising := false;
      }
    }
    if rising {
      var h := |column|;
      var centerY := PyRound((startRise + (h - 1)) as real / 2.0);
      peaks := peaks + [Peak(x, centerY, Ceil(((h - startRise) as real + 0.1) / 2.0))];
    }
  }

  // ---------------------------------------------------------------------------
  // Byte accounting
  // ---------------------------------------------------------------------------

  /** The central difference `(g[y+1] - g[y-1]) / 2` of a column at row y. */
  function CentralDifference(column: seq<uint8>, y: nat): real
    requires 1 <= y < |column| - 1
  {
    (column[y + 1] as int - column[y - 1] as int) as real / 2.0
  }

  function RealAbs(r: real): real
  {
    if r < 0.0 then -r else r
  }

  /** Some inner row of the column has a nonzero central difference. */
  predicate HasNonzeroDerivative(column: seq<uint8>)
  {
    exists y :: 1 <= y < |column| - 1 && CentralDifference(column, y) != 0.0
  }

  /**
   * The column's first-derivative summary: the row of largest |difference| (the
   * first one on ties) and that difference, or no row and 0.0 when every
   * difference is 0.
   */
  method MaxDerivative(column: seq<uint8>) returns (maxD: real, rowMax: Option<nat>)
    ensures rowMax.None? <==> !HasNonzeroDerivative(column)
    ensures rowMax.None? ==> maxD == 0.0
    ensures rowMax.Some? ==> 1 <= rowMax.value < |column| - 1 && maxD == CentralDifference(column, rowMax.value)
    ensures rowMax.Some? ==> forall y :: 1 <= y < |column| - 1 ==> RealAbs(CentralDifference(column, y)) <= RealAbs(maxD)
    ensures rowMax.Some? ==> forall y :: 1 <= y < rowMax.value ==> RealAbs(CentralDifference(column, y)) < RealAbs(maxD)
  {
    maxD := 0.0;
    rowMax := None;
    var y := 1;
    while y < |column| - 1
      invariant 1 <= y
      invariant rowMax.None? ==> maxD == 0.0 && forall k :: 1 <= k < y && k < |column| - 1 ==> CentralDifference(column, k) == 0.0
      invariant rowMax.Some? ==> 1 <= rowMax.value < y && rowMax.value < |column| - 1
      invariant rowMax.Some? ==> maxD == CentralDifference(column, rowMax.value) && maxD != 0.0
      invariant rowMax.Some? ==> forall k :: 1 <= k < y && k < |column| - 1 ==> RealAbs(CentralDifference(column, k)) <= RealAbs(maxD)
      invariant rowMax.Some? ==> forall k :: 1 <= k < rowMax.value ==> RealAbs(CentralDifference(column, k)) < RealAbs(maxD)
    {
      var d := (column[y + 1] as int - column[y - 1] as int) as real / 2.0;
      if RealAbs(d) > RealAbs(maxD) {
        maxD := d;
        rowMax := Some(y);
      }
      y := y + 1;
    }
  }

  /** The number of columns among the first x with a nonzero central difference. */
  function NonzeroColumns(grid: seq<seq<uint8>>, width: nat, x: nat): (n: nat)
    requires Rectangular(grid, width) && x <= width
    ensures n <= x
  {
    if x == 0 then 0
    else NonzeroColumns(grid, width, x - 1) + (if HasNonzeroDerivative(Column(grid, x - 1)) then 1 else 0)
  }

  /** A grid whose rows are all equal has no column with a nonzero derivative. */
  lemma {:induction false} EqualRowsNoDerivative(grid: seq<seq<uint8>>, width: nat, x: nat)
    requires Rectangular(grid, width) && x <= width
    requires forall y :: 0 < y < |grid| ==> grid[y] == grid[0]
    ensures NonzeroColumns(grid, width, x) == 0
  {
    if x > 0 {
      EqualRowsNoDerivative(grid, width, x - 1);
      var column := Column(grid, x - 1);
      assert !HasNonzeroDerivative(column);
    }
  }

  /** The three sizes `updateDataTabs` reports, in bytes. */
  datatype Sizes = Sizes(fullBytes: nat, peaksBytes: nat, firstDerivBytes: nat)

  /**
   * The compression figures of `updateDataTabs`: one byte per cell, three bytes
   * per peak, two bytes per column with a nonzero first derivative.
   */
  method CompressionSizes(c: Canvas) returns (s: Sizes)
    requires c.Valid()
    ensures s.fullBytes == c.width * c.height
    ensures s.peaksBytes == 3 * |c.peaks|
    ensures s.firstDerivBytes == 2 * NonzeroColumns(c.grid, c.width, c.width) <= 2 * c.width
  {
    var nonzeroCols := 0;
    for x := 0 to c.width
      invariant nonzeroCols == NonzeroColumns(c.grid, c.width, x)
    {
      var maxD, rowMax := MaxDerivative(Column(c.grid, x));
      if rowMax.Some? {
        nonzeroCols := nonzeroCols + 1;
      }
    }
    s := Sizes(c.width * c.height, |c.peaks| * 3, nonzeroCols * 2);
  }

  /**
   * Right after `compute_peaks` the peak encoding takes at most three bytes per
   * two rows of each column.
   */
  lemma PeakBytesBound(grid: seq<seq<uint8>>, width: nat)
    requires Rectangular(grid, width)
    ensures 3 * |AllPeaks(grid, width, width)| <= 3 * (width * (|grid| / 2))
  {
    AllPeaksCount(grid, width, width);
  }
}
