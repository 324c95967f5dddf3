/**
 * Generators of the nonzeroes of matrices over an n-dimensional grid.
 *
 * `MatrixGeneratorIterator` walks the rows of the grid in row order and,
 * for each row point, the points of the grid within `halo` of it in every
 * dimension (its halo box), emitting one (row, column, value) triple per
 * pair. `CoarsenerGeneratorIterator` walks the rows of a coarse grid and
 * maps each to one column of a finer grid whose sizes are multiples of
 * the coarse ones. The row coordinates of both are kept by the loops of
 * `MixedRadix`; the argument checks of the constructors are the methods
 * `CheckSizes`, `CheckMatrixArgs` and `CheckCoarsenerArgs`.
 */
module NdimGenerators {
  import opened MixedRadix

  /** Why a constructor rejects its arguments. */
  datatype ArgError = ZeroSize | ZeroHalo | HaloBeyondSizes | NotMultiple(dim: nat)

  // ---------------------------------------------------------------------
  // Argument checks
  // ---------------------------------------------------------------------

  /** The check of the row generator's constructor: every dimension size is positive. */
  method CheckSizes(sizes: seq<nat>) returns (err: Option<ArgError>)
    ensures err == None <==> forall i :: 0 <= i < |sizes| ==> sizes[i] > 0
    ensures err == None || err == Some(ZeroSize)
  {
    for i := 0 to |sizes|
      invariant forall j :: 0 <= j < i ==> sizes[j] > 0
    {
      if sizes[i] == 0 {
        return Some(ZeroSize);
      }
    }
    return None;
  }

  /** What the matrix generator accepts: positive sizes, a positive halo, and room for a full halo box in every dimension. */
  ghost predicate MatrixArgsOk(sizes: seq<nat>, halo: nat) {
    PositiveSizes(sizes) && halo > 0 && forall i :: 0 <= i < |sizes| ==> sizes[i] >= 2 * halo + 1
  }

  /** The checks of the matrix generator's constructor, in the order it makes them. */
  method CheckMatrixArgs(sizes: seq<nat>, halo: nat) returns (err: Option<ArgError>)
    requires |sizes| > 0
    ensures err == None <==> MatrixArgsOk(sizes, halo)
    ensures err == Some(ZeroSize) <==> exists i :: 0 <= i < |sizes| && sizes[i] == 0
    ensures err == Some(ZeroHalo) <==> PositiveSizes(sizes) && halo == 0
    ensures err == Some(HaloBeyondSizes) <==>
      PositiveSizes(sizes) && halo > 0 && exists i :: 0 <= i < |sizes| && sizes[i] < 2 * halo + 1
  {
    err := CheckSizes(sizes);
    if err != None {
      return;
    }
    if halo == 0 {
      return Some(ZeroHalo);
    }
    for i := 0 to |sizes|
      invariant forall j :: 0 <= j < i ==> sizes[j] >= 2 * halo + 1
    {
      if sizes[i] < 2 * halo + 1 {
        return Some(HaloBeyondSizes);
      }
    }
    return None;
  }

  /** A finer size that is an exact, nonzero multiple of the coarser one. */
  predicate StepAccepted(coarser: nat, finer: nat)
    requires coarser > 0
  {
    finer / coarser > 0 && finer % coarser == 0
  }

  /** The test the coarsener's constructor makes (line 442): the step is nonzero and dividing by it gives back the coarser size. */
  predicate StepAcceptedAsWritten(coarser: nat, finer: nat)
    requires coarser > 0
  {
    finer / coarser > 0 && finer / (finer / coarser) == coarser
  }

  /** The corrected test rejects everything the written one rejects. */
  lemma StepAcceptedIsStricter(coarser: nat, finer: nat)
    requires coarser > 0 && StepAccepted(coarser, finer)
    ensures StepAcceptedAsWritten(coarser, finer)
    ensures finer == (finer / coarser) * coarser
  {
    DivModUnique(finer, finer / coarser, coarser, 0);
  }

  /** What the coarsener accepts: positive coarse sizes, each finer size a multiple of the coarse one. */
  ghost predicate CoarsenerArgsOk(coarser: seq<nat>, finer: seq<nat>) {
    && PositiveSizes(coarser) && |finer| == |coarser|
    && forall i :: 0 <= i < |coarser| ==> StepAccepted(coarser[i], finer[i])
  }

  /** The step of each dimension: how many fine points one coarse point spans. */
  ghost function Steps(coarser: seq<nat>, finer: seq<nat>): (s: seq<nat>)
    requires PositiveSizes(coarser) && |finer| == |coarser|
    ensures |s| == |coarser|
  {
    seq(|coarser|, i requires 0 <= i < |coarser| => finer[i] / coarser[i])
  }

  /** The checks of the coarsener's constructor, with the multiple test corrected. */
  method CheckCoarsenerArgs(coarser: seq<nat>, finer: seq<nat>) returns (err: Option<ArgError>)
    requires |coarser| > 0 && |finer| == |coarser|
    ensures err == None <==> CoarsenerArgsOk(coarser, finer)
    ensures err == Some(ZeroSize) <==> exists i :: 0 <= i < |coarser| && coarser[i] == 0
    ensures forall d: nat :: err == Some(NotMultiple(d)) ==>
      && PositiveSizes(coarser) && d < |coarser| && !StepAccepted(coarser[d], finer[d])
      && forall j :: 0 <= j < d ==> StepAccepted(coarser[j], finer[j])
    ensures PositiveSizes(coarser) && !CoarsenerArgsOk(coarser, finer) ==>
      err.Some? && err.value.NotMultiple? && err.value.dim < |coarser|
  {
    err := CheckSizes(coarser);
    if err != None {
      return;
    }
    for i := 0 to |coarser|
      invariant forall j :: 0 <= j < i ==> StepAccepted(coarser[j], finer[j])
    {
      var step := finer[i] / coarser[i];
      if step == 0 || finer[i] % coarser[i] != 0 {
        return Some(NotMultiple(i));
      }
    }
    return None;
  }

  // ---------------------------------------------------------------------
  // Halo boxes
  // ---------------------------------------------------------------------

  function Min(a: nat, b: nat): nat {
    if a <= b then a else b
  }

  /** The first column coordinate of each dimension for row point `row`: `halo` below it, clamped at 0. */
  ghost function ColumnMin(row: seq<nat>, halo: nat): (lo: seq<nat>)
    ensures |lo| == |row|
  {
    seq(|row|, i requires 0 <= i < |row| => if row[i] <= halo then 0 else row[i] - halo)
  }

  /** The last column coordinate of each dimension: `halo` above the row point, clamped at the grid's edge. */
  ghost function ColumnMax(sizes: seq<nat>, row: seq<nat>, halo: nat): (hi: seq<nat>)
    requires PositiveSizes(sizes) && |row| == |sizes|
    ensures |hi| == |row|
  {
    seq(|row|, i requires 0 <= i < |row| => Min(sizes[i] - 1, row[i] + halo))
  }

  /** `c` lies in the box `lo..hi` (inclusive) in every dimension. */
  ghost predicate InBox(c: seq<nat>, lo: seq<nat>, hi: seq<nat>) {
    |c| == |lo| == |hi| && forall i :: 0 <= i < |c| ==> lo[i] <= c[i] <= hi[i]
  }

  /** Every coordinate of `c` is at its maximum. */
  ghost predicate AllAtMax(c: seq<nat>, hi: seq<nat>)
    requires |c| == |hi|
  {
    forall i :: 0 <= i < |c| ==> c[i] == hi[i]
  }

  /** The odometer step in the box: coordinates at their maximum go back to their minimum and carry into the next one. */
  ghost function ColumnStep(c: seq<nat>, lo: seq<nat>, hi: seq<nat>): (r: seq<nat>)
    requires |c| == |lo| == |hi|
    ensures |r| == |c|
    decreases |c|
  {
    if |c| == 0 then []
    else if c[0] == hi[0] then [lo[0]] + ColumnStep(c[1..], lo[1..], hi[1..])
    else [c[0] + 1] + c[1..]
  }

  /** The position of `c` among the points of the box in the walk order: coordinate 0 fastest. */
  ghost function BoxRank(c: seq<nat>, lo: seq<nat>, hi: seq<nat>): int
    requires |c| == |lo| == |hi|
    decreases |c|
  {
    if |c| == 0 then 0
    else (c[0] - lo[0]) + (hi[0] - lo[0] + 1) * BoxRank(c[1..], lo[1..], hi[1..])
  }

  /** The number of points in the box. */
  ghost function BoxCount(lo: seq<nat>, hi: seq<nat>): int
    requires |lo| == |hi|
    decreases |lo|
  {
    if |lo| == 0 then 1 else (hi[0] - lo[0] + 1) * BoxCount(lo[1..], hi[1..])
  }

  lemma InBoxTail(c: seq<nat>, lo: seq<nat>, hi: seq<nat>)
    requires InBox(c, lo, hi) && |c| > 0
    ensures InBox(c[1..], lo[1..], hi[1..])
  {
    forall i | 0 <= i < |c| - 1
      ensures lo[1..][i] <= c[1..][i] <= hi[1..][i]
    {
      assert c[1..][i] == c[i + 1] && lo[1..][i] == lo[i + 1] && hi[1..][i] == hi[i + 1];
    }
  }

  /** One step up from a point inside the box and not at its last point stays inside the box. */
  lemma {:induction false} ColumnStepInBox(c: seq<nat>, lo: seq<nat>, hi: seq<nat>)
    requires InBox(c, lo, hi) && !AllAtMax(c, hi)
    ensures InBox(ColumnStep(c, lo, hi), lo, hi)
    decreases |c|
  {
    var r := ColumnStep(c, lo, hi);
    if c[0] == hi[0] {
      InBoxTail(c, lo, hi);
      NotAllAtMaxTail(c, hi);
      ColumnStepInBox(c[1..], lo[1..], hi[1..]);
      assert r[1..] == ColumnStep(c[1..], lo[1..], hi[1..]);
      forall i | 0 <= i < |c|
        ensures lo[i] <= r[i] <= hi[i]
      {
        if i > 0 {
          assert r[i] == r[1..][i - 1] && lo[1..][i - 1] == lo[i] && hi[1..][i - 1] == hi[i];
        }
      }
    } else {
      assert r[1..] == c[1..];
    }
  }

  lemma NotAllAtMaxTail(c: seq<nat>, hi: seq<nat>)
    requires |c| == |hi| > 0 && !AllAtMax(c, hi) && c[0] == hi[0]
    ensures !AllAtMax(c[1..], hi[1..])
  {
    var i :| 0 <= i < |c| && c[i] != hi[i];
    assert c[1..][i - 1] == c[i] && hi[1..][i - 1] == hi[i];
  }

  lemma AllAtMaxTail(c: seq<nat>, hi: seq<nat>)
    requires |c| == |hi| > 0 && AllAtMax(c, hi)
    ensures AllAtMax(c[1..], hi[1..])
  {
    forall i | 0 <= i < |c| - 1
      ensures c[1..][i] == hi[1..][i]
    {
      assert c[1..][i] == c[i + 1] && hi[1..][i] == hi[i + 1];
    }
  }

  /**
   * Inside the box and not at its last point, the step moves one position
   * further in the walk order.
   */
  lemma {:induction false} ColumnStepAdvances(c: seq<nat>, lo: seq<nat>, hi: seq<nat>)
    requires InBox(c, lo, hi) && !AllAtMax(c, hi)
    ensures BoxRank(ColumnStep(c, lo, hi), lo, hi) == BoxRank(c, lo, hi) + 1
    decreases |c|
  {
    var r := ColumnStep(c, lo, hi);
    var w := hi[0] - lo[0] + 1;
    var tc := BoxRank(c[1..], lo[1..], hi[1..]);
    var tr := BoxRank(r[1..], lo[1..], hi[1..]);
    assert BoxRank(c, lo, hi) == (c[0] - lo[0]) + w * tc;
    assert BoxRank(r, lo, hi) == (r[0] - lo[0]) + w * tr;
    if c[0] == hi[0] {
      InBoxTail(c, lo, hi);
      NotAllAtMaxTail(c, hi);
      ColumnStepAdvances(c[1..], lo[1..], hi[1..]);
      assert r[1..] == ColumnStep(c[1..], lo[1..], hi[1..]);
      assert r[0] == lo[0] && tr == tc + 1;
      MulSucc(w, tc);
    } else {
      assert r[1..] == c[1..];
    }
  }

  lemma MulSucc(w: int, t: int)
    ensures w * (t + 1) == w * t + w
  {
  }

  /** From its last point, the step wraps back to the first point of the box. */
  lemma {:induction false} ColumnStepWraps(c: seq<nat>, lo: seq<nat>, hi: seq<nat>)
    requires |c| == |lo| == |hi| && AllAtMax(c, hi)
    ensures ColumnStep(c, lo, hi) == lo
    decreases |c|
  {
    if |c| > 0 {
      AllAtMaxTail(c, hi);
      ColumnStepWraps(c[1..], lo[1..], hi[1..]);
      assert lo == [lo[0]] + lo[1..];
    }
  }

  /** A digit below `w` plus `w` times a number below `n` is below `w * n`. */
  lemma MulBelow(x: int, w: int, t: int, n: int)
    requires 0 <= x < w && 0 <= t < n
    ensures 0 <= x + w * t < w * n
  {
    MulAtLeast(n - t, w);
    assert w * n - w * t == (n - t) * w;
  }

  /** The walk positions of a box lie between 0 and its size. */
  lemma {:induction false} BoxRankRange(c: seq<nat>, lo: seq<nat>, hi: seq<nat>)
    requires InBox(c, lo, hi)
    ensures 0 <= BoxRank(c, lo, hi) < BoxCount(lo, hi)
    decreases |c|
  {
    if |c| > 0 {
      InBoxTail(c, lo, hi);
      BoxRankRange(c[1..], lo[1..], hi[1..]);
      MulBelow(c[0] - lo[0], hi[0] - lo[0] + 1, BoxRank(c[1..], lo[1..], hi[1..]), BoxCount(lo[1..], hi[1..]));
    }
  }

  /** The walk starts at position 0 at the lower corner. */
  lemma {:induction false} BoxRankFirst(lo: seq<nat>, hi: seq<nat>)
    requires |lo| == |hi|
    ensures BoxRank(lo, lo, hi) == 0
    decreases |lo|
  {
    if |lo| > 0 {
      BoxRankFirst(lo[1..], hi[1..]);
    }
  }

  /** The walk ends at position `BoxCount - 1` at the upper corner. */
  lemma {:induction false} BoxRankLast(c: seq<nat>, lo: seq<nat>, hi: seq<nat>)
    requires InBox(c, lo, hi) && AllAtMax(c, hi)
    ensures BoxRank(c, lo, hi) == BoxCount(lo, hi) - 1
    decreases |c|
  {
    if |c| > 0 {
      InBoxTail(c, lo, hi);
      AllAtMaxTail(c, hi);
      BoxRankLast(c[1..], lo[1..], hi[1..]);
      var w := hi[0] - lo[0] + 1;
      var n := BoxCount(lo[1..], hi[1..]);
      assert w * (n - 1) == w * n - w;
    }
  }

  /**
   * For a row point inside the grid the halo box is not empty, and its
   * points are exactly the grid points `halo` away from the row point at
   * most in every dimension.
   */
  lemma HaloBoxInGrid(sizes: seq<nat>, row: seq<nat>, halo: nat, c: seq<nat>)
    requires MatrixArgsOk(sizes, halo) && |row| == |sizes|
    requires forall i :: 0 <= i < |row| ==> row[i] < sizes[i]
    ensures InBox(ColumnMin(row, halo), ColumnMin(row, halo), ColumnMax(sizes, row, halo))
    ensures InBox(c, ColumnMin(row, halo), ColumnMax(sizes, row, halo)) ==>
      forall i :: 0 <= i < |c| ==> c[i] < sizes[i] && row[i] <= c[i] + halo && c[i] <= row[i] + halo
    ensures |c| == |sizes| && (forall i :: 0 <= i < |c| ==> c[i] < sizes[i] && row[i] <= c[i] + halo && c[i] <= row[i] + halo) ==>
      InBox(c, ColumnMin(row, halo), ColumnMax(sizes, row, halo))
  {
  }

  /** Distinct points of a box have distinct walk positions, so the walk visits each point once. */
  lemma {:induction false} BoxRankInjective(c: seq<nat>, d: seq<nat>, lo: seq<nat>, hi: seq<nat>)
    requires InBox(c, lo, hi) && InBox(d, lo, hi)
    requires BoxRank(c, lo, hi) == BoxRank(d, lo, hi)
    ensures c == d
    decreases |c|
  {
    if |c| > 0 {
      InBoxTail(c, lo, hi);
      InBoxTail(d, lo, hi);
      var w := hi[0] - lo[0] + 1;
      var rc, rd := BoxRank(c[1..], lo[1..], hi[1..]), BoxRank(d[1..], lo[1..], hi[1..]);
      BoxRankRange(c[1..], lo[1..], hi[1..]);
      BoxRankRange(d[1..], lo[1..], hi[1..]);
      DigitsUnique(w, c[0] - lo[0], rc, d[0] - lo[0], rd);
      BoxRankInjective(c[1..], d[1..], lo[1..], hi[1..]);
      assert c == [c[0]] + c[1..] && d == [d[0]] + d[1..];
    }
  }

  /** A value below `w` plus `w` times a quotient determines both. */
  lemma DigitsUnique(w: int, a: int, q: int, b: int, p: int)
    requires 0 <= a < w && 0 <= b < w && a + w * q == b + w * p
    ensures a == b && q == p
  {
    DivModUnique(a + w * q, w, q, a);
    DivModUnique(b + w * p, w, p, b);
  }

  // ---------------------------------------------------------------------
  // The matrix generator
  // ---------------------------------------------------------------------

  /**
   * `matrix_generator_iterator`: the current row point (`rowCoords`, row
   * number `row`), the current column point (`colCoords`, column number
   * `col`) inside the row point's halo box, whose upper corner is kept in
   * `columnMaxValues`, and the value of the current entry.
   */
  class MatrixGeneratorIterator<T> {
    const sizes: seq<nat>
    const halo: nat
    const diagonalValue: T
    const nonDiagonalValue: T
    const rowCoords: array<nat>
    const colCoords: array<nat>
    const columnMaxValues: array<nat>
    var row: nat
    var col: nat
    var value: T

    /** The arguments are accepted and the three coordinate arrays are separate, one entry per dimension. */
    ghost predicate Shaped()
    {
      && MatrixArgsOk(sizes, halo)
      && rowCoords.Length == |sizes| && colCoords.Length == |sizes| && columnMaxValues.Length == |sizes|
      && rowCoords != colCoords && rowCoords != columnMaxValues && colCoords != columnMaxValues
    }

    /** The row point is the coordinates of `row`, and `columnMaxValues` is the upper corner of its halo box. */
    ghost predicate RowState()
      reads this`row, rowCoords, columnMaxValues
    {
      && Shaped()
      && InRange(sizes, rowCoords[..]) && row == RowOf(sizes, rowCoords[..])
      && columnMaxValues[..] == ColumnMax(sizes, rowCoords[..], halo)
    }

    ghost predicate Valid()
      reads this`row, this`col, this`value, rowCoords, colCoords, columnMaxValues
    {
      && RowState()
      && col == RowOf(sizes, colCoords[..])
      && value == V()
    }

    /** The current row point lies inside the grid (its row is below the grid's row count). */
    ghost predicate RowInside()
      reads rowCoords
    {
      rowCoords.Length == |sizes| && forall i :: 0 <= i < |sizes| ==> rowCoords[i] < sizes[i]
    }

    /** The current column point lies in the current row point's halo box. */
    ghost predicate ColumnsInBox()
      reads rowCoords, colCoords, columnMaxValues
    {
      InBox(colCoords[..], ColumnMin(rowCoords[..], halo), columnMaxValues[..])
    }

    /** The position of the current column point in the walk of the halo box. */
    ghost function ColumnRank(): int
      reads rowCoords, colCoords, columnMaxValues
      requires Shaped()
    {
      BoxRank(colCoords[..], ColumnMin(rowCoords[..], halo), columnMaxValues[..])
    }

    /**
     * Starts at row `row0`, at the first column point of its halo box.
     * The constructor of the source also rejects bad arguments; here they
     * are excluded by `MatrixArgsOk`, which is exactly what `CheckMatrixArgs`
     * accepts.
     */
    constructor (sizes0: seq<nat>, row0: nat, halo0: nat, diag: T, nonDiag: T)
      requires MatrixArgsOk(sizes0, halo0)
      ensures Valid()
      ensures sizes == sizes0 && halo == halo0 && diagonalValue == diag && nonDiagonalValue == nonDiag
      ensures row == row0 && rowCoords[..] == CoordsOf(sizes0, row0)
      ensures colCoords[..] == ColumnMin(rowCoords[..], halo)
      ensures RowInside() ==> ColumnsInBox() && ColumnRank() == 0
    {
      sizes, halo := sizes0, halo0;
      diagonalValue, nonDiagonalValue := diag, nonDiag;
      rowCoords := new nat[|sizes0|];
      colCoords := new nat[|sizes0|];
      columnMaxValues := new nat[|sizes0|];
      row, col, value := row0, 0, nonDiag;
      new;
      RowToCoords(sizes, rowCoords, row0);
      RoundTrip(sizes, row0);
      CoordsInRange(sizes, row0);
      UpdateColumnMaxValues();
      ResetAllColumns();
      col := CoordsToRowcol(sizes, colCoords[..]);
      value := if col == row then diagonalValue else nonDiagonalValue;
      if RowInside() {
        HaloBoxInGrid(sizes, rowCoords[..], halo, colCoords[..]);
        BoxRankFirst(colCoords[..], columnMaxValues[..]);
      }
    }

    /** The current row. */
    function I(): nat
      reads this`row
    {
      row
    }

    /** The current column. */
    function J(): nat
      reads this`col
    {
      col
    }

    /** The value of the current entry: the diagonal value exactly on the diagonal. */
    function V(): (v: T)
      reads this`row, this`col
      ensures col == row ==> v == diagonalValue
      ensures col != row ==> v == nonDiagonalValue
    {
      if col == row then diagonalValue else nonDiagonalValue
    }

    /** `operator==`: same row and same column; nothing else is compared. */
    predicate Equals(o: MatrixGeneratorIterator<T>)
      reads this`row, this`col, o`row, o`col
    {
      o.I() == I() && o.J() == J()
    }

    /** `operator!=`: the row differs, or else the column differs. */
    predicate NotEquals(o: MatrixGeneratorIterator<T>)
      reads this`row, this`col, o`row, o`col
      ensures NotEquals(o) <==> !Equals(o)
    {
      if o.I() != I() then true else o.J() != J()
    }

    /** `update_column_max_values`: the upper corner of the halo box of the current row point. */
    method UpdateColumnMaxValues()
      requires MatrixArgsOk(sizes, halo)
      requires rowCoords.Length == |sizes| && columnMaxValues.Length == |sizes| && rowCoords != columnMaxValues
      modifies columnMaxValues
      ensures columnMaxValues[..] == ColumnMax(sizes, rowCoords[..], halo)
    {
      for i := 0 to columnMaxValues.Length
        invariant forall j :: 0 <= j < i ==> columnMaxValues[j] == Min(sizes[j] - 1, rowCoords[j] + halo)
      {
        columnMaxValues[i] := Min(sizes[i] - 1, rowCoords[i] + halo);
      }
    }

    /** `reset_column_coords`: column coordinate `dim` goes to the lower edge of the halo box. */
    method ResetColumnCoords(dim: nat)
      requires dim < colCoords.Length == rowCoords.Length && rowCoords != colCoords
      modifies colCoords
      ensures colCoords[..] == old(colCoords[..])[dim := ColumnMin(rowCoords[..], halo)[dim]]
    {
      colCoords[dim] := if rowCoords[dim] <= halo then 0 else rowCoords[dim] - halo;
    }

    /** `reset_all_columns`: the column point goes to the lower corner of the halo box. */
    method ResetAllColumns()
      requires colCoords.Length == rowCoords.Length && rowCoords != colCoords
      modifies colCoords
      ensures colCoords[..] == ColumnMin(rowCoords[..], halo)
    {
      for i := 0 to colCoords.Length
        invariant forall j :: 0 <= j < i ==> colCoords[j] == ColumnMin(rowCoords[..], halo)[j]
      {
        ResetColumnCoords(i);
      }
    }

    /**
     * `increment_column`: the odometer step of the column point within the
     * halo box. Returns true exactly when every coordinate was at its
     * maximum, in which case all of them went back to their minimum.
     */
    method IncrementColumn() returns (rewind: bool)
      requires Shaped()
      modifies colCoords
      ensures rewind <==> AllAtMax(old(colCoords[..]), columnMaxValues[..])
      ensures colCoords[..] == ColumnStep(old(colCoords[..]), ColumnMin(rowCoords[..], halo), columnMaxValues[..])
      ensures !rewind && old(ColumnsInBox()) ==> ColumnsInBox() && ColumnRank() == old(ColumnRank()) + 1
    {
      ghost var c0 := colCoords[..];
      ghost var lo, hi := ColumnMin(rowCoords[..], halo), columnMaxValues[..];
      var d := colCoords.Length;
      rewind := true;
      var i := 0;
      while rewind && i < d
        invariant 0 <= i <= d
        invariant rewind ==> forall j :: 0 <= j < i ==> c0[j] == hi[j] && colCoords[j] == lo[j]
        invariant rewind ==> forall j :: i <= j < d ==> colCoords[j] == c0[j]
        invariant !rewind ==> colCoords[..] == ColumnStep(c0, lo, hi) && !AllAtMax(c0, hi)
      {
        rewind := colCoords[i] == columnMaxValues[i];
        if rewind {
          ResetColumnCoords(i);
        } else {
          colCoords[i] := colCoords[i] + 1;
          StepMatches(c0, lo, hi, i, colCoords[..]);
        }
        i := i + 1;
      }
      if rewind {
        ColumnStepWraps(c0, lo, hi);
        assert colCoords[..] == lo;
      } else if InBox(c0, lo, hi) {
        ColumnStepInBox(c0, lo, hi);
        ColumnStepAdvances(c0, lo, hi);
      }
    }

    /**
     * The wrap branch of `operator++`: the next row point, the lower corner
     * of its halo box as the column point, the row number and the upper
     * corner recomputed.
     */
    method AdvanceRow()
      requires RowState()
      modifies this`row, rowCoords, colCoords, columnMaxValues
      ensures RowState()
      ensures row == old(row) + 1 && rowCoords[..] == CoordsOf(sizes, row)
      ensures colCoords[..] == ColumnMin(rowCoords[..], halo)
      ensures RowInside() ==> ColumnsInBox() && ColumnRank() == 0
    {
      IncrementRow(sizes, rowCoords);
      CoordsInRange(sizes, old(row) + 1);
      RoundTrip(sizes, old(row) + 1);
      ResetAllColumns();
      row := CoordsToRowcol(sizes, rowCoords[..]);
      UpdateColumnMaxValues();
      if RowInside() {
        HaloBoxInGrid(sizes, rowCoords[..], halo, colCoords[..]);
        BoxRankFirst(colCoords[..], columnMaxValues[..]);
      }
    }

    /**
     * `operator++`: steps the column point; when it wraps, moves to the
     * next row point, to the first point of its halo box. The column and
     * the value are then recomputed.
     */
    method Next()
      requires Valid()
      modifies this`row, this`col, this`value, rowCoords, colCoords, columnMaxValues
      ensures Valid()
      ensures AllAtMax(old(colCoords[..]), old(columnMaxValues[..])) ==>
        && row == old(row) + 1 && rowCoords[..] == CoordsOf(sizes, old(row) + 1)
        && colCoords[..] == ColumnMin(rowCoords[..], halo)
        && (RowInside() ==> ColumnsInBox() && ColumnRank() == 0)
      ensures !AllAtMax(old(colCoords[..]), old(columnMaxValues[..])) ==>
        && row == old(row) && rowCoords[..] == old(rowCoords[..])
        && colCoords[..] == ColumnStep(old(colCoords[..]), ColumnMin(old(rowCoords[..]), halo), old(columnMaxValues[..]))
        && (old(ColumnsInBox()) ==> ColumnsInBox() && ColumnRank() == old(ColumnRank()) + 1)
    {
      var mustRewind := IncrementColumn();
      if mustRewind {
        AdvanceRow();
      }
      RefreshColumn();
    }

    /** The tail of `operator++` and of the constructor: the column number and the value of the new column point. */
    method RefreshColumn()
      requires RowState()
      modifies this`col, this`value
      ensures Valid() && col == RowOf(sizes, colCoords[..])
    {
      col := CoordsToRowcol(sizes, colCoords[..]);
      value := if col == row then diagonalValue else nonDiagonalValue;
    }
  }

  /**
   * When coordinates `0..i` are at their maximum and coordinate `i` is not
   * (or `i` is past the end), the step sends coordinates `0..i` to their
   * minimum, raises coordinate `i` and keeps the rest.
   */
  lemma {:induction false} ColumnStepAt(c: seq<nat>, lo: seq<nat>, hi: seq<nat>, i: nat)
    requires |c| == |lo| == |hi| && i < |c|
    requires forall j :: 0 <= j < i ==> c[j] == hi[j]
    requires c[i] != hi[i]
    ensures forall j :: 0 <= j < |c| ==>
      ColumnStep(c, lo, hi)[j] == if j < i then lo[j] else if j == i then c[i] + 1 else c[j]
    decreases i
  {
    var r := ColumnStep(c, lo, hi);
    if i > 0 {
      ColumnStepAt(c[1..], lo[1..], hi[1..], i - 1);
      forall j | 0 <= j < |c|
        ensures r[j] == if j < i then lo[j] else if j == i then c[i] + 1 else c[j]
      {
        if j > 0 {
          assert r[j] == ColumnStep(c[1..], lo[1..], hi[1..])[j - 1];
        }
      }
    }
  }

  /** A column point laid out as `ColumnStepAt` describes is the step, and the start was not the last point. */
  lemma StepMatches(c: seq<nat>, lo: seq<nat>, hi: seq<nat>, i: nat, r: seq<nat>)
    requires |c| == |lo| == |hi| == |r| && i < |c|
    requires forall j :: 0 <= j < i ==> c[j] == hi[j]
    requires c[i] != hi[i]
    requires forall j :: 0 <= j < |r| ==> r[j] == if j < i then lo[j] else if j == i then c[i] + 1 else c[j]
    ensures r == ColumnStep(c, lo, hi) && !AllAtMax(c, hi)
  {
    ColumnStepAt(c, lo, hi, i);
  }

  // ---------------------------------------------------------------------
  // The coarsener
  // ---------------------------------------------------------------------

  /** Coordinates `a` scaled, dimension by dimension, by `steps`. */
  ghost function Scaled(a: seq<nat>, steps: seq<nat>): (r: seq<nat>)
    requires |a| == |steps|
    ensures |r| == |a|
  {
    seq(|a|, i requires 0 <= i < |a| => a[i] * steps[i])
  }

  /**
   * The column the coarsener emits for coarse coordinates `a`: each
   * coordinate scaled by its step, weighed by the product of steps times
   * sizes of the dimensions before it.
   */
  ghost function FinerColOf(sizes: seq<nat>, steps: seq<nat>, a: seq<nat>): nat
    requires |a| == |sizes| == |steps|
  {
    if |a| == 0 then 0
    else steps[0] * a[0] + steps[0] * sizes[0] * FinerColOf(sizes[1..], steps[1..], a[1..])
  }

  /**
   * When every finer size is its step times the coarse size, the emitted
   * column is the row number, in the finer grid, of the scaled coordinates,
   * and those lie in the finer grid when the coarse ones lie in the coarse
   * grid.
   */
  lemma {:induction false} FinerColIsFineRow(sizes: seq<nat>, steps: seq<nat>, finer: seq<nat>, a: seq<nat>)
    requires |a| == |sizes| == |steps| == |finer|
    requires forall i :: 0 <= i < |a| ==> finer[i] == steps[i] * sizes[i]
    ensures FinerColOf(sizes, steps, a) == RowOf(finer, Scaled(a, steps))
    decreases |a|
  {
    if |a| > 0 {
      var f := FinerColOf(sizes[1..], steps[1..], a[1..]);
      FinerColIsFineRow(sizes[1..], steps[1..], finer[1..], a[1..]);
      assert Scaled(a, steps)[1..] == Scaled(a[1..], steps[1..]);
      assert RowOf(finer, Scaled(a, steps)) == a[0] * steps[0] + finer[0] * f;
      assert FinerColOf(sizes, steps, a) == steps[0] * a[0] + (steps[0] * sizes[0]) * f;
    }
  }

  /** Coarse coordinates inside the coarse grid scale to fine coordinates inside the fine grid. */
  lemma ScaledInGrid(sizes: seq<nat>, steps: seq<nat>, finer: seq<nat>, a: seq<nat>)
    requires |a| == |sizes| == |steps| == |finer|
    requires forall i :: 0 <= i < |a| ==> finer[i] == steps[i] * sizes[i] && steps[i] > 0
    requires forall i :: 0 <= i < |a| ==> a[i] < sizes[i]
    ensures forall i :: 0 <= i < |a| ==> Scaled(a, steps)[i] < finer[i]
  {
    forall i | 0 <= i < |a|
      ensures Scaled(a, steps)[i] < finer[i]
    {
      MulAtLeast(steps[i], sizes[i] - a[i]);
      assert steps[i] * sizes[i] - a[i] * steps[i] == steps[i] * (sizes[i] - a[i]);
    }
  }

  /** `coords_to_finer_col`: the loop that accumulates `FinerColOf`. */
  method CoordsToFinerCol(sizes: seq<nat>, steps: seq<nat>, a: seq<nat>) returns (col: nat)
    requires |a| == |sizes| == |steps|
    ensures col == FinerColOf(sizes, steps, a)
  {
    col := 0;
    var s: nat := 1;
    for i := 0 to |a|
      invariant col + s * FinerColOf(sizes[i..], steps[i..], a[i..]) == FinerColOf(sizes, steps, a)
    {
      var rest := FinerColOf(sizes[i + 1..], steps[i + 1..], a[i + 1..]);
      assert FinerColOf(sizes[i..], steps[i..], a[i..]) == steps[i] * a[i] + steps[i] * sizes[i] * rest by {
        assert sizes[i..][1..] == sizes[i + 1..] && steps[i..][1..] == steps[i + 1..] && a[i..][1..] == a[i + 1..];
      }
      assert s * (steps[i] * a[i] + steps[i] * sizes[i] * rest) == (s * steps[i]) * a[i] + (s * steps[i] * sizes[i]) * rest;
      s := s * steps[i];
      col := col + s * a[i];
      s := s * sizes[i];
    }
    assert sizes[|a|..] == [] && steps[|a|..] == [] && a[|a|..] == [];
  }

  /**
   * The written test accepts a finer size 5 over a coarser 2. On a (2, 2)
   * coarse grid refined to (5, 2), steps (2, 1), the coarse point (0, 1) is
   * row 2 of the grid's 4 rows, so the iterator emits it; the column it then
   * emits is 4, while the fine point it stands for, (0, 1) of the (5, 2) grid,
   * is row 5.
   */
  lemma CoarsenerGuardAdmitsNonMultiple()
    ensures StepAcceptedAsWritten(2, 5) && !StepAccepted(2, 5)
    ensures InRange([2, 2], [0, 1]) && RowOf([2, 2], [0, 1]) == 2 < 2 * 2
    ensures FinerColOf([2, 2], [2, 1], [0, 1]) == 4
    ensures RowOf([5, 2], Scaled([0, 1], [2, 1])) == 5
  {
    assert [2, 2][1..] == [2] && [2, 1][1..] == [1] && [0, 1][1..] == [1] && [5, 2][1..] == [2];
    assert Scaled([0, 1], [2, 1]) == [0, 1];
  }

  /** The loop of the coarsener's constructor that records the step of every dimension. */
  method FillSteps(steps: array<nat>, coarser: seq<nat>, finer: seq<nat>)
    requires PositiveSizes(coarser) && |finer| == |coarser| == steps.Length
    modifies steps
    ensures steps[..] == Steps(coarser, finer)
  {
    for i := 0 to steps.Length
      invariant forall j :: 0 <= j < i ==> steps[j] == finer[j] / coarser[j]
    {
      steps[i] := finer[i] / coarser[i];
    }
  }

  /**
   * `coarsener_generator_iterator`: the current coarse row point
   * (`rowCoords`, row number `row`) and the finer column it maps to.
   */
  class CoarsenerGeneratorIterator {
    const sizes: seq<nat>
    const finerSizes: seq<nat>
    const steps: array<nat>
    const rowCoords: array<nat>
    var row: nat
    var col: nat

    ghost predicate Valid()
      reads this, steps, rowCoords
    {
      && CoarsenerArgsOk(sizes, finerSizes)
      && steps.Length == |sizes| && rowCoords.Length == |sizes| && steps != rowCoords
      && steps[..] == Steps(sizes, finerSizes)
      && InRange(sizes, rowCoords[..]) && row == RowOf(sizes, rowCoords[..])
      && col == RowOf(finerSizes, Scaled(rowCoords[..], steps[..]))
    }

    /**
     * Starts at coarse row `row0`. The constructor of the source also
     * rejects bad arguments; here they are excluded by `CoarsenerArgsOk`,
     * which is exactly what `CheckCoarsenerArgs` accepts.
     */
    constructor (coarser: seq<nat>, finer: seq<nat>, row0: nat)
      requires CoarsenerArgsOk(coarser, finer)
      ensures Valid() && sizes == coarser && finerSizes == finer
      ensures row == row0 && rowCoords[..] == CoordsOf(coarser, row0)
    {
      sizes, finerSizes := coarser, finer;
      steps := new nat[|coarser|];
      rowCoords := new nat[|coarser|];
      row, col := row0, 0;
      new;
      RowToCoords(sizes, rowCoords, row0);
      RoundTrip(sizes, row0);
      CoordsInRange(sizes, row0);
      FillSteps(steps, coarser, finer);
      col := CoordsToFinerCol(sizes, steps[..], rowCoords[..]);
      FinerMatches();
    }

    /** The finer sizes are the steps times the coarse sizes, so the emitted column is a fine-grid row. */
    lemma FinerMatches()
      requires CoarsenerArgsOk(sizes, finerSizes) && steps.Length == |sizes| && rowCoords.Length == |sizes|
      requires steps[..] == Steps(sizes, finerSizes)
      ensures FinerColOf(sizes, steps[..], rowCoords[..]) == RowOf(finerSizes, Scaled(rowCoords[..], steps[..]))
    {
      forall i | 0 <= i < |sizes|
        ensures finerSizes[i] == steps[i] * sizes[i]
      {
        StepAcceptedIsStricter(sizes[i], finerSizes[i]);
        assert steps[i] == Steps(sizes, finerSizes)[i];
      }
      FinerColIsFineRow(sizes, steps[..], finerSizes, rowCoords[..]);
    }

    function I(): nat
      reads this
    {
      row
    }

    function J(): nat
      reads this
    {
      col
    }

    /** The value of every entry of the coarsening matrix. */
    function V(): (v: nat)
      ensures v == 1
    {
      1
    }

    /** `operator==`: same row and same column. */
    predicate Equals(o: CoarsenerGeneratorIterator)
      reads this, o
    {
      I() == o.I() && J() == o.J()
    }

    /** `operator!=`: the row differs, or else the column differs. */
    predicate NotEquals(o: CoarsenerGeneratorIterator)
      reads this, o
      ensures NotEquals(o) <==> !Equals(o)
    {
      if I() != o.I() then true else J() != o.J()
    }

    /** `operator++`: the next coarse row, and the finer column it maps to. */
    method Next()
      requires Valid()
      modifies this`row, this`col, rowCoords
      ensures Valid()
      ensures row == old(row) + 1 && rowCoords[..] == CoordsOf(sizes, row)
    {
      IncrementRow(sizes, rowCoords);
      CoordsInRange(sizes, old(row) + 1);
      RoundTrip(sizes, old(row) + 1);
      row := CoordsToRowcol(sizes, rowCoords[..]);
      col := CoordsToFinerCol(sizes, steps[..], rowCoords[..]);
      FinerMatches();
    }
  }
}
