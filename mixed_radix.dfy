/**
 * Row numbers of an n-dimensional grid in mixed radix: coordinate 0 varies
 * fastest, every coordinate but the last stays below the size of its
 * dimension, and the last one is unbounded, so that any row number (also
 * one past the grid, as an end position) has coordinates.
 *
 * `RowOf` and `CoordsOf` are the meaning of a coordinate array and of a row
 * number; the methods `CoordsToRowcol`, `RowToCoords` and `IncrementRow`
 * are the loops of the row generator, proved against them. The functions
 * ending in `AsWritten` follow two of those loops as the repository writes
 * them, next to lemmas showing inputs where they go wrong.
 */
module MixedRadix {

  datatype Option<T> = None | Some(value: T)

  /** At least one dimension, and no dimension of size 0. */
  ghost predicate PositiveSizes(sizes: seq<nat>) {
    |sizes| > 0 && forall i :: 0 <= i < |sizes| ==> sizes[i] > 0
  }

  /** Every coordinate but the last lies below the size of its dimension. */
  ghost predicate InRange(sizes: seq<nat>, a: seq<nat>) {
    |a| == |sizes| && forall i :: 0 <= i < |a| - 1 ==> a[i] < sizes[i]
  }

  /** The row number of coordinates `a`: `a[0] + sizes[0] * (a[1] + sizes[1] * (...))`. */
  ghost function RowOf(sizes: seq<nat>, a: seq<nat>): nat
    requires |a| == |sizes|
  {
    if |a| == 0 then 0 else a[0] + sizes[0] * RowOf(sizes[1..], a[1..])
  }

  /** The coordinates of row `r`: digits in mixed radix, the last one unbounded. */
  ghost function CoordsOf(sizes: seq<nat>, r: nat): (c: seq<nat>)
    requires PositiveSizes(sizes)
    ensures |c| == |sizes|
    decreases |sizes|
  {
    if |sizes| == 1 then [r]
    else [r % sizes[0]] + CoordsOf(sizes[1..], r / sizes[0])
  }

  /** The product of the sizes of dimensions `0..i`: how many rows one step of coordinate `i` skips. */
  ghost function Stride(sizes: seq<nat>, i: nat): nat
    requires i <= |sizes|
  {
    if i == 0 then 1 else Stride(sizes, i - 1) * sizes[i - 1]
  }

  /** `k` zeros. */
  ghost function Zeros(k: nat): (z: seq<nat>)
    ensures |z| == k && forall j :: 0 <= j < k ==> z[j] == 0
  {
    seq(k, j => 0)
  }

  // ---------------------------------------------------------------------
  // Division facts
  // ---------------------------------------------------------------------

  /** Quotient and remainder are determined by any decomposition with a remainder in range. */
  lemma DivModUnique(x: int, d: int, q: int, r: int)
    requires 0 < d && 0 <= r < d && x == q * d + r
    ensures x / d == q && x % d == r
  {
    var q', r' := x / d, x % d;
    assert x == q' * d + r';
    if q' > q {
      MulAtLeast(q' - q, d);
      assert false;
    } else if q' < q {
      MulAtLeast(q - q', d);
      assert false;
    }
  }

  lemma {:induction false} MulAtLeast(k: nat, d: nat)
    requires k >= 1
    ensures k * d >= d
  {
    if k > 1 {
      MulAtLeast(k - 1, d);
      assert k * d == (k - 1) * d + d;
    }
  }

  /** Dividing by `a` and then by `b` is dividing by `a * b`, and the remainders combine. */
  lemma DivModProduct(x: nat, a: nat, b: nat)
    requires 0 < a && 0 < b
    ensures x / (a * b) == (x / a) / b
    ensures x % (a * b) == a * ((x / a) % b) + x % a
  {
    var q1, r1 := x / a, x % a;
    var q2, r2 := q1 / b, q1 % b;
    assert x == (a * b) * q2 + (a * r2 + r1) by {
      assert x == a * q1 + r1;
      assert q1 == b * q2 + r2;
    }
    assert a * r2 <= a * (b - 1);
    DivModUnique(x, a * b, q2, a * r2 + r1);
  }

  /** Cutting at `a * b` and then at `a` leaves what cutting at `a` leaves; the part above `a` is the next digit. */
  lemma ModOfProduct(x: nat, a: nat, b: nat)
    requires 0 < a && 0 < b
    ensures (x % (a * b)) % a == x % a
    ensures (x % (a * b)) / a == (x / a) % b
  {
    DivModProduct(x, a, b);
    DivModUnique(x % (a * b), a, (x / a) % b, x % a);
  }

  // ---------------------------------------------------------------------
  // Strides
  // ---------------------------------------------------------------------

  lemma {:induction false} StridePositive(sizes: seq<nat>, i: nat)
    requires PositiveSizes(sizes) && i <= |sizes|
    ensures Stride(sizes, i) > 0
  {
    if i > 0 {
      StridePositive(sizes, i - 1);
    }
  }

  /** The stride of dimension `k` is the first size times the stride of `k - 1` in the remaining dimensions. */
  lemma {:induction false} StrideCons(sizes: seq<nat>, k: nat)
    requires 1 <= k <= |sizes|
    ensures Stride(sizes, k) == sizes[0] * Stride(sizes[1..], k - 1)
  {
    if k > 1 {
      StrideCons(sizes, k - 1);
      assert sizes[1..][k - 2] == sizes[k - 1];
    }
  }

  /**
   * Coordinate `k` of row `r` is the quotient of `r` by the stride of `k`,
   * reduced modulo the size of `k` unless `k` is the last, unbounded, one.
   */
  lemma {:induction false} CoordsOfAt(sizes: seq<nat>, r: nat, k: nat)
    requires PositiveSizes(sizes) && k < |sizes|
    ensures Stride(sizes, k) > 0
    ensures CoordsOf(sizes, r)[k] ==
      if k < |sizes| - 1 then (r / Stride(sizes, k)) % sizes[k] else r / Stride(sizes, k)
    decreases |sizes|
  {
    StridePositive(sizes, k);
    if k > 0 {
      var tail := sizes[1..];
      assert PositiveSizes(tail) by {
        forall i | 0 <= i < |tail|
          ensures tail[i] > 0
        {
          assert tail[i] == sizes[i + 1];
        }
      }
      CoordsOfAt(tail, r / sizes[0], k - 1);
      StrideCons(sizes, k);
      DivModProduct(r, sizes[0], Stride(tail, k - 1));
      assert CoordsOf(sizes, r)[k] == CoordsOf(tail, r / sizes[0])[k - 1];
      assert tail[k - 1] == sizes[k];
    }
  }

  // ---------------------------------------------------------------------
  // Round trip
  // ---------------------------------------------------------------------

  lemma TailPositive(sizes: seq<nat>)
    requires PositiveSizes(sizes) && |sizes| > 1
    ensures PositiveSizes(sizes[1..])
  {
    forall i | 0 <= i < |sizes| - 1
      ensures sizes[1..][i] > 0
    {
      assert sizes[1..][i] == sizes[i + 1];
    }
  }

  /** Converting a row to coordinates and back gives the row, for every row number. */
  lemma {:induction false} RoundTrip(sizes: seq<nat>, r: nat)
    requires PositiveSizes(sizes)
    ensures RowOf(sizes, CoordsOf(sizes, r)) == r
    decreases |sizes|
  {
    var c := CoordsOf(sizes, r);
    if |sizes| > 1 {
      TailPositive(sizes);
      RoundTrip(sizes[1..], r / sizes[0]);
      assert c[1..] == CoordsOf(sizes[1..], r / sizes[0]);
    }
  }

  /** The coordinates of any row are in range: only the last may reach or pass its size. */
  lemma {:induction false} CoordsInRange(sizes: seq<nat>, r: nat)
    requires PositiveSizes(sizes)
    ensures InRange(sizes, CoordsOf(sizes, r))
    decreases |sizes|
  {
    if |sizes| > 1 {
      TailPositive(sizes);
      CoordsInRange(sizes[1..], r / sizes[0]);
      var c := CoordsOf(sizes, r);
      forall i | 0 <= i < |c| - 1
        ensures c[i] < sizes[i]
      {
        if i > 0 {
          assert c[i] == CoordsOf(sizes[1..], r / sizes[0])[i - 1];
          assert sizes[1..][i - 1] == sizes[i];
        }
      }
    }
  }

  /** Coordinates in range are the coordinates of their own row: no two in-range coordinate arrays share a row. */
  lemma {:induction false} CoordsUnique(sizes: seq<nat>, a: seq<nat>)
    requires PositiveSizes(sizes) && InRange(sizes, a)
    ensures CoordsOf(sizes, RowOf(sizes, a)) == a
    decreases |sizes|
  {
    if |sizes| > 1 {
      TailPositive(sizes);
      var tail := RowOf(sizes[1..], a[1..]);
      assert InRange(sizes[1..], a[1..]) by {
        forall i | 0 <= i < |a| - 2
          ensures a[1..][i] < sizes[1..][i]
        {
          assert a[1..][i] == a[i + 1] && sizes[1..][i] == sizes[i + 1];
        }
      }
      DivModUnique(RowOf(sizes, a), sizes[0], tail, a[0]);
      CoordsUnique(sizes[1..], a[1..]);
      assert CoordsOf(sizes, RowOf(sizes, a)) == [a[0]] + a[1..];
    }
  }

  // ---------------------------------------------------------------------
  // coords_to_rowcol
  // ---------------------------------------------------------------------

  /** `coords_to_rowcol`: accumulates each coordinate times the product of the sizes before it. */
  method CoordsToRowcol(sizes: seq<nat>, a: seq<nat>) returns (row: nat)
    requires |a| == |sizes|
    ensures row == RowOf(sizes, a)
  {
    row := 0;
    var s := 1;
    for i := 0 to |a|
      invariant row + s * RowOf(sizes[i..], a[i..]) == RowOf(sizes, a)
    {
      assert RowOf(sizes[i..], a[i..]) == a[i] + sizes[i] * RowOf(sizes[i + 1..], a[i + 1..]) by {
        assert sizes[i..][1..] == sizes[i + 1..] && a[i..][1..] == a[i + 1..];
      }
      assert s * (a[i] + sizes[i] * RowOf(sizes[i + 1..], a[i + 1..]))
          == s * a[i] + (s * sizes[i]) * RowOf(sizes[i + 1..], a[i + 1..]);
      row := row + s * a[i];
      s := s * sizes[i];
    }
    assert sizes[|a|..] == [] && a[|a|..] == [];
  }

  // ---------------------------------------------------------------------
  // row_to_coords
  // ---------------------------------------------------------------------

  /**
   * `row_to_coords`, with the divisor of line 133 corrected to the size of
   * the dimension below and the last coordinate of a one-dimensional grid
   * left unbounded: peels coordinates off `r` from the last dimension down,
   * dividing by the stride of each.
   */
  method RowToCoords(sizes: seq<nat>, coords: array<nat>, r: nat)
    requires PositiveSizes(sizes) && coords.Length == |sizes|
    modifies coords
    ensures coords[..] == CoordsOf(sizes, r)
  {
    var d := coords.Length;
    var s := 1;
    for i := 0 to d - 1
      invariant s == Stride(sizes, i)
    {
      s := s * sizes[i];
    }
    StridePositive(sizes, d - 1);
    var rest := r;
    var i := d - 1;
    while i > 0
      invariant 0 <= i <= d - 1
      invariant s == Stride(sizes, i) && s > 0
      invariant rest == if i == d - 1 then r else r % Stride(sizes, i + 1)
      invariant forall k :: i < k < d ==> coords[k] == CoordsOf(sizes, r)[k]
    {
      CoordsOfAt(sizes, r, i);
      StridePositive(sizes, i - 1);
      if i < d - 1 {
        ModOfProduct(r, s, sizes[i]);
      }
      coords[i] := rest / s;
      rest := rest % s;
      DivModUnique(s, sizes[i - 1], Stride(sizes, i - 1), 0);
      s := s / sizes[i - 1];
      i := i - 1;
    }
    CoordsOfAt(sizes, r, 0);
    coords[0] := rest;
    assert coords[..] == CoordsOf(sizes, r);
  }

  /**
   * `row_to_coords` as written: the stride is divided by the size of the
   * dimension just converted (line 133) instead of the one below it, and
   * the first coordinate is reduced modulo its size even when it is the
   * only, unbounded, one (line 135). `None` stands for a division by zero.
   */
  ghost function RowToCoordsAsWritten(sizes: seq<nat>, r: nat): Option<seq<nat>>
    requires PositiveSizes(sizes)
  {
    PeelAsWritten(sizes, |sizes| - 1, Stride(sizes, |sizes| - 1), r, Zeros(|sizes|))
  }

  /** The second loop of `row_to_coords` as written, from coordinate `i` down. */
  ghost function PeelAsWritten(sizes: seq<nat>, i: nat, s: nat, r: nat, c: seq<nat>): Option<seq<nat>>
    requires PositiveSizes(sizes) && i < |sizes| == |c|
    decreases i
  {
    if i == 0 then Some(c[0 := r % sizes[0]])
    else if s == 0 then None
    else PeelAsWritten(sizes, i - 1, s / sizes[i], r % s, c[i := r / s])
  }

  /** In a (4, 3, 2) grid, row 5 comes out as (1, 0, 0), the coordinates of row 1; row 5 is (1, 1, 0). */
  lemma RowToCoordsAsWrittenLosesRow()
    ensures RowToCoordsAsWritten([4, 3, 2], 5) == Some([1, 0, 0])
    ensures RowOf([4, 3, 2], [1, 0, 0]) == 1
    ensures CoordsOf([4, 3, 2], 5) == [1, 1, 0]
  {
    var sizes := [4, 3, 2];
    assert PositiveSizes(sizes);
    assert [0, 0, 0][0 := 1] == [1, 0, 0];
    assert [0, 0, 0][1 := 0] == [0, 0, 0] && [0, 0, 0][2 := 0] == [0, 0, 0];
    assert Stride(sizes, 1) == 4;
    assert Stride(sizes, 2) == 12;
    assert Zeros(3) == [0, 0, 0];
    assert PeelAsWritten(sizes, 0, 2, 5, [0, 0, 0]) == Some([1, 0, 0]);
    assert PeelAsWritten(sizes, 1, 6, 5, [0, 0, 0]) == Some([1, 0, 0]);
    assert PeelAsWritten(sizes, 2, 12, 5, [0, 0, 0]) == Some([1, 0, 0]);
    assert [4, 3, 2][1..] == [3, 2] && [3, 2][1..] == [2];
    assert CoordsOf([2], 0) == [0];
    assert CoordsOf([3, 2], 1) == [1, 0];
  }

  /** In a (1, 1, 5) grid the stride drops to 0 and the loop divides by it. */
  lemma RowToCoordsAsWrittenDividesByZero()
    ensures RowToCoordsAsWritten([1, 1, 5], 3) == None
  {
    var sizes := [1, 1, 5];
    assert PositiveSizes(sizes);
    assert [0, 0, 0][2 := 3] == [0, 0, 3];
    assert Stride(sizes, 1) == 1;
    assert Stride(sizes, 2) == 1;
    assert Zeros(3) == [0, 0, 0];
    assert PeelAsWritten(sizes, 2, 1, 3, [0, 0, 0]) == PeelAsWritten(sizes, 1, 0, 0, [0, 0, 3]);
  }

  /** In a one-dimensional grid of size 3, row 4 wraps to coordinate 1. */
  lemma RowToCoordsAsWrittenWrapsLine()
    ensures RowToCoordsAsWritten([3], 4) == Some([1])
    ensures RowOf([3], [1]) == 1
  {
    assert PositiveSizes([3]);
    assert [0][0 := 1] == [1];
    assert Stride([3], 0) == 1;
    assert Zeros(1) == [0];
    assert PeelAsWritten([3], 0, 1, 4, [0]) == Some([1]);
  }

  // ---------------------------------------------------------------------
  // increment_row
  // ---------------------------------------------------------------------

  /** The coordinates after `a` in the row order: the odometer step with an unbounded last digit. */
  ghost function Succ(sizes: seq<nat>, a: seq<nat>): (b: seq<nat>)
    requires |a| == |sizes| > 0
    ensures |b| == |a|
    decreases |a|
  {
    if |a| == 1 then [a[0] + 1]
    else if a[0] + 1 < sizes[0] then [a[0] + 1] + a[1..]
    else [0] + Succ(sizes[1..], a[1..])
  }

  /** The step moves to the next row and stays in range. */
  lemma {:induction false} SuccRow(sizes: seq<nat>, a: seq<nat>)
    requires PositiveSizes(sizes) && InRange(sizes, a)
    ensures RowOf(sizes, Succ(sizes, a)) == RowOf(sizes, a) + 1
    ensures InRange(sizes, Succ(sizes, a))
    decreases |a|
  {
    if |a| > 1 {
      var b := Succ(sizes, a);
      assert b[1..] == (if a[0] + 1 < sizes[0] then a[1..] else Succ(sizes[1..], a[1..]));
      if a[0] + 1 >= sizes[0] {
        TailPositive(sizes);
        assert InRange(sizes[1..], a[1..]) by {
          forall i | 0 <= i < |a| - 2
            ensures a[1..][i] < sizes[1..][i]
          {
            assert a[1..][i] == a[i + 1] && sizes[1..][i] == sizes[i + 1];
          }
        }
        SuccRow(sizes[1..], a[1..]);
        forall i | 1 <= i < |b| - 1
          ensures b[i] < sizes[i]
        {
          assert b[i] == b[1..][i - 1] && sizes[1..][i - 1] == sizes[i];
        }
      }
    }
  }

  /** The step gives the coordinates of the next row. */
  lemma SuccIsNextRow(sizes: seq<nat>, a: seq<nat>)
    requires PositiveSizes(sizes) && InRange(sizes, a)
    ensures Succ(sizes, a) == CoordsOf(sizes, RowOf(sizes, a) + 1)
  {
    SuccRow(sizes, a);
    CoordsUnique(sizes, Succ(sizes, a));
  }

  /**
   * When coordinates `0..i` are at their last value and coordinate `i`
   * can still be raised (or is the last, unbounded, one), the step clears
   * coordinates `0..i`, raises coordinate `i` and keeps the rest.
   */
  lemma {:induction false} SuccAfterCarries(sizes: seq<nat>, a: seq<nat>, i: nat)
    requires |a| == |sizes| && i < |a|
    requires forall j :: 0 <= j < i ==> a[j] + 1 == sizes[j]
    requires i == |a| - 1 || a[i] + 1 < sizes[i]
    ensures forall j :: 0 <= j < |a| ==>
      Succ(sizes, a)[j] == if j < i then 0 else if j == i then a[i] + 1 else a[j]
    decreases i
  {
    if i > 0 {
      SuccAfterCarries(sizes[1..], a[1..], i - 1);
      var b := Succ(sizes, a);
      forall j | 0 <= j < |a|
        ensures b[j] == if j < i then 0 else if j == i then a[i] + 1 else a[j]
      {
        if j > 0 {
          assert b[j] == Succ(sizes[1..], a[1..])[j - 1];
        }
      }
    }
  }

  /** Coordinates laid out as `SuccAfterCarries` describes are the step. */
  lemma SuccMatches(sizes: seq<nat>, a: seq<nat>, i: nat, c: seq<nat>)
    requires |a| == |sizes| == |c| && i < |a|
    requires forall j :: 0 <= j < i ==> a[j] + 1 == sizes[j]
    requires i == |a| - 1 || a[i] + 1 < sizes[i]
    requires forall j :: 0 <= j < |c| ==> c[j] == if j < i then 0 else if j == i then a[i] + 1 else a[j]
    ensures c == Succ(sizes, a)
  {
    SuccAfterCarries(sizes, a, i);
  }

  /**
   * `increment_row`, with the carry test corrected to also wrap a
   * dimension of size 1 and the loop turned into a `while`, so that a
   * one-dimensional grid's only coordinate is unbounded: raises coordinate
   * 0, carrying into the next coordinates while they wrap, and raises the
   * last coordinate when every other one wrapped.
   */
  method IncrementRow(sizes: seq<nat>, coords: array<nat>)
    requires PositiveSizes(sizes) && InRange(sizes, coords[..])
    modifies coords
    ensures coords[..] == CoordsOf(sizes, RowOf(sizes, old(coords[..])) + 1)
  {
    ghost var a := coords[..];
    var d := coords.Length;
    var rewind := true;
    var i := 0;
    while rewind && i < d - 1
      invariant 0 <= i <= d - 1
      invariant rewind ==> forall j :: 0 <= j < i ==> a[j] + 1 == sizes[j] && coords[j] == 0
      invariant rewind ==> forall j :: i <= j < d ==> coords[j] == a[j]
      invariant !rewind ==> coords[..] == Succ(sizes, a)
    {
      var newCoord := (coords[i] + 1) % sizes[i];
      rewind := newCoord <= coords[i];
      coords[i] := newCoord;
      if !rewind {
        SuccMatches(sizes, a, i, coords[..]);
      }
      i := i + 1;
    }
    if rewind {
      coords[d - 1] := coords[d - 1] + 1;
      SuccMatches(sizes, a, d - 1, coords[..]);
    }
    SuccIsNextRow(sizes, a);
  }

  /** `increment_row` as written, from coordinate `i` on: a `do`-`while` whose carry test is `new < old`. */
  ghost function IncrementRowAsWritten(sizes: seq<nat>, c: seq<nat>, i: nat): seq<nat>
    requires PositiveSizes(sizes) && |c| == |sizes| && i < |c|
    decreases |c| - i
  {
    var newCoord := (c[i] + 1) % sizes[i];
    var rewind := newCoord < c[i];
    var c' := c[i := newCoord];
    if rewind && i + 1 < |c| - 1 then IncrementRowAsWritten(sizes, c', i + 1)
    else if rewind then c'[|c| - 1 := c'[|c| - 1] + 1]
    else c'
  }

  /** In a one-dimensional grid of size 3, the row after 2 comes out as 1. */
  lemma IncrementRowAsWrittenGoesBack()
    ensures IncrementRowAsWritten([3], [2], 0) == [1]
    ensures CoordsOf([3], RowOf([3], [2]) + 1) == [3]
  {
  }

  /** In a (1, 3) grid the size-1 dimension never reports a wrap, so row 0 does not advance. */
  lemma IncrementRowAsWrittenStalls()
    ensures IncrementRowAsWritten([1, 3], [0, 0], 0) == [0, 0]
    ensures CoordsOf([1, 3], RowOf([1, 3], [0, 0]) + 1) == [0, 1]
  {
    assert [1, 3][1..] == [3];
    assert [0, 0][1..] == [0];
  }
}
