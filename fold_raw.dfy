/**
 * Folding a tall-skinny matrix into a vector, row by row, skipping one
 * column: the two raw folds of the banshee backend.
 *
 * The matrix has `n` rows and `K` columns and is stored column-major, so
 * that the entry of row `i` in column `k` sits at `k * n + i`. The element
 * types and the operators are left abstract: `op` and `acc` are any
 * functions, and `cast` is the conversion from the matrix's element type
 * to the vector's that an assignment performs.
 */
module BansheeRawFold {
  import opened NonblockingCoordinates

  /** The return codes the two folds use. */
  datatype RC = Success | Mismatch | Illegal

  // ---------------------------------------------------------------------
  // The matrix
  // ---------------------------------------------------------------------

  /** Entry `(i, k)` of a column-major `n` by `K` matrix lies inside its `n * K` cells. */
  lemma CellInMatrix(n: nat, K: nat, k: nat, i: nat)
    requires k < K && i < n
    ensures k * n + i < n * K
  {
    assert n * K - k * n == (K - k) * n;
    assert (K - k) * n >= n by {
      assert (K - k) * n == n + (K - k - 1) * n;
    }
  }

  /** The entry of row `i` in column `k`. */
  function Cell<I>(cells: seq<I>, n: nat, K: nat, k: nat, i: nat): (e: I)
    requires |cells| >= n * K && k < K && i < n
    ensures k * n + i < |cells| && e == cells[k * n + i]
  {
    CellInMatrix(n, K, k, i);
    cells[k * n + i]
  }

  /** Row `i` of the matrix: its entries in increasing column order. */
  ghost function Row<I>(cells: seq<I>, n: nat, K: nat, i: nat): (r: seq<I>)
    requires |cells| >= n * K && i < n
    ensures |r| == K
  {
    seq(K, k requires 0 <= k < K => Cell(cells, n, K, k, i))
  }

  /** The standard left fold of `f` over `s`, starting from `v`. */
  ghost function FoldLeft<V, I>(f: (V, I) -> V, v: V, s: seq<I>): V
    decreases |s|
  {
    if |s| == 0 then v else FoldLeft(f, f(v, s[0]), s[1..])
  }

  /** Folding over `s + [x]` folds over `s`, then applies `f` once more. */
  lemma {:induction false} FoldLeftSnoc<V, I>(f: (V, I) -> V, v: V, s: seq<I>, x: I)
    ensures FoldLeft(f, v, s + [x]) == f(FoldLeft(f, v, s), x)
    decreases |s|
  {
    if |s| > 0 {
      assert (s + [x])[1..] == s[1..] + [x];
      FoldLeftSnoc(f, f(v, s[0]), s[1..], x);
    }
  }

  // ---------------------------------------------------------------------
  // The unmasked fold
  // ---------------------------------------------------------------------

  /**
   * What the unmasked fold folds into entry `i`: row `i` without column
   * `skip`. With `skip == K` nothing is left out.
   */
  ghost function RowInputs<I>(cells: seq<I>, n: nat, K: nat, skip: nat, i: nat): (r: seq<I>)
    requires |cells| >= n * K && i < n && skip <= K
    ensures skip == K ==> r == Row(cells, n, K, i)
    ensures skip < K ==> |r| == K - 1
    ensures forall k :: 0 <= k < K && k != skip ==> r[if k < skip then k else k - 1] == Cell(cells, n, K, k, i)
  {
    var row := Row(cells, n, K, i);
    if skip == K then row else row[..skip] + row[skip + 1..]
  }

  /**
   * The value of entry `i` after columns `0..k` (except `skip`) have been
   * folded into it, one column after the other.
   */
  ghost function FoldCols<V, I>(op: (V, I) -> V, v: V, cells: seq<I>, n: nat, K: nat, skip: nat, i: nat, k: nat): V
    requires |cells| >= n * K && i < n && k <= K
  {
    if k == 0 then v
    else
      var u := FoldCols(op, v, cells, n, K, skip, i, k - 1);
      if k - 1 == skip then u else op(u, Cell(cells, n, K, k - 1, i))
  }

  /** The columns `0..k` of row `i`, leaving out `skip`. */
  ghost function KeptBelow<I>(cells: seq<I>, n: nat, K: nat, skip: nat, i: nat, k: nat): seq<I>
    requires |cells| >= n * K && i < n && k <= K
  {
    var row := Row(cells, n, K, i);
    if k <= skip then row[..k] else row[..skip] + row[skip + 1..k]
  }

  /** One more column: the kept columns grow by the row's entry there, unless it is `skip`. */
  lemma KeptBelowNext<I>(cells: seq<I>, n: nat, K: nat, skip: nat, i: nat, k: nat)
    requires |cells| >= n * K && i < n && 0 < k <= K
    ensures KeptBelow(cells, n, K, skip, i, k) ==
      if k - 1 == skip then KeptBelow(cells, n, K, skip, i, k - 1)
      else KeptBelow(cells, n, K, skip, i, k - 1) + [Row(cells, n, K, i)[k - 1]]
  {
    var row := Row(cells, n, K, i);
    if k - 1 == skip {
      assert row[skip + 1..k] == [];
    } else if k <= skip {
      assert row[..k] == row[..k - 1] + [row[k - 1]];
    } else {
      assert row[skip + 1..k] == row[skip + 1..k - 1] + [row[k - 1]];
    }
  }

  lemma {:induction false} FoldColsIsFoldBelow<V, I>(op: (V, I) -> V, v: V, cells: seq<I>, n: nat, K: nat, skip: nat, i: nat, k: nat)
    requires |cells| >= n * K && i < n && k <= K
    ensures FoldCols(op, v, cells, n, K, skip, i, k) == FoldLeft(op, v, KeptBelow(cells, n, K, skip, i, k))
    decreases k
  {
    if k > 0 {
      FoldColsIsFoldBelow(op, v, cells, n, K, skip, i, k - 1);
      KeptBelowNext(cells, n, K, skip, i, k);
      if k - 1 != skip {
        FoldLeftSnoc(op, v, KeptBelow(cells, n, K, skip, i, k - 1), Row(cells, n, K, i)[k - 1]);
      }
    }
  }

  /**
   * Folding the columns one after the other, skipping `skip`, is the left
   * fold of `op` over the row without column `skip`.
   */
  lemma FoldColsIsFold<V, I>(op: (V, I) -> V, v: V, cells: seq<I>, n: nat, K: nat, skip: nat, i: nat)
    requires |cells| >= n * K && i < n && skip <= K
    ensures FoldCols(op, v, cells, n, K, skip, i, K) == FoldLeft(op, v, RowInputs(cells, n, K, skip, i))
  {
    FoldColsIsFoldBelow(op, v, cells, n, K, skip, i, K);
    var row := Row(cells, n, K, i);
    if skip == K {
      assert row[..K] == row;
    } else {
      assert row[skip + 1..K] == row[skip + 1..];
    }
  }

  /**
   * Folds column `k` into the `|buffer|` consecutive entries from row `i`:
   * the column's block is copied to a local input buffer, then folded entry
   * by entry.
   */
  method FoldColumnBlock<V, I>(buffer: array<V>, op: (V, I) -> V, cells: seq<I>, n: nat, K: nat, k: nat, i: nat)
    requires |cells| >= n * K && k < K && i + buffer.Length <= n
    modifies buffer
    ensures forall j :: 0 <= j < buffer.Length ==> buffer[j] == op(old(buffer[j]), Cell(cells, n, K, k, i + j))
  {
    var input := new I[buffer.Length](j requires 0 <= j < buffer.Length => Cell(cells, n, K, k, i + j));
    for j := 0 to buffer.Length
      invariant forall t :: 0 <= t < input.Length ==> input[t] == Cell(cells, n, K, k, i + t)
      invariant forall t :: 0 <= t < j ==> buffer[t] == op(old(buffer[t]), Cell(cells, n, K, k, i + t))
      invariant forall t :: j <= t < buffer.Length ==> buffer[t] == old(buffer[t])
    {
      buffer[j] := op(buffer[j], input[j]);
    }
  }

  /**
   * The column loops of one block: every column but `skip` is folded, in
   * increasing order, into the buffer holding the entries from row `i`.
   */
  method FoldColumnsIntoBuffer<V, I>(buffer: array<V>, op: (V, I) -> V, cells: seq<I>, n: nat, K: nat, skip: nat, i: nat)
    requires |cells| >= n * K && skip <= K && i + buffer.Length <= n
    modifies buffer
    ensures forall j :: 0 <= j < buffer.Length ==> buffer[j] == FoldCols(op, old(buffer[j]), cells, n, K, skip, i + j, K)
  {
    for k := 0 to skip
      invariant forall j :: 0 <= j < buffer.Length ==> buffer[j] == FoldCols(op, old(buffer[j]), cells, n, K, skip, i + j, k)
    {
      FoldColumnBlock(buffer, op, cells, n, K, k, i);
    }
    var k := skip + 1;
    while k < K
      invariant skip + 1 <= k
      invariant forall j :: 0 <= j < buffer.Length ==>
        buffer[j] == FoldCols(op, old(buffer[j]), cells, n, K, skip, i + j, if k <= K then k else K)
      decreases K - k
    {
      FoldColumnBlock(buffer, op, cells, n, K, k, i);
      k := k + 1;
    }
  }

  /**
   * One block of the main loop: the `bs` entries from row `i` are copied to
   * a buffer, every column but `skip` is folded into the buffer, and the
   * buffer is written back.
   */
  method FoldBlock<V, I>(foldInto: array<V>, op: (V, I) -> V, cells: seq<I>, n: nat, K: nat, skip: nat, i: nat, bs: nat)
    requires |cells| >= n * K && skip <= K && 0 < bs && i + bs <= n <= foldInto.Length
    modifies foldInto
    ensures forall j :: i <= j < i + bs ==> foldInto[j] == FoldCols(op, old(foldInto[j]), cells, n, K, skip, j, K)
    ensures forall j :: 0 <= j < foldInto.Length && !(i <= j < i + bs) ==> foldInto[j] == old(foldInto[j])
  {
    var buffer := new V[bs](j requires 0 <= j < bs reads foldInto => foldInto[i + j]);
    ghost var b0 := buffer[..];
    assert forall t :: 0 <= t < bs ==> b0[t] == old(foldInto[i + t]);
    FoldColumnsIntoBuffer(buffer, op, cells, n, K, skip, i);
    WriteBack(foldInto, buffer, i);
    forall j | i <= j < i + bs
      ensures foldInto[j] == FoldCols(op, old(foldInto[j]), cells, n, K, skip, j, K)
    {
      assert foldInto[i + (j - i)] == buffer[j - i];
    }
  }

  /** Copies `buffer` into the entries of `foldInto` from `i` on, and changes nothing else. */
  method WriteBack<V>(foldInto: array<V>, buffer: array<V>, i: nat)
    requires buffer != foldInto && i + buffer.Length <= foldInto.Length
    modifies foldInto
    ensures forall t :: 0 <= t < buffer.Length ==> foldInto[i + t] == buffer[t]
    ensures forall t :: 0 <= t < foldInto.Length && !(i <= t < i + buffer.Length) ==> foldInto[t] == old(foldInto[t])
  {
    for j := 0 to buffer.Length
      invariant forall t :: 0 <= t < j ==> foldInto[i + t] == buffer[t]
      invariant forall t :: 0 <= t < foldInto.Length && !(i <= t < i + j) ==> foldInto[t] == old(foldInto[t])
    {
      foldInto[i + j] := buffer[j];
    }
  }

  /** One row of the coda: every column but `skip` is folded straight into entry `i`. */
  method FoldRow<V, I>(foldInto: array<V>, op: (V, I) -> V, cells: seq<I>, n: nat, K: nat, skip: nat, i: nat)
    requires |cells| >= n * K && skip <= K && i < n <= foldInto.Length
    modifies foldInto
    ensures foldInto[i] == FoldCols(op, old(foldInto[i]), cells, n, K, skip, i, K)
    ensures forall j :: 0 <= j < foldInto.Length && j != i ==> foldInto[j] == old(foldInto[j])
  {
    ghost var v := foldInto[i];
    for k := 0 to skip
      invariant foldInto[i] == FoldCols(op, v, cells, n, K, skip, i, k)
      invariant forall j :: 0 <= j < foldInto.Length && j != i ==> foldInto[j] == old(foldInto[j])
    {
      foldInto[i] := op(foldInto[i], Cell(cells, n, K, k, i));
    }
    var k := skip + 1;
    while k < K
      invariant skip + 1 <= k
      invariant foldInto[i] == FoldCols(op, v, cells, n, K, skip, i, if k <= K then k else K)
      invariant forall j :: 0 <= j < foldInto.Length && j != i ==> foldInto[j] == old(foldInto[j])
    {
      foldInto[i] := op(foldInto[i], Cell(cells, n, K, k, i));
      k := k + 1;
    }
  }

  /** The main loop and the coda of the unmasked fold, after the argument checks. */
  method FoldBlocked<V, I>(foldInto: array<V>, op: (V, I) -> V, cells: seq<I>, n: nat, K: nat, skip: nat, bs: nat)
    requires |cells| >= n * K && skip <= K && 0 < bs && n <= foldInto.Length
    modifies foldInto
    ensures forall j :: 0 <= j < n ==> foldInto[j] == FoldCols(op, old(foldInto[j]), cells, n, K, skip, j, K)
    ensures forall j :: n <= j < foldInto.Length ==> foldInto[j] == old(foldInto[j])
  {
    var i := 0;
    while i + bs - 1 < n
      invariant i <= n
      invariant forall j :: 0 <= j < i ==> foldInto[j] == FoldCols(op, old(foldInto[j]), cells, n, K, skip, j, K)
      invariant forall j :: i <= j < foldInto.Length ==> foldInto[j] == old(foldInto[j])
      decreases n - i
    {
      FoldBlock(foldInto, op, cells, n, K, skip, i, bs);
      i := i + bs;
    }
    while i < n
      invariant i <= n
      invariant forall j :: 0 <= j < i ==> foldInto[j] == FoldCols(op, old(foldInto[j]), cells, n, K, skip, j, K)
      invariant forall j :: i <= j < foldInto.Length ==> foldInto[j] == old(foldInto[j])
    {
      FoldRow(foldInto, op, cells, n, K, skip, i);
      i := i + 1;
    }
  }

  /**
   * The unmasked `foldl_from_raw_matrix_to_vector`: checks its arguments,
   * then folds, for every row `i < n`, the row without column `skip` into
   * `foldInto[i]` with `op`, from left to right. The block size `bs` of
   * the main loop is the positive SIMD block size of the build.
   */
  method FoldUnmasked<V, I>(foldInto: array<V>, cells: seq<I>, n: nat, K: nat, skip: nat, op: (V, I) -> V, bs: nat) returns (rc: RC)
    requires 0 < bs && |cells| >= n * K && n <= foldInto.Length
    modifies foldInto
    ensures rc == (if K == 0 || skip > K then Illegal else Success)
    ensures rc == Illegal || n == 0 ==> foldInto[..] == old(foldInto[..])
    ensures rc == Success ==>
      forall j :: 0 <= j < n ==> foldInto[j] == FoldLeft(op, old(foldInto[j]), RowInputs(cells, n, K, skip, j))
    ensures forall j :: n <= j < foldInto.Length ==> foldInto[j] == old(foldInto[j])
  {
    if K == 0 {
      return Illegal;
    }
    if skip > K {
      return Illegal;
    }
    if n == 0 {
      return Success;
    }
    FoldBlocked(foldInto, op, cells, n, K, skip, bs);
    forall j | 0 <= j < n
      ensures FoldCols(op, old(foldInto[j]), cells, n, K, skip, j, K) == FoldLeft(op, old(foldInto[j]), RowInputs(cells, n, K, skip, j))
    {
      FoldColsIsFold(op, old(foldInto[j]), cells, n, K, skip, j);
    }
    return Success;
  }

  // ---------------------------------------------------------------------
  // The masked fold
  // ---------------------------------------------------------------------

  /** Entry `(i, k)` takes part in the masked fold: its column is not skipped and its mask is set. */
  ghost predicate Kept(mask: seq<bool>, n: nat, K: nat, skip: nat, noSkip: bool, k: nat, i: nat)
    requires |mask| >= n * K && k < K && i < n
  {
    (noSkip || k != skip) && Cell(mask, n, K, k, i)
  }

  /** The presence flag and the value of entry `i` after one entry is folded in: accumulated when present, assigned otherwise. */
  ghost function MaskedStep<V, I>(acc: (V, I) -> V, cast: I -> V, p: bool, v: V, e: I): (bool, V) {
    if p then (true, acc(v, e)) else (true, cast(e))
  }

  /** The presence flag and the value of entry `i` after columns `0..k` have been processed. */
  ghost function MaskedCols<V, I>(acc: (V, I) -> V, cast: I -> V, p: bool, v: V, cells: seq<I>, mask: seq<bool>,
                                  n: nat, K: nat, skip: nat, noSkip: bool, i: nat, k: nat): (bool, V)
    requires |cells| >= n * K && |mask| >= n * K && i < n && k <= K
  {
    if k == 0 then (p, v)
    else
      var u := MaskedCols(acc, cast, p, v, cells, mask, n, K, skip, noSkip, i, k - 1);
      if Kept(mask, n, K, skip, noSkip, k - 1, i) then MaskedStep(acc, cast, u.0, u.1, Cell(cells, n, K, k - 1, i)) else u
  }

  /** The entries of row `i` among columns `0..k` that take part, in increasing column order. */
  ghost function Selected<I>(cells: seq<I>, mask: seq<bool>, n: nat, K: nat, skip: nat, noSkip: bool, i: nat, k: nat): (s: seq<I>)
    requires |cells| >= n * K && |mask| >= n * K && i < n && k <= K
    ensures |s| <= k
  {
    if k == 0 then []
    else
      var s := Selected(cells, mask, n, K, skip, noSkip, i, k - 1);
      if Kept(mask, n, K, skip, noSkip, k - 1, i) then s + [Cell(cells, n, K, k - 1, i)] else s
  }

  /**
   * The masked fold leaves entry `i` alone when no entry of its row takes
   * part. Otherwise the entry ends up present, and its value is the left
   * fold of `acc` over the entries that take part, starting from its old
   * value when it was present, and from the first of them when it was not.
   */
  lemma {:induction false} MaskedColsIsFold<V, I>(acc: (V, I) -> V, cast: I -> V, p: bool, v: V, cells: seq<I>, mask: seq<bool>,
                                                 n: nat, K: nat, skip: nat, noSkip: bool, i: nat, k: nat)
    requires |cells| >= n * K && |mask| >= n * K && i < n && k <= K
    ensures var s := Selected(cells, mask, n, K, skip, noSkip, i, k);
      MaskedCols(acc, cast, p, v, cells, mask, n, K, skip, noSkip, i, k) ==
        if s == [] then (p, v)
        else if p then (true, FoldLeft(acc, v, s))
        else (true, FoldLeft(acc, cast(s[0]), s[1..]))
    decreases k
  {
    if k > 0 {
      MaskedColsIsFold(acc, cast, p, v, cells, mask, n, K, skip, noSkip, i, k - 1);
      var s := Selected(cells, mask, n, K, skip, noSkip, i, k - 1);
      if Kept(mask, n, K, skip, noSkip, k - 1, i) {
        var e := Cell(cells, n, K, k - 1, i);
        if s == [] {
          assert s + [e] == [e];
        } else if p {
          FoldLeftSnoc(acc, v, s, e);
        } else {
          assert (s + [e])[1..] == s[1..] + [e];
          FoldLeftSnoc(acc, cast(s[0]), s[1..], e);
        }
      }
    }
  }

  /**
   * Only the entries that take part are read: two matrices that agree on
   * them give the same result, whatever the skipped column and the
   * entries with a false mask hold.
   */
  lemma {:induction false} MaskedColsReadsOnlyKept<V, I>(acc: (V, I) -> V, cast: I -> V, p: bool, v: V, cells: seq<I>, other: seq<I>,
                                                        mask: seq<bool>, n: nat, K: nat, skip: nat, noSkip: bool, i: nat, k: nat)
    requires |cells| >= n * K && |other| >= n * K && |mask| >= n * K && i < n && k <= K
    requires forall c :: 0 <= c < k && Kept(mask, n, K, skip, noSkip, c, i) ==> Cell(cells, n, K, c, i) == Cell(other, n, K, c, i)
    ensures MaskedCols(acc, cast, p, v, cells, mask, n, K, skip, noSkip, i, k)
         == MaskedCols(acc, cast, p, v, other, mask, n, K, skip, noSkip, i, k)
    decreases k
  {
    if k > 0 {
      MaskedColsReadsOnlyKept(acc, cast, p, v, cells, other, mask, n, K, skip, noSkip, i, k - 1);
    }
  }

  /** One more column: the entry is folded in exactly when it takes part. */
  lemma MaskedColsNext<V, I>(acc: (V, I) -> V, cast: I -> V, p: bool, v: V, cells: seq<I>, mask: seq<bool>,
                             n: nat, K: nat, skip: nat, noSkip: bool, i: nat, k: nat)
    requires |cells| >= n * K && |mask| >= n * K && i < n && k < K
    ensures k * n + i < |cells| && k * n + i < |mask|
    ensures var u := MaskedCols(acc, cast, p, v, cells, mask, n, K, skip, noSkip, i, k);
      MaskedCols(acc, cast, p, v, cells, mask, n, K, skip, noSkip, i, k + 1) ==
        if (noSkip || k != skip) && mask[k * n + i] then MaskedStep(acc, cast, u.0, u.1, cells[k * n + i]) else u
  {
    CellInMatrix(n, K, k, i);
  }

  /**
   * Processes row `i` of the masked fold: for every column `k` in
   * increasing order whose entry takes part, entry `i` of the vector is
   * assigned (marking it present) or, when it is present already,
   * accumulated into.
   */
  method FoldMaskedRow<V, I>(coords: Coordinates, raw: array<V>, cells: seq<I>, mask: seq<bool>, n: nat, K: nat,
                             skip: nat, noSkip: bool, acc: (V, I) -> V, cast: I -> V, i: nat)
    requires coords.Valid() && coords.cap == n == raw.Length && i < n
    requires raw as object != coords.present && raw as object != coords.mem
    requires |cells| >= n * K && |mask| >= n * K
    modifies coords`n, coords.present, coords.mem, raw
    ensures coords.Valid()
    ensures var r := MaskedCols(acc, cast, old(coords.Presence())[i], old(raw[i]), cells, mask, n, K, skip, noSkip, i, K);
      coords.Presence() == old(coords.Presence())[i := r.0] && raw[..] == old(raw[..])[i := r.1]
  {
    ghost var p0, r0 := coords.Presence(), raw[..];
    for k := 0 to K
      invariant coords.Valid() && coords.cap == n
      invariant var r := MaskedCols(acc, cast, p0[i], r0[i], cells, mask, n, K, skip, noSkip, i, k);
        coords.Presence() == p0[i := r.0] && raw[..] == r0[i := r.1]
    {
      FoldMaskedColumn(coords, raw, cells, mask, n, K, skip, noSkip, acc, cast, i, k, p0, r0);
    }
  }

  /**
   * One iteration of the inner loop of the masked fold: column `k` of row
   * `i` is skipped, or its mask is false, or it is folded into entry `i`.
   */
  method FoldMaskedColumn<V, I>(coords: Coordinates, raw: array<V>, cells: seq<I>, mask: seq<bool>, n: nat, K: nat,
                                skip: nat, noSkip: bool, acc: (V, I) -> V, cast: I -> V, i: nat, k: nat,
                                ghost p0: seq<bool>, ghost r0: seq<V>)
    requires coords.Valid() && coords.cap == n == raw.Length && i < n && k < K && |p0| == n == |r0|
    requires raw as object != coords.present && raw as object != coords.mem
    requires |cells| >= n * K && |mask| >= n * K
    requires var r := MaskedCols(acc, cast, p0[i], r0[i], cells, mask, n, K, skip, noSkip, i, k);
      coords.Presence() == p0[i := r.0] && raw[..] == r0[i := r.1]
    modifies coords`n, coords.present, coords.mem, raw
    ensures coords.Valid()
    ensures var r := MaskedCols(acc, cast, p0[i], r0[i], cells, mask, n, K, skip, noSkip, i, k + 1);
      coords.Presence() == p0[i := r.0] && raw[..] == r0[i := r.1]
  {
    MaskedColsNext(acc, cast, p0[i], r0[i], cells, mask, n, K, skip, noSkip, i, k);
    if !noSkip && k == skip {
      return;
    }
    var src := k * n + i;
    if mask[src] {
      FoldMaskedEntry(coords, raw, acc, cast, i, cells[src]);
    }
  }

  /**
   * The body of the masked fold's inner loop once an entry takes part:
   * `asyncAssign` reports whether entry `i` was present already, and the
   * value is accumulated into or assigned accordingly.
   */
  method FoldMaskedEntry<V, I>(coords: Coordinates, raw: array<V>, acc: (V, I) -> V, cast: I -> V, i: nat, e: I)
    requires coords.Valid() && coords.cap == raw.Length && i < raw.Length
    requires raw as object != coords.present && raw as object != coords.mem
    modifies coords`n, coords.present, coords.mem, raw
    ensures coords.Valid()
    ensures coords.Presence() == old(coords.Presence())[i := true]
    ensures raw[..] == old(raw[..])[i := MaskedStep(acc, cast, old(coords.Presence())[i], old(raw[i]), e).1]
  {
    ghost var r1 := raw[..];
    var present := coords.Assign(i);
    assert raw[..] == r1;
    var v := if present then acc(raw[i], e) else cast(e);
    Store(raw, i, v);
  }

  /** Writes `v` into slot `i` of `raw`, and nothing else. */
  method Store<V>(raw: array<V>, i: nat, v: V)
    requires i < raw.Length
    modifies raw
    ensures raw[..] == old(raw[..])[i := v]
  {
    raw[i] := v;
  }

  /**
   * The masked `foldl_from_raw_matrix_to_vector`: checks its arguments in
   * the order the source does, then processes rows `0..n` one after the
   * other. `coords` and `raw` are the sparsity structure and the values of
   * the vector; `noSkip` says that no column is skipped.
   */
  method FoldMasked<V, I>(coords: Coordinates, raw: array<V>, cells: seq<I>, mask: seq<bool>, n: nat, K: nat,
                          skip: nat, noSkip: bool, acc: (V, I) -> V, cast: I -> V) returns (rc: RC)
    requires coords.Valid() && coords.cap == raw.Length
    requires raw as object != coords.present && raw as object != coords.mem
    requires |cells| >= n * K && |mask| >= n * K
    modifies coords`n, coords.present, coords.mem, raw
    ensures rc == (if n != coords.cap then Mismatch
                   else if K == 0 || (!noSkip && skip > K) then Illegal
                   else Success)
    ensures coords.Valid()
    ensures rc != Success || n == 0 ==>
      coords.n == old(coords.n) && coords.present[..] == old(coords.present[..])
      && coords.mem[..] == old(coords.mem[..]) && raw[..] == old(raw[..])
    ensures rc == Success ==> forall i :: 0 <= i < n ==>
      (coords.Presence()[i], raw[i]) ==
        MaskedCols(acc, cast, old(coords.Presence())[i], old(raw[i]), cells, mask, n, K, skip, noSkip, i, K)
  {
    if n != coords.cap {
      return Mismatch;
    }
    if K == 0 {
      return Illegal;
    }
    if !noSkip && skip > K {
      return Illegal;
    }
    if n == 0 {
      return Success;
    }
    ghost var p0 := coords.Presence();
    for i := 0 to n
      invariant coords.Valid() && coords.cap == n
      invariant forall j :: 0 <= j < i ==>
        (coords.Presence()[j], raw[j]) == MaskedCols(acc, cast, p0[j], old(raw[j]), cells, mask, n, K, skip, noSkip, j, K)
      invariant forall j :: i <= j < n ==> coords.Presence()[j] == p0[j] && raw[j] == old(raw[j])
    {
      FoldMaskedRow(coords, raw, cells, mask, n, K, skip, noSkip, acc, cast, i);
    }
    return Success;
  }
}
