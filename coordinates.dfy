/**
 * The sparsity (coordinate) structure of the nonblocking backend.
 *
 * One instance records which of `cap` indices hold a value: a presence
 * array (`present`, read from offset `aLo`) and a compacted stack of the
 * present indices (`mem`, read from offset `sLo`), of which the first `n`
 * entries are live. The stack memory of the global instance is followed by
 * its scratch buffer: one segment of `tileSize + 1` slots per tile (a count
 * slot and a tile-local stack), then one new-nonzero counter per tile, then
 * one prefix-sum slot per tile.
 *
 * A tile view (what `AsyncSubset` returns) is another instance over the same
 * two arrays: its presence slice starts at the tile's lower bound and its
 * stack is the tile's local stack, right after the tile's count slot.
 */
module NonblockingCoordinates {
  import opened SeqFacts
  import opened PrefixSums

  // ---------------------------------------------------------------------
  // The invariant of a presence array and its compacted stack
  // ---------------------------------------------------------------------

  /**
   * `s` lists, without repeats, exactly the indices `i` with `p[i]` set.
   */
  ghost predicate Consistent(p: seq<bool>, s: seq<nat>) {
    var consistent :=
      Distinct(s)
      && (forall k :: 0 <= k < |s| ==> s[k] < |p| && p[s[k]])
      && (forall i :: 0 <= i < |p| && p[i] ==> i in s);
    consistent
  }

  /** The empty stack is consistent exactly with an all-false presence array. */
  lemma EmptyConsistent(p: seq<bool>)
    ensures Consistent(p, []) <==> forall i :: 0 <= i < |p| ==> !p[i]
  {
    if forall i :: 0 <= i < |p| ==> !p[i] {
      assert Distinct([]);
    }
  }

  /** A consistent stack as long as the presence array means every index is present, and back. */
  lemma DenseIffFull(p: seq<bool>, s: seq<nat>)
    requires Consistent(p, s)
    ensures |s| == |p| <==> (forall i :: 0 <= i < |p| ==> p[i])
  {
    if |s| == |p| {
      forall i | 0 <= i < |p|
        ensures p[i]
      {
        if !p[i] {
          assert i !in s;
          DistinctMissingBound(s, |p|, i);
        }
      }
    }
    if forall i :: 0 <= i < |p| ==> p[i] {
      DistinctFullLength(s, |p|);
    }
  }

  /** Marking a missing index and pushing it keeps the stack consistent; there was room for it. */
  lemma PushKeepsConsistent(p: seq<bool>, s: seq<nat>, i: nat)
    requires Consistent(p, s) && i < |p| && !p[i]
    ensures Consistent(p[i := true], s + [i])
    ensures |s| < |p|
  {
    assert i !in s;
    DistinctMissingBound(s, |p|, i);
  }

  /** The ascending list of the indices below `i` whose presence flag equals `b`. */
  ghost function IndicesBelow(p: seq<bool>, b: bool, i: nat): (r: seq<nat>)
    requires i <= |p|
    ensures |r| <= i
  {
    if i == 0 then [] else IndicesBelow(p, b, i - 1) + (if p[i - 1] == b then [i - 1] else [])
  }

  /** The ascending list of all indices whose presence flag is not set. */
  ghost function Unset(p: seq<bool>): seq<nat> {
    IndicesBelow(p, false, |p|)
  }

  /** The ascending list of all indices whose presence flag is set. */
  ghost function Marked(p: seq<bool>): seq<nat> {
    IndicesBelow(p, true, |p|)
  }

  /** Every entry of `IndicesBelow(p, b, i)` is an index below `i` flagged `b`. */
  lemma {:induction false} IndicesBelowSound(p: seq<bool>, b: bool, i: nat)
    requires i <= |p|
    ensures forall k :: 0 <= k < |IndicesBelow(p, b, i)| ==> IndicesBelow(p, b, i)[k] < i && p[IndicesBelow(p, b, i)[k]] == b
  {
    if i > 0 {
      IndicesBelowSound(p, b, i - 1);
    }
  }

  /** Every index below `i` flagged `b` is listed in `IndicesBelow(p, b, i)`. */
  lemma {:induction false} IndicesBelowComplete(p: seq<bool>, b: bool, i: nat)
    requires i <= |p|
    ensures forall q :: 0 <= q < i && p[q] == b ==> q in IndicesBelow(p, b, i)
  {
    if i > 0 {
      IndicesBelowComplete(p, b, i - 1);
    }
  }

  /** `IndicesBelow(p, b, i)` is strictly ascending. */
  lemma {:induction false} IndicesBelowSorted(p: seq<bool>, b: bool, i: nat)
    requires i <= |p|
    ensures forall x, y :: 0 <= x < y < |IndicesBelow(p, b, i)| ==> IndicesBelow(p, b, i)[x] < IndicesBelow(p, b, i)[y]
  {
    if i > 0 {
      IndicesBelowSorted(p, b, i - 1);
      IndicesBelowSound(p, b, i - 1);
    }
  }

  /** `IndicesBelow(p, b, i)` lists exactly the indices below `i` flagged `b`, in strictly ascending order. */
  lemma IndicesBelowFacts(p: seq<bool>, b: bool, i: nat)
    requires i <= |p|
    ensures forall k :: 0 <= k < |IndicesBelow(p, b, i)| ==> IndicesBelow(p, b, i)[k] < i && p[IndicesBelow(p, b, i)[k]] == b
    ensures forall q :: 0 <= q < i && p[q] == b ==> q in IndicesBelow(p, b, i)
    ensures forall x, y :: 0 <= x < y < |IndicesBelow(p, b, i)| ==> IndicesBelow(p, b, i)[x] < IndicesBelow(p, b, i)[y]
  {
    IndicesBelowSound(p, b, i);
    IndicesBelowComplete(p, b, i);
    IndicesBelowSorted(p, b, i);
  }

  lemma IndicesBelowPush(s: seq<nat>, p: seq<bool>, b: bool, i: nat)
    requires i < |p| && p[i] == b
    ensures s + IndicesBelow(p, b, i + 1) == (s + IndicesBelow(p, b, i)) + [i]
  {
  }

  /** The flags `p` with indices `0..i` additionally set. */
  ghost function Filled(p: seq<bool>, i: nat): (r: seq<bool>)
    ensures |r| == |p|
    ensures forall q :: 0 <= q < |p| ==> r[q] == (p[q] || q < i)
  {
    seq(|p|, q requires 0 <= q < |p| => p[q] || q < i)
  }

  /**
   * Appending the unset indices, in ascending order, to a consistent stack
   * gives a consistent stack for the structure with every flag set.
   */
  lemma FilledConsistent(p: seq<bool>, s: seq<nat>)
    requires Consistent(p, s)
    ensures Consistent(Filled(p, |p|), s + Unset(p))
  {
    var u := Unset(p);
    var t := s + u;
    IndicesBelowFacts(p, false, |p|);
    forall a, b | 0 <= a < b < |t|
      ensures t[a] != t[b]
    {
      if a < |s| && |s| <= b {
        assert p[t[a]] && !p[t[b]];
      }
    }
    forall i | 0 <= i < |p|
      ensures i in t
    {
      if p[i] {
        assert i in s;
      } else {
        assert i in u;
      }
    }
  }

  /** A consistent stack and the unset indices together account for every index once. */
  lemma UnsetCount(p: seq<bool>, s: seq<nat>)
    requires Consistent(p, s)
    ensures |s| + |Unset(p)| == |p|
  {
    FilledConsistent(p, s);
    DenseIffFull(Filled(p, |p|), s + Unset(p));
  }

  /** A consistent stack that lists every index leaves no index unset. */
  lemma FullHasNoUnset(p: seq<bool>, s: seq<nat>)
    requires Consistent(p, s) && |s| == |p|
    ensures Unset(p) == [] && forall i :: 0 <= i < |p| ==> p[i]
  {
    UnsetCount(p, s);
    DenseIffFull(p, s);
  }

  /** Fewer indices have no more flagged ones among them. */
  lemma {:induction false} IndicesBelowLength(p: seq<bool>, b: bool, i: nat, j: nat)
    requires i <= j <= |p|
    ensures |IndicesBelow(p, b, i)| <= |IndicesBelow(p, b, j)|
    decreases j - i
  {
    if i < j {
      IndicesBelowLength(p, b, i + 1, j);
    }
  }

  lemma SliceAfterPush(m: seq<nat>, lo: nat, len: nat, v: nat)
    requires lo + len < |m|
    ensures m[lo + len := v][lo..lo + len + 1] == m[lo..lo + len] + [v]
  {
  }

  lemma SliceAfterWrite<T>(m: seq<T>, lo: nat, len: nat, i: nat, v: T)
    requires i < len && lo + len <= |m|
    ensures m[lo + i := v][lo..lo + len] == m[lo..lo + len][i := v]
  {
  }

  lemma SliceAfterWriteBefore<T>(m: seq<T>, j: nat, v: T, lo: nat, hi: nat)
    requires j < lo <= hi <= |m|
    ensures m[j := v][lo..hi] == m[lo..hi]
  {
  }

  /** Every flag set and the identity stack are consistent. */
  lemma IdentityConsistent(p: seq<bool>, s: seq<nat>)
    requires |s| == |p|
    requires forall q :: 0 <= q < |p| ==> p[q] && s[q] == q
    ensures Consistent(p, s)
  {
    forall i | 0 <= i < |p| && p[i]
      ensures i in s
    {
      assert s[i] == i;
    }
  }

  // ---------------------------------------------------------------------
  // Size queries
  // ---------------------------------------------------------------------

  /**
   * Bytes needed for `dim` elements of `elemSize` bytes plus one element
   * more, or none for an empty container. This is `arraySize` with the
   * size of a flag and `stackSize` with the size of an index; the extra
   * element leaves room to align the stack (`StackCarveFits`).
   */
  function PaddedSize(dim: nat, elemSize: nat): (r: nat)
    ensures dim == 0 ==> r == 0
    ensures dim > 0 ==> r == (dim + 1) * elemSize
  {
    if dim == 0 then 0 else (dim + 1) * elemSize
  }

  /**
   * Bytes needed for the stack plus the scratch buffer: the stack, the
   * `vectorBufferSize` scratch indices (a parameter here) and two more
   * indices for the prefix-sum buffer of a single thread.
   */
  function BufferSize(dim: nat, vectorBufferSize: nat, indexSize: nat): (r: nat)
    ensures r == PaddedSize(dim, indexSize) + (vectorBufferSize + 2) * indexSize
  {
    PaddedSize(dim, indexSize) + vectorBufferSize * indexSize + 2 * indexSize
  }

  /** The first multiple of `size` at or after `addr`: where `set` moves the stack to align it. */
  function AlignUp(addr: nat, size: nat): (a: nat)
    requires size > 0
    ensures addr <= a < addr + size && a % size == 0
  {
    var mod := addr % size;
    if mod != 0 then
      RoundedUp(addr, size);
      addr + (size - mod)
    else addr
  }

  /** Moving a misaligned address up by the rest of its stride reaches the next multiple. */
  lemma RoundedUp(addr: nat, size: nat)
    requires size > 0 && addr % size != 0
    ensures addr + (size - addr % size) == (addr / size + 1) * size
    ensures (addr + (size - addr % size)) % size == 0
  {
    var q := addr / size;
    assert addr == q * size + addr % size;
    assert (q + 1) * size == q * size + size;
    MultipleMod(q + 1, size);
  }

  /** A multiple of `size` leaves no remainder. */
  lemma MultipleMod(k: nat, size: nat)
    requires size > 0
    ensures (k * size) % size == 0
  {
    var q, r := (k * size) / size, (k * size) % size;
    assert k * size == q * size + r;
    assert (k - q) * size == r;
    if k > q {
      MulLeq(1, k - q, size);
    } else if k < q {
      MulLeq(1, q - k, size);
    }
  }

  /** A multiple of `size` no larger than `x` is at most `x / size` strides. */
  lemma StridesBelow(k: nat, x: nat, size: nat)
    requires size > 0 && k * size <= x
    ensures k <= x / size
  {
    if k > x / size {
      assert x < (x / size + 1) * size;
      assert (x / size + 1) * size <= k * size by {
        MulLeq(x / size + 1, k, size);
      }
    }
  }

  /** Multiplying by a natural keeps the order. */
  lemma MulLeq(a: nat, b: nat, c: nat)
    requires a <= b
    ensures a * c <= b * c
  {
  }

  /**
   * The carve `set` makes of a raw buffer of `BufferSize(dim, vbs, size)`
   * bytes at address `addr` fits in it: the stack is moved up to the next
   * multiple of `size`, and its `dim` entries, followed by the `vbs + 2`
   * entries of the scratch and prefix buffers, end inside the buffer. In
   * slots of `size` bytes, the stack starts at slot `AlignUp(addr, size) /
   * size` and the buffer holds `(addr + BufferSize(...)) / size` whole
   * slots, which is the room `Set` requires. A flag array of
   * `PaddedSize(dim, flagSize)` bytes holds `dim` flags.
   */
  lemma StackCarveFits(addr: nat, dim: nat, vbs: nat, size: nat, flagSize: nat)
    requires size > 0
    requires dim > 0 || addr % size == 0
    ensures AlignUp(addr, size) + (dim + vbs + 2) * size <= addr + BufferSize(dim, vbs, size)
    ensures AlignUp(addr, size) / size + dim + vbs + 2 <= (addr + BufferSize(dim, vbs, size)) / size
    ensures dim * flagSize <= PaddedSize(dim, flagSize)
  {
    var a := AlignUp(addr, size);
    var k := a / size;
    assert a == k * size;
    var total := addr + BufferSize(dim, vbs, size);
    if dim > 0 {
      assert a + (dim + vbs + 2) * size <= addr + size + (dim + vbs + 2) * size - 1;
      assert (dim + 1) * size + (vbs + 2) * size == size + (dim + vbs + 2) * size;
    } else {
      assert a == addr;
    }
    assert (k + dim + vbs + 2) * size == a + (dim + vbs + 2) * size;
    StridesBelow(k + dim + vbs + 2, total, size);
    if dim > 0 {
      MulLeq(dim, dim + 1, flagSize);
    }
  }

  /** `t` strides of width `w`, written as repeated addition. */
  function Offset(t: nat, w: nat): nat
  {
    if t == 0 then 0 else Offset(t - 1, w) + w
  }

  /** `Offset` is the product `t * w`. */
  lemma {:induction false} OffsetIsProduct(t: nat, w: nat)
    ensures Offset(t, w) == t * w
  {
    if t > 0 {
      OffsetIsProduct(t - 1, w);
    }
  }

  /** A later stride start is at least one stride past an earlier one. */
  lemma {:induction false} OffsetStrictMono(t: nat, u: nat, w: nat)
    requires t < u
    ensures Offset(t, w) + w <= Offset(u, w)
  {
    if t + 1 < u {
      OffsetStrictMono(t, u - 1, w);
    }
  }

  // ---------------------------------------------------------------------
  // Tile-local lists
  // ---------------------------------------------------------------------

  /** A consistent stack is no longer than its presence array. */
  lemma ConsistentBound(p: seq<bool>, s: seq<nat>)
    requires Consistent(p, s)
    ensures |s| <= |p|
  {
    RangeCard(0, |p|);
    DistinctBound(s, Range(0, |p|));
  }

  /** Two consistent stacks for the same flags hold the same indices and have the same length. */
  lemma ConsistentSameIndices(p: seq<bool>, s: seq<nat>, u: seq<nat>)
    requires Consistent(p, s) && Consistent(p, u)
    ensures |s| == |u|
    ensures forall x :: x in s <==> x in u
  {
    assert Elems(s) == Elems(u);
    ElemsCardAtMost(s);
    ElemsCardAtMost(u);
  }

  /** The ascending list of set flags is a consistent stack. */
  lemma MarkedConsistent(p: seq<bool>)
    ensures Consistent(p, Marked(p))
  {
    var m := Marked(p);
    IndicesBelowFacts(p, true, |p|);
    assert forall x, y :: 0 <= x < y < |m| ==> m[x] != m[y];
  }

  /**
   * The entries of `s[..i]` that fall inside `[lo, hi)`, shifted to offsets
   * relative to `lo`, in stack order.
   */
  ghost function WindowBelow(s: seq<nat>, lo: nat, hi: nat, i: nat): seq<nat>
    requires i <= |s|
  {
    if i == 0 then []
    else WindowBelow(s, lo, hi, i - 1) + (if lo <= s[i - 1] < hi then [s[i - 1] - lo] else [])
  }

  /** The entries of `s` inside `[lo, hi)`, as offsets relative to `lo`, in stack order. */
  ghost function Window(s: seq<nat>, lo: nat, hi: nat): seq<nat> {
    WindowBelow(s, lo, hi, |s|)
  }

  /** Every entry of `WindowBelow(s, lo, hi, i)` is the shifted copy of an entry of `s[..i]` inside the window. */
  lemma {:induction false} WindowBelowSound(s: seq<nat>, lo: nat, hi: nat, i: nat)
    requires i <= |s|
    ensures forall k :: 0 <= k < |WindowBelow(s, lo, hi, i)| ==>
      lo + WindowBelow(s, lo, hi, i)[k] < hi &&
      exists j :: 0 <= j < i && s[j] == lo + WindowBelow(s, lo, hi, i)[k]
  {
    if i > 0 {
      WindowBelowSound(s, lo, hi, i - 1);
    }
  }

  /** Every entry of `s[..i]` inside the window appears, shifted, in `WindowBelow(s, lo, hi, i)`. */
  lemma {:induction false} WindowBelowComplete(s: seq<nat>, lo: nat, hi: nat, i: nat)
    requires i <= |s|
    ensures forall j :: 0 <= j < i && lo <= s[j] < hi ==> s[j] - lo in WindowBelow(s, lo, hi, i)
  {
    if i > 0 {
      WindowBelowComplete(s, lo, hi, i - 1);
    }
  }

  /** A window of a stack without repeats has no repeats. */
  lemma {:induction false} WindowBelowDistinct(s: seq<nat>, lo: nat, hi: nat, i: nat)
    requires i <= |s| && Distinct(s)
    ensures Distinct(WindowBelow(s, lo, hi, i))
  {
    if i > 0 {
      WindowBelowDistinct(s, lo, hi, i - 1);
      var w := WindowBelow(s, lo, hi, i - 1);
      if lo <= s[i - 1] < hi {
        WindowBelowSound(s, lo, hi, i - 1);
        forall k | 0 <= k < |w|
          ensures w[k] != s[i - 1] - lo
        {
          var j :| 0 <= j < i - 1 && s[j] == lo + w[k];
        }
        assert WindowBelow(s, lo, hi, i) == w + [s[i - 1] - lo];
      }
    }
  }

  /** Each window entry is the offset of a present index of the window. */
  lemma WindowEntryPresent(p: seq<bool>, s: seq<nat>, lo: nat, hi: nat, k: nat)
    requires Consistent(p, s) && lo <= hi <= |p| && k < |Window(s, lo, hi)|
    ensures Window(s, lo, hi)[k] < hi - lo && p[lo + Window(s, lo, hi)[k]]
  {
    WindowBelowSound(s, lo, hi, |s|);
    var j :| 0 <= j < |s| && s[j] == lo + Window(s, lo, hi)[k];
    assert p[s[j]];
  }

  /** Each present index of the window appears, as an offset, in the window. */
  lemma WindowHasPresent(p: seq<bool>, s: seq<nat>, lo: nat, hi: nat, o: nat)
    requires Consistent(p, s) && lo <= hi <= |p| && o < hi - lo && p[lo + o]
    ensures o in Window(s, lo, hi)
  {
    WindowBelowComplete(s, lo, hi, |s|);
    var j :| 0 <= j < |s| && s[j] == lo + o;
  }

  /** Restricting a consistent stack to a window gives a consistent stack for the window's flags. */
  lemma WindowConsistent(p: seq<bool>, s: seq<nat>, lo: nat, hi: nat)
    requires Consistent(p, s) && lo <= hi <= |p|
    ensures Consistent(p[lo..hi], Window(s, lo, hi))
  {
    var w := Window(s, lo, hi);
    var q := p[lo..hi];
    WindowBelowDistinct(s, lo, hi, |s|);
    forall k | 0 <= k < |w|
      ensures w[k] < |q| && q[w[k]]
    {
      WindowEntryPresent(p, s, lo, hi, k);
    }
    forall o | 0 <= o < |q| && q[o]
      ensures o in w
    {
      WindowHasPresent(p, s, lo, hi, o);
    }
  }

  /**
   * The two ways of filling a tile's local stack, by scanning the tile's
   * flags or by walking the global stack, list the same offsets.
   */
  lemma TileScansAgree(p: seq<bool>, s: seq<nat>, lo: nat, hi: nat)
    requires Consistent(p, s) && lo <= hi <= |p|
    ensures |Window(s, lo, hi)| == |Marked(p[lo..hi])| <= hi - lo
    ensures forall x :: x in Window(s, lo, hi) <==> x in Marked(p[lo..hi])
  {
    WindowConsistent(p, s, lo, hi);
    MarkedConsistent(p[lo..hi]);
    ConsistentSameIndices(p[lo..hi], Window(s, lo, hi), Marked(p[lo..hi]));
    ConsistentBound(p[lo..hi], Window(s, lo, hi));
  }

  /** Whichever way it was filled, a tile's local stack is consistent with the tile's flags. */
  lemma TileListConsistent(p: seq<bool>, s: seq<nat>, lo: nat, hi: nat, short: bool, list: seq<nat>)
    requires Consistent(p, s) && lo <= hi <= |p|
    requires list == if short then Marked(p[lo..hi]) else Window(s, lo, hi)
    ensures Consistent(p[lo..hi], list)
  {
    if short {
      MarkedConsistent(p[lo..hi]);
    } else {
      WindowConsistent(p, s, lo, hi);
    }
  }

  /** A window of a stack without repeats holds at most `hi - lo` offsets. */
  lemma WindowBelowBound(s: seq<nat>, lo: nat, hi: nat, i: nat)
    requires i <= |s| && Distinct(s) && lo <= hi
    ensures |WindowBelow(s, lo, hi, i)| <= hi - lo
  {
    var w := WindowBelow(s, lo, hi, i);
    WindowBelowSound(s, lo, hi, i);
    WindowBelowDistinct(s, lo, hi, i);
    RangeCard(0, hi - lo);
    DistinctBound(w, Range(0, hi - lo));
  }

  /**
   * The flag scan of `asyncSubsetInit`: pushes the offset (relative to `lo`)
   * of every set flag of `flags[lo..hi)`, in ascending order, to `m[dst..]`.
   */
  method CollectFlags(flags: array<bool>, m: array<nat>, lo: nat, hi: nat, dst: nat) returns (count: nat)
    requires lo <= hi <= flags.Length && dst + (hi - lo) <= m.Length
    modifies m
    ensures count == |Marked(flags[lo..hi])| <= hi - lo
    ensures forall k :: 0 <= k < count ==> m[dst + k] == Marked(flags[lo..hi])[k]
    ensures forall j :: 0 <= j < m.Length && !(dst <= j < dst + count) ==> m[j] == old(m[j])
  {
    ghost var p := flags[lo..hi];
    ghost var w: seq<nat> := [];
    count := 0;
    for i := lo to hi
      invariant w == IndicesBelow(p, true, i - lo) && count == |w|
      invariant forall k :: 0 <= k < count ==> m[dst + k] == w[k]
      invariant forall j :: 0 <= j < m.Length && !(dst <= j < dst + count) ==> m[j] == old(m[j])
    {
      assert IndicesBelow(p, true, i + 1 - lo) == w + (if p[i - lo] then [i - lo] else []);
      if flags[i] {
        assert p[i - lo];
        m[dst + count] := i - lo;
        count := count + 1;
        w := w + [i - lo];
      }
    }
  }

  /**
   * The stack walk of `asyncSubsetInit`: pushes the offset (relative to
   * `lo`) of every entry of the stack `s`, stored at `m[top..top + len)`,
   * that lies in `[lo, hi)`, in stack order, to `m[dst..]`.
   */
  method CollectStack(m: array<nat>, top: nat, len: nat, lo: nat, hi: nat, dst: nat, ghost s: seq<nat>) returns (count: nat)
    requires |s| == len && top + len <= dst && lo <= hi && dst + (hi - lo) <= m.Length
    requires forall k :: 0 <= k < |s| ==> m[top + k] == s[k]
    requires Distinct(s)
    modifies m
    ensures count == |Window(s, lo, hi)| <= hi - lo
    ensures forall k :: 0 <= k < count ==> m[dst + k] == Window(s, lo, hi)[k]
    ensures forall j :: 0 <= j < m.Length && !(dst <= j < dst + count) ==> m[j] == old(m[j])
  {
    count := 0;
    for i := 0 to len
      invariant count == |WindowBelow(s, lo, hi, i)| <= hi - lo
      invariant forall k :: 0 <= k < count ==> m[dst + k] == WindowBelow(s, lo, hi, i)[k]
      invariant forall j :: 0 <= j < m.Length && !(dst <= j < dst + count) ==> m[j] == old(m[j])
    {
      var k := m[top + i];
      assert k == s[i];
      WindowBelowBound(s, lo, hi, i + 1);
      if lo <= k && k < hi {
        m[dst + count] := k - lo;
        count := count + 1;
      }
    }
  }

  /** `m` with `vals` written from index `at` on. */
  ghost function Splice(m: seq<nat>, at: nat, vals: seq<nat>): (r: seq<nat>)
    requires at + |vals| <= |m|
    ensures |r| == |m|
  {
    m[..at] + vals + m[at + |vals|..]
  }

  lemma SpliceFacts(m: seq<nat>, at: nat, vals: seq<nat>)
    requires at + |vals| <= |m|
    ensures Splice(m, at, vals)[at..at + |vals|] == vals
    ensures forall j :: 0 <= j < |m| && !(at <= j < at + |vals|) ==> Splice(m, at, vals)[j] == m[j]
  {
  }

  /** A sequence that agrees with `vals` from `at` on and with `m` elsewhere is the splice. */
  lemma SpliceIntro(m: seq<nat>, r: seq<nat>, at: nat, vals: seq<nat>)
    requires at + |vals| <= |m| == |r|
    requires forall k :: 0 <= k < |vals| ==> r[at + k] == vals[k]
    requires forall j :: 0 <= j < |m| && !(at <= j < at + |vals|) ==> r[j] == m[j]
    ensures r == Splice(m, at, vals)
  {
    var sp := Splice(m, at, vals);
    forall j | 0 <= j < |m|
      ensures r[j] == sp[j]
    {
      if at <= j < at + |vals| {
        assert r[at + (j - at)] == vals[j - at];
      }
    }
  }

  /**
   * Reading back memory `m` after `vals` was spliced in at `seg` and then
   * the counter at `base + t` was reset: a range below `seg` is unchanged,
   * the spliced range holds `vals`, and the counters at `base..base + len`
   * changed only at `t`.
   */
  lemma SpliceThenReset(m0: seq<nat>, m: seq<nat>, seg: nat, vals: seq<nat>, lo: nat, hi: nat,
                        base: nat, len: nat, t: nat)
    requires seg + |vals| <= base && t < len && base + len <= |m0| && lo <= hi <= seg
    requires m == Splice(m0, seg, vals)[base + t := 0]
    ensures m[lo..hi] == m0[lo..hi]
    ensures m[seg..seg + |vals|] == vals
    ensures m[base..base + len] == m0[base..base + len][t := 0]
  {
    forall j | lo <= j < hi
      ensures m[j] == m0[j]
    {
    }
    forall k | 0 <= k < |vals|
      ensures m[seg + k] == vals[k]
    {
    }
    forall j | base <= j < base + len
      ensures m[j] == (if j == base + t then 0 else m0[j])
    {
    }
  }

  /**
   * What `asyncSubsetInit` leaves behind, read off memory `m` that was `m0`
   * before: the global stack `m0[sLo..sLo + n]` is untouched; the tile's
   * count slot `m[seg]` holds the length of its local stack, which lists
   * the offsets of the tile's present indices once each; and the tile's
   * new-nonzero counter is 0 while the other tiles' counters keep their
   * values.
   */
  lemma TileInitEffect(m0: seq<nat>, m: seq<nat>, p: seq<bool>, sLo: nat, n: nat, lo: nat, hi: nat,
                       seg: nat, base: nat, nt: nat, t: nat, list: seq<nat>)
    requires sLo + n <= seg && seg + 1 + (hi - lo) <= base && t < nt && base + nt <= |m0|
    requires lo <= hi <= |p| && Consistent(p, m0[sLo..sLo + n])
    requires list == TileList(p, m0[sLo..sLo + n], lo, hi, hi - lo < n) && |list| <= hi - lo
    requires m == Splice(m0, seg, [|list|] + list)[base + t := 0]
    ensures m[sLo..sLo + n] == m0[sLo..sLo + n]
    ensures m[seg] == |list| && m[seg + 1..seg + 1 + |list|] == list
    ensures Consistent(p[lo..hi], list)
    ensures m[base..base + nt] == m0[base..base + nt][t := 0]
  {
    var vals := [|list|] + list;
    SpliceThenReset(m0, m, seg, vals, sLo, sLo + n, base, nt, t);
    assert m[seg + 1..seg + 1 + |list|] == m[seg..seg + |vals|][1..];
    TileListConsistent(p, m0[sLo..sLo + n], lo, hi, hi - lo < n, list);
  }

  /**
   * What `asyncSubsetInit` puts on a tile's local stack: the offsets of the
   * tile's set flags in ascending order when it scans the flags (`short`),
   * the offsets of the stack entries inside the tile in stack order
   * otherwise.
   */
  ghost function TileList(p: seq<bool>, s: seq<nat>, lo: nat, hi: nat, short: bool): seq<nat>
    requires lo <= hi <= |p|
  {
    if short then Marked(p[lo..hi]) else Window(s, lo, hi)
  }

  /**
   * Lists the offsets of the tile `[lo, hi)`'s present indices at `m[dst..]`:
   * a tile shorter than the stack scans its flags, otherwise the stack is
   * walked.
   */
  method CollectTile(flags: array<bool>, m: array<nat>, fLo: nat, top: nat, len: nat, lo: nat, hi: nat,
                     dst: nat, ghost p: seq<bool>, ghost s: seq<nat>)
    returns (count: nat, ghost list: seq<nat>)
    requires lo <= hi <= |p| && fLo + |p| <= flags.Length && flags[fLo..fLo + |p|] == p
    requires |s| == len && top + len <= dst && dst + (hi - lo) <= m.Length
    requires m[top..top + len] == s
    requires Consistent(p, s)
    modifies m
    ensures list == TileList(p, s, lo, hi, hi - lo < len)
    ensures count == |list| <= hi - lo
    ensures forall k :: 0 <= k < count ==> m[dst + k] == list[k]
    ensures forall j :: 0 <= j < m.Length && !(dst <= j < dst + count) ==> m[j] == old(m[j])
  {
    if hi - lo < len {
      assert flags[fLo + lo..fLo + hi] == p[lo..hi] by {
        SliceOfSlice(flags[..], fLo, fLo + |p|, lo, hi);
      }
      count := CollectFlags(flags, m, fLo + lo, fLo + hi, dst);
      list := Marked(p[lo..hi]);
    } else {
      forall k | 0 <= k < len
        ensures m[top + k] == s[k]
      {
        assert s[k] == m[top..top + len][k];
      }
      count := CollectStack(m, top, len, lo, hi, dst, s);
      list := Window(s, lo, hi);
    }
  }

  /**
   * The body of `asyncSubsetInit` on the raw arrays: the flags of the
   * structure start at `flags[fLo]`, its stack of `len` entries at `m[top]`;
   * the tile `[lo, hi)` has its count slot at `m[seg]`, its local stack
   * right after it and its new-nonzero counter at `m[counter]`.
   */
  method InitTile(flags: array<bool>, m: array<nat>, fLo: nat, top: nat, len: nat, lo: nat, hi: nat,
                  seg: nat, counter: nat, ghost p: seq<bool>, ghost s: seq<nat>)
    returns (count: nat, ghost list: seq<nat>)
    requires lo <= hi <= |p| && fLo + |p| <= flags.Length && flags[fLo..fLo + |p|] == p
    requires |s| == len && top + len <= seg && seg + (hi - lo) < counter < m.Length
    requires m[top..top + len] == s
    requires Consistent(p, s)
    modifies m
    ensures list == TileList(p, s, lo, hi, hi - lo < len)
    ensures count == |list| <= hi - lo
    ensures m[..] == Splice(old(m[..]), seg, [count] + list)[counter := 0]
  {
    ghost var m0 := m[..];
    m[seg] := 0;
    count, list := CollectTile(flags, m, fLo, top, len, lo, hi, seg + 1, p, s);
    m[seg] := count;
    ghost var vals := [count] + list;
    forall k | 0 <= k < |vals|
      ensures m[seg + k] == vals[k]
    {
      if k > 0 {
        assert m[seg + 1 + (k - 1)] == list[k - 1];
      }
    }
    SpliceIntro(m0, m[..], seg, vals);
    m[counter] := 0;
  }

  // ---------------------------------------------------------------------
  // Prefix sums over the tile counters
  // ---------------------------------------------------------------------

  /**
   * The running sum of `prefixSumComputation` over tiles `lo..hi`: slot
   * `dst + x` receives `base` plus the counters `c[lo..x]`, both ends
   * included. The counters sit at `m[src..]`, below the slots.
   */
  method RunningSum(m: array<nat>, src: nat, dst: nat, lo: nat, hi: nat, base: nat, ghost c: seq<nat>)
    requires lo < hi <= |c| && src + |c| <= dst && dst + hi <= m.Length && m[src..src + |c|] == c
    modifies m
    ensures forall j :: dst + lo <= j < dst + hi ==> m[j] == base + Sum(c[lo..j - dst + 1])
    ensures forall j :: 0 <= j < m.Length && !(dst + lo <= j < dst + hi) ==> m[j] == old(m[j])
  {
    assert c[lo..lo + 1] == [c[lo]];
    assert m[src + lo] == c[lo];
    m[dst + lo] := base + m[src + lo];
    for i := lo + 1 to hi
      invariant forall j :: dst + lo <= j < dst + i ==> m[j] == base + Sum(c[lo..j - dst + 1])
      invariant forall j :: 0 <= j < m.Length && !(dst + lo <= j < dst + i) ==> m[j] == old(m[j])
    {
      assert m[src + i] == old(m[src + i]) == c[i];
      SumStep(c, lo, i);
      m[dst + i] := m[dst + i - 1] + m[src + i];
    }
  }

  /** Adds `acc` to the slots `m[lo..hi]`, as the last phase of the chunked prefix sum does. */
  method AddOffset(m: array<nat>, lo: nat, hi: nat, acc: nat)
    requires lo <= hi <= m.Length
    modifies m
    ensures forall j :: lo <= j < hi ==> m[j] == old(m[j]) + acc
    ensures forall j :: 0 <= j < m.Length && !(lo <= j < hi) ==> m[j] == old(m[j])
  {
    for i := lo to hi
      invariant forall j :: lo <= j < i ==> m[j] == old(m[j]) + acc
      invariant forall j :: 0 <= j < m.Length && !(lo <= j < i) ==> m[j] == old(m[j])
    {
      m[i] := m[i] + acc;
    }
  }

  /**
   * The chunks `[cuts[k], cuts[k + 1])` in which the parallel prefix sum
   * splits the tiles: non-empty, in order, and covering `0..len`.
   */
  ghost predicate Chunks(cuts: seq<nat>, len: nat) {
    && 2 <= |cuts| && cuts[0] == 0 && cuts[|cuts| - 1] == len
    && forall a, b :: 0 <= a < b < |cuts| ==> cuts[a] < cuts[b]
  }

  /** The start of the chunk that holds tile `x`: the last cut at or below `x`. */
  ghost function ChunkStart(cuts: seq<nat>, x: nat): (r: nat)
    ensures r <= x
  {
    if cuts == [] then 0
    else if cuts[|cuts| - 1] <= x then cuts[|cuts| - 1]
    else ChunkStart(cuts[..|cuts| - 1], x)
  }

  lemma {:induction false} ChunkStartIs(cuts: seq<nat>, k: nat, x: nat)
    requires k + 1 < |cuts| && cuts[k] <= x < cuts[k + 1]
    requires forall a, b :: 0 <= a < b < |cuts| ==> cuts[a] < cuts[b]
    ensures ChunkStart(cuts, x) == cuts[k]
  {
    if k + 2 < |cuts| {
      ChunkStartIs(cuts[..|cuts| - 1], k, x);
    }
  }

  /**
   * First phase of the parallel prefix sum: each chunk computes the running
   * sum of its own counters from 0 and records its total in `totals`.
   */
  method ChunkSums(m: array<nat>, src: nat, dst: nat, cuts: seq<nat>, totals: array<nat>, ghost c: seq<nat>)
    requires Chunks(cuts, |c|) && src + |c| <= dst && dst + |c| <= m.Length && m[src..src + |c|] == c
    requires totals != m && totals.Length == |cuts| - 1
    modifies m, totals
    ensures forall j :: dst <= j < dst + |c| ==> m[j] == Sum(c[ChunkStart(cuts, j - dst)..j - dst + 1])
    ensures forall k :: 0 <= k < |cuts| - 1 ==> totals[k] == Sum(c[cuts[k]..cuts[k + 1]])
    ensures forall j :: 0 <= j < m.Length && !(dst <= j < dst + |c|) ==> m[j] == old(m[j])
  {
    for id := 0 to |cuts| - 1
      invariant m[src..src + |c|] == c
      invariant forall j :: dst <= j < dst + cuts[id] ==> m[j] == Sum(c[ChunkStart(cuts, j - dst)..j - dst + 1])
      invariant forall k :: 0 <= k < id ==> totals[k] == Sum(c[cuts[k]..cuts[k + 1]])
      invariant forall j :: 0 <= j < m.Length && !(dst <= j < dst + cuts[id]) ==> m[j] == old(m[j])
    {
      ChunkSum(m, src, dst, cuts, id, totals, c);
      assert m[src..src + |c|] == c;
    }
  }

  /** One chunk of the first phase: chunk `id` computes its running sums and its total. */
  method ChunkSum(m: array<nat>, src: nat, dst: nat, cuts: seq<nat>, id: nat, totals: array<nat>, ghost c: seq<nat>)
    requires Chunks(cuts, |c|) && id < |cuts| - 1
    requires src + |c| <= dst && dst + |c| <= m.Length && m[src..src + |c|] == c
    requires totals != m && totals.Length == |cuts| - 1
    modifies m, totals
    ensures forall j :: dst + cuts[id] <= j < dst + cuts[id + 1] ==> m[j] == Sum(c[ChunkStart(cuts, j - dst)..j - dst + 1])
    ensures totals[..] == old(totals[..])[id := Sum(c[cuts[id]..cuts[id + 1]])]
    ensures forall j :: 0 <= j < m.Length && !(dst + cuts[id] <= j < dst + cuts[id + 1]) ==> m[j] == old(m[j])
  {
    var lower, upper := cuts[id], cuts[id + 1];
    RunningSum(m, src, dst, lower, upper, 0, c);
    forall j | dst + lower <= j < dst + upper
      ensures m[j] == Sum(c[ChunkStart(cuts, j - dst)..j - dst + 1])
    {
      ChunkStartIs(cuts, id, j - dst);
    }
    totals[id] := m[dst + upper - 1];
  }

  /** Second phase: the chunk totals become running totals, in place. */
  method ScanTotals(totals: array<nat>, ghost c: seq<nat>, ghost cuts: seq<nat>)
    requires Chunks(cuts, |c|) && totals.Length == |cuts| - 1
    requires forall k :: 0 <= k < |cuts| - 1 ==> totals[k] == Sum(c[cuts[k]..cuts[k + 1]])
    modifies totals
    ensures forall k :: 0 <= k < |cuts| - 1 ==> totals[k] == Sum(c[..cuts[k + 1]])
  {
    assert c[cuts[0]..cuts[1]] == c[..cuts[1]];
    for i := 1 to totals.Length
      invariant forall k :: 0 <= k < i ==> totals[k] == Sum(c[..cuts[k + 1]])
      invariant forall k :: i <= k < |cuts| - 1 ==> totals[k] == Sum(c[cuts[k]..cuts[k + 1]])
    {
      SumSplit(c, 0, cuts[i], cuts[i + 1]);
      assert c[0..cuts[i + 1]] == c[..cuts[i + 1]] && c[0..cuts[i]] == c[..cuts[i]];
      totals[i] := totals[i] + totals[i - 1];
    }
  }

  /** Third phase: each chunk adds `base` and the totals of the chunks before it. */
  method AddChunkOffsets(m: array<nat>, dst: nat, base: nat, cuts: seq<nat>, totals: array<nat>, ghost c: seq<nat>)
    requires Chunks(cuts, |c|) && dst + |c| <= m.Length
    requires totals != m && totals.Length == |cuts| - 1
    requires forall k :: 0 <= k < |cuts| - 1 ==> totals[k] == Sum(c[..cuts[k + 1]])
    requires forall j :: dst <= j < dst + |c| ==> m[j] == Sum(c[ChunkStart(cuts, j - dst)..j - dst + 1])
    modifies m
    ensures forall j :: dst <= j < dst + |c| ==> m[j] == base + Sum(c[..j - dst + 1])
    ensures forall j :: 0 <= j < m.Length && !(dst <= j < dst + |c|) ==> m[j] == old(m[j])
  {
    for id := 0 to |cuts| - 1
      invariant forall j :: dst <= j < dst + cuts[id] ==> m[j] == base + Sum(c[..j - dst + 1])
      invariant forall j :: 0 <= j < m.Length && !(dst <= j < dst + cuts[id]) ==> m[j] == old(m[j])
    {
      var lower, upper := cuts[id], cuts[id + 1];
      var acc := base + (if id > 0 then totals[id - 1] else 0);
      assert acc == base + Sum(c[..lower]);
      AddOffset(m, dst + lower, dst + upper, acc);
      forall j | dst + lower <= j < dst + upper
        ensures m[j] == base + Sum(c[..j - dst + 1])
      {
        ChunkStartIs(cuts, id, j - dst);
        assert old(m[j]) == Sum(c[lower..j - dst + 1]);
        SumSplit(c, 0, lower, j - dst + 1);
        assert c[0..j - dst + 1] == c[..j - dst + 1] && c[0..lower] == c[..lower];
      }
    }
  }

  /**
   * The parallel prefix sum, its phases run one after the other. It leaves
   * in `m[dst..dst + |c|]` the same scan as the sequential running sum.
   */
  method ChunkedScan(m: array<nat>, src: nat, dst: nat, base: nat, cuts: seq<nat>, ghost c: seq<nat>)
    requires Chunks(cuts, |c|) && src + |c| <= dst && dst + |c| <= m.Length && m[src..src + |c|] == c
    modifies m
    ensures forall j :: dst <= j < dst + |c| ==> m[j] == base + Sum(c[..j - dst + 1])
    ensures forall j :: 0 <= j < m.Length && !(dst <= j < dst + |c|) ==> m[j] == old(m[j])
  {
    var totals := new nat[|cuts| - 1];
    ChunkSums(m, src, dst, cuts, totals, c);
    ScanTotals(totals, c, cuts);
    AddChunkOffsets(m, dst, base, cuts, totals, c);
  }

  /**
   * The prefix sums of the counters `c` at `m[src..]`, started from `base`,
   * written to `m[dst..]`: sequentially when there are fewer than
   * `psTileSize` counters, otherwise chunk-parallel over `cuts`.
   */
  method ScanCounters(m: array<nat>, src: nat, dst: nat, base: nat, len: nat, psTileSize: nat, cuts: seq<nat>, ghost c: seq<nat>)
    requires 0 < |c| == len && src + |c| <= dst && dst + |c| <= m.Length && m[src..src + |c|] == c
    requires psTileSize <= |c| ==> Chunks(cuts, |c|)
    modifies m
    ensures m[..] == Splice(old(m[..]), dst, Scan(base, c))
    ensures m[dst + |c| - 1] == base + Sum(c)
  {
    ghost var m0 := m[..];
    if len < psTileSize {
      RunningSum(m, src, dst, 0, len, base, c);
    } else {
      ChunkedScan(m, src, dst, base, cuts, c);
    }
    ghost var sc := Scan(base, c);
    forall k | 0 <= k < |c|
      ensures m[dst + k] == sc[k]
    {
      ScanAt(base, c, k);
      assert c[0..k + 1] == c[..k + 1];
    }
    SpliceIntro(m0, m[..], dst, sc);
  }

  /**
   * `joinSubset` on the raw memory: the `len` entries at `m[src..]`, each
   * raised by `lo`, are copied to `m[dest..]`, which lies below them, and
   * then the counter at `ctr`, which lies above them, is reset. No other
   * slot changes.
   */
  method JoinSegment(m: array<nat>, src: nat, dest: nat, len: nat, lo: nat, ctr: nat)
    requires dest + len <= src && src + len <= ctr < m.Length
    modifies m
    ensures forall j :: dest <= j < dest + len ==> m[j] == old(m[src + (j - dest)]) + lo
    ensures m[ctr] == 0
    ensures forall j :: 0 <= j < m.Length && !(dest <= j < dest + len) && j != ctr ==> m[j] == old(m[j])
  {
    for k := 0 to len
      invariant forall j :: dest <= j < dest + k ==> m[j] == old(m[src + (j - dest)]) + lo
      invariant forall j :: 0 <= j < m.Length && !(dest <= j < dest + k) ==> m[j] == old(m[j])
    {
      m[dest + k] := m[src + k] + lo;
    }
    m[ctr] := 0;
  }

  /** A slice of a slice is a slice. */
  lemma SliceOfSlice<T>(a: seq<T>, i: nat, j: nat, lo: nat, hi: nat)
    requires i <= j <= |a| && lo <= hi <= j - i
    ensures a[i..j][lo..hi] == a[i + lo..i + hi]
  {
    forall k | 0 <= k < hi - lo
      ensures a[i..j][lo..hi][k] == a[i + lo..i + hi][k]
    {
    }
  }

  /**
   * Walks the `cap` flags from `lo` on in ascending order, setting each
   * clear one and pushing its offset onto the stack at `top`, which holds
   * `count0` entries `s0`. Returns the new stack height.
   */
  method FillGaps(flags: array<bool>, stack: array<nat>, lo: nat, top: nat, count0: nat, cap: nat,
                  ghost p0: seq<bool>, ghost s0: seq<nat>) returns (count: nat)
    requires lo + cap <= flags.Length && top + cap <= stack.Length && |p0| == cap && count0 == |s0|
    requires |s0| + |Unset(p0)| == cap
    requires forall q :: 0 <= q < cap ==> flags[lo + q] == p0[q]
    requires forall k :: 0 <= k < count0 ==> stack[top + k] == s0[k]
    modifies flags, stack
    ensures count == cap
    ensures forall j :: lo <= j < lo + cap ==> flags[j]
    ensures forall k :: 0 <= k < cap ==> stack[top + k] == (s0 + Unset(p0))[k]
    ensures forall j :: 0 <= j < stack.Length && !(top + count0 <= j < top + cap) ==> stack[j] == old(stack[j])
    ensures forall j :: 0 <= j < flags.Length && !(lo <= j < lo + cap) ==> flags[j] == old(flags[j])
  {
    count := count0;
    ghost var sc := s0;
    for i := 0 to cap
      invariant count == |sc| <= cap && sc == s0 + IndicesBelow(p0, false, i)
      invariant forall j :: lo <= j < lo + cap ==> flags[j] == (p0[j - lo] || j - lo < i)
      invariant forall k :: 0 <= k < count ==> stack[top + k] == sc[k]
      invariant forall j :: 0 <= j < stack.Length && !(top + |s0| <= j < top + count) ==> stack[j] == old(stack[j])
      invariant forall j :: 0 <= j < flags.Length && !(lo <= j < lo + cap) ==> flags[j] == old(flags[j])
    {
      if !flags[lo + i] {
        IndicesBelowLength(p0, false, i + 1, cap);
        IndicesBelowPush(s0, p0, false, i);
        flags[lo + i] := true;
        stack[top + count] := i;
        count := count + 1;
        sc := sc + [i];
      }
    }
  }

  /** Sets the `cap` flags from `lo` on and writes `0, 1, ..., cap - 1` to the stack at `top`. */
  method IdentityFill(flags: array<bool>, stack: array<nat>, lo: nat, top: nat, cap: nat)
    requires lo + cap <= flags.Length && top + cap <= stack.Length
    modifies flags, stack
    ensures forall j :: lo <= j < lo + cap ==> flags[j]
    ensures forall j :: top <= j < top + cap ==> stack[j] + top == j
    ensures forall j :: 0 <= j < stack.Length && !(top <= j < top + cap) ==> stack[j] == old(stack[j])
    ensures forall j :: 0 <= j < flags.Length && !(lo <= j < lo + cap) ==> flags[j] == old(flags[j])
  {
    for i := 0 to cap
      invariant forall j :: lo <= j < lo + i ==> flags[j]
      invariant forall j :: top <= j < top + i ==> stack[j] + top == j
      invariant forall j :: 0 <= j < stack.Length && !(top <= j < top + i) ==> stack[j] == old(stack[j])
      invariant forall j :: 0 <= j < flags.Length && !(lo <= j < lo + i) ==> flags[j] == old(flags[j])
    {
      flags[lo + i] := true;
      stack[top + i] := i;
    }
  }

  /**
   * Clears the flag, among the `cap` from `lo` on, of every offset listed
   * in the `len` stack entries `s0` at `stack[top..]`.
   */
  method UnsetFlags(flags: array<bool>, stack: array<nat>, lo: nat, top: nat, len: nat, cap: nat,
                    ghost p0: seq<bool>, ghost s0: seq<nat>)
    requires lo + cap <= flags.Length && top + len <= stack.Length && |p0| == cap && |s0| == len
    requires forall q :: 0 <= q < cap ==> flags[lo + q] == p0[q]
    requires forall k :: 0 <= k < len ==> stack[top + k] == s0[k] && s0[k] < cap
    modifies flags
    ensures forall j :: lo <= j < lo + cap ==> flags[j] == (p0[j - lo] && j - lo !in s0)
    ensures forall j :: 0 <= j < flags.Length && !(lo <= j < lo + cap) ==> flags[j] == old(flags[j])
  {
    for k := 0 to len
      invariant forall j :: lo <= j < lo + cap ==> flags[j] == (p0[j - lo] && j - lo !in s0[..k])
      invariant forall j :: 0 <= j < flags.Length && !(lo <= j < lo + cap) ==> flags[j] == old(flags[j])
    {
      assert stack[top + k] == s0[k];
      flags[lo + stack[top + k]] := false;
      assert forall q :: q in s0[..k + 1] <==> q in s0[..k] || q == s0[k];
    }
    assert s0[..len] == s0;
  }

  /** Clears the `len` flags of `arr` from `from` on and leaves the others alone. */
  method ClearFlags(arr: array<bool>, from: nat, len: nat)
    requires from + len <= arr.Length
    modifies arr
    ensures forall j :: from <= j < from + len ==> !arr[j]
    ensures forall j :: 0 <= j < arr.Length && !(from <= j < from + len) ==> arr[j] == old(arr[j])
  {
    for i := 0 to len
      invariant forall j :: from <= j < from + i ==> !arr[j]
      invariant forall j :: 0 <= j < arr.Length && !(from <= j < from + i) ==> arr[j] == old(arr[j])
    {
      arr[from + i] := false;
    }
  }

  /** `size_t` arithmetic: values modulo 2^64. */
  const SizeRange: int := 0x1_0000_0000_0000_0000

  /** The unsigned 64-bit value of `x`; a negative difference wraps around. */
  function Wrap(x: int): (r: nat)
    ensures r < SizeRange
    ensures 0 <= x < SizeRange ==> r == x
    ensures -SizeRange <= x < 0 ==> r == x + SizeRange
  {
    x % SizeRange
  }

  class Coordinates {
    var present: array<bool>
    var aLo: nat
    var mem: array<nat>
    var sLo: nat
    var n: nat
    var cap: nat
    var buf: nat
    // the analytic model of the current pipeline
    var tileSize: nat
    var numTiles: nat
    // offsets into `mem` of the local coordinates mechanism
    var localBuffer: seq<nat>
    var localNewNnzs: nat
    var prefSum: nat

    /** The arrays are large enough for the presence slice and the live stack. */
    ghost predicate Bounds()
      reads this
    {
      aLo + cap <= present.Length && sLo + cap <= mem.Length && n <= cap
    }

    /** The presence flags of indices `0..cap`. */
    ghost function Presence(): (p: seq<bool>)
      reads this, present
      requires Bounds()
      ensures |p| == cap
    {
      present[aLo..aLo + cap]
    }

    /** The live part of the compacted stack. */
    ghost function Stack(): (s: seq<nat>)
      reads this, mem
      requires Bounds()
      ensures |s| == n
    {
      mem[sLo..sLo + n]
    }

    /** Invariant I1: the live stack lists the present indices, once each. */
    ghost predicate Valid()
      reads this, present, mem
    {
      Bounds() && Consistent(Presence(), Stack())
    }

    /** An empty structure that refers to no memory. */
    constructor ()
      ensures Valid() && n == 0 && cap == 0 && buf == 0
    {
      present := new bool[0];
      mem := new nat[0];
      aLo, sLo := 0, 0;
      n, cap, buf := 0, 0, 0;
      tileSize, numTiles := 0, 0;
      localBuffer := [];
      localNewNnzs, prefSum := 0, 0;
    }

    /**
     * Binds this structure to caller-owned memory: the presence flags start
     * at `arr[arrOffset]` and the stack at `stackMem[stackStart]` (the
     * alignment shift is already applied to `stackStart`). The scratch buffer
     * follows the stack. Unless the flags are known to be initialised, all
     * `dim` of them are cleared. A missing array yields an empty structure.
     */
    method Set(arr: array?<bool>, arrOffset: nat, arrInitialized: bool,
               stackMem: array?<nat>, stackStart: nat, dim: nat, vectorBufferSize: nat)
      requires arr == null || stackMem == null ==> dim == 0
      requires arr != null ==> arrOffset + dim <= arr.Length
      requires stackMem != null ==> stackStart + dim + vectorBufferSize <= stackMem.Length
      modifies this`present, this`aLo, this`mem, this`sLo, this`n, this`cap, this`buf
      modifies if arrInitialized then {} else {arr}
      ensures n == 0
      ensures arr == null || stackMem == null ==> cap == 0 && buf == 0
      ensures arr != null && stackMem != null ==>
        && present == arr && aLo == arrOffset && mem == stackMem && sLo == stackStart
        && cap == dim && buf == vectorBufferSize
      ensures Bounds()
      ensures arr != null && !arrInitialized ==> forall i :: 0 <= i < cap ==> !Presence()[i]
      ensures arr != null && !arrInitialized ==>
        forall j :: 0 <= j < arr.Length && !(arrOffset <= j < arrOffset + dim) ==> arr[j] == old(arr[j])
      ensures arr != null && arrInitialized ==> arr[..] == old(arr[..])
      ensures Valid() <==> forall i :: 0 <= i < cap ==> !Presence()[i]
      ensures sLo + cap + buf <= mem.Length
    {
      if arr == null || stackMem == null {
        n, cap, buf := 0, 0, 0;
        aLo, sLo := 0, 0;
        assert Stack() == [];
        EmptyConsistent(Presence());
        return;
      }
      present := arr;
      aLo := arrOffset;
      mem := stackMem;
      sLo := stackStart;
      n := 0;
      cap := dim;
      buf := vectorBufferSize;
      if dim > 0 && !arrInitialized {
        ClearFlags(arr, arrOffset, dim);
      }
      assert Stack() == [];
      EmptyConsistent(Presence());
    }

    /**
     * Adds index `i`. Returns true, changing nothing, when the structure is
     * dense or `i` is already present; otherwise marks `i`, pushes it on the
     * stack and returns false.
     */
    method Assign(i: nat) returns (was: bool)
      requires Valid() && i < cap
      modifies this`n, present, mem
      ensures Valid()
      ensures was == (i in old(Stack()))
      ensures was == (old(n) == cap || old(Presence()[i]))
      ensures was == old(Presence()[i]) && Presence() == old(Presence())[i := true]
      ensures was ==> n == old(n) && present[..] == old(present[..]) && mem[..] == old(mem[..])
      ensures !was ==>
        && n == old(n) + 1
        && present[..] == old(present[..])[aLo + i := true]
        && mem[..] == old(mem[..])[sLo + old(n) := i]
      ensures Stack() == if was then old(Stack()) else old(Stack()) + [i]
    {
      ghost var p0, s0 := Presence(), Stack();
      DenseIffFull(p0, s0);
      if n == cap {
        assert p0[i := true] == p0;
        return true;
      }
      if !present[aLo + i] {
        assert !p0[i];
        assert i !in s0;
        present[aLo + i] := true;
        mem[sLo + n] := i;
        n := n + 1;
        assert Presence() == p0[i := true];
        assert Stack() == s0 + [i];
        return false;
      } else {
        assert p0[i] && p0[i := true] == p0;
        return true;
      }
    }

    /** True exactly when no index is present. */
    function IsEmpty(): (r: bool)
      reads this, present, mem
      requires Valid()
      ensures r <==> forall i :: 0 <= i < cap ==> !Presence()[i]
    {
      assert n > 0 ==> Presence()[Stack()[0]];
      n == 0
    }

    /** True exactly when every index is present. */
    function IsDense(): (r: bool)
      reads this, present, mem
      requires Valid()
      ensures r <==> forall i :: 0 <= i < cap ==> Presence()[i]
    {
      DenseIffFull(Presence(), Stack());
      n == cap
    }

    /** The number of indices the structure ranges over. */
    function Size(): (r: nat)
      reads this, present
      requires Bounds()
      ensures r == |Presence()|
    {
      cap
    }

    /** Whether index `i` is present; a dense structure answers without reading its flags. */
    function Assigned(i: nat): (r: bool)
      reads this, present, mem
      requires Valid() && i < cap
      ensures r <==> Presence()[i]
      ensures r <==> i in Stack()
    {
      DenseIffFull(Presence(), Stack());
      n == cap || present[aLo + i]
    }

    /** The number of distinct present indices. */
    function Nonzeroes(): (r: nat)
      reads this, present, mem
      requires Valid()
      ensures r == |Elems(Stack())|
      ensures r <= cap
    {
      ElemsCardAtMost(Stack());
      n
    }

    /** The `k`-th present index: `k` itself when dense, otherwise the `k`-th stack entry. */
    function Index(k: nat): (r: nat)
      reads this, present, mem
      requires Valid() && k < n
      ensures r < cap && Presence()[r]
      ensures n == cap ==> r == k
      ensures n < cap ==> r == Stack()[k]
    {
      DenseIffFull(Presence(), Stack());
      if n == cap then k else mem[sLo + k]
    }

    /**
     * Empties the structure. A dense structure wipes all `cap` flags; a
     * sparse one clears only the flags its stack lists. Either way every
     * flag of the structure ends up unset and no other flag changes.
     */
    method Clear()
      requires Valid()
      modifies this`n, present
      ensures Valid() && n == 0
      ensures forall i :: 0 <= i < cap ==> !Presence()[i]
      ensures forall j :: 0 <= j < present.Length && !(aLo <= j < aLo + cap) ==> present[j] == old(present[j])
    {
      if n == cap {
        ClearFlags(present, aLo, cap);
      } else {
        ghost var p0, s0 := Presence(), Stack();
        forall q | 0 <= q < cap
          ensures present[aLo + q] == p0[q]
        {
        }
        UnsetListed(p0, s0);
      }
      n := 0;
      forall q | 0 <= q < cap
        ensures !Presence()[q]
      {
        assert Presence()[q] == present[aLo + q];
      }
      assert Stack() == [];
    }

    /** The sparse branch of `Clear`: the flag of every index on the stack is unset. */
    method UnsetListed(ghost p0: seq<bool>, ghost s0: seq<nat>)
      requires Bounds() && |p0| == cap && Stack() == s0
      requires forall q :: 0 <= q < cap ==> present[aLo + q] == p0[q]
      requires forall k :: 0 <= k < |s0| ==> s0[k] < cap
      modifies present
      ensures forall j :: aLo <= j < aLo + cap ==> present[j] == (p0[j - aLo] && j - aLo !in s0)
      ensures forall j :: 0 <= j < present.Length && !(aLo <= j < aLo + cap) ==> present[j] == old(present[j])
    {
      forall k | 0 <= k < n
        ensures mem[sLo + k] == s0[k]
      {
        assert s0[k] == Stack()[k];
      }
      UnsetFlags(present, mem, aLo, sLo, n, cap, p0, s0);
    }

    /**
     * Empties a tile view like `Clear` and also zeroes the tile's count slot
     * in front of its stack, so that everything assigned afterwards counts as
     * new for the tile.
     */
    method LocalClear()
      requires Valid() && 0 < sLo
      modifies this`n, present, mem
      ensures Valid() && n == 0
      ensures forall i :: 0 <= i < cap ==> !Presence()[i]
      ensures forall j :: 0 <= j < present.Length && !(aLo <= j < aLo + cap) ==> present[j] == old(present[j])
      ensures mem[..] == old(mem[..])[sLo - 1 := 0]
    {
      Clear();
      ZeroCountSlot();
    }

    /**
     * Makes a tile view dense: unless it is already dense (and known to be
     * valid), every flag is set and the stack becomes `0, 1, ..., cap - 1`.
     * The tile's count slot in front of the stack is zeroed in every case, so
     * that the whole tile is committed again as new entries.
     */
    method LocalAssignAll(maybeInvalid: bool)
      requires Bounds() && 0 < sLo
      requires !maybeInvalid ==> Valid()
      modifies this`n, present, mem
      ensures Valid() && n == cap
      ensures mem[sLo - 1] == 0
      ensures maybeInvalid || old(n) != cap ==>
        && (forall i :: 0 <= i < cap ==> Presence()[i] && Stack()[i] == i)
        && (forall j :: 0 <= j < mem.Length && !(sLo - 1 <= j < sLo + cap) ==> mem[j] == old(mem[j]))
        && (forall j :: 0 <= j < present.Length && !(aLo <= j < aLo + cap) ==> present[j] == old(present[j]))
      ensures !maybeInvalid && old(n) == cap ==>
        present[..] == old(present[..]) && mem[..] == old(mem[..])[sLo - 1 := 0]
    {
      if maybeInvalid || n != cap {
        n := cap;
        FillIdentity();
      }
      ZeroCountSlot();
    }

    /**
     * Zeroes the count slot in front of a tile view's stack, which records
     * how many of the stack's entries the global stack already holds.
     */
    method ZeroCountSlot()
      requires Bounds() && 0 < sLo
      modifies mem
      ensures mem[..] == old(mem[..])[sLo - 1 := 0]
      ensures Presence() == old(Presence()) && Stack() == old(Stack())
    {
      ghost var m0 := mem[..];
      mem[sLo - 1] := 0;
      assert mem[..] == m0[sLo - 1 := 0];
      SliceAfterWriteBefore(m0, sLo - 1, 0, sLo, sLo + n);
    }

    /** The fill loop of `LocalAssignAll`: every flag is set and the stack becomes `0, 1, ..., cap - 1`. */
    method FillIdentity()
      requires Bounds() && n == cap
      modifies present, mem
      ensures Valid()
      ensures forall i :: 0 <= i < cap ==> Presence()[i] && Stack()[i] == i
      ensures forall j :: 0 <= j < mem.Length && !(sLo <= j < sLo + cap) ==> mem[j] == old(mem[j])
      ensures forall j :: 0 <= j < present.Length && !(aLo <= j < aLo + cap) ==> present[j] == old(present[j])
    {
      IdentityFill(present, mem, aLo, sLo, cap);
      ghost var pc, sc := Presence(), Stack();
      forall q | 0 <= q < cap
        ensures pc[q] && sc[q] == q
      {
        assert pc[q] == present[aLo + q] && sc[q] == mem[sLo + q];
        assert mem[sLo + q] + sLo == sLo + q;
      }
      IdentityConsistent(pc, sc);
    }

    /**
     * The fill loop of `LocalAssignAllNotAlreadyAssigned`: walks all `cap`
     * indices and marks and pushes each one that is not yet present. The
     * stack has room for exactly the unset indices.
     */
    method FillUnset(ghost p0: seq<bool>, ghost s0: seq<nat>)
      requires Bounds() && Presence() == p0 && Stack() == s0
      requires |s0| + |Unset(p0)| == cap
      modifies this`n, present, mem
      ensures Bounds() && n == cap
      ensures Presence() == Filled(p0, cap) && Stack() == s0 + Unset(p0)
      ensures forall j :: 0 <= j < mem.Length && !(sLo + old(n) <= j < sLo + cap) ==> mem[j] == old(mem[j])
      ensures forall j :: 0 <= j < present.Length && !(aLo <= j < aLo + cap) ==> present[j] == old(present[j])
    {
      forall q | 0 <= q < cap
        ensures present[aLo + q] == p0[q]
      {
        assert p0[q] == Presence()[q];
      }
      forall k | 0 <= k < n
        ensures mem[sLo + k] == s0[k]
      {
        assert s0[k] == Stack()[k];
      }
      n := FillGaps(present, mem, aLo, sLo, n, cap, p0, s0);
      assert Stack() == s0 + Unset(p0);
      assert Presence() == Filled(p0, cap) by {
        forall q | 0 <= q < cap
          ensures Presence()[q] == Filled(p0, cap)[q]
        {
          assert Presence()[q] == present[aLo + q];
        }
      }
    }

    /**
     * Makes a tile view dense without disturbing its existing entries: the
     * live stack keeps its entries and gains, in ascending order, exactly the
     * indices that were not present.
     */
    method LocalAssignAllNotAlreadyAssigned(maybeInvalid: bool)
      requires Valid()
      modifies this`n, present, mem
      ensures Valid() && n == cap
      ensures forall i :: 0 <= i < cap ==> Presence()[i]
      ensures Stack() == old(Stack()) + Unset(old(Presence()))
      ensures forall j :: 0 <= j < mem.Length && !(sLo + old(n) <= j < sLo + cap) ==> mem[j] == old(mem[j])
      ensures forall j :: 0 <= j < present.Length && !(aLo <= j < aLo + cap) ==> present[j] == old(present[j])
    {
      ghost var p0, s0 := Presence(), Stack();
      if maybeInvalid || n != cap {
        UnsetCount(p0, s0);
        FillUnset(p0, s0);
        FilledConsistent(p0, s0);
      } else {
        FullHasNoUnset(p0, s0);
        assert s0 + Unset(p0) == s0;
      }
    }

    // -------------------------------------------------------------------
    // Tile protocol
    // -------------------------------------------------------------------

    /**
     * The scratch buffer after the stack is carved for `numTiles` tiles of
     * at most `tileSize` indices each. Tile `t`'s segment starts at
     * `localBuffer[t]` and holds a count slot followed by a local stack of
     * `tileSize` slots. The per-tile new-nonzero counters start at
     * `localNewNnzs` and the per-tile prefix sums at `prefSum`. All of it
     * lies inside `mem`.
     */
    ghost predicate TilesReady()
      reads this
    {
      && Bounds() && 0 < tileSize && 0 < numTiles && |localBuffer| == numTiles
      && (forall t :: 0 <= t < numTiles ==> localBuffer[t] == sLo + cap + Offset(t, tileSize + 1))
      && (forall t :: 0 <= t < numTiles ==> localBuffer[t] + tileSize + 1 <= localNewNnzs)
      && localNewNnzs == sLo + cap + Offset(numTiles, tileSize + 1)
      && prefSum == localNewNnzs + numTiles
      && prefSum + numTiles <= mem.Length
    }

    /** Tile segments follow one another in tile order without overlapping. */
    lemma SegmentsDisjoint(t: nat, u: nat)
      requires TilesReady() && t < u < numTiles
      ensures localBuffer[t] + tileSize + 1 <= localBuffer[u]
    {
      OffsetStrictMono(t, u, tileSize + 1);
    }

    /** Tile `t`'s segment lies after the stack and before the counters. */
    lemma SegmentPlacement(t: nat)
      requires TilesReady() && t < numTiles
      ensures sLo + cap <= localBuffer[t] && localBuffer[t] + tileSize + 1 <= localNewNnzs
    {
    }

    /** The tile whose index range starts at `lo`. */
    function TileOf(lo: nat): nat
      reads this
      requires 0 < tileSize
    {
      lo / tileSize
    }

    /** The new-nonzero counters of the tiles. */
    ghost function NewCounts(): (c: seq<nat>)
      reads this, mem
      requires TilesReady()
      ensures |c| == numTiles
    {
      mem[localNewNnzs..localNewNnzs + numTiles]
    }

    /** The prefix-sum slots of the tiles. */
    ghost function PrefixSums(): (c: seq<nat>)
      reads this, mem
      requires TilesReady()
      ensures |c| == numTiles
    {
      mem[prefSum..prefSum + numTiles]
    }

    /** The first `len` entries of tile `t`'s local stack. */
    ghost function LocalStack(t: nat, len: nat): (s: seq<nat>)
      reads this, mem
      requires TilesReady() && t < numTiles && len <= tileSize
      ensures |s| == len
    {
      mem[localBuffer[t] + 1..localBuffer[t] + 1 + len]
    }

    /** The live stack read entry by entry. */
    lemma StackFromRaw(s: seq<nat>)
      requires Bounds() && |s| == n
      requires forall k :: 0 <= k < n ==> mem[sLo + k] == s[k]
      ensures Stack() == s
    {
      forall k | 0 <= k < n
        ensures Stack()[k] == s[k]
      {
        assert Stack()[k] == mem[sLo + k];
      }
    }

    /** Tile `t`'s local stack read entry by entry. */
    lemma LocalStackFromRaw(t: nat, len: nat, s: seq<nat>)
      requires TilesReady() && t < numTiles && len <= tileSize && |s| == len
      requires forall k :: 0 <= k < len ==> mem[localBuffer[t] + 1 + k] == s[k]
      ensures LocalStack(t, len) == s
    {
      forall k | 0 <= k < len
        ensures LocalStack(t, len)[k] == s[k]
      {
        assert LocalStack(t, len)[k] == mem[localBuffer[t] + 1 + k];
      }
    }

    /** The new-nonzero counters read entry by entry. */
    lemma NewCountsFromRaw(c: seq<nat>)
      requires TilesReady() && |c| == numTiles
      requires forall u :: 0 <= u < numTiles ==> mem[localNewNnzs + u] == c[u]
      ensures NewCounts() == c
    {
      forall u | 0 <= u < numTiles
        ensures NewCounts()[u] == c[u]
      {
        assert NewCounts()[u] == mem[localNewNnzs + u];
      }
    }

    /** The new-nonzero counters after tile `t`'s counter was reset and no other changed. */
    lemma CountersAfterReset(c: seq<nat>, t: nat)
      requires TilesReady() && |c| == numTiles && t < numTiles
      requires mem[localNewNnzs + t] == 0
      requires forall u :: 0 <= u < numTiles && u != t ==> mem[localNewNnzs + u] == c[u]
      ensures NewCounts() == c[t := 0]
    {
      forall u | 0 <= u < numTiles
        ensures NewCounts()[u] == c[t := 0][u]
      {
        assert NewCounts()[u] == mem[localNewNnzs + u];
      }
    }

    /**
     * Carves the scratch buffer for the `nt` tiles of size `ts` that the
     * pipeline's analytic model chose: tile `t`'s segment starts `t * (ts +
     * 1)` slots into the buffer, the counters follow all segments and the
     * prefix sums follow the counters.
     */
    method LocalCoordinatesInit(ts: nat, nt: nat)
      requires Bounds() && 0 < ts && 0 < nt
      requires nt * (ts + 3) <= buf && sLo + cap + buf <= mem.Length
      modifies this`tileSize, this`numTiles, this`localBuffer, this`localNewNnzs, this`prefSum
      ensures TilesReady() && tileSize == ts && numTiles == nt
      ensures localNewNnzs == sLo + cap + nt * (ts + 1) && prefSum == sLo + cap + nt * (ts + 2)
    {
      var start := sLo + cap;
      var segments: seq<nat> := seq(nt, _ => 0);
      for t := 0 to nt
        invariant |segments| == nt
        invariant forall u :: 0 <= u < t ==> segments[u] == start + Offset(u, ts + 1)
      {
        OffsetIsProduct(t, ts + 1);
        segments := segments[t := start + t * (ts + 1)];
      }
      tileSize, numTiles := ts, nt;
      localBuffer := segments;
      localNewNnzs := start + nt * (ts + 1);
      prefSum := start + nt * (ts + 2);
      OffsetIsProduct(nt, ts + 1);
      forall t | 0 <= t < nt
        ensures localBuffer[t] + ts + 1 <= localNewNnzs
      {
        OffsetStrictMono(t, nt, ts + 1);
      }
      assert nt * (ts + 2) == nt * (ts + 1) + nt;
      assert nt * (ts + 3) == nt * (ts + 2) + nt;
    }

    /**
     * Prepares the tile that starts at `lo` (tile `TileOf(lo)`) for
     * independent updates: its local stack receives the offsets, relative
     * to `lo`, of the indices of `[lo, hi)` already present, its count slot
     * their number, and its new-nonzero counter 0. A short tile scans its
     * flags; otherwise the global stack is walked. A structure of capacity
     * 0 is left alone.
     */
    method AsyncSubsetInit(lo: nat, hi: nat)
      requires Valid()
      requires cap > 0 ==> TilesReady() && lo <= hi <= cap && hi - lo <= tileSize && TileOf(lo) < numTiles
      modifies mem
      ensures Valid() && Presence() == old(Presence()) && Stack() == old(Stack())
      ensures cap == 0 ==> mem[..] == old(mem[..])
      ensures cap > 0 ==>
        var list := TileList(old(Presence()), old(Stack()), lo, hi, hi - lo < n);
        && |list| <= hi - lo
        && mem[..] == Splice(old(mem[..]), localBuffer[TileOf(lo)], [|list|] + list)[localNewNnzs + TileOf(lo) := 0]
    {
      if cap > 0 {
        ghost var p0, s0 := Presence(), Stack();
        ghost var list := InitTileAt(lo, hi);
        KeptValid(p0, s0);
      }
    }

    /** `asyncSubsetInit` on a structure of positive capacity, which keeps its flags and its stack. */
    method InitTileAt(lo: nat, hi: nat) returns (ghost list: seq<nat>)
      requires Valid() && 0 < cap && TilesReady() && lo <= hi <= cap && hi - lo <= tileSize && TileOf(lo) < numTiles
      modifies mem
      ensures Presence() == old(Presence()) && Stack() == old(Stack())
      ensures list == TileList(old(Presence()), old(Stack()), lo, hi, hi - lo < n) && |list| <= hi - lo
      ensures mem[..] == Splice(old(mem[..]), localBuffer[TileOf(lo)], [|list|] + list)[localNewNnzs + TileOf(lo) := 0]
    {
      var t := TileOf(lo);
      var seg := localBuffer[t];
      assert seg + tileSize + 1 <= localNewNnzs;
      ghost var m0, p0, s0 := mem[..], Presence(), Stack();
      assert s0 == m0[sLo..sLo + n];
      var count;
      count, list := InitTile(present, mem, aLo, sLo, n, lo, hi, seg, localNewNnzs + t, p0, s0);
      ghost var m1 := mem[..];
      SpliceThenReset(m0, m1, seg, [count] + list, sLo, sLo + n, localNewNnzs, numTiles, t);
      assert Stack() == m1[sLo..sLo + n];
    }

    /** A structure whose flags and stack are those of a valid one is valid. */
    lemma KeptValid(p0: seq<bool>, s0: seq<nat>)
      requires Bounds() && Presence() == p0 && Stack() == s0 && Consistent(p0, s0)
      ensures Valid()
    {
    }

    /**
     * A view of the tile that starts at `lo`: it shares this structure's
     * flags from `lo` on and uses the tile's local stack as its stack, has
     * capacity `hi - lo`, no scratch buffer, and holds the entries found by
     * `asyncSubsetInit` plus the tile's new nonzeroes so far.
     */
    method AsyncSubset(lo: nat, hi: nat) returns (view: Coordinates)
      requires cap > 0 && TilesReady() && lo <= hi <= cap && hi - lo <= tileSize && TileOf(lo) < numTiles
      requires mem[localBuffer[TileOf(lo)]] + mem[localNewNnzs + TileOf(lo)] <= hi - lo
      ensures fresh(view) && view.Bounds()
      ensures view.present == present && view.aLo == aLo + lo && view.cap == hi - lo
      ensures view.mem == mem && view.sLo == localBuffer[TileOf(lo)] + 1 && view.buf == 0
      ensures view.n == mem[localBuffer[TileOf(lo)]] + mem[localNewNnzs + TileOf(lo)]
    {
      var t := TileOf(lo);
      var seg := localBuffer[t];
      assert seg + tileSize + 1 <= localNewNnzs;
      view := new Coordinates();
      view.Set(present, aLo + lo, true, mem, seg + 1, hi - lo, 0);
      view.n := mem[seg] + mem[localNewNnzs + t];
      view.buf := 0;
    }

    /**
     * A view returned by `asyncSubset` sees exactly the tile's flags and
     * the tile's local stack, so it satisfies the structure's invariant
     * exactly when the local stack lists the tile's present indices once
     * each.
     */
    lemma ViewSees(view: Coordinates, lo: nat, hi: nat)
      requires TilesReady() && lo <= hi <= cap && hi - lo <= tileSize && TileOf(lo) < numTiles
      requires view.present == present && view.aLo == aLo + lo && view.cap == hi - lo
      requires view.mem == mem && view.sLo == localBuffer[TileOf(lo)] + 1 && view.n <= hi - lo
      ensures view.Bounds()
      ensures view.Presence() == Presence()[lo..hi]
      ensures view.Stack() == LocalStack(TileOf(lo), view.n)
      ensures view.Valid() <==> Consistent(Presence()[lo..hi], LocalStack(TileOf(lo), view.n))
    {
      assert localBuffer[TileOf(lo)] + tileSize + 1 <= localNewNnzs;
      SliceOfSlice(present[..], aLo, aLo + cap, lo, hi);
    }

    /**
     * Records how many entries the view of the tile that starts at `lo`
     * added: its entry count minus the tile's count slot, as an unsigned
     * 64-bit difference.
     */
    method AsyncJoinSubset(view: Coordinates, lo: nat, hi: nat)
      requires cap > 0 && TilesReady() && TileOf(lo) < numTiles
      requires view.n <= view.cap && mem[localBuffer[TileOf(lo)]] <= view.cap
      modifies mem
      ensures mem[..] == old(mem[..])[localNewNnzs + TileOf(lo) := Wrap(view.n - old(mem[localBuffer[TileOf(lo)]]))]
    {
      var t := TileOf(lo);
      mem[localNewNnzs + t] := Wrap(view.n - mem[localBuffer[t]]);
    }

    /**
     * Computes, for every tile, where its new nonzeroes end in the global
     * stack: the prefix sums of the tile counters started from the current
     * number of nonzeroes, then sets that number to the last prefix sum. A
     * small number of tiles (fewer than `psTileSize`) is summed in one
     * running sum; otherwise the chunks given by `cuts` are summed in three
     * phases, with the same result.
     */
    method PrefixSumComputation(psTileSize: nat, cuts: seq<nat>)
      requires TilesReady() && n + Sum(NewCounts()) <= cap
      requires psTileSize <= numTiles ==> Chunks(cuts, numTiles)
      modifies this`n, mem
      ensures mem[..] == Splice(old(mem[..]), prefSum, Scan(old(n), old(NewCounts())))
      ensures n == old(n) + Sum(old(NewCounts()))
      ensures Presence() == old(Presence())
    {
      ScanCounters(mem, localNewNnzs, prefSum, n, numTiles, psTileSize, cuts, NewCounts());
      n := mem[prefSum + numTiles - 1];
    }

    /**
     * In memory `m`, tile `t` can be committed: its local stack holds its
     * `m[localBuffer[t]]` earlier entries and `m[localNewNnzs + t]` added
     * ones within `tileSize` slots, and its prefix sum counts the added
     * ones and stays within the capacity.
     */
    ghost predicate JoinReady(m: seq<nat>, t: nat)
      reads this
    {
      && TilesReady() && t < numTiles && |m| == mem.Length
      && m[localBuffer[t]] + m[localNewNnzs + t] <= tileSize
      && m[localNewNnzs + t] <= m[prefSum + t] <= cap
    }

    /** How many entries tile `t` added in memory `m`. */
    ghost function JoinCount(m: seq<nat>, t: nat): nat
      reads this
      requires JoinReady(m, t)
    {
      m[localNewNnzs + t]
    }

    /** Where tile `t`'s added entries sit in its local stack. */
    ghost function JoinSource(m: seq<nat>, t: nat): nat
      reads this
      requires JoinReady(m, t)
    {
      localBuffer[t] + 1 + m[localBuffer[t]]
    }

    /**
     * Where tile `t`'s added entries go in the global stack: the range
     * that ends at the tile's prefix sum, which lies inside the stack.
     */
    ghost function JoinDest(m: seq<nat>, t: nat): (d: nat)
      reads this
      requires JoinReady(m, t)
      ensures sLo <= d && d + JoinCount(m, t) == sLo + m[prefSum + t] <= sLo + cap
    {
      sLo + (m[prefSum + t] - m[localNewNnzs + t])
    }

    /**
     * Commits the tile that starts at `lo`: the entries its view added to
     * its local stack after the first `mem[localBuffer[t]]`, raised by `lo`
     * to global indices, are written to the global stack just below the
     * tile's prefix sum, and the tile's new-nonzero counter is reset. No
     * other slot changes. A structure of capacity 0 is left alone.
     */
    method JoinSubset(lo: nat, hi: nat) returns (ghost dest: nat, ghost src: nat, ghost count: nat)
      requires Bounds()
      requires cap > 0 ==> 0 < tileSize && JoinReady(mem[..], TileOf(lo))
      modifies mem
      ensures cap == 0 ==> mem[..] == old(mem[..])
      ensures cap > 0 ==>
        && dest == JoinDest(old(mem[..]), TileOf(lo))
        && src == JoinSource(old(mem[..]), TileOf(lo))
        && count == JoinCount(old(mem[..]), TileOf(lo))
      ensures cap > 0 ==> forall j :: dest <= j < dest + count ==> mem[j] == old(mem[src + (j - dest)]) + lo
      ensures cap > 0 ==> mem[localNewNnzs + TileOf(lo)] == 0
      ensures cap > 0 ==>
        forall j :: 0 <= j < mem.Length && j != localNewNnzs + TileOf(lo) && !(dest <= j < dest + count) ==>
          mem[j] == old(mem[j])
    {
      dest, src, count := 0, 0, 0;
      if cap == 0 {
        return;
      }
      var t := TileOf(lo);
      SegmentPlacement(t);
      var added := mem[localNewNnzs + t];
      var to := sLo + (mem[prefSum + t] - added);
      var from := localBuffer[t] + 1 + mem[localBuffer[t]];
      dest, src, count := to, from, added;
      JoinSegment(mem, from, to, added, lo, localNewNnzs + t);
    }

    /** True iff the structure has capacity and some tile has a positive new-nonzero counter. */
    method NewNonZeroes() returns (r: bool)
      requires cap > 0 ==> TilesReady()
      ensures r <==> cap > 0 && exists t :: 0 <= t < numTiles && NewCounts()[t] > 0
    {
      if cap == 0 {
        return false;
      }
      for i := 0 to numTiles
        invariant forall t :: 0 <= t < i ==> NewCounts()[t] == 0
      {
        if mem[localNewNnzs + i] > 0 {
          assert NewCounts()[i] > 0;
          return true;
        }
      }
      return false;
    }
  }
}
