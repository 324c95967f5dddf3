/**
 * The reference prefix sum of the tile protocol: given the global nonzero
 * count `base` before a join and the number of new nonzeroes each tile
 * produced, tile `t` receives the destination range
 * `[Scan(base, c)[t] - c[t], Scan(base, c)[t])` of the global stack.
 */
module PrefixSums {

  /** The sum of the per-tile counters. */
  function Sum(c: seq<nat>): nat {
    if c == [] then 0 else Sum(c[..|c| - 1]) + c[|c| - 1]
  }

  lemma {:induction false} SumConcat(a: seq<nat>, b: seq<nat>)
    ensures Sum(a + b) == Sum(a) + Sum(b)
  {
    if b == [] {
      assert a + b == a;
    } else {
      assert (a + b)[..|a + b| - 1] == a + b[..|b| - 1];
      SumConcat(a, b[..|b| - 1]);
    }
  }

  /** Splitting a slice at `m` splits its sum. */
  lemma SumSplit(c: seq<nat>, lo: nat, m: nat, hi: nat)
    requires lo <= m <= hi <= |c|
    ensures Sum(c[lo..hi]) == Sum(c[lo..m]) + Sum(c[m..hi])
  {
    assert c[lo..hi] == c[lo..m] + c[m..hi];
    SumConcat(c[lo..m], c[m..hi]);
  }

  /** Extending a slice by one element adds that element to its sum. */
  lemma SumStep(c: seq<nat>, lo: nat, hi: nat)
    requires lo <= hi < |c|
    ensures Sum(c[lo..hi + 1]) == Sum(c[lo..hi]) + c[hi]
  {
    assert c[lo..hi + 1][..hi - lo] == c[lo..hi];
  }

  /**
   * The sequential scan: the first tile's entry is `base + c[0]`, every later
   * entry is its predecessor plus the tile's own counter. The last entry is
   * the new global count.
   */
  function Scan(base: nat, c: seq<nat>): (r: seq<nat>)
    ensures |r| == |c|
    ensures c != [] ==> r[|c| - 1] == base + Sum(c)
  {
    if c == [] then []
    else
      var p := Scan(base, c[..|c| - 1]);
      p + [(if p == [] then base else p[|p| - 1]) + c[|c| - 1]]
  }

  /** Entry `t` of the scan is `base` plus the counters of tiles `0..t`. */
  lemma {:induction false} ScanAt(base: nat, c: seq<nat>, t: nat)
    requires t < |c|
    ensures Scan(base, c)[t] == base + Sum(c[..t + 1])
  {
    var last := |c| - 1;
    if t < last {
      ScanAt(base, c[..last], t);
      assert c[..last][..t + 1] == c[..t + 1];
    } else {
      assert c[..t + 1] == c;
    }
  }

  /**
   * Tile `t`'s destination range starts at `base + Sum(c[..t])` and holds
   * `c[t]` slots; its scan entry is the end of that range.
   */
  lemma ScanIsRangeEnd(base: nat, c: seq<nat>, t: nat)
    requires t < |c|
    ensures Scan(base, c)[t] == base + Sum(c[..t]) + c[t]
  {
    ScanAt(base, c, t);
    SumStep(c, 0, t);
  }

  /** Sums of prefixes: `c[..hi]` is `c[..m]` followed by `c[m..hi]`. */
  lemma PrefixSumSplit(c: seq<nat>, m: nat, hi: nat)
    requires m <= hi <= |c|
    ensures Sum(c[..hi]) == Sum(c[..m]) + Sum(c[m..hi])
  {
    assert c[..hi] == c[..m] + c[m..hi];
    SumConcat(c[..m], c[m..hi]);
  }

  /** A longer prefix adds the next counter. */
  lemma PrefixSumStep(c: seq<nat>, t: nat)
    requires t < |c|
    ensures Sum(c[..t + 1]) == Sum(c[..t]) + c[t]
  {
    assert c[..t + 1][..t] == c[..t];
  }

  /** A longer prefix has at least the sum of a shorter one. */
  lemma PrefixSumMono(c: seq<nat>, i: nat, j: nat)
    requires i <= j <= |c|
    ensures Sum(c[..i]) <= Sum(c[..j])
  {
    PrefixSumSplit(c, i, j);
  }

  /** Tile ranges in sum form: a later tile's range starts after an earlier one's ends. */
  lemma RangesOrdered(c: seq<nat>, t: nat, u: nat)
    requires t < u < |c|
    ensures Sum(c[..t]) + c[t] <= Sum(c[..u])
  {
    PrefixSumStep(c, t);
    PrefixSumMono(c, t + 1, u);
  }

  /** Tile ranges in sum form: every range ends inside `[0, Sum(c))`. */
  lemma RangeInside(c: seq<nat>, u: nat)
    requires u < |c|
    ensures Sum(c[..u]) + c[u] <= Sum(c)
  {
    PrefixSumStep(c, u);
    PrefixSumMono(c, u + 1, |c|);
    PrefixSumAll(c);
  }

  /** The prefix of every counter is the whole sequence. */
  lemma PrefixSumAll(c: seq<nat>)
    ensures Sum(c[..|c|]) == Sum(c)
  {
    assert c[..|c|] == c;
  }

  /**
   * The destination range of tile `t` in the global stack is
   * `[Scan(base, c)[t] - c[t], Scan(base, c)[t])`. Distinct tiles receive
   * disjoint ranges, in tile order, all inside `[base, base + Sum(c))`
   * (differences are written as sums, so that they stay natural numbers).
   */
  lemma DestinationsDisjoint(base: nat, c: seq<nat>, t: nat, u: nat)
    requires t < u < |c|
    ensures base + c[t] <= Scan(base, c)[t]
    ensures Scan(base, c)[t] + c[u] <= Scan(base, c)[u]
    ensures Scan(base, c)[u] <= base + Sum(c)
  {
    ScanIsRangeEnd(base, c, t);
    ScanIsRangeEnd(base, c, u);
    RangesOrdered(c, t, u);
    RangeInside(c, u);
  }

  /** In sum form: every slot of `[base, base + Sum(c))` lies in some tile's range. */
  lemma {:induction false} RangesCover(base: nat, c: seq<nat>, p: nat)
    requires base <= p < base + Sum(c)
    ensures exists t :: 0 <= t < |c| && base + Sum(c[..t]) <= p < base + Sum(c[..t]) + c[t]
  {
    var last := |c| - 1;
    var pre := c[..last];
    if p < base + Sum(pre) {
      RangesCover(base, pre, p);
      var t :| 0 <= t < |pre| && base + Sum(pre[..t]) <= p < base + Sum(pre[..t]) + pre[t];
      assert pre[..t] == c[..t];
    } else {
      assert c[..last] == pre;
    }
  }

  /** The destination ranges together cover `[base, base + Sum(c))`. */
  lemma DestinationsCover(base: nat, c: seq<nat>, p: nat)
    requires base <= p < base + Sum(c)
    ensures exists t :: 0 <= t < |c| && Scan(base, c)[t] <= p + c[t] && p < Scan(base, c)[t]
  {
    RangesCover(base, c, p);
    var t :| 0 <= t < |c| && base + Sum(c[..t]) <= p < base + Sum(c[..t]) + c[t];
    ScanIsRangeEnd(base, c, t);
  }
}
