/**
 * Facts about sequences of indices used by the sparsity structure: a
 * sequence without repeats is no longer than any set that holds its
 * elements, and a sequence whose elements cover a set is at least as long
 * as that set.
 */
module SeqFacts {

  /** No index occurs twice in `s`. */
  ghost predicate Distinct(s: seq<nat>) {
    forall a, b :: 0 <= a < b < |s| ==> s[a] != s[b]
  }

  /** The elements of `s`, as a set. */
  ghost function Elems(s: seq<nat>): set<nat> {
    set x | x in s
  }

  /** The half-open integer range `[lo, hi)`, as a set. */
  ghost function Range(lo: nat, hi: nat): (r: set<nat>)
    ensures forall i: nat :: i in r <==> lo <= i < hi
    decreases hi - lo
  {
    if lo < hi then Range(lo, hi - 1) + {hi - 1} else {}
  }

  lemma {:induction false} RangeCard(lo: nat, hi: nat)
    requires lo <= hi
    ensures |Range(lo, hi)| == hi - lo
  {
    if lo < hi {
      RangeCard(lo, hi - 1);
    }
  }

  lemma {:induction false} ElemsCardAtMost(s: seq<nat>)
    ensures |Elems(s)| <= |s|
    ensures Distinct(s) ==> |Elems(s)| == |s|
  {
    if s != [] {
      var t := s[..|s| - 1];
      ElemsCardAtMost(t);
      assert Elems(s) == Elems(t) + {s[|s| - 1]};
      if Distinct(s) {
        assert Distinct(t);
        assert s[|s| - 1] !in Elems(t);
      }
    } else {
      assert Elems(s) == {};
    }
  }

  /** A repeat-free sequence drawn from `S` has at most `|S|` elements. */
  lemma DistinctBound(s: seq<nat>, S: set<nat>)
    requires Distinct(s)
    requires forall k :: 0 <= k < |s| ==> s[k] in S
    ensures |s| <= |S|
  {
    ElemsCardAtMost(s);
    assert Elems(s) <= S;
    SubsetCard(Elems(s), S);
  }

  /** A sequence whose elements include all of `S` has at least `|S|` elements. */
  lemma CoverBound(s: seq<nat>, S: set<nat>)
    requires forall x :: x in S ==> x in s
    ensures |S| <= |s|
  {
    ElemsCardAtMost(s);
    assert S <= Elems(s);
    SubsetCard(S, Elems(s));
  }

  lemma SubsetCard(A: set<nat>, B: set<nat>)
    requires A <= B
    ensures |A| <= |B|
  {
    assert B == A + (B - A);
  }

  /**
   * A repeat-free sequence of indices below `cap` that leaves out some index
   * below `cap` is strictly shorter than `cap`.
   */
  lemma DistinctMissingBound(s: seq<nat>, cap: nat, missing: nat)
    requires Distinct(s)
    requires forall k :: 0 <= k < |s| ==> s[k] < cap
    requires missing < cap && missing !in s
    ensures |s| < cap
  {
    var S := Range(0, cap) - {missing};
    RangeCard(0, cap);
    assert Range(0, cap) == S + {missing};
    DistinctBound(s, S);
  }

  /** A repeat-free sequence of indices below `cap` that contains every one of them has length `cap`. */
  lemma DistinctFullLength(s: seq<nat>, cap: nat)
    requires Distinct(s)
    requires forall k :: 0 <= k < |s| ==> s[k] < cap
    requires forall i :: 0 <= i < cap ==> i in s
    ensures |s| == cap
  {
    RangeCard(0, cap);
    DistinctBound(s, Range(0, cap));
    CoverBound(s, Range(0, cap));
  }
}
