/**
 * One episode of the tile protocol of the nonblocking backend, end to end.
 *
 * Before the episode the global structure is valid. Every tile's local
 * stack is seeded with the tile's present indices (`asyncSubsetInit`); a
 * view of each tile then assigns indices (`asyncSubset`, `assign`) and
 * records how many it added (`asyncJoinSubset`); the prefix sums of those
 * counts fix where each tile's additions go (`prefixSumComputation`); and
 * every tile copies them into the global stack (`joinSubset`). Afterwards
 * the global structure is valid again, and its stack is the old one
 * followed, tile by tile, by each tile's additions raised to global
 * indices.
 *
 * The first part states this on values: `EpisodeConsistent`. The second
 * part runs the methods of `Coordinates` and proves that they produce it.
 */
module TileEpisode {
  import opened SeqFacts
  import opened PrefixSums
  import opened NonblockingCoordinates
  import MixedRadix

  // ---------------------------------------------------------------------
  // The episode on values
  // ---------------------------------------------------------------------

  /** Every entry of `xs` raised by `lo`: tile-local offsets made global. */
  ghost function Raise(xs: seq<nat>, lo: nat): seq<nat> {
    seq(|xs|, k requires 0 <= k < |xs| => xs[k] + lo)
  }

  /** The upper bound of tile `t` of `ts` indices in a structure of capacity `cap`. */
  function TileHi(t: nat, ts: nat, cap: nat): nat {
    if Offset(t, ts) + ts <= cap then Offset(t, ts) + ts else cap
  }

  /**
   * Tile `[lo, hi)` went through its part of the episode: it was seeded
   * with `before`, the offsets of its indices present in the flags `p`
   * before the episode, once each; its view then added `added`, and the
   * whole local stack lists the tile's indices present in the flags `q`
   * after the episode, once each.
   */
  ghost predicate TileDone(p: seq<bool>, q: seq<bool>, lo: nat, hi: nat, before: seq<nat>, added: seq<nat>)
    requires lo <= hi <= |p| == |q|
  {
    Consistent(p[lo..hi], before) && Consistent(q[lo..hi], before + added)
  }

  /**
   * The tiles of `ts` indices cover the `|p|` flags, and every tile `t`
   * went through the episode, with `before[t]` and `added[t]` its seed
   * and its additions.
   */
  ghost predicate EpisodeDone(p: seq<bool>, q: seq<bool>, ts: nat, before: seq<seq<nat>>, added: seq<seq<nat>>) {
    && 0 < ts && |q| == |p| && |before| == |added| && |p| <= Offset(|added|, ts)
    && forall t :: 0 <= t < |added| ==>
         Offset(t, ts) <= |p| && TileDone(p, q, Offset(t, ts), TileHi(t, ts, |p|), before[t], added[t])
  }

  /** The global stack `s` followed by the additions of tiles `0..m`, each raised by its tile's lower bound. */
  ghost function Committed(s: seq<nat>, added: seq<seq<nat>>, ts: nat, m: nat): seq<nat>
    requires m <= |added|
  {
    if m == 0 then s else Committed(s, added, ts, m - 1) + Raise(added[m - 1], Offset(m - 1, ts))
  }

  /** The number of additions of each tile. */
  ghost function Lengths(added: seq<seq<nat>>): (c: seq<nat>)
    ensures |c| == |added| && forall t :: 0 <= t < |added| ==> c[t] == |added[t]|
  {
    seq(|added|, t requires 0 <= t < |added| => |added[t]|)
  }

  /** The committed stack is as long as the old one plus the first `m` tiles' additions. */
  lemma {:induction false} CommittedLength(s: seq<nat>, added: seq<seq<nat>>, ts: nat, m: nat)
    requires m <= |added|
    ensures |Committed(s, added, ts, m)| == |s| + Sum(Lengths(added)[..m])
  {
    if m > 0 {
      CommittedLength(s, added, ts, m - 1);
      PrefixSumStep(Lengths(added), m - 1);
    }
  }

  /** Two sequences without repeats and without a common entry make one without repeats. */
  lemma DistinctAppend(a: seq<nat>, b: seq<nat>)
    requires Distinct(a) && Distinct(b)
    requires forall i, j :: 0 <= i < |a| && 0 <= j < |b| ==> a[i] != b[j]
    ensures Distinct(a + b)
  {
    var c := a + b;
    forall x, y | 0 <= x < y < |c|
      ensures c[x] != c[y]
    {
      if y < |a| {
      } else if x >= |a| {
        assert c[x] == b[x - |a|] && c[y] == b[y - |a|];
      } else {
        assert c[y] == b[y - |a|];
      }
    }
  }

  /**
   * Tile `t`'s additions, raised to global indices: each is flagged in `q`
   * and lies in the tile, none is repeated, and none was on the old stack
   * `s`, because the old stack's entries inside the tile are exactly the
   * tile's seed, which the view's stack already held.
   */
  lemma TileAdditions(p: seq<bool>, q: seq<bool>, s: seq<nat>, lo: nat, hi: nat, before: seq<nat>, added: seq<nat>)
    requires Consistent(p, s) && lo <= hi <= |p| == |q|
    requires TileDone(p, q, lo, hi, before, added)
    ensures Distinct(Raise(added, lo))
    ensures forall j :: 0 <= j < |added| ==> lo <= Raise(added, lo)[j] < hi && q[Raise(added, lo)[j]]
    ensures forall j :: 0 <= j < |added| ==> Raise(added, lo)[j] !in s
  {
    var local := before + added;
    var r := Raise(added, lo);
    forall j | 0 <= j < |added|
      ensures lo <= r[j] < hi && q[r[j]]
      ensures r[j] !in s
    {
      assert local[|before| + j] == added[j];
      assert q[lo..hi][added[j]];
      AddedNotSeed(before, added, j);
    }
    forall x, y | 0 <= x < y < |r|
      ensures r[x] != r[y]
    {
      assert local[|before| + x] == added[x] && local[|before| + y] == added[y];
    }
  }

  /**
   * `c` is the old stack `s` with the additions of the tiles below `bound`:
   * no repeats; every entry is an old one or an index below `bound`
   * flagged in `q`; every index below `bound` flagged in `q` and every old
   * entry is there; and the old entries below `bound` are still flagged.
   */
  ghost predicate CommittedBelow(q: seq<bool>, s: seq<nat>, c: seq<nat>, bound: nat) {
    && Distinct(c)
    && (forall k :: 0 <= k < |c| ==> c[k] in s || (c[k] < bound && c[k] < |q| && q[c[k]]))
    && (forall x :: 0 <= x < |q| && x < bound && q[x] ==> x in c)
    && (forall x :: x in s ==> x in c)
    && (forall x :: x in s && x < bound ==> x < |q| && q[x])
  }

  /** An entry a local stack without repeats gained is not among its seed. */
  lemma AddedNotSeed(before: seq<nat>, added: seq<nat>, j: nat)
    requires Distinct(before + added) && j < |added|
    ensures added[j] !in before
  {
    var local := before + added;
    assert local[|before| + j] == added[j];
    forall i | 0 <= i < |before|
      ensures before[i] != added[j]
    {
      assert local[i] == before[i];
    }
  }

  /** Committing the tile `[lo, hi)` after the tiles below `lo` extends the committed range to `bound`. */
  lemma CommitTileStep(p: seq<bool>, q: seq<bool>, s: seq<nat>, c: seq<nat>, lo: nat, hi: nat, bound: nat,
                       before: seq<nat>, added: seq<nat>)
    requires Consistent(p, s) && lo <= hi <= |p| == |q| && (hi == bound || hi == |p|) && lo <= hi <= bound
    requires CommittedBelow(q, s, c, lo) && TileDone(p, q, lo, hi, before, added)
    ensures CommittedBelow(q, s, c + Raise(added, lo), bound)
  {
    var r := Raise(added, lo);
    TileAdditions(p, q, s, lo, hi, before, added);
    forall i, j | 0 <= i < |c| && 0 <= j < |r|
      ensures c[i] != r[j]
    {
    }
    DistinctAppend(c, r);
    forall k | 0 <= k < |c + r|
      ensures (c + r)[k] in s || ((c + r)[k] < bound && (c + r)[k] < |q| && q[(c + r)[k]])
    {
      if k >= |c| {
        assert (c + r)[k] == r[k - |c|];
      }
    }
    CommitCovers(p, q, s, c, lo, hi, bound, before, added);
    CommitKeepsOld(p, q, s, lo, hi, bound, before, added);
  }

  /** After committing the tile `[lo, hi)`, every index below `bound` flagged in `q` is committed. */
  lemma CommitCovers(p: seq<bool>, q: seq<bool>, s: seq<nat>, c: seq<nat>, lo: nat, hi: nat, bound: nat,
                     before: seq<nat>, added: seq<nat>)
    requires Consistent(p, s) && lo <= hi <= |p| == |q| && (hi == bound || hi == |p|) && lo <= hi <= bound
    requires CommittedBelow(q, s, c, lo) && TileDone(p, q, lo, hi, before, added)
    ensures forall x :: 0 <= x < |q| && x < bound && q[x] ==> x in c + Raise(added, lo)
  {
    forall x | 0 <= x < |q| && x < bound && q[x]
      ensures x in c + Raise(added, lo)
    {
      if x < lo {
        assert x in c;
      } else {
        FlaggedInTile(p, q, s, lo, hi, before, added, x);
        if x in s {
          assert x in c;
        }
      }
    }
  }

  /** An index of the tile `[lo, hi)` flagged after the episode was on the old stack or is one of the tile's additions. */
  lemma FlaggedInTile(p: seq<bool>, q: seq<bool>, s: seq<nat>, lo: nat, hi: nat,
                      before: seq<nat>, added: seq<nat>, x: nat)
    requires Consistent(p, s) && lo <= x < hi <= |p| == |q| && q[x]
    requires TileDone(p, q, lo, hi, before, added)
    ensures x in s || x in Raise(added, lo)
  {
    assert q[lo..hi][x - lo];
    assert x - lo in before + added;
    if x - lo in before {
      assert p[lo..hi][x - lo];
    } else {
      var j :| 0 <= j < |added| && added[j] == x - lo;
      assert Raise(added, lo)[j] == x;
    }
  }

  /** The old entries inside the tile `[lo, hi)` are still flagged after the episode. */
  lemma CommitKeepsOld(p: seq<bool>, q: seq<bool>, s: seq<nat>, lo: nat, hi: nat, bound: nat,
                       before: seq<nat>, added: seq<nat>)
    requires Consistent(p, s) && lo <= hi <= |p| == |q| && (hi == bound || hi == |p|) && lo <= hi <= bound
    requires TileDone(p, q, lo, hi, before, added)
    ensures forall x :: x in s && lo <= x < bound ==> q[x]
  {
    var local := before + added;
    forall x | x in s && lo <= x < bound
      ensures q[x]
    {
      assert p[lo..hi][x - lo];
      var i :| 0 <= i < |before| && before[i] == x - lo;
      assert local[i] == x - lo;
      assert q[lo..hi][x - lo];
    }
  }

  /** Committing the first `m` tiles covers everything below the `m`-th tile's lower bound. */
  lemma {:induction false} CommittedInvariant(p: seq<bool>, q: seq<bool>, s: seq<nat>, ts: nat,
                                              before: seq<seq<nat>>, added: seq<seq<nat>>, m: nat)
    requires Consistent(p, s) && EpisodeDone(p, q, ts, before, added) && m <= |added|
    ensures CommittedBelow(q, s, Committed(s, added, ts, m), Offset(m, ts))
  {
    if m == 0 {
    } else {
      var t := m - 1;
      CommittedInvariant(p, q, s, ts, before, added, t);
      CommitTileStep(p, q, s, Committed(s, added, ts, t), Offset(t, ts), TileHi(t, ts, |p|), Offset(m, ts),
                     before[t], added[t]);
    }
  }

  /**
   * The promise of the tile protocol: when every tile was seeded with its
   * present indices and its view kept its local stack consistent, the old
   * stack followed by all tiles' additions lists the flags set after the
   * episode exactly once each, and is as long as the old stack plus all
   * additions.
   */
  lemma EpisodeConsistent(p: seq<bool>, q: seq<bool>, s: seq<nat>, ts: nat,
                          before: seq<seq<nat>>, added: seq<seq<nat>>)
    requires Consistent(p, s) && EpisodeDone(p, q, ts, before, added)
    ensures Consistent(q, Committed(s, added, ts, |added|))
    ensures |Committed(s, added, ts, |added|)| == |s| + Sum(Lengths(added)) <= |q|
  {
    var c := Committed(s, added, ts, |added|);
    CommittedInvariant(p, q, s, ts, before, added, |added|);
    CommittedLength(s, added, ts, |added|);
    assert Lengths(added)[..|added|] == Lengths(added);
    ConsistentBound(q, c);
  }

  // ---------------------------------------------------------------------
  // What a tile view's assignments do
  // ---------------------------------------------------------------------

  /** The flags `p` after assigning the first `k` offsets of `us` in turn. */
  ghost function AfterAssigns(p: seq<bool>, us: seq<nat>, k: nat): (r: seq<bool>)
    requires k <= |us| && forall j :: 0 <= j < |us| ==> us[j] < |p|
    ensures |r| == |p|
  {
    if k == 0 then p else AfterAssigns(p, us, k - 1)[us[k - 1] := true]
  }

  /** The offsets among the first `k` of `us` that were not yet flagged when assigned, in assignment order. */
  ghost function NewlyAssigned(p: seq<bool>, us: seq<nat>, k: nat): seq<nat>
    requires k <= |us| && forall j :: 0 <= j < |us| ==> us[j] < |p|
  {
    if k == 0 then []
    else NewlyAssigned(p, us, k - 1) + (if AfterAssigns(p, us, k - 1)[us[k - 1]] then [] else [us[k - 1]])
  }

  /** `a` and `b` have the same length and agree outside `[lo, hi)`. */
  ghost predicate SameOutside<T>(a: seq<T>, b: seq<T>, lo: int, hi: int) {
    |a| == |b| && forall j :: 0 <= j < |a| && !(lo <= j < hi) ==> a[j] == b[j]
  }

  /** Writing inside `[lo, hi)` keeps agreement outside it. */
  lemma SameOutsideWrite<T>(a: seq<T>, b: seq<T>, lo: int, hi: int, x: int, v: T)
    requires SameOutside(a, b, lo, hi) && lo <= x < hi && 0 <= x < |a|
    ensures SameOutside(a[x := v], b, lo, hi)
  {
  }

  /**
   * The view `view`, which started with flags `p0`, stack `s0`, flag array
   * `a0`, stack memory `m0` and `n0` entries, has assigned the first `k`
   * offsets of `us`: it is valid, its flags and stack are those the
   * assignments give, and only its own flags and the stack slots above `n0`
   * differ from the start.
   */
  ghost predicate AssignedUpTo(view: Coordinates, us: seq<nat>, k: nat, p0: seq<bool>, s0: seq<nat>,
                               a0: seq<bool>, m0: seq<nat>, n0: nat)
    reads view, view.present, view.mem
  {
    var done :=
      view.Valid() && k <= |us| && |p0| == view.cap && n0 <= view.n
      && (forall j :: 0 <= j < |us| ==> us[j] < view.cap)
      && view.Presence() == AfterAssigns(p0, us, k)
      && view.Stack() == s0 + NewlyAssigned(p0, us, k)
      && SameOutside(view.present[..], a0, view.aLo, view.aLo + view.cap)
      && SameOutside(view.mem[..], m0, view.sLo + n0, view.sLo + view.cap);
    done
  }

  /**
   * A tile view assigns the offsets `us` in turn, as the pipeline's stages
   * do through `assign`. The view stays valid; its flags are those of
   * `AfterAssigns` and its stack gains the newly assigned offsets in order.
   * Only the flags of the view's range and the stack slots above its old
   * top change.
   */
  method ApplyAssigns(view: Coordinates, us: seq<nat>)
    requires view.Valid() && forall k :: 0 <= k < |us| ==> us[k] < view.cap
    modifies view`n, view.present, view.mem
    ensures AssignedUpTo(view, us, |us|, old(view.Presence()), old(view.Stack()),
                         old(view.present[..]), old(view.mem[..]), old(view.n))
  {
    ghost var p0, s0, a0, m0, n0 := view.Presence(), view.Stack(), view.present[..], view.mem[..], view.n;
    var k := 0;
    while k < |us|
      invariant k <= |us| && AssignedUpTo(view, us, k, p0, s0, a0, m0, n0)
    {
      AssignNext(view, us, k, p0, s0, a0, m0, n0);
      k := k + 1;
    }
  }

  /** The `k`-th assignment. */
  method AssignNext(view: Coordinates, us: seq<nat>, k: nat, ghost p0: seq<bool>, ghost s0: seq<nat>,
                    ghost a0: seq<bool>, ghost m0: seq<nat>, ghost n0: nat)
    requires AssignedUpTo(view, us, k, p0, s0, a0, m0, n0) && k < |us|
    modifies view`n, view.present, view.mem
    ensures AssignedUpTo(view, us, k + 1, p0, s0, a0, m0, n0)
  {
    ghost var p1, a1, m1 := view.Presence(), view.present[..], view.mem[..];
    var was := view.Assign(us[k]);
    AssignsStep(p0, us, k, p1, was);
    if !was {
      SameOutsideWrite(a1, a0, view.aLo, view.aLo + view.cap, view.aLo + us[k], true);
      SameOutsideWrite(m1, m0, view.sLo + n0, view.sLo + view.cap, view.sLo + view.n - 1, us[k]);
    }
    assert view.Presence() == AfterAssigns(p0, us, k + 1);
    assert view.Stack() == s0 + NewlyAssigned(p0, us, k + 1);
    assert view.Valid();
    assert |p0| == view.cap && n0 <= view.n;
    assert forall j :: 0 <= j < |us| ==> us[j] < view.cap;
    assert SameOutside(view.present[..], a0, view.aLo, view.aLo + view.cap);
    assert SameOutside(view.mem[..], m0, view.sLo + n0, view.sLo + view.cap);
  }

  /** One more assignment extends `AfterAssigns` and `NewlyAssigned` by the `k`-th offset. */
  lemma AssignsStep(p0: seq<bool>, us: seq<nat>, k: nat, p1: seq<bool>, was: bool)
    requires k < |us| && forall j :: 0 <= j < |us| ==> us[j] < |p0|
    requires p1 == AfterAssigns(p0, us, k) && was == p1[us[k]]
    ensures AfterAssigns(p0, us, k + 1) == p1[us[k] := true]
    ensures NewlyAssigned(p0, us, k + 1) == NewlyAssigned(p0, us, k) + if was then [] else [us[k]]
  {
  }

  // ---------------------------------------------------------------------
  // The scratch layout of the tiles
  // ---------------------------------------------------------------------

  /**
   * Where the tile protocol keeps its slots in the stack memory: the global
   * stack starts at `sLo` with room for `cap` entries; tile `t` of the `nt`
   * tiles of `ts` indices has its segment at `lb[t]`, a count slot followed
   * by `ts` local stack slots; the new-nonzero counters start at `cnt` and
   * the prefix sums at `ps`.
   */
  datatype Layout = Layout(sLo: nat, cap: nat, ts: nat, nt: nat, lb: seq<nat>, cnt: nat, ps: nat)

  /** The layout of `c`'s slots. */
  ghost function LayoutOf(c: Coordinates): Layout
    reads c`sLo, c`cap, c`tileSize, c`numTiles, c`localBuffer, c`localNewNnzs, c`prefSum
  {
    Layout(c.sLo, c.cap, c.tileSize, c.numTiles, c.localBuffer, c.localNewNnzs, c.prefSum)
  }

  /**
   * The layout `localCoordinatesInit` carves inside a memory of `len`
   * slots, with tiles that cover the capacity, the last one not empty, as
   * the pipeline's analytic model chooses them, and a capacity that fits
   * in `size_t`.
   */
  ghost predicate LayoutOk(L: Layout, len: nat) {
    && 0 < L.ts && 0 < L.nt && |L.lb| == L.nt
    && (forall t :: 0 <= t < L.nt ==> L.lb[t] == L.sLo + L.cap + Offset(t, L.ts + 1))
    && L.cnt == L.sLo + L.cap + Offset(L.nt, L.ts + 1)
    && L.ps == L.cnt + L.nt && L.ps + L.nt <= len
    && 0 < L.cap < SizeRange
    && Offset(L.nt - 1, L.ts) < L.cap <= Offset(L.nt, L.ts)
  }

  /** `c` is carved into tiles that cover its capacity. */
  ghost predicate Tiled(c: Coordinates)
    reads c
  {
    c.TilesReady() && LayoutOk(LayoutOf(c), c.mem.Length)
  }

  /** The lower bound of tile `t`. */
  function Lo(L: Layout, t: nat): nat {
    Offset(t, L.ts)
  }

  /** The upper bound of tile `t`. */
  function Hi(L: Layout, t: nat): nat {
    TileHi(t, L.ts, L.cap)
  }

  /** Tile `t` runs from `Lo` to `Hi`, inside the capacity, holds at most `ts` indices, and `TileOf` finds it. */
  lemma TileBounds(L: Layout, len: nat, t: nat)
    requires LayoutOk(L, len) && t < L.nt
    ensures Lo(L, t) <= Hi(L, t) <= L.cap && Hi(L, t) - Lo(L, t) <= L.ts
    ensures Lo(L, t) / L.ts == t
  {
    if t < L.nt - 1 {
      OffsetStrictMono(t, L.nt - 1, L.ts);
    }
    TileOfOffset(t, L.ts);
  }

  /** The tile of the `t`-th lower bound is `t`. */
  lemma TileOfOffset(t: nat, ts: nat)
    requires 0 < ts
    ensures Offset(t, ts) / ts == t
  {
    OffsetIsProduct(t, ts);
    MixedRadix.DivModUnique(Offset(t, ts), ts, t, 0);
  }

  /** An earlier tile ends where a later one starts, or before. */
  lemma TilesOrdered(L: Layout, u: nat, t: nat)
    requires u < t
    ensures Hi(L, u) <= Lo(L, t)
  {
    OffsetStrictMono(u, t, L.ts);
  }

  /** Tile `t`'s segment lies after the stack region and before the counters, which the prefix sums follow. */
  lemma SegmentPlaced(L: Layout, len: nat, t: nat)
    requires LayoutOk(L, len) && t < L.nt
    ensures L.sLo + L.cap <= L.lb[t] && L.lb[t] + L.ts + 1 <= L.cnt
  {
    OffsetStrictMono(t, L.nt, L.ts + 1);
  }

  /** Segments follow one another in tile order without overlapping. */
  lemma SegmentsApart(L: Layout, len: nat, t: nat, u: nat)
    requires LayoutOk(L, len) && t < u < L.nt
    ensures L.lb[t] + L.ts + 1 <= L.lb[u]
  {
    OffsetStrictMono(t, u, L.ts + 1);
  }

  // ---------------------------------------------------------------------
  // What a tile holds
  // ---------------------------------------------------------------------

  /** In memory `m`, tile `t`'s count slot holds the length of `before`, its local stack starts with `before`, and its counter is 0. */
  ghost predicate Seeded(L: Layout, m: seq<nat>, t: nat, before: seq<nat>) {
    && t < |L.lb| && L.lb[t] + 1 + |before| <= |m| && L.cnt + t < |m|
    && m[L.lb[t]] == |before|
    && m[L.lb[t] + 1..L.lb[t] + 1 + |before|] == before
    && m[L.cnt + t] == 0
  }

  /**
   * In memory `m`, tile `t`'s count slot holds the length of `before`, its
   * local stack starts with `before + added`, and its counter holds the
   * length of `added`.
   */
  ghost predicate Gathered(L: Layout, m: seq<nat>, t: nat, before: seq<nat>, added: seq<nat>) {
    && t < |L.lb| && L.lb[t] + 1 + |before| + |added| <= |m| && L.cnt + t < |m|
    && m[L.lb[t]] == |before|
    && m[L.lb[t] + 1..L.lb[t] + 1 + |before| + |added|] == before + added
    && m[L.cnt + t] == |added|
  }

  /** Memories `m0` and `m1` agree on tile `t`'s segment and counter. */
  ghost predicate SlotsAgree(L: Layout, m0: seq<nat>, m1: seq<nat>, t: nat) {
    && t < |L.lb| && |m0| == |m1| && L.lb[t] + L.ts + 1 <= |m0| && L.cnt + t < |m0|
    && (forall j :: L.lb[t] <= j < L.lb[t] + L.ts + 1 ==> m0[j] == m1[j])
    && m0[L.cnt + t] == m1[L.cnt + t]
  }

  /** What tile `t` holds is read off its segment and counter alone. */
  lemma SlotsAgreeKeep(L: Layout, m0: seq<nat>, m1: seq<nat>, t: nat, before: seq<nat>, added: seq<nat>)
    requires SlotsAgree(L, m0, m1, t) && |before| + |added| <= L.ts
    ensures Seeded(L, m0, t, before) ==> Seeded(L, m1, t, before)
    ensures Gathered(L, m0, t, before, added) ==> Gathered(L, m1, t, before, added)
  {
    var lb := L.lb[t];
    assert m0[lb + 1..lb + 1 + |before|] == m1[lb + 1..lb + 1 + |before|];
    assert m0[lb + 1..lb + 1 + |before| + |added|] == m1[lb + 1..lb + 1 + |before| + |added|];
  }

  /** Memory `m1` differs from `m0` at most in tile `t`'s segment and counter. */
  ghost predicate OnlyTileChanged(L: Layout, m0: seq<nat>, m1: seq<nat>, t: nat) {
    && t < |L.lb| && |m0| == |m1|
    && forall j :: 0 <= j < |m0| && !(L.lb[t] <= j < L.lb[t] + L.ts + 1) && j != L.cnt + t ==> m1[j] == m0[j]
  }

  /** A change only in tile `t`'s slots leaves another tile's slots alone. */
  lemma OtherSlotsAgree(L: Layout, m0: seq<nat>, m1: seq<nat>, t: nat, u: nat)
    requires LayoutOk(L, |m0|) && t < L.nt && u < L.nt && u != t && OnlyTileChanged(L, m0, m1, t)
    ensures SlotsAgree(L, m0, m1, u)
  {
    SegmentPlaced(L, |m0|, u);
    SegmentPlaced(L, |m0|, t);
    if u < t {
      SegmentsApart(L, |m0|, u, t);
    } else {
      SegmentsApart(L, |m0|, t, u);
    }
  }

  /** A change only in tile `t`'s slots leaves the stack region and the prefix sums alone. */
  lemma OutsideSegmentsKept(L: Layout, m0: seq<nat>, m1: seq<nat>, t: nat)
    requires LayoutOk(L, |m0|) && t < L.nt && OnlyTileChanged(L, m0, m1, t)
    ensures m1[..L.sLo + L.cap] == m0[..L.sLo + L.cap]
    ensures m1[L.ps..L.ps + L.nt] == m0[L.ps..L.ps + L.nt]
  {
    SegmentPlaced(L, |m0|, t);
  }

  /**
   * In memory `m`, tile `t` is seeded with `before`: the offsets, once
   * each, of the tile's indices flagged in `p`.
   */
  ghost predicate SeededTile(L: Layout, m: seq<nat>, p: seq<bool>, t: nat, before: seq<nat>) {
    && Lo(L, t) <= Hi(L, t) <= |p| && Seeded(L, m, t, before) && |before| <= Hi(L, t) - Lo(L, t)
    && Consistent(p[Lo(L, t)..Hi(L, t)], before)
  }

  // ---------------------------------------------------------------------
  // Seeding: asyncSubsetInit on every tile
  // ---------------------------------------------------------------------

  /**
   * In memory `m`, the stack region is still `low` and the first
   * `|before|` tiles are seeded with `before`, from the flags `p`.
   */
  ghost predicate SeedLoop(L: Layout, m: seq<nat>, p: seq<bool>, low: seq<nat>, before: seq<seq<nat>>) {
    && L.sLo + L.cap <= |m| && m[..L.sLo + L.cap] == low
    && forall u :: 0 <= u < |before| ==> SeededTile(L, m, p, u, before[u])
  }

  /**
   * `asyncSubsetInit` on every tile, in tile order. The structure stays
   * valid and its stack region is untouched; every tile is seeded with the
   * offsets of its present indices, once each.
   */
  method SeedTiles(c: Coordinates) returns (ghost before: seq<seq<nat>>)
    requires c.Valid() && Tiled(c)
    modifies c.mem
    ensures c.Valid() && c.Presence() == old(c.Presence()) && |before| == c.numTiles
    ensures SeedLoop(LayoutOf(c), c.mem[..], c.Presence(), old(c.mem[..])[..c.sLo + c.cap], before)
  {
    ghost var p0, low := c.Presence(), c.mem[..][..c.sLo + c.cap];
    before := [];
    for t := 0 to c.numTiles
      invariant c.Valid() && |before| == t && c.Presence() == p0
      invariant SeedLoop(LayoutOf(c), c.mem[..], p0, low, before)
    {
      ghost var m0 := c.mem[..];
      ghost var list := SeedTile(c, t, LayoutOf(c), p0);
      SeedLoopStep(LayoutOf(c), m0, c.mem[..], p0, low, before, list);
      before := before + [list];
    }
  }

  /** `asyncSubsetInit` on tile `t`: it is seeded, and only its segment and counter change. */
  method SeedTile(c: Coordinates, t: nat, ghost L: Layout, ghost p0: seq<bool>) returns (ghost list: seq<nat>)
    requires c.Valid() && Tiled(c) && L == LayoutOf(c) && t < L.nt && p0 == c.Presence()
    modifies c.mem
    ensures c.Valid() && c.Presence() == p0
    ensures SeededTile(L, c.mem[..], p0, t, list)
    ensures OnlyTileChanged(L, old(c.mem[..]), c.mem[..], t)
  {
    ghost var s0, m0 := c.Stack(), c.mem[..];
    var lo, hi := Offset(t, c.tileSize), TileHi(t, c.tileSize, c.cap);
    TileBounds(L, c.mem.Length, t);
    assert c.TileOf(lo) == t;
    list := SeedAt(c, t, lo, hi, L);
    SeedStep(L, m0, c.mem[..], p0, s0, t, list);
  }

  /** `asyncSubsetInit` on tile `t`, from `lo` to `hi`, stated in the terms of the layout. */
  method SeedAt(c: Coordinates, t: nat, lo: nat, hi: nat, ghost L: Layout) returns (ghost list: seq<nat>)
    requires c.Valid() && c.TilesReady() && 0 < c.cap && L == LayoutOf(c)
    requires t < c.numTiles && lo <= hi <= c.cap && hi - lo <= c.tileSize && c.TileOf(lo) == t
    modifies c.mem
    ensures c.Valid() && c.Presence() == old(c.Presence())
    ensures list == TileList(old(c.Presence()), old(c.Stack()), lo, hi, hi - lo < |old(c.Stack())|)
    ensures |list| <= hi - lo
    ensures c.mem[..] == Splice(old(c.mem[..]), L.lb[t], [|list|] + list)[L.cnt + t := 0]
  {
    list := TileList(c.Presence(), c.Stack(), lo, hi, hi - lo < c.n);
    c.AsyncSubsetInit(lo, hi);
  }

  /**
   * What one `asyncSubsetInit` does to memory `m0`, read off the result
   * `m1`: tile `t` is seeded with `list`, and nothing else changes.
   */
  lemma SeedStep(L: Layout, m0: seq<nat>, m1: seq<nat>, p: seq<bool>, s: seq<nat>, t: nat, list: seq<nat>)
    requires LayoutOk(L, |m0|) && t < L.nt && Consistent(p, s) && |p| == L.cap
    requires Lo(L, t) <= Hi(L, t) <= L.cap && Hi(L, t) - Lo(L, t) <= L.ts && L.lb[t] + L.ts + 1 <= |m0|
    requires list == TileList(p, s, Lo(L, t), Hi(L, t), Hi(L, t) - Lo(L, t) < |s|)
    requires |list| <= Hi(L, t) - Lo(L, t)
    requires m1 == Splice(m0, L.lb[t], [|list|] + list)[L.cnt + t := 0]
    ensures SeededTile(L, m1, p, t, list)
    ensures OnlyTileChanged(L, m0, m1, t)
  {
    TileBounds(L, |m0|, t);
    SegmentPlaced(L, |m0|, t);
    SeedStepMemory(m0, m1, L.lb[t], L.cnt + t, list);
    TileListConsistent(p, s, Lo(L, t), Hi(L, t), Hi(L, t) - Lo(L, t) < |s|, list);
  }

  /** Splicing a counted list at `at` and clearing the counter at `k` beyond it. */
  lemma SeedStepMemory(m0: seq<nat>, m1: seq<nat>, at: nat, k: nat, list: seq<nat>)
    requires at + 1 + |list| <= k < |m0|
    requires m1 == Splice(m0, at, [|list|] + list)[k := 0]
    ensures |m1| == |m0| && m1[at] == |list| && m1[at + 1..at + 1 + |list|] == list && m1[k] == 0
    ensures forall j :: 0 <= j < |m0| && !(at <= j < at + 1 + |list|) && j != k ==> m1[j] == m0[j]
  {
    SpliceFacts(m0, at, [|list|] + list);
    assert m1[at..at + 1 + |list|] == [|list|] + list;
    assert m1[at + 1..at + 1 + |list|] == ([|list|] + list)[1..];
  }

  /** Seeding tile `|before|` extends the seeded tiles by one. */
  lemma SeedLoopStep(L: Layout, m0: seq<nat>, m1: seq<nat>, p: seq<bool>, low: seq<nat>,
                     before: seq<seq<nat>>, list: seq<nat>)
    requires LayoutOk(L, |m0|) && |before| < L.nt
    requires SeedLoop(L, m0, p, low, before)
    requires OnlyTileChanged(L, m0, m1, |before|) && SeededTile(L, m1, p, |before|, list)
    ensures SeedLoop(L, m1, p, low, before + [list])
  {
    var t := |before|;
    OutsideSegmentsKept(L, m0, m1, t);
    forall u | 0 <= u < t + 1
      ensures SeededTile(L, m1, p, u, (before + [list])[u])
    {
      if u < t {
        assert (before + [list])[u] == before[u];
        OtherSlotsAgree(L, m0, m1, t, u);
        TileBounds(L, |m0|, u);
        SlotsAgreeKeep(L, m0, m1, u, before[u], []);
      }
    }
  }

  // ---------------------------------------------------------------------
  // Gathering: every tile's view assigns and records its additions
  // ---------------------------------------------------------------------

  /** `SameOutside` on an array seen from `aLo` on, for `cap` entries. */
  lemma SameOutsideSlice(a1: seq<bool>, a0: seq<bool>, aLo: nat, cap: nat, lo: nat, hi: nat)
    requires SameOutside(a1, a0, aLo + lo, aLo + hi) && aLo + cap <= |a1|
    ensures SameOutside(a1[aLo..aLo + cap], a0[aLo..aLo + cap], lo, hi)
  {
  }

  /**
   * The memory effect of tile `t`'s view and `asyncJoinSubset`: from `m0`
   * the view's stack grew from `before` to `before + added` inside the
   * tile's `len` local slots (giving `m2`), then the counter was set to the
   * number of additions (giving `m3`).
   */
  lemma GatherMemory(L: Layout, m0: seq<nat>, m2: seq<nat>, m3: seq<nat>, t: nat, len: nat,
                     before: seq<nat>, added: seq<nat>)
    requires t < |L.lb| && L.lb[t] + L.ts + 1 <= L.cnt && |before| + |added| <= len <= L.ts
    requires Seeded(L, m0, t, before)
    requires SameOutside(m2, m0, L.lb[t] + 1 + |before|, L.lb[t] + 1 + len)
    requires L.lb[t] + 1 + |before| + |added| <= |m2|
    requires m2[L.lb[t] + 1..L.lb[t] + 1 + |before| + |added|] == before + added
    requires m3 == m2[L.cnt + t := |added|]
    ensures Gathered(L, m3, t, before, added)
    ensures OnlyTileChanged(L, m0, m3, t)
  {
  }

  /**
   * The view of tile `t` (`asyncSubset`), the assignments `us` through it,
   * and `asyncJoinSubset`. The tile's flags are those the assignments
   * give; its local stack gains the newly assigned offsets and its counter
   * their number; nothing outside the tile's flags and slots changes.
   */
  method GatherTile(c: Coordinates, t: nat, lo: nat, hi: nat, us: seq<nat>, ghost before: seq<nat>)
    returns (ghost added: seq<nat>)
    requires Tiled(c) && t < c.numTiles && lo == Lo(LayoutOf(c), t) && hi == Hi(LayoutOf(c), t)
    requires Seeded(LayoutOf(c), c.mem[..], t, before) && |before| <= hi - lo <= c.cap
    requires Consistent(c.Presence()[lo..hi], before)
    requires forall k :: 0 <= k < |us| ==> us[k] < hi - lo
    modifies c.present, c.mem
    ensures Gathered(LayoutOf(c), c.mem[..], t, before, added)
    ensures OnlyTileChanged(LayoutOf(c), old(c.mem[..]), c.mem[..], t)
    ensures lo <= hi <= c.cap
    ensures SameOutside(c.Presence(), old(c.Presence()), lo, hi)
    ensures c.Presence()[lo..hi] == AfterAssigns(old(c.Presence())[lo..hi], us, |us|)
    ensures added == NewlyAssigned(old(c.Presence())[lo..hi], us, |us|)
    ensures Consistent(c.Presence()[lo..hi], before + added)
  {
    TileBounds(LayoutOf(c), c.mem.Length, t);
    added := GatherView(c, t, lo, hi, us, before);
  }

  /** `GatherTile` once the tile's bounds are known to fit the structure. */
  method GatherView(c: Coordinates, t: nat, lo: nat, hi: nat, us: seq<nat>, ghost before: seq<nat>)
    returns (ghost added: seq<nat>)
    requires c.TilesReady() && 0 < c.cap < SizeRange && t < c.numTiles
    requires lo <= hi <= c.cap && hi - lo <= c.tileSize && lo / c.tileSize == t
    requires Seeded(LayoutOf(c), c.mem[..], t, before) && |before| <= hi - lo
    requires Consistent(c.Presence()[lo..hi], before)
    requires forall k :: 0 <= k < |us| ==> us[k] < hi - lo
    modifies c.present, c.mem
    ensures Gathered(LayoutOf(c), c.mem[..], t, before, added)
    ensures OnlyTileChanged(LayoutOf(c), old(c.mem[..]), c.mem[..], t)
    ensures SameOutside(c.Presence(), old(c.Presence()), lo, hi)
    ensures c.Presence()[lo..hi] == AfterAssigns(old(c.Presence())[lo..hi], us, |us|)
    ensures added == NewlyAssigned(old(c.Presence())[lo..hi], us, |us|)
    ensures Consistent(c.Presence()[lo..hi], before + added)
  {
    ghost var m0 := c.mem[..];
    var view;
    view, added := AssignView(c, t, lo, hi, us, before);
    CloseView(c, view, t, lo, hi, before, added, m0);
  }

  /**
   * `asyncSubset` on tile `t` and the assignments `us` through the view:
   * the view's stack, in the tile's slots, gained the newly assigned
   * offsets, and the flags changed only inside the tile, as the
   * assignments say.
   */
  method AssignView(c: Coordinates, t: nat, lo: nat, hi: nat, us: seq<nat>, ghost before: seq<nat>)
    returns (view: Coordinates, ghost added: seq<nat>)
    requires c.TilesReady() && 0 < c.cap < SizeRange && t < c.numTiles
    requires lo <= hi <= c.cap && hi - lo <= c.tileSize && lo / c.tileSize == t
    requires Seeded(LayoutOf(c), c.mem[..], t, before) && |before| <= hi - lo
    requires Consistent(c.Presence()[lo..hi], before)
    requires forall k :: 0 <= k < |us| ==> us[k] < hi - lo
    modifies c.present, c.mem
    ensures view.mem == c.mem && view.n == |before| + |added| <= hi - lo && view.cap == hi - lo
    ensures c.localBuffer[t] + 1 + view.n <= c.mem.Length
    ensures c.mem[..][c.localBuffer[t] + 1..c.localBuffer[t] + 1 + view.n] == before + added
    ensures SameOutside(c.mem[..], old(c.mem[..]), c.localBuffer[t] + 1 + |before|, c.localBuffer[t] + 1 + view.cap)
    ensures SameOutside(c.Presence(), old(c.Presence()), lo, hi)
    ensures c.Presence()[lo..hi] == AfterAssigns(old(c.Presence())[lo..hi], us, |us|)
    ensures added == NewlyAssigned(old(c.Presence())[lo..hi], us, |us|)
    ensures Consistent(c.Presence()[lo..hi], before + added)
  {
    ghost var p0 := c.Presence();
    ghost var pv, a0, m0;
    view, pv, a0, m0 := OpenAssign(c, t, lo, hi, us, before);
    assert p0 == a0[c.aLo..c.aLo + c.cap];
    added := NewlyAssigned(pv, us, |us|);
    ViewEffect(c, view, t, lo, hi, us, before, added, p0, pv, a0, m0);
  }

  /** What the assignments through tile `t`'s view did to the structure's flags and to the tile's slots. */
  lemma ViewEffect(c: Coordinates, view: Coordinates, t: nat, lo: nat, hi: nat, us: seq<nat>, before: seq<nat>,
                   added: seq<nat>, p0: seq<bool>, pv: seq<bool>, a0: seq<bool>, m0: seq<nat>)
    requires c.TilesReady() && t < c.numTiles && lo <= hi <= c.cap && hi - lo <= c.tileSize && c.TileOf(lo) == t
    requires |a0| == c.present.Length && p0 == a0[c.aLo..c.aLo + c.cap] && pv == p0[lo..hi]
    requires view.present == c.present && view.aLo == c.aLo + lo && view.cap == hi - lo
    requires view.mem == c.mem && view.sLo == c.localBuffer[t] + 1
    requires AssignedUpTo(view, us, |us|, pv, before, a0, m0, |before|) && added == NewlyAssigned(pv, us, |us|)
    ensures view.n == |before| + |added| <= hi - lo
    ensures c.localBuffer[t] + 1 + view.n <= c.mem.Length
    ensures c.mem[..][c.localBuffer[t] + 1..c.localBuffer[t] + 1 + view.n] == before + added
    ensures SameOutside(c.mem[..], m0, c.localBuffer[t] + 1 + |before|, c.localBuffer[t] + 1 + view.cap)
    ensures SameOutside(c.Presence(), p0, lo, hi)
    ensures c.Presence()[lo..hi] == AfterAssigns(pv, us, |us|)
    ensures Consistent(c.Presence()[lo..hi], before + added)
  {
    ViewFlags(c, view, t, lo, hi, us, before, p0, pv, a0, m0);
    ViewFlagsOutside(c, view, lo, hi, p0, a0);
    ViewSlots(c, view, t, lo, hi, us, before, pv, a0, m0);
  }

  /**
   * `asyncSubset` on tile `t` and the assignments `us` through the view,
   * which started with the flags `pv`, when the flag array was `a0` and
   * the memory `m0`.
   */
  method OpenAssign(c: Coordinates, t: nat, lo: nat, hi: nat, us: seq<nat>, ghost before: seq<nat>)
    returns (view: Coordinates, ghost pv: seq<bool>, ghost a0: seq<bool>, ghost m0: seq<nat>)
    requires c.TilesReady() && 0 < c.cap && t < c.numTiles && lo <= hi <= c.cap && hi - lo <= c.tileSize && c.TileOf(lo) == t
    requires Seeded(LayoutOf(c), c.mem[..], t, before) && |before| <= hi - lo
    requires Consistent(c.Presence()[lo..hi], before)
    requires forall k :: 0 <= k < |us| ==> us[k] < hi - lo
    modifies c.present, c.mem
    ensures view.present == c.present && view.aLo == c.aLo + lo && view.cap == hi - lo
    ensures view.mem == c.mem && view.sLo == c.localBuffer[t] + 1
    ensures a0 == old(c.present[..]) && m0 == old(c.mem[..]) && pv == old(c.Presence())[lo..hi]
    ensures AssignedUpTo(view, us, |us|, pv, before, a0, m0, |before|)
  {
    view := OpenView(c, t, lo, hi, before);
    assert view != c;
    pv, a0, m0 := view.Presence(), c.present[..], c.mem[..];
    ApplyAssigns(view, us);
  }

  /** `asyncSubset` on tile `t`: a valid view of the tile's flags whose stack is the tile's seed. */
  method OpenView(c: Coordinates, t: nat, lo: nat, hi: nat, ghost before: seq<nat>) returns (view: Coordinates)
    requires c.TilesReady() && 0 < c.cap && t < c.numTiles && lo <= hi <= c.cap && hi - lo <= c.tileSize && c.TileOf(lo) == t
    requires Seeded(LayoutOf(c), c.mem[..], t, before) && |before| <= hi - lo
    requires Consistent(c.Presence()[lo..hi], before)
    ensures fresh(view) && view.Valid() && view.n == |before|
    ensures view.present == c.present && view.aLo == c.aLo + lo && view.cap == hi - lo
    ensures view.mem == c.mem && view.sLo == c.localBuffer[t] + 1
    ensures view.Presence() == c.Presence()[lo..hi] && view.Stack() == before
  {
    view := c.AsyncSubset(lo, hi);
    SeededView(c, view, t, lo, hi, before);
  }

  /** A view of a seeded tile whose count is the seed's length sees the seed as its stack. */
  lemma SeededView(c: Coordinates, view: Coordinates, t: nat, lo: nat, hi: nat, before: seq<nat>)
    requires c.TilesReady() && t < c.numTiles && lo <= hi <= c.cap && hi - lo <= c.tileSize && c.TileOf(lo) == t
    requires Seeded(LayoutOf(c), c.mem[..], t, before) && |before| <= hi - lo
    requires Consistent(c.Presence()[lo..hi], before)
    requires view.present == c.present && view.aLo == c.aLo + lo && view.cap == hi - lo
    requires view.mem == c.mem && view.sLo == c.localBuffer[t] + 1 && view.n == |before|
    ensures view.Valid() && view.Presence() == c.Presence()[lo..hi] && view.Stack() == before
  {
    c.ViewSees(view, lo, hi);
    SeededLocal(c, t, before);
  }

  /** The local stack of a seeded tile holds the seed. */
  lemma SeededLocal(c: Coordinates, t: nat, before: seq<nat>)
    requires c.TilesReady() && t < c.numTiles && |before| <= c.tileSize
    requires Seeded(LayoutOf(c), c.mem[..], t, before)
    ensures c.LocalStack(t, |before|) == before
  {
    assert c.LocalStack(t, |before|) == c.mem[..][c.localBuffer[t] + 1..c.localBuffer[t] + 1 + |before|];
  }

  /**
   * What tile `t`'s view, which started with flags `pv` (the slice of
   * `p0`, itself the slice of flag array `a0`) and memory `m0`, leaves
   * behind in the flags once it assigned `us`, in the structure's own terms.
   */
  lemma ViewFlags(c: Coordinates, view: Coordinates, t: nat, lo: nat, hi: nat, us: seq<nat>, before: seq<nat>,
                  p0: seq<bool>, pv: seq<bool>, a0: seq<bool>, m0: seq<nat>)
    requires c.TilesReady() && t < c.numTiles && lo <= hi <= c.cap && hi - lo <= c.tileSize && c.TileOf(lo) == t
    requires |a0| == c.present.Length && p0 == a0[c.aLo..c.aLo + c.cap] && pv == p0[lo..hi]
    requires view.present == c.present && view.aLo == c.aLo + lo && view.cap == hi - lo
    requires view.mem == c.mem && view.sLo == c.localBuffer[t] + 1
    requires AssignedUpTo(view, us, |us|, pv, before, a0, m0, |before|)
    ensures view.n == |before| + |NewlyAssigned(pv, us, |us|)| <= hi - lo
    ensures c.Presence()[lo..hi] == AfterAssigns(pv, us, |us|)
    ensures Consistent(c.Presence()[lo..hi], before + NewlyAssigned(pv, us, |us|))
  {
    c.ViewSees(view, lo, hi);
    assert |view.Stack()| == view.n;
  }

  /** The same view left the structure's flags outside the tile alone. */
  lemma ViewFlagsOutside(c: Coordinates, view: Coordinates, lo: nat, hi: nat, p0: seq<bool>, a0: seq<bool>)
    requires c.Bounds() && lo <= hi <= c.cap
    requires |a0| == c.present.Length && p0 == a0[c.aLo..c.aLo + c.cap]
    requires view.present == c.present && view.aLo == c.aLo + lo && view.cap == hi - lo
    requires SameOutside(view.present[..], a0, view.aLo, view.aLo + view.cap)
    ensures SameOutside(c.Presence(), p0, lo, hi)
  {
    assert c.Presence() == c.present[..][c.aLo..c.aLo + c.cap];
    FlagsOutside(view.present[..], a0, view.aLo, view.cap, c.aLo, c.cap, lo, hi);
  }

  /** The same view's effect on the tile's local stack, in the structure's own terms. */
  lemma ViewSlots(c: Coordinates, view: Coordinates, t: nat, lo: nat, hi: nat, us: seq<nat>, before: seq<nat>,
                  pv: seq<bool>, a0: seq<bool>, m0: seq<nat>)
    requires c.TilesReady() && t < c.numTiles && lo <= hi <= c.cap && hi - lo <= c.tileSize && c.TileOf(lo) == t
    requires view.present == c.present && view.aLo == c.aLo + lo && view.cap == hi - lo
    requires view.mem == c.mem && view.sLo == c.localBuffer[t] + 1
    requires AssignedUpTo(view, us, |us|, pv, before, a0, m0, |before|)
    ensures c.localBuffer[t] + 1 + view.n <= c.mem.Length
    ensures c.mem[..][c.localBuffer[t] + 1..c.localBuffer[t] + 1 + view.n] == before + NewlyAssigned(pv, us, |us|)
    ensures SameOutside(c.mem[..], m0, c.localBuffer[t] + 1 + |before|, c.localBuffer[t] + 1 + view.cap)
  {
    c.ViewSees(view, lo, hi);
  }

  /** A view's flags, which start at `vLo`, changed only inside the view: the structure's flags changed only inside the tile. */
  lemma FlagsOutside(a1: seq<bool>, a0: seq<bool>, vLo: nat, vCap: nat, aLo: nat, cap: nat, lo: nat, hi: nat)
    requires SameOutside(a1, a0, vLo, vLo + vCap) && vLo == aLo + lo && vCap == hi - lo
    requires lo <= hi <= cap && aLo + cap <= |a1|
    ensures SameOutside(a1[aLo..aLo + cap], a0[aLo..aLo + cap], lo, hi)
  {
    SameOutsideSlice(a1, a0, aLo, cap, lo, hi);
  }

  /**
   * `asyncJoinSubset` on tile `t`, whose view grew the local stack from
   * `before` to `before + added` in memory that was `m0` before the view:
   * the tile is gathered, only its slots changed, and the flags are left
   * alone.
   */
  method CloseView(c: Coordinates, view: Coordinates, t: nat, lo: nat, hi: nat, ghost before: seq<nat>,
                   ghost added: seq<nat>, ghost m0: seq<nat>)
    requires c.TilesReady() && 0 < c.cap < SizeRange && t < c.numTiles && c.TileOf(lo) == t
    requires |before| + |added| <= hi - lo <= c.tileSize && hi <= c.cap
    requires Seeded(LayoutOf(c), m0, t, before)
    requires view.mem == c.mem && view.n == |before| + |added| && view.cap == hi - lo
    requires c.localBuffer[t] + 1 + view.n <= c.mem.Length
    requires c.mem[..][c.localBuffer[t] + 1..c.localBuffer[t] + 1 + view.n] == before + added
    requires SameOutside(c.mem[..], m0, c.localBuffer[t] + 1 + |before|, c.localBuffer[t] + 1 + view.cap)
    modifies c.mem
    ensures Gathered(LayoutOf(c), c.mem[..], t, before, added)
    ensures OnlyTileChanged(LayoutOf(c), m0, c.mem[..], t)
    ensures c.Presence() == old(c.Presence())
  {
    ghost var m2 := c.mem[..];
    assert c.localBuffer[t] + c.tileSize + 1 <= c.localNewNnzs;
    c.AsyncJoinSubset(view, lo, hi);
    GatherMemory(LayoutOf(c), m0, m2, c.mem[..], t, view.cap, before, added);
  }

  /** Every tile's assignments are offsets inside the tile. */
  ghost predicate UpdatesFit(L: Layout, updates: seq<seq<nat>>) {
    && |updates| == L.nt
    && forall u, k :: 0 <= u < |updates| && 0 <= k < |updates[u]| ==> updates[u][k] < Hi(L, u) - Lo(L, u)
  }

  /**
   * Tile `u` went through its view with the assignments `us`: in memory
   * `m` it is gathered with `before` and `added`; from the flags `p0` the
   * tile's flags in `q` are those the assignments give; `added` are the
   * offsets the assignments newly set, in order; and the tile is done.
   */
  ghost predicate TileGathered(L: Layout, m: seq<nat>, p0: seq<bool>, q: seq<bool>, u: nat,
                               before: seq<nat>, added: seq<nat>, us: seq<nat>) {
    && Lo(L, u) <= Hi(L, u) <= |p0| == |q|
    && (forall k :: 0 <= k < |us| ==> us[k] < Hi(L, u) - Lo(L, u))
    && Gathered(L, m, u, before, added) && |before| + |added| <= L.ts
    && TileDone(p0, q, Lo(L, u), Hi(L, u), before, added)
    && q[Lo(L, u)..Hi(L, u)] == AfterAssigns(p0[Lo(L, u)..Hi(L, u)], us, |us|)
    && added == NewlyAssigned(p0[Lo(L, u)..Hi(L, u)], us, |us|)
  }

  /**
   * The first `|added|` tiles are gathered, from the flags `p0` before the
   * views to the flags `q`; the others are still seeded and their flags
   * untouched; and the stack region of memory `m` is still `low`.
   */
  ghost predicate GatherLoop(L: Layout, m: seq<nat>, p0: seq<bool>, q: seq<bool>, low: seq<nat>,
                             before: seq<seq<nat>>, added: seq<seq<nat>>, updates: seq<seq<nat>>) {
    && |p0| == |q| == L.cap && L.sLo + L.cap <= |m| && m[..L.sLo + L.cap] == low
    && |added| <= |before| == L.nt && UpdatesFit(L, updates)
    && (forall u :: 0 <= u < |added| ==> TileGathered(L, m, p0, q, u, before[u], added[u], updates[u]))
    && (forall u :: |added| <= u < |before| ==> SeededTile(L, m, p0, u, before[u]))
    && (forall j :: Lo(L, |added|) <= j < |q| ==> q[j] == p0[j])
  }

  /**
   * The views of every tile, in tile order: tile `t` assigns
   * `updates[t]`. Afterwards every tile is gathered, and the stack region
   * of memory is untouched.
   */
  method GatherTiles(c: Coordinates, updates: seq<seq<nat>>, ghost before: seq<seq<nat>>, ghost low: seq<nat>)
    returns (ghost added: seq<seq<nat>>)
    requires Tiled(c) && UpdatesFit(LayoutOf(c), updates) && |before| == c.numTiles
    requires SeedLoop(LayoutOf(c), c.mem[..], c.Presence(), low, before)
    modifies c.present, c.mem
    ensures |added| == c.numTiles
    ensures GatherLoop(LayoutOf(c), c.mem[..], old(c.Presence()), c.Presence(), low, before, added, updates)
  {
    ghost var p0 := c.Presence();
    GatherLoopStart(LayoutOf(c), c.mem[..], p0, low, before, updates);
    added := [];
    for t := 0 to c.numTiles
      invariant Tiled(c) && |added| == t
      invariant GatherLoop(LayoutOf(c), c.mem[..], p0, c.Presence(), low, before, added, updates)
    {
      var lo, hi := Offset(t, c.tileSize), TileHi(t, c.tileSize, c.cap);
      ghost var m0, q0 := c.mem[..], c.Presence();
      GatherLoopNext(LayoutOf(c), m0, p0, q0, low, before, added, updates);
      ghost var a := GatherTile(c, t, lo, hi, updates[t], before[t]);
      GatherLoopStep(LayoutOf(c), m0, c.mem[..], p0, q0, c.Presence(), low, before, added, a, updates);
      added := added + [a];
    }
  }

  /** Before the views, every tile is seeded and no flag has changed. */
  lemma GatherLoopStart(L: Layout, m: seq<nat>, p: seq<bool>, low: seq<nat>, before: seq<seq<nat>>,
                        updates: seq<seq<nat>>)
    requires SeedLoop(L, m, p, low, before) && |before| == L.nt == |updates| && |p| == L.cap
    requires UpdatesFit(L, updates)
    ensures GatherLoop(L, m, p, p, low, before, [], updates)
  {
  }

  /** The next tile to gather is seeded and its flags are still those before the views. */
  lemma GatherLoopNext(L: Layout, m: seq<nat>, p0: seq<bool>, q: seq<bool>, low: seq<nat>,
                       before: seq<seq<nat>>, added: seq<seq<nat>>, updates: seq<seq<nat>>)
    requires LayoutOk(L, |m|) && |added| < L.nt && GatherLoop(L, m, p0, q, low, before, added, updates)
    ensures var t := |added|;
      && Lo(L, t) <= Hi(L, t) <= L.cap
      && Seeded(L, m, t, before[t]) && |before[t]| <= Hi(L, t) - Lo(L, t)
      && q[Lo(L, t)..Hi(L, t)] == p0[Lo(L, t)..Hi(L, t)]
      && Consistent(q[Lo(L, t)..Hi(L, t)], before[t])
      && forall k :: 0 <= k < |updates[t]| ==> updates[t][k] < Hi(L, t) - Lo(L, t)
  {
    var t := |added|;
    assert SeededTile(L, m, p0, t, before[t]);
    assert q[Lo(L, t)..Hi(L, t)] == p0[Lo(L, t)..Hi(L, t)];
  }

  /** Gathering tile `|added|` extends the gathered tiles by one. */
  lemma GatherLoopStep(L: Layout, m0: seq<nat>, m1: seq<nat>, p0: seq<bool>, q0: seq<bool>, q1: seq<bool>,
                       low: seq<nat>, before: seq<seq<nat>>, added: seq<seq<nat>>, a: seq<nat>,
                       updates: seq<seq<nat>>)
    requires LayoutOk(L, |m0|) && |added| < L.nt && GatherLoop(L, m0, p0, q0, low, before, added, updates)
    requires var t, lo, hi := |added|, Lo(L, |added|), Hi(L, |added|);
      && Gathered(L, m1, t, before[t], a) && OnlyTileChanged(L, m0, m1, t)
      && lo <= hi <= L.cap && |q1| == |q0| && SameOutside(q1, q0, lo, hi)
      && q0[lo..hi] == p0[lo..hi]
      && q1[lo..hi] == AfterAssigns(q0[lo..hi], updates[t], |updates[t]|)
      && a == NewlyAssigned(q0[lo..hi], updates[t], |updates[t]|)
      && Consistent(q1[lo..hi], before[t] + a)
    ensures GatherLoop(L, m1, p0, q1, low, before, added + [a], updates)
  {
    var t := |added|;
    OutsideSegmentsKept(L, m0, m1, t);
    forall u | 0 <= u < t + 1
      ensures TileGathered(L, m1, p0, q1, u, before[u], (added + [a])[u], updates[u])
    {
      if u < t {
        assert (added + [a])[u] == added[u];
        GatheredKept(L, m0, m1, p0, q0, q1, t, u, before[u], added[u], updates[u]);
      } else {
        GatheredNow(L, m0, m1, p0, q0, q1, t, before[t], a, updates[t]);
      }
    }
    forall u | t + 1 <= u < |before|
      ensures SeededTile(L, m1, p0, u, before[u])
    {
      OtherSlotsAgree(L, m0, m1, t, u);
      TileBounds(L, |m0|, u);
      SlotsAgreeKeep(L, m0, m1, u, before[u], []);
    }
    forall j | Lo(L, t + 1) <= j < |q1|
      ensures q1[j] == p0[j]
    {
      assert Lo(L, t + 1) == Lo(L, t) + L.ts;
    }
  }

  /** An earlier gathered tile stays gathered when tile `t` is gathered. */
  lemma GatheredKept(L: Layout, m0: seq<nat>, m1: seq<nat>, p0: seq<bool>, q0: seq<bool>, q1: seq<bool>,
                     t: nat, u: nat, before: seq<nat>, added: seq<nat>, us: seq<nat>)
    requires LayoutOk(L, |m0|) && u < t < L.nt && OnlyTileChanged(L, m0, m1, t)
    requires Lo(L, t) <= Hi(L, t) <= |q1| == |q0| && SameOutside(q1, q0, Lo(L, t), Hi(L, t))
    requires TileGathered(L, m0, p0, q0, u, before, added, us)
    ensures TileGathered(L, m1, p0, q1, u, before, added, us)
  {
    OtherSlotsAgree(L, m0, m1, t, u);
    SlotsAgreeKeep(L, m0, m1, u, before, added);
    TilesOrdered(L, u, t);
    assert q1[Lo(L, u)..Hi(L, u)] == q0[Lo(L, u)..Hi(L, u)];
  }

  /** Tile `t` is gathered once its view has assigned its offsets and its counter is recorded. */
  lemma GatheredNow(L: Layout, m0: seq<nat>, m1: seq<nat>, p0: seq<bool>, q0: seq<bool>, q1: seq<bool>,
                    t: nat, before: seq<nat>, a: seq<nat>, us: seq<nat>)
    requires LayoutOk(L, |m0|) && t < L.nt
    requires SeededTile(L, m0, p0, t, before) && |p0| == |q0| == |q1|
    requires forall k :: 0 <= k < |us| ==> us[k] < Hi(L, t) - Lo(L, t)
    requires Gathered(L, m1, t, before, a)
    requires q0[Lo(L, t)..Hi(L, t)] == p0[Lo(L, t)..Hi(L, t)]
    requires q1[Lo(L, t)..Hi(L, t)] == AfterAssigns(q0[Lo(L, t)..Hi(L, t)], us, |us|)
    requires a == NewlyAssigned(q0[Lo(L, t)..Hi(L, t)], us, |us|)
    requires Consistent(q1[Lo(L, t)..Hi(L, t)], before + a)
    ensures TileGathered(L, m1, p0, q1, t, before, a, us)
  {
    TileBounds(L, |m0|, t);
    ConsistentBound(q1[Lo(L, t)..Hi(L, t)], before + a);
  }

  // ---------------------------------------------------------------------
  // Committing: prefixSumComputation, then joinSubset on every tile
  // ---------------------------------------------------------------------

  /** Where the segments, counters and prefix sums lie in a memory of `len` slots. */
  ghost predicate Placed(L: Layout, len: nat) {
    && |L.lb| == L.nt && L.sLo + L.cap <= L.cnt && L.cnt + L.nt == L.ps && L.ps + L.nt <= len
    && forall t :: 0 <= t < L.nt ==> L.sLo + L.cap <= L.lb[t] && L.lb[t] + L.ts + 1 <= L.cnt
  }

  /** The layout `localCoordinatesInit` carves places every segment between the stack and the counters. */
  lemma LayoutPlaced(L: Layout, len: nat)
    requires LayoutOk(L, len)
    ensures Placed(L, len)
  {
    forall t | 0 <= t < L.nt
      ensures L.sLo + L.cap <= L.lb[t] && L.lb[t] + L.ts + 1 <= L.cnt
    {
      SegmentPlaced(L, len, t);
    }
  }

  /** In memory `m`, the tiles from `from` on are gathered with `before` and `added`. */
  ghost predicate TilesGathered(L: Layout, m: seq<nat>, before: seq<seq<nat>>, added: seq<seq<nat>>, from: nat) {
    && |before| == |added| == L.nt
    && forall u :: from <= u < L.nt ==> Gathered(L, m, u, before[u], added[u]) && |before[u]| + |added[u]| <= L.ts
  }

  /**
   * Once every tile is gathered: every tile holds its seed and its
   * additions, the counters are the numbers of additions, and the stack
   * region is untouched.
   */
  lemma GatherDone(L: Layout, m: seq<nat>, p0: seq<bool>, q: seq<bool>, low: seq<nat>,
                   before: seq<seq<nat>>, added: seq<seq<nat>>, updates: seq<seq<nat>>)
    requires Placed(L, |m|) && GatherLoop(L, m, p0, q, low, before, added, updates) && |added| == L.nt
    ensures TilesGathered(L, m, before, added, 0)
    ensures m[L.cnt..L.cnt + L.nt] == Lengths(added)
    ensures m[..L.sLo + L.cap] == low
  {
    forall u | 0 <= u < L.nt
      ensures Gathered(L, m, u, before[u], added[u]) && |before[u]| + |added[u]| <= L.ts
    {
      assert TileGathered(L, m, p0, q, u, before[u], added[u], updates[u]);
    }
    forall u | 0 <= u < L.nt
      ensures m[L.cnt..L.cnt + L.nt][u] == Lengths(added)[u]
    {
      assert Gathered(L, m, u, before[u], added[u]);
    }
  }

  /** Once every tile is gathered, the whole episode went through, in the terms of `EpisodeDone`. */
  lemma EpisodeFromGather(L: Layout, m: seq<nat>, p0: seq<bool>, q: seq<bool>, low: seq<nat>,
                          before: seq<seq<nat>>, added: seq<seq<nat>>, updates: seq<seq<nat>>)
    requires LayoutOk(L, |m|) && GatherLoop(L, m, p0, q, low, before, added, updates) && |added| == L.nt
    ensures EpisodeDone(p0, q, L.ts, before, added)
  {
    forall t | 0 <= t < |added|
      ensures Offset(t, L.ts) <= |p0| && TileDone(p0, q, Offset(t, L.ts), TileHi(t, L.ts, |p0|), before[t], added[t])
    {
      assert TileGathered(L, m, p0, q, t, before[t], added[t], updates[t]);
    }
  }

  /**
   * Memory `mG` as `prefixSumComputation` leaves it: every tile is
   * gathered with `before` and `added`, and the prefix sums are the scan of
   * the tiles' counts from `n0`, which fits in the capacity.
   */
  ghost predicate Prepared(L: Layout, mG: seq<nat>, n0: nat, before: seq<seq<nat>>, added: seq<seq<nat>>) {
    && Placed(L, |mG|) && TilesGathered(L, mG, before, added, 0)
    && n0 + Sum(Lengths(added)) <= L.cap
    && forall u :: 0 <= u < L.nt ==> mG[L.ps + u] == Scan(n0, Lengths(added))[u]
  }

  /** `prefixSumComputation` writes only the prefix sums, so every tile stays gathered. */
  lemma PrepareCommit(L: Layout, m: seq<nat>, mG: seq<nat>, n0: nat, before: seq<seq<nat>>, added: seq<seq<nat>>)
    requires Placed(L, |m|) && TilesGathered(L, m, before, added, 0) && n0 + Sum(Lengths(added)) <= L.cap
    requires mG == Splice(m, L.ps, Scan(n0, Lengths(added)))
    ensures Prepared(L, mG, n0, before, added)
  {
    SplicePointwise(m, mG, L.ps, Scan(n0, Lengths(added)));
    forall u | 0 <= u < L.nt
      ensures Gathered(L, mG, u, before[u], added[u])
    {
      SlotsAgreeKeep(L, m, mG, u, before[u], added[u]);
    }
  }

  /**
   * From the prepared memory `mG`, memory `m` has the first `t` tiles
   * committed: the global stack from `sLo` is `cs` (the old stack of `n0`
   * entries followed by their additions), their counters are cleared, and
   * everything else above the stack region is as in `mG`.
   */
  ghost predicate CommitLoop(L: Layout, mG: seq<nat>, m: seq<nat>, n0: nat, added: seq<seq<nat>>, t: nat, cs: seq<nat>) {
    && |m| == |mG| && t <= L.nt == |added| && L.sLo + L.cap <= L.cnt && L.cnt + L.nt <= |m|
    && (forall j {:trigger m[j]} :: L.sLo + L.cap <= j < |m| && !(L.cnt <= j < L.cnt + t) ==> m[j] == mG[j])
    && (forall j :: L.cnt <= j < L.cnt + t ==> m[j] == 0)
    && |cs| == n0 + Sum(Lengths(added)[..t]) <= L.cap
    && m[L.sLo..L.sLo + |cs|] == cs
  }

  /** Memory `m1` holds at `dest..dest + count` the `count` entries of `m0` from `src`, raised by `lo`. */
  ghost predicate CopiedRaised(m0: seq<nat>, m1: seq<nat>, dest: nat, count: nat, src: nat, lo: nat) {
    && |m1| == |m0| && dest + count <= |m0| && src + count <= |m0|
    && forall j :: dest <= j < dest + count ==> m1[j] == m0[src + (j - dest)] + lo
  }

  /** Memory `m1` agrees with `m0` except on `dest..dest + count` and on slot `k`. */
  ghost predicate KeptBut(m0: seq<nat>, m1: seq<nat>, dest: nat, count: nat, k: nat) {
    && |m1| == |m0|
    && forall j {:trigger m1[j]} :: 0 <= j < |m0| && j != k && !(dest <= j < dest + count) ==> m1[j] == m0[j]
  }

  /**
   * `joinSubset` on every tile, in tile order, after `prefixSumComputation`
   * left memory `mG`: afterwards every tile is committed, and the global
   * stack from `sLo` is the old one, `s0`, followed by every tile's
   * additions raised to global indices.
   */
  method CommitTiles(c: Coordinates, ghost L: Layout, ghost mG: seq<nat>, ghost n0: nat, ghost s0: seq<nat>,
                     ghost before: seq<seq<nat>>, ghost added: seq<seq<nat>>)
    requires Carved(c, L) && Committing(L, mG, c.mem[..], n0, s0, before, added, 0)
    modifies c.mem
    ensures Tiled(c) && Committing(L, mG, c.mem[..], n0, s0, before, added, L.nt)
  {
    for t := 0 to c.numTiles
      invariant Carved(c, L) && Committing(L, mG, c.mem[..], n0, s0, before, added, t)
    {
      CommitTile(c, t, L, mG, n0, s0, before, added);
    }
  }

  /** `c` is carved into tiles as the layout `L` says, as one fact. */
  ghost predicate Carved(c: Coordinates, L: Layout)
    reads c
  {
    var carved := Tiled(c) && L == LayoutOf(c);
    carved
  }

  /**
   * Memory `m` is `mG` with the first `t` tiles committed onto the old
   * stack `s0`, as one fact.
   */
  ghost predicate Committing(L: Layout, mG: seq<nat>, m: seq<nat>, n0: nat, s0: seq<nat>, before: seq<seq<nat>>,
                             added: seq<seq<nat>>, t: nat) {
    var stage := t <= |added| && Prepared(L, mG, n0, before, added)
                 && CommitLoop(L, mG, m, n0, added, t, Committed(s0, added, L.ts, t));
    stage
  }

  /** `joinSubset` on tile `t`, the first one not yet committed. */
  method CommitTile(c: Coordinates, t: nat, ghost L: Layout, ghost mG: seq<nat>, ghost n0: nat, ghost s0: seq<nat>,
                    ghost before: seq<seq<nat>>, ghost added: seq<seq<nat>>)
    requires Carved(c, L) && t < c.numTiles && Committing(L, mG, c.mem[..], n0, s0, before, added, t)
    modifies c.mem
    ensures Committing(L, mG, c.mem[..], n0, s0, before, added, t + 1)
  {
    var lo, hi := Offset(t, c.tileSize), TileHi(t, c.tileSize, c.cap);
    TileOfOffset(t, c.tileSize);
    ghost var m0, cs := c.mem[..], Committed(s0, added, L.ts, t);
    JoinReadyAt(L, mG, m0, n0, before, added, t, cs);
    ghost var m1, dest, src, count := JoinTile(c, t, lo, hi, L, |cs|, |before[t]|, |added[t]|);
    CommitStep(L, mG, m0, m1, n0, before, added, t, cs, lo, dest, src, count);
  }

  /**
   * `joinSubset` on tile `t`, whose count slot holds `b`, whose counter
   * holds `a` and whose prefix sum is `e + a`: the `a` entries after the
   * seed are copied, raised by `lo`, to the global stack at `e`, the
   * counter is cleared, and nothing else changes.
   */
  method JoinTile(c: Coordinates, t: nat, lo: nat, hi: nat, ghost L: Layout, ghost e: nat, ghost b: nat, ghost a: nat)
    returns (ghost m1: seq<nat>, ghost dest: nat, ghost src: nat, ghost count: nat)
    requires c.TilesReady() && 0 < c.cap && t < c.numTiles && c.TileOf(lo) == t && L == LayoutOf(c)
    requires c.mem[L.lb[t]] == b && c.mem[L.cnt + t] == a && c.mem[L.ps + t] == e + a <= L.cap && b + a <= L.ts
    modifies c.mem
    ensures m1 == c.mem[..] && dest == L.sLo + e && src == L.lb[t] + 1 + b && count == a
    ensures CopiedRaised(old(c.mem[..]), m1, dest, count, src, lo)
    ensures KeptBut(old(c.mem[..]), m1, dest, count, L.cnt + t) && m1[L.cnt + t] == 0
  {
    ghost var m0 := c.mem[..];
    JoinAt(c, L, m0, t, e, b, a);
    dest, src, count := c.JoinSubset(lo, hi);
    m1 := c.mem[..];
  }

  /**
   * `joinSubset`'s view of tile `t` in memory `m`, in the terms of the
   * layout: the tile is ready to commit, and it copies its `a` additions,
   * found after its seed of `b` entries, to the global stack at `e`.
   */
  lemma JoinAt(c: Coordinates, L: Layout, m: seq<nat>, t: nat, e: nat, b: nat, a: nat)
    requires c.TilesReady() && t < c.numTiles && L == LayoutOf(c) && |m| == c.mem.Length
    requires m[L.lb[t]] == b && m[L.cnt + t] == a && m[L.ps + t] == e + a <= L.cap && b + a <= L.ts
    ensures c.JoinReady(m, t)
    ensures c.JoinDest(m, t) == L.sLo + e && c.JoinSource(m, t) == L.lb[t] + 1 + b && c.JoinCount(m, t) == a
  {
  }

  /** The slots tile `t` is committed from and to, read off memory `m`. */
  lemma JoinReadyAt(L: Layout, mG: seq<nat>, m: seq<nat>, n0: nat, before: seq<seq<nat>>,
                    added: seq<seq<nat>>, t: nat, cs: seq<nat>)
    requires t < L.nt && Prepared(L, mG, n0, before, added) && CommitLoop(L, mG, m, n0, added, t, cs)
    ensures Gathered(L, mG, t, before[t], added[t]) && |before[t]| + |added[t]| <= L.ts
    ensures L.sLo + L.cap <= L.lb[t] && L.lb[t] + L.ts + 1 <= L.cnt
    ensures m[L.lb[t]] == |before[t]| && m[L.cnt + t] == |added[t]|
    ensures m[L.ps + t] == |cs| + |added[t]| <= L.cap
  {
    GatheredTile(L, mG, before, added, t);
    KeptSlot(m, mG, L.sLo + L.cap, L.cnt, t, L.lb[t]);
    KeptSlot(m, mG, L.sLo + L.cap, L.cnt, t, L.cnt + t);
    KeptSlot(m, mG, L.sLo + L.cap, L.cnt, t, L.ps + t);
    ScanSlot(n0, added, t);
  }

  /** A gathered tile `t` of a placed layout, with its segment between the stack and the counters. */
  lemma GatheredTile(L: Layout, m: seq<nat>, before: seq<seq<nat>>, added: seq<seq<nat>>, t: nat)
    requires t < L.nt && Placed(L, |m|) && TilesGathered(L, m, before, added, 0)
    ensures Gathered(L, m, t, before[t], added[t]) && |before[t]| + |added[t]| <= L.ts
    ensures L.sLo + L.cap <= L.lb[t] && L.lb[t] + L.ts + 1 <= L.cnt
  {
  }

  /** Slot `j` above `base` and outside the first `t` counters from `cnt` holds what it held in `mG`. */
  lemma KeptSlot(m: seq<nat>, mG: seq<nat>, base: nat, cnt: nat, t: nat, j: nat)
    requires |m| == |mG| && base <= j < |m| && !(cnt <= j < cnt + t)
    requires forall i {:trigger m[i]} :: base <= i < |m| && !(cnt <= i < cnt + t) ==> m[i] == mG[i]
    ensures m[j] == mG[j]
  {
  }

  /** Tile `t`'s prefix sum is where its additions end, after the earlier tiles' additions. */
  lemma ScanSlot(n0: nat, added: seq<seq<nat>>, t: nat)
    requires t < |added|
    ensures Scan(n0, Lengths(added))[t] == n0 + Sum(Lengths(added)[..t]) + |added[t]|
    ensures Sum(Lengths(added)[..t]) + |added[t]| <= Sum(Lengths(added))
  {
    ScanIsRangeEnd(n0, Lengths(added), t);
    RangeInside(Lengths(added), t);
  }

  /**
   * What `joinSubset` on tile `t` does to memory `m0`, read off the result
   * `m1`: the tile's additions, raised by `lo`, are written after the
   * committed stack `cs`, its counter is cleared, and nothing else changes;
   * so tile `t` is committed.
   */
  lemma CommitStep(L: Layout, mG: seq<nat>, m0: seq<nat>, m1: seq<nat>, n0: nat, before: seq<seq<nat>>,
                   added: seq<seq<nat>>, t: nat, cs: seq<nat>, lo: nat, dest: nat, src: nat, count: nat)
    requires t < L.nt && Prepared(L, mG, n0, before, added) && CommitLoop(L, mG, m0, n0, added, t, cs)
    requires dest == L.sLo + |cs| && src == L.lb[t] + 1 + |before[t]| && count == |added[t]|
    requires CopiedRaised(m0, m1, dest, count, src, lo) && KeptBut(m0, m1, dest, count, L.cnt + t)
    requires m1[L.cnt + t] == 0
    ensures CommitLoop(L, mG, m1, n0, added, t + 1, cs + Raise(added[t], lo))
  {
    JoinReadyAt(L, mG, m0, n0, before, added, t, cs);
    PrefixSumStep(Lengths(added), t);
    TileSlots(L, mG, m0, t, before[t], added[t], src);
    CommitStepStack(m0, m1, L.sLo, dest, count, src, lo, cs, added[t], L.cnt + t);
    CommitStepFrame(L, mG, m0, m1, t, dest, count);
  }

  /**
   * Memory `m1` differs from `m0` only below `sLo + cap` and in counter
   * `t`, which it clears: so, above the stack region, it still agrees with
   * `mG` except on the first `t + 1` counters, which are cleared.
   */
  lemma CommitStepFrame(L: Layout, mG: seq<nat>, m0: seq<nat>, m1: seq<nat>, t: nat, dest: nat, count: nat)
    requires |m0| == |mG| && t < L.nt && L.sLo + L.cap <= L.cnt && L.cnt + L.nt <= |m0|
    requires dest + count <= L.sLo + L.cap
    requires forall j {:trigger m0[j]} :: L.sLo + L.cap <= j < |m0| && !(L.cnt <= j < L.cnt + t) ==> m0[j] == mG[j]
    requires forall j :: L.cnt <= j < L.cnt + t ==> m0[j] == 0
    requires KeptBut(m0, m1, dest, count, L.cnt + t) && m1[L.cnt + t] == 0
    ensures forall j {:trigger m1[j]} :: L.sLo + L.cap <= j < |m1| && !(L.cnt <= j < L.cnt + t + 1) ==> m1[j] == mG[j]
    ensures forall j :: L.cnt <= j < L.cnt + t + 1 ==> m1[j] == 0
  {
  }

  /** Memory that agrees with `mG` on tile `t`'s segment holds its additions after its seed. */
  lemma TileSlots(L: Layout, mG: seq<nat>, m: seq<nat>, t: nat, before: seq<nat>, added: seq<nat>, src: nat)
    requires Gathered(L, mG, t, before, added) && |before| + |added| <= L.ts && |m| == |mG|
    requires L.lb[t] + L.ts + 1 <= |m| && forall j :: L.lb[t] <= j < L.lb[t] + L.ts + 1 ==> m[j] == mG[j]
    requires src == L.lb[t] + 1 + |before|
    ensures forall x :: 0 <= x < |added| ==> m[src + x] == added[x]
  {
    forall x | 0 <= x < |added|
      ensures m[src + x] == added[x]
    {
      assert mG[L.lb[t] + 1..L.lb[t] + 1 + |before| + |added|][|before| + x] == added[x];
    }
  }

  /**
   * The global stack after one `joinSubset`: the committed prefix `c` up
   * to `e0` is kept, and the `count` additions read from `src` follow it
   * raised by `lo`.
   */
  lemma CommitStepStack(m0: seq<nat>, m1: seq<nat>, sLo: nat, e0: nat, count: nat, src: nat, lo: nat,
                        c: seq<nat>, added: seq<nat>, k: nat)
    requires sLo <= e0 && e0 + count <= k < |m0| && count == |added|
    requires CopiedRaised(m0, m1, e0, count, src, lo) && KeptBut(m0, m1, e0, count, k)
    requires forall x :: 0 <= x < count ==> m0[src + x] == added[x]
    requires m0[sLo..e0] == c
    ensures m1[sLo..e0 + count] == c + Raise(added, lo)
  {
    forall j | 0 <= j < count
      ensures m1[e0 + j] == added[j] + lo
    {
      assert m1[e0 + j] == m0[src + j] + lo;
    }
    assert m1[sLo..e0] == m0[sLo..e0];
  }

  /** Reading a splice back index by index. */
  lemma SplicePointwise(m: seq<nat>, r: seq<nat>, at: nat, vals: seq<nat>)
    requires at + |vals| <= |m| && r == Splice(m, at, vals)
    ensures |r| == |m|
    ensures forall k :: 0 <= k < |vals| ==> r[at + k] == vals[k]
    ensures forall j {:trigger r[j]} :: 0 <= j < |m| && !(at <= j < at + |vals|) ==> r[j] == m[j]
  {
    SpliceFacts(m, at, vals);
    forall k | 0 <= k < |vals|
      ensures r[at + k] == vals[k]
    {
      assert r[at..at + |vals|][k] == vals[k];
    }
  }

  /** After the last `joinSubset`, the stack region holds the committed stack. */
  lemma StackEnd(L: Layout, mG: seq<nat>, m: seq<nat>, n0: nat, added: seq<seq<nat>>, cs: seq<nat>)
    requires CommitLoop(L, mG, m, n0, added, L.nt, cs)
    ensures |cs| == n0 + Sum(Lengths(added)) && m[L.sLo..L.sLo + |cs|] == cs
  {
    assert Lengths(added)[..L.nt] == Lengths(added);
  }

  /** After the last `joinSubset`, the prefix sums are still the scan of the counts. */
  lemma ScanEnd(L: Layout, mG: seq<nat>, m: seq<nat>, n0: nat, before: seq<seq<nat>>, added: seq<seq<nat>>,
                cs: seq<nat>)
    requires Prepared(L, mG, n0, before, added) && CommitLoop(L, mG, m, n0, added, L.nt, cs)
    ensures L.ps + L.nt <= |m| && m[L.ps..L.ps + L.nt] == Scan(n0, Lengths(added))
  {
    SumsKept(m, mG, L.ps, L.cnt, L.nt, L.sLo + L.cap, Scan(n0, Lengths(added)));
  }

  /** Memory `m` kept `mG` above `base` except on the `nt` counters at `cnt`, so it kept the sums at `ps`. */
  lemma SumsKept(m: seq<nat>, mG: seq<nat>, ps: nat, cnt: nat, nt: nat, base: nat, sums: seq<nat>)
    requires |m| == |mG| && base <= cnt && cnt + nt <= ps && ps + |sums| <= |m|
    requires forall j {:trigger m[j]} :: base <= j < |m| && !(cnt <= j < cnt + nt) ==> m[j] == mG[j]
    requires forall u :: 0 <= u < |sums| ==> mG[ps + u] == sums[u]
    ensures m[ps..ps + |sums|] == sums
  {
    forall u | 0 <= u < |sums|
      ensures m[ps..ps + |sums|][u] == sums[u]
    {
      assert m[ps + u] == mG[ps + u];
    }
  }

  // ---------------------------------------------------------------------
  // A whole episode
  // ---------------------------------------------------------------------

  /**
   * Tile `u`'s view assigned `updates[u]`: from the flags `p` before the
   * episode, its flags in `q` are those the assignments give, and
   * `added[u]` are the offsets they newly set, in order.
   */
  ghost predicate ViewsApplied(L: Layout, p: seq<bool>, q: seq<bool>, updates: seq<seq<nat>>, added: seq<seq<nat>>) {
    && |q| == |p| && UpdatesFit(L, updates) && |added| == L.nt
    && forall u :: 0 <= u < L.nt ==>
         && Lo(L, u) <= Hi(L, u) <= |p|
         && q[Lo(L, u)..Hi(L, u)] == AfterAssigns(p[Lo(L, u)..Hi(L, u)], updates[u], |updates[u]|)
         && added[u] == NewlyAssigned(p[Lo(L, u)..Hi(L, u)], updates[u], |updates[u]|)
  }

  /** Once every tile is gathered, every view's assignments are applied. */
  lemma ViewsFromGather(L: Layout, m: seq<nat>, p0: seq<bool>, q: seq<bool>, low: seq<nat>,
                        before: seq<seq<nat>>, added: seq<seq<nat>>, updates: seq<seq<nat>>)
    requires GatherLoop(L, m, p0, q, low, before, added, updates) && |added| == L.nt
    ensures ViewsApplied(L, p0, q, updates, added)
  {
    forall u | 0 <= u < L.nt
      ensures Lo(L, u) <= Hi(L, u) <= |p0|
      ensures q[Lo(L, u)..Hi(L, u)] == AfterAssigns(p0[Lo(L, u)..Hi(L, u)], updates[u], |updates[u]|)
      ensures added[u] == NewlyAssigned(p0[Lo(L, u)..Hi(L, u)], updates[u], |updates[u]|)
    {
      assert TileGathered(L, m, p0, q, u, before[u], added[u], updates[u]);
    }
  }

  /**
   * Every index tile `t` adds, raised by the tile's lower bound, lies in
   * the tile, is flagged in `q`, and is not on the stack `s`.
   */
  ghost predicate AddedFresh(q: seq<bool>, s: seq<nat>, ts: nat, added: seq<seq<nat>>) {
    forall t, j :: 0 <= t < |added| && 0 <= j < |added[t]| ==>
      && Offset(t, ts) + added[t][j] < TileHi(t, ts, |q|)
      && q[Offset(t, ts) + added[t][j]]
      && Offset(t, ts) + added[t][j] !in s
  }

  /** Every index an episode commits is fresh: in its tile, flagged afterwards, and not on the old stack. */
  lemma EpisodeAdditions(p: seq<bool>, q: seq<bool>, s: seq<nat>, ts: nat, before: seq<seq<nat>>,
                         added: seq<seq<nat>>)
    requires Consistent(p, s) && EpisodeDone(p, q, ts, before, added)
    ensures AddedFresh(q, s, ts, added)
  {
    forall t, j | 0 <= t < |added| && 0 <= j < |added[t]|
      ensures Offset(t, ts) + added[t][j] < TileHi(t, ts, |q|)
      ensures q[Offset(t, ts) + added[t][j]] && Offset(t, ts) + added[t][j] !in s
    {
      TileAdditions(p, q, s, Offset(t, ts), TileHi(t, ts, |p|), before[t], added[t]);
      assert Raise(added[t], Offset(t, ts))[j] == Offset(t, ts) + added[t][j];
    }
  }

  /**
   * What the views half of an episode leaves in memory `m`: the stack
   * region is `low` as before, every tile is gathered, and the counters
   * hold the tiles' numbers of additions.
   */
  ghost predicate MemGathered(L: Layout, m: seq<nat>, low: seq<nat>, before: seq<seq<nat>>, added: seq<seq<nat>>) {
    && |before| == |added| == L.nt && L.sLo + L.cap <= |m| && m[..L.sLo + L.cap] == low
    && L.cnt + L.nt <= |m| && m[L.cnt..L.cnt + L.nt] == Lengths(added)
    && TilesGathered(L, m, before, added, 0)
  }

  /**
   * The flags `q` after the views, the old stack `s0` and the additions
   * fit together: the committed stack is consistent with `q` and fits in
   * the capacity, and every addition is fresh.
   */
  ghost predicate EpisodeSound(q: seq<bool>, s0: seq<nat>, ts: nat, added: seq<seq<nat>>) {
    && Consistent(q, Committed(s0, added, ts, |added|))
    && |s0| + Sum(Lengths(added)) <= |q|
    && AddedFresh(q, s0, ts, added)
  }

  /** Once every tile is gathered, the views' outcome in the terms of `MemGathered`, `ViewsApplied` and `EpisodeSound`. */
  lemma GatherOutcome(L: Layout, m: seq<nat>, p0: seq<bool>, q: seq<bool>, s0: seq<nat>, low: seq<nat>,
                      before: seq<seq<nat>>, added: seq<seq<nat>>, updates: seq<seq<nat>>)
    requires LayoutOk(L, |m|) && GatherLoop(L, m, p0, q, low, before, added, updates) && |added| == L.nt
    requires Consistent(p0, s0)
    ensures MemGathered(L, m, low, before, added)
    ensures ViewsApplied(L, p0, q, updates, added)
    ensures EpisodeSound(q, s0, L.ts, added)
  {
    LayoutPlaced(L, |m|);
    GatherDone(L, m, p0, q, low, before, added, updates);
    EpisodeFromGather(L, m, p0, q, low, before, added, updates);
    ViewsFromGather(L, m, p0, q, low, before, added, updates);
    EpisodeConsistent(p0, q, s0, L.ts, before, added);
    EpisodeAdditions(p0, q, s0, L.ts, before, added);
  }

  /** `low` holds the stack `s` from index `at` on. */
  ghost predicate StackBelow(low: seq<nat>, at: nat, s: seq<nat>) {
    at + |s| <= |low| && low[at..at + |s|] == s
  }

  lemma StackSlice(m: seq<nat>, at: nat, cap: nat, n: nat)
    requires at + cap <= |m| && n <= cap
    ensures StackBelow(m[..at + cap], at, m[at..at + n])
  {
  }

  /** The stack of `c`, read through its layout `L`. */
  lemma ReadLayout(c: Coordinates, L: Layout)
    requires Carved(c, L)
    ensures L.sLo + c.n <= c.mem.Length && c.mem[..][L.sLo..L.sLo + c.n] == c.Stack()
  {
  }

  /**
   * The views half of an episode: every tile is seeded, then assigns
   * `updates[t]` through its view and records its additions. Afterwards
   * the memory is as `MemGathered` says, every view's assignments are
   * applied, and the additions fit the old stack as `EpisodeSound` says.
   */
  method GatherEpisode(c: Coordinates, updates: seq<seq<nat>>, ghost L: Layout, ghost p0: seq<bool>, ghost s0: seq<nat>)
    returns (ghost low: seq<nat>, ghost before: seq<seq<nat>>, ghost added: seq<seq<nat>>)
    requires c.Valid() && Tiled(c) && L == LayoutOf(c) && UpdatesFit(L, updates)
    requires p0 == c.Presence() && s0 == c.Stack()
    modifies c.present, c.mem
    ensures Tiled(c) && L == LayoutOf(c)
    ensures MemGathered(L, c.mem[..], low, before, added)
    ensures c.Stack() == s0 && c.NewCounts() == Lengths(added)
    ensures ViewsApplied(L, p0, Flags(c), updates, added)
    ensures EpisodeSound(Flags(c), s0, L.ts, added)
  {
    ghost var m := c.mem[..];
    low := m[..L.sLo + L.cap];
    StackSlice(m, L.sLo, L.cap, |s0|);
    before, added := ViewsOfTiles(c, updates, L, p0, low);
    GatherFinish(c, L, p0, s0, low, before, added, updates);
  }

  /** What the views of every tile leave behind, from the flags `p0` and the stack `s0` they started with. */
  lemma GatherFinish(c: Coordinates, L: Layout, p0: seq<bool>, s0: seq<nat>, low: seq<nat>,
                     before: seq<seq<nat>>, added: seq<seq<nat>>, updates: seq<seq<nat>>)
    requires Tiled(c) && L == LayoutOf(c) && |added| == L.nt && |s0| == c.n
    requires GatherLoop(L, c.mem[..], p0, Flags(c), low, before, added, updates)
    requires Consistent(p0, s0) && StackBelow(low, L.sLo, s0)
    ensures MemGathered(L, c.mem[..], low, before, added)
    ensures c.Stack() == s0 && c.NewCounts() == Lengths(added)
    ensures ViewsApplied(L, p0, Flags(c), updates, added)
    ensures EpisodeSound(Flags(c), s0, L.ts, added)
  {
    GatherOutcome(L, c.mem[..], p0, Flags(c), s0, low, before, added, updates);
    GatheredRead(c, L, low, s0, added);
  }

  /** `asyncSubsetInit` on every tile, then every tile's view, in tile order. */
  method ViewsOfTiles(c: Coordinates, updates: seq<seq<nat>>, ghost L: Layout, ghost p0: seq<bool>, ghost low: seq<nat>)
    returns (ghost before: seq<seq<nat>>, ghost added: seq<seq<nat>>)
    requires c.Valid() && Tiled(c) && L == LayoutOf(c) && UpdatesFit(L, updates)
    requires p0 == c.Presence() && low == c.mem[..][..L.sLo + L.cap]
    modifies c.present, c.mem
    ensures Tiled(c) && L == LayoutOf(c) && |added| == L.nt
    ensures GatherLoop(L, c.mem[..], p0, Flags(c), low, before, added, updates)
  {
    before := SeedTiles(c);
    added := GatherTiles(c, updates, before, low);
  }


  /** `prefixSumComputation`, after which every tile is ready to commit and none has. */
  method ScanEpisode(c: Coordinates, psTileSize: nat, cuts: seq<nat>, ghost L: Layout, ghost before: seq<seq<nat>>,
                     ghost added: seq<seq<nat>>) returns (ghost mG: seq<nat>)
    requires Carved(c, L) && TilesGathered(L, c.mem[..], before, added, 0)
    requires c.NewCounts() == Lengths(added) && c.n + Sum(Lengths(added)) <= c.cap
    requires psTileSize <= c.numTiles ==> Chunks(cuts, c.numTiles)
    modifies c`n, c.mem
    ensures Carved(c, L) && Flags(c) == old(Flags(c)) && mG == c.mem[..]
    ensures c.n == old(c.n) + Sum(Lengths(added))
    ensures Committing(L, mG, mG, old(c.n), old(c.Stack()), before, added, 0)
  {
    ghost var m, n0, s0 := c.mem[..], c.n, c.Stack();
    ReadLayout(c, L);
    assert Scannable(L, m, n0, s0, before, added);
    ScanAt(c, psTileSize, cuts, L, Lengths(added));
    mG := c.mem[..];
    CommitSetup(L, m, mG, n0, s0, before, added);
  }

  /** `joinSubset` on every tile, read back through the stack, the prefix sums and the counters. */
  method JoinEpisode(c: Coordinates, ghost L: Layout, ghost mG: seq<nat>, ghost n0: nat, ghost s0: seq<nat>,
                     ghost before: seq<seq<nat>>, ghost added: seq<seq<nat>>)
    requires Carved(c, L) && c.n == n0 + Sum(Lengths(added))
    requires Committing(L, mG, c.mem[..], n0, s0, before, added, 0)
    modifies c.mem
    ensures Tiled(c) && Flags(c) == old(Flags(c))
    ensures c.Stack() == Committed(s0, added, L.ts, L.nt)
    ensures c.PrefixSums() == Scan(n0, Lengths(added))
    ensures forall t :: 0 <= t < c.numTiles ==> c.NewCounts()[t] == 0
  {
    CommitTiles(c, L, mG, n0, s0, before, added);
    CommitRead(c, L, mG, n0, before, added, Committed(s0, added, L.ts, L.nt));
  }

  /**
   * Right before `prefixSumComputation`: memory `m` is carved as `L` says,
   * holds the stack `s0` and every tile's additions, and the additions fit,
   * as one fact.
   */
  ghost predicate Scannable(L: Layout, m: seq<nat>, n0: nat, s0: seq<nat>, before: seq<seq<nat>>,
                            added: seq<seq<nat>>) {
    var scannable :=
      LayoutOk(L, |m|) && TilesGathered(L, m, before, added, 0) && n0 + Sum(Lengths(added)) <= L.cap
      && L.sLo + n0 <= |m| && m[L.sLo..L.sLo + n0] == s0;
    scannable
  }

  /** Right after `prefixSumComputation`, every tile is ready to commit and none has. */
  lemma CommitSetup(L: Layout, m: seq<nat>, mG: seq<nat>, n0: nat, s0: seq<nat>, before: seq<seq<nat>>,
                    added: seq<seq<nat>>)
    requires Scannable(L, m, n0, s0, before, added)
    requires mG == Splice(m, L.ps, Scan(n0, Lengths(added)))
    ensures Committing(L, mG, mG, n0, s0, before, added, 0)
  {
    LayoutPlaced(L, |m|);
    PrepareCommit(L, m, mG, n0, before, added);
    CommitStart(L, m, mG, n0, s0, added, Scan(n0, Lengths(added)));
  }

  /** Before the first `joinSubset`: no tile has committed and the stack is the old one. */
  lemma CommitStart(L: Layout, m: seq<nat>, mG: seq<nat>, n0: nat, s0: seq<nat>, added: seq<seq<nat>>,
                    sums: seq<nat>)
    requires L.sLo + L.cap <= L.cnt && L.cnt + L.nt == L.ps && L.ps + |sums| <= |m| && L.nt == |added|
    requires n0 <= L.cap && m[L.sLo..L.sLo + n0] == s0 && mG == Splice(m, L.ps, sums)
    ensures CommitLoop(L, mG, mG, n0, added, 0, s0)
  {
    assert Lengths(added)[..0] == [];
    SpliceFacts(m, L.ps, sums);
    assert mG[L.sLo..L.sLo + n0] == m[L.sLo..L.sLo + n0];
  }

  /** After the last `joinSubset`: the stack, the prefix sums and the cleared counters of `c`. */
  lemma CommitRead(c: Coordinates, L: Layout, mG: seq<nat>, n0: nat, before: seq<seq<nat>>, added: seq<seq<nat>>,
                   cs: seq<nat>)
    requires c.TilesReady() && L == LayoutOf(c) && c.n == n0 + Sum(Lengths(added))
    requires Prepared(L, mG, n0, before, added) && CommitLoop(L, mG, c.mem[..], n0, added, L.nt, cs)
    ensures c.Stack() == cs && c.PrefixSums() == Scan(n0, Lengths(added))
    ensures forall t :: 0 <= t < c.numTiles ==> c.NewCounts()[t] == 0
  {
    StackEnd(L, mG, c.mem[..], n0, added, cs);
    ScanEnd(L, mG, c.mem[..], n0, before, added, cs);
    ReadBack(c, L, cs, Scan(n0, Lengths(added)));
  }

  /** The stack, prefix sums and counters of `c`, from what its memory holds where the layout puts them. */
  lemma ReadBack(c: Coordinates, L: Layout, cs: seq<nat>, sums: seq<nat>)
    requires c.TilesReady() && L == LayoutOf(c) && c.n == |cs|
    requires L.sLo + |cs| <= c.mem.Length && c.mem[..][L.sLo..L.sLo + |cs|] == cs
    requires L.ps + L.nt <= c.mem.Length && c.mem[..][L.ps..L.ps + L.nt] == sums
    requires forall j :: L.cnt <= j < L.cnt + L.nt ==> c.mem[..][j] == 0
    ensures c.Stack() == cs && c.PrefixSums() == sums
    ensures forall t :: 0 <= t < c.numTiles ==> c.NewCounts()[t] == 0
  {
    forall t | 0 <= t < c.numTiles
      ensures c.NewCounts()[t] == 0
    {
      assert c.mem[..][L.cnt + t] == 0;
    }
  }

  /** The presence flags of `c`, read through the fields that locate them only. */
  ghost function Flags(c: Coordinates): (p: seq<bool>)
    reads c`aLo, c`cap, c`present, c.present
    requires c.aLo + c.cap <= c.present.Length
    ensures |p| == c.cap && (c.Bounds() ==> p == c.Presence())
  {
    c.present[c.aLo..c.aLo + c.cap]
  }

  /** `prefixSumComputation` on counters `counts`, stated in the terms of the layout. */
  method ScanAt(c: Coordinates, psTileSize: nat, cuts: seq<nat>, ghost L: Layout, ghost counts: seq<nat>)
    requires Carved(c, L) && c.NewCounts() == counts && c.n + Sum(counts) <= c.cap
    requires psTileSize <= c.numTiles ==> Chunks(cuts, c.numTiles)
    modifies c`n, c.mem
    ensures Carved(c, L) && Flags(c) == old(Flags(c))
    ensures c.mem[..] == Splice(old(c.mem[..]), L.ps, Scan(old(c.n), counts))
    ensures c.n == old(c.n) + Sum(counts)
  {
    c.PrefixSumComputation(psTileSize, cuts);
  }

  /**
   * One whole episode of the tile protocol, in tile order: seeding
   * (`asyncSubsetInit`), the views, each assigning `updates[t]` and
   * recording its additions (`asyncSubset`, `asyncJoinSubset`), the prefix
   * sums (`prefixSumComputation`) and the commits (`joinSubset`).
   * Afterwards the structure is valid again; every view's assignments are
   * applied; the stack is the old one followed by every tile's newly
   * assigned indices in tile order; each of them lies in its tile, is
   * present, and was not on the old stack; the count grows by their
   * number; the prefix sums are the running totals and the counters are
   * cleared.
   */
  method RunEpisode(c: Coordinates, updates: seq<seq<nat>>, psTileSize: nat, cuts: seq<nat>)
    returns (ghost before: seq<seq<nat>>, ghost added: seq<seq<nat>>)
    requires c.Valid() && Tiled(c) && UpdatesFit(LayoutOf(c), updates)
    requires psTileSize <= c.numTiles ==> Chunks(cuts, c.numTiles)
    modifies c`n, c.present, c.mem
    ensures c.Valid() && Tiled(c) && |added| == c.numTiles
    ensures ViewsApplied(LayoutOf(c), old(c.Presence()), c.Presence(), updates, added)
    ensures c.Stack() == Committed(old(c.Stack()), added, c.tileSize, c.numTiles)
    ensures AddedFresh(c.Presence(), old(c.Stack()), c.tileSize, added)
    ensures c.n == old(c.n) + Sum(Lengths(added))
    ensures c.PrefixSums() == Scan(old(c.n), Lengths(added))
    ensures forall t :: 0 <= t < c.numTiles ==> c.NewCounts()[t] == 0
  {
    ghost var L, p0, s0 := LayoutOf(c), c.Presence(), c.Stack();
    before, added := Episode(c, updates, psTileSize, cuts, L, p0, s0);
    assert c.Presence() == Flags(c);
  }

  /** `RunEpisode` with the old state named: the layout `L`, the flags `p0` and the stack `s0`. */
  method Episode(c: Coordinates, updates: seq<seq<nat>>, psTileSize: nat, cuts: seq<nat>,
                 ghost L: Layout, ghost p0: seq<bool>, ghost s0: seq<nat>)
    returns (ghost before: seq<seq<nat>>, ghost added: seq<seq<nat>>)
    requires c.Valid() && Tiled(c) && L == LayoutOf(c) && p0 == c.Presence() && s0 == c.Stack()
    requires UpdatesFit(L, updates) && (psTileSize <= L.nt ==> Chunks(cuts, L.nt))
    modifies c`n, c.present, c.mem
    ensures Tiled(c) && L == LayoutOf(c) && |added| == L.nt
    ensures ViewsApplied(L, p0, Flags(c), updates, added)
    ensures EpisodeSound(Flags(c), s0, L.ts, added)
    ensures c.Stack() == Committed(s0, added, L.ts, L.nt)
    ensures c.n == |s0| + Sum(Lengths(added))
    ensures c.PrefixSums() == Scan(|s0|, Lengths(added))
    ensures forall t :: 0 <= t < c.numTiles ==> c.NewCounts()[t] == 0
  {
    ghost var low;
    low, before, added := GatherEpisode(c, updates, L, p0, s0);
    SettleEpisode(c, psTileSize, cuts, L, s0, low, before, added);
  }

  /**
   * The commit half of an episode, after views that left the memory as
   * `MemGathered` says and the old stack `s0` below the region `low`:
   * `prefixSumComputation`, then `joinSubset` on every tile. The stack is
   * the old one followed by every tile's additions, raised to global
   * indices, in tile order; the count grows by their number; the prefix
   * sums are the running totals from the old count; the counters are
   * cleared; the flags are untouched.
   */
  method SettleEpisode(c: Coordinates, psTileSize: nat, cuts: seq<nat>, ghost L: Layout, ghost s0: seq<nat>,
                       ghost low: seq<nat>, ghost before: seq<seq<nat>>, ghost added: seq<seq<nat>>)
    requires Tiled(c) && L == LayoutOf(c) && c.Stack() == s0 && c.NewCounts() == Lengths(added)
    requires MemGathered(L, c.mem[..], low, before, added) && |s0| + Sum(Lengths(added)) <= L.cap
    requires psTileSize <= c.numTiles ==> Chunks(cuts, c.numTiles)
    modifies c`n, c.mem
    ensures Tiled(c) && L == LayoutOf(c) && Flags(c) == old(Flags(c))
    ensures c.Stack() == Committed(s0, added, L.ts, L.nt)
    ensures c.n == |s0| + Sum(Lengths(added))
    ensures c.PrefixSums() == Scan(|s0|, Lengths(added))
    ensures forall t :: 0 <= t < c.numTiles ==> c.NewCounts()[t] == 0
  {
    ghost var mG := ScanEpisode(c, psTileSize, cuts, L, before, added);
    JoinEpisode(c, L, mG, |s0|, s0, before, added);
  }

  /** After the views: the stack is the old one and the counters hold the tiles' numbers of additions. */
  lemma GatheredRead(c: Coordinates, L: Layout, low: seq<nat>, s0: seq<nat>, added: seq<seq<nat>>)
    requires c.TilesReady() && L == LayoutOf(c) && |s0| == c.n
    requires |low| == L.sLo + L.cap && StackBelow(low, L.sLo, s0)
    requires L.sLo + L.cap <= c.mem.Length && c.mem[..][..L.sLo + L.cap] == low
    requires L.cnt + L.nt <= c.mem.Length && c.mem[..][L.cnt..L.cnt + L.nt] == Lengths(added)
    ensures c.Stack() == s0 && c.NewCounts() == Lengths(added)
  {
    StackAbove(c.mem[..], low, L.sLo, L.cap, s0);
    assert c.Stack() == c.mem[..][L.sLo..L.sLo + c.n];
  }

  /** A stack found below `at + cap` in a prefix `low` of `m` is found at the same place in `m`. */
  lemma StackAbove(m: seq<nat>, low: seq<nat>, at: nat, cap: nat, s: seq<nat>)
    requires at + cap <= |m| && low == m[..at + cap] && StackBelow(low, at, s)
    ensures m[at..at + |s|] == s
  {
    assert m[at..at + |s|] == low[at..at + |s|];
  }
}
