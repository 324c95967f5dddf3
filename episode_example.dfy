/**
 * A worked episode: a structure of capacity 8 in tiles of 2, empty
 * before the episode, whose four tiles add the indices {1}, {3}, {} and
 * {6, 7}.
 */
module EpisodeExample {
  import opened PrefixSums
  import opened NonblockingCoordinates
  import opened TileEpisode

  /** The views' assignments, as tile-local offsets. */
  const Updates: seq<seq<nat>> := [[1], [1], [], [0, 1]]

  /** Each tile's two flags after the episode. */
  const TileFlags: seq<seq<bool>> := [[false, true], [false, true], [false, false], [true, true]]

  /**
   * Whatever `RunEpisode` reports about a layout of four tiles of 2 over a
   * capacity of 8, all flags clear, and the assignments above: every
   * assignment is new, the flags of 1, 3, 6 and 7 are set, the prefix sums
   * from a count of 0 are 1, 2, 2, 4, the count becomes 4, and the stack
   * is 1, 3, 6, 7.
   */
  lemma WorkedEpisode(L: Layout, p: seq<bool>, q: seq<bool>, added: seq<seq<nat>>)
    requires L.ts == 2 && L.nt == 4 && L.cap == 8 && p == seq(8, _ => false)
    requires ViewsApplied(L, p, q, Updates, added)
    ensures added == Updates
    ensures q == [false, true, false, true, false, false, true, true]
    ensures Scan(0, Lengths(added)) == [1, 2, 2, 4] && 0 + Sum(Lengths(added)) == 4
    ensures Committed([], added, L.ts, L.nt) == [1, 3, 6, 7]
  {
    WorkedViews(L, p, q, added);
    WorkedScan();
    WorkedStack();
  }

  /** The views of the worked episode: each tile's assignments are all new. */
  lemma WorkedViews(L: Layout, p: seq<bool>, q: seq<bool>, added: seq<seq<nat>>)
    requires L.ts == 2 && L.nt == 4 && L.cap == 8 && p == seq(8, _ => false)
    requires ViewsApplied(L, p, q, Updates, added)
    ensures added == Updates
    ensures q == [false, true, false, true, false, false, true, true]
  {
    WorkedTile(L, p, q, added, 0);
    WorkedTile(L, p, q, added, 1);
    WorkedTile(L, p, q, added, 2);
    WorkedTile(L, p, q, added, 3);
    assert q == q[0..2] + q[2..4] + q[4..6] + q[6..8];
  }

  /** Tile `u` of the worked episode starts with both of its flags clear, and every assignment of its view is new. */
  lemma WorkedTile(L: Layout, p: seq<bool>, q: seq<bool>, added: seq<seq<nat>>, u: nat)
    requires L.ts == 2 && L.nt == 4 && L.cap == 8 && p == seq(8, _ => false) && u < 4
    requires ViewsApplied(L, p, q, Updates, added)
    ensures q[2 * u..2 * u + 2] == TileFlags[u] && added[u] == Updates[u]
  {
    WorkedAssigns();
    OffsetIsProduct(u, 2);
    OffsetIsProduct(u + 1, 2);
    assert Lo(L, u) == 2 * u && Hi(L, u) == 2 * u + 2;
    assert p[2 * u..2 * u + 2] == [false, false];
  }

  /** What the worked episode's assignments do to a tile whose flags are clear. */
  lemma WorkedAssigns()
    ensures AfterAssigns([false, false], [1], 1) == [false, true] && NewlyAssigned([false, false], [1], 1) == [1]
    ensures AfterAssigns([false, false], [], 0) == [false, false] && NewlyAssigned([false, false], [], 0) == []
    ensures AfterAssigns([false, false], [0, 1], 2) == [true, true] && NewlyAssigned([false, false], [0, 1], 2) == [0, 1]
  {
    assert AfterAssigns([false, false], [0, 1], 1) == [true, false];
  }

  /** The prefix sums of the worked episode's counts, from a count of 0. */
  lemma WorkedScan()
    ensures Lengths(Updates) == [1, 1, 0, 2]
    ensures Scan(0, Lengths(Updates)) == [1, 2, 2, 4] && Sum(Lengths(Updates)) == 4
  {
    var counts := [1, 1, 0, 2];
    assert Lengths(Updates) == counts;
    assert [1][..0] == [] && Scan(0, [1]) == [1];
    assert [1, 1][..1] == [1] && Scan(0, [1, 1]) == [1, 2];
    assert [1, 1, 0][..2] == [1, 1] && Scan(0, [1, 1, 0]) == [1, 2, 2];
    assert counts[..3] == [1, 1, 0] && Scan(0, counts) == [1, 2, 2, 4];
  }

  /** The stack of the worked episode: the tiles' additions, raised to global indices, in tile order. */
  lemma WorkedStack()
    ensures Committed([], Updates, 2, 4) == [1, 3, 6, 7]
  {
    OffsetIsProduct(1, 2);
    OffsetIsProduct(2, 2);
    OffsetIsProduct(3, 2);
    assert Raise([1], 0) == [1] && Raise([1], 2) == [3] && Raise([], 4) == [] && Raise([0, 1], 6) == [6, 7];
  }
}
