# ALP/GraphBLAS core pieces, modelled in Dafny

This project models three parts of the ALP/GraphBLAS C++ template library:

- **Sparsity coordinates of the nonblocking backend** (`nonblocking/coordinates.hpp`). A vector's sparsity pattern is kept two ways:
  - a flag array `_assigned` says which indices are present;
  - a stack `_stack` lists the present indices in insertion order, with `_n` of them.

  On top of this sit the tile protocol of the pipelined execution:
  - per-tile local stacks carved out of one buffer;
  - their new-nonzero counters;
  - a prefix sum over those counters;
  - the copy of each tile's new indices into the global stack.

  The model is the class `NonblockingCoordinates.Coordinates`. Its flag array and its index memory are Dafny arrays (`present`, `mem`). The C++ pointers into them become offsets (`aLo`, `sLo`, `localBuffer`, `localNewNnzs`, `prefSum`).
  - `Presence()` and `Stack()` are the abstract state.
  - `Valid()` is the invariant that ties them together: the bounds hold and the stack lists every present index exactly once. It has no exception for dense structures. The source also tolerates a dense structure whose stack is stale. The model admits such a state only as the starting state of `LocalAssignAll(true)`: its `maybeInvalid` flag lifts the `Valid()` requirement, and it leaves a valid structure behind.
- **n-dimensional matrix generators** (`utils/ndim_matrix_builders.hpp`). These are iterators that emit the nonzeroes of a stencil matrix over an n-dimensional grid, and of a coarsening matrix between two grids.
  - `MixedRadix` models `row_generator`: mixed-radix conversion between row numbers and grid coordinates, and the row increment.
  - `NdimGenerators` models `matrix_generator_iterator` and `coarsener_generator_iterator` as classes over arrays.
- **Raw folds of the banshee backend** (`banshee/blas1-raw.hpp`). These are both overloads of `foldl_from_raw_matrix_to_vector`. Each folds the columns of a column-major `n x K` matrix into a vector, optionally skipping one column.
  - The masked overload updates the vector's sparsity through `Coordinates`.
  - The unmasked overload uses a blocked loop followed by a scalar coda.

  Operators are uninterpreted Dafny functions over type parameters.

`TileEpisode` runs one whole episode of the tile protocol over all tiles and proves its promise. Afterwards the structure is valid again, and its stack is the old stack followed by every tile's new indices in tile order. Each of those indices lies in its tile, is present, and was not on the old stack. `EpisodeExample` works through one episode with concrete numbers.

Helper modules `SeqFacts` (distinctness and cardinality of index lists) and `PrefixSums` (sums and inclusive scans) hold the facts shared by the models.

## Model

| member | source | states |
|---|---|---|
| NonblockingCoordinates.AlignUp | include/graphblas/nonblocking/coordinates.hpp:202-208 | the stack's aligned start is a multiple of the index size, at most one index size minus one byte after the raw buffer's start |
| NonblockingCoordinates.StackCarveFits | include/graphblas/nonblocking/coordinates.hpp:99-127 | a raw buffer of `bufferSize(dim)` bytes holds the aligned stack of `dim` indices followed by the scratch and two prefix indices (`_buffer = _stack + dim`), so the stack start and the slot count it gives meet `Set`'s requirement; `arraySize(dim)` bytes hold `dim` flags; the extra element of `stackSize` is what pays for the alignment |
| NonblockingCoordinates.Wrap | include/graphblas/nonblocking/coordinates.hpp:531 | the unsigned 64-bit result of a `size_t` subtraction: identity on representable values, plus 2^64 on negative ones |
| NonblockingCoordinates.EmptyConsistent | include/graphblas/nonblocking/coordinates.hpp:368-374 | an empty stack is consistent with the flags exactly when no flag is set |
| NonblockingCoordinates.DenseIffFull | include/graphblas/nonblocking/coordinates.hpp:376-378 | for a consistent stack, `_n == _cap` holds exactly when every flag is set |
| NonblockingCoordinates.PushKeepsConsistent | include/graphblas/nonblocking/coordinates.hpp:240-246 | pushing an absent index and setting its flag keeps flags and stack consistent, and there was room for it |
| NonblockingCoordinates.IndicesBelowFacts | include/graphblas/nonblocking/coordinates.hpp:294-299 | the ascending scan for indices with a given flag lists exactly those indices, in increasing order |
| NonblockingCoordinates.FilledConsistent | include/graphblas/nonblocking/coordinates.hpp:283-304 | appending the unset indices to a consistent stack gives a consistent stack for the all-set flags |
| NonblockingCoordinates.UnsetCount | include/graphblas/nonblocking/coordinates.hpp:301 | a consistent stack plus the unset indices has exactly `_cap` entries, so `_n == _cap` afterwards |
| NonblockingCoordinates.IdentityConsistent | include/graphblas/nonblocking/coordinates.hpp:260-264 | all flags set with stack `0, 1, ..., cap-1` is consistent |
| NonblockingCoordinates.OffsetStrictMono | include/graphblas/nonblocking/coordinates.hpp:420-422 | tile `t`'s local buffer of `tile_size + 1` slots ends at or before tile `u`'s starts, for `t < u` |
| NonblockingCoordinates.WindowConsistent | include/graphblas/nonblocking/coordinates.hpp:462-470 | the stack entries in `[lo, hi)`, shifted by `lo`, form a consistent stack for the tile's flags |
| NonblockingCoordinates.TileScansAgree | include/graphblas/nonblocking/coordinates.hpp:456-470 | the flag scan and the stack walk collect the same set of local indices, with the same count, at most the tile width |
| NonblockingCoordinates.TileListConsistent | include/graphblas/nonblocking/coordinates.hpp:456-470 | whichever branch is taken, the tile's local stack is consistent with the tile's slice of the flags |
| NonblockingCoordinates.CollectFlags | include/graphblas/nonblocking/coordinates.hpp:457-461 | writes the set flags of `[lo, hi)`, in ascending order and shifted by `lo`, and their count; no other slot changes |
| NonblockingCoordinates.CollectStack | include/graphblas/nonblocking/coordinates.hpp:463-469 | writes the stack entries inside `[lo, hi)`, in stack order and shifted by `lo`, and their count; no other slot changes |
| NonblockingCoordinates.InitTile | include/graphblas/nonblocking/coordinates.hpp:450-473 | memory becomes the old memory with the tile segment holding count and list, and the tile's new-nonzero counter zeroed |
| NonblockingCoordinates.JoinSegment | include/graphblas/nonblocking/coordinates.hpp:678-692 | each global slot receives its local index plus `lower_bound`, the tile counter becomes 0, and nothing else changes |
| NonblockingCoordinates.ChunkedScan | include/graphblas/nonblocking/coordinates.hpp:580-635 | the parallel three-phase scan over cuts that split the tiles into non-empty chunks yields the inclusive prefix sums plus `_n` |
| NonblockingCoordinates.ScanCounters | include/graphblas/nonblocking/coordinates.hpp:572-650 | both branches write exactly `Scan(_n, counters)` into the prefix buffer, and the last slot is `_n + Sum(counters)` |
| NonblockingCoordinates.UnsetFlags | include/graphblas/nonblocking/coordinates.hpp:321-330 | resetting the flags at the stacked indices leaves a flag set only if it was set and not stacked |
| NonblockingCoordinates.ClearFlags | include/graphblas/nonblocking/coordinates.hpp:316-318 | clears exactly the flags of `[from, from+len)` |
| NonblockingCoordinates.Coordinates.constructor | include/graphblas/nonblocking/coordinates.hpp:129-133 | an empty, valid structure of capacity 0 |
| NonblockingCoordinates.Coordinates.Set | include/graphblas/nonblocking/coordinates.hpp:180-233 | null storage gives capacity 0; otherwise the flags and stack are attached with `_n == 0`, and uninitialised flags are cleared; valid iff no flag is set |
| NonblockingCoordinates.Coordinates.Assign | include/graphblas/nonblocking/coordinates.hpp:235-250 | returns whether `i` was already present (or the structure dense); afterwards `i` is present and the stack grew by `i` exactly when it was not |
| NonblockingCoordinates.Coordinates.IsEmpty | include/graphblas/nonblocking/coordinates.hpp:368-374 | true iff no index is present |
| NonblockingCoordinates.Coordinates.IsDense | include/graphblas/nonblocking/coordinates.hpp:376-378 | true iff every index is present |
| NonblockingCoordinates.Coordinates.Size | include/graphblas/nonblocking/coordinates.hpp:380-382 | the capacity, which is the length of the presence map |
| NonblockingCoordinates.Coordinates.Assigned | include/graphblas/nonblocking/coordinates.hpp:384-387 | true iff index `i` is present, iff `i` is on the stack |
| NonblockingCoordinates.Coordinates.Nonzeroes | include/graphblas/nonblocking/coordinates.hpp:395-398 | the number of distinct present indices on the stack, at most the capacity |
| NonblockingCoordinates.Coordinates.Index | include/graphblas/nonblocking/coordinates.hpp:400-403 | a present index: `k` itself when dense, else the `k`-th stack entry |
| NonblockingCoordinates.Coordinates.Clear | include/graphblas/nonblocking/coordinates.hpp:306-333 | afterwards no index is present and `_n == 0`; flags outside the structure are untouched |
| NonblockingCoordinates.Coordinates.LocalClear | include/graphblas/nonblocking/coordinates.hpp:335-362 | as `Clear`, and the local-stack counter in front of the stack becomes 0 |
| NonblockingCoordinates.Coordinates.LocalAssignAll | include/graphblas/nonblocking/coordinates.hpp:252-281 | afterwards all indices are present with stack `0..cap-1` (unless already dense and not `maybe_invalid`), and the counter in front of the stack is 0 |
| NonblockingCoordinates.Coordinates.FillUnset | include/graphblas/nonblocking/coordinates.hpp:292-297 | flags become all set and the stack becomes the old stack followed by the old unset indices in ascending order |
| NonblockingCoordinates.Coordinates.LocalAssignAllNotAlreadyAssigned | include/graphblas/nonblocking/coordinates.hpp:283-304 | afterwards all indices are present, `_n == _cap`, and the new stack is the old one followed by the previously absent indices |
| NonblockingCoordinates.Coordinates.LocalCoordinatesInit | include/graphblas/nonblocking/coordinates.hpp:405-426 | tile `t`'s buffer starts at `t * (tile_size + 1)` after the stack; the counters and prefix buffer follow all tiles; segments are disjoint |
| NonblockingCoordinates.Coordinates.SegmentsDisjoint | include/graphblas/nonblocking/coordinates.hpp:420-422 | the local buffers of two distinct tiles do not overlap |
| NonblockingCoordinates.Coordinates.AsyncSubsetInit | include/graphblas/nonblocking/coordinates.hpp:442-474 | capacity 0 changes nothing; otherwise the tile segment holds the count and list of the tile's present indices (consistent with its flags), and its new counter is 0 |
| NonblockingCoordinates.Coordinates.AsyncSubset | include/graphblas/nonblocking/coordinates.hpp:483-508 | a fresh view sharing the flags from `lo`, capacity `hi - lo`, stack at the tile's local stack, `_n` = initial count + new count, no buffer |
| NonblockingCoordinates.Coordinates.ViewSees | include/graphblas/nonblocking/coordinates.hpp:483-508 | the view's presence is the parent's slice `[lo, hi)` and its stack is the tile's local stack; the view is valid iff the two are consistent |
| NonblockingCoordinates.Coordinates.AsyncJoinSubset | include/graphblas/nonblocking/coordinates.hpp:516-532 | only the tile's new-nonzero counter changes, to the view's `_n` minus the initial count (unsigned) |
| NonblockingCoordinates.Coordinates.NewNonZeroes | include/graphblas/nonblocking/coordinates.hpp:534-548 | true iff the capacity is positive and some tile's new-nonzero counter is positive |
| NonblockingCoordinates.Coordinates.PrefixSumComputation | include/graphblas/nonblocking/coordinates.hpp:550-656 | the prefix buffer becomes `Scan(_n, counters)` and `_n` grows by the sum of all counters |
| NonblockingCoordinates.Coordinates.JoinDest | include/graphblas/nonblocking/coordinates.hpp:678 | a tile's destination range ends at its prefix sum and lies inside the global stack |
| NonblockingCoordinates.Coordinates.JoinSubset | include/graphblas/nonblocking/coordinates.hpp:662-693 | the tile's new local indices, shifted by `lower_bound`, land in the global stack just before the tile's prefix sum; the tile counter becomes 0; nothing else changes |
| PrefixSums.ScanAt | include/graphblas/nonblocking/coordinates.hpp:574-576 | the sequential scan's slot `t` is `_n` plus the sum of counters `0..t` |
| PrefixSums.DestinationsDisjoint | include/graphblas/nonblocking/coordinates.hpp:678-689 | the ranges tiles copy into are ordered and disjoint, and all end by `_n + Sum` |
| PrefixSums.DestinationsCover | include/graphblas/nonblocking/coordinates.hpp:678-689 | every slot between `_n` and the new `_n` is written by some tile |
| NonblockingCoordinates.Coordinates.InitTileAt | include/graphblas/nonblocking/coordinates.hpp:442-474 | on a structure of positive capacity: the flags and the stack are untouched, and the memory is the old memory with the tile segment holding the count and list of the tile's present offsets and the tile's counter zeroed |
| NonblockingCoordinates.TileInitEffect | include/graphblas/nonblocking/coordinates.hpp:442-474 | after `asyncSubsetInit` the global stack is untouched, the count slot holds the length of the local stack, the local stack is consistent with the tile's flags, and only the tile's counter changes, to 0 |
| TileEpisode.CommittedLength | include/graphblas/nonblocking/coordinates.hpp:655 | the old stack followed by the first `m` tiles' additions is as long as the old stack plus their counts, which is the new `_n` |
| TileEpisode.TileAdditions | include/graphblas/nonblocking/coordinates.hpp:684-686 | a tile's additions, raised by `lower_bound`, are distinct, lie in `[lower_bound, upper_bound)`, are present afterwards, and were not on the old stack |
| TileEpisode.CommitTileStep | include/graphblas/nonblocking/coordinates.hpp:662-693 | committing one more tile after the tiles below it keeps the stack free of repeats and covers every present index below the tile's upper bound |
| TileEpisode.CommittedInvariant | include/graphblas/nonblocking/coordinates.hpp:662-693 | after the first `m` tiles commit, the stack lists once each the old entries and exactly the present indices below tile `m`'s lower bound |
| TileEpisode.EpisodeConsistent | include/graphblas/nonblocking/coordinates.hpp:684-686 | when every tile was seeded with its present offsets and its view kept its local stack consistent, the old stack followed by all tiles' additions is consistent with the new flags, and its length is the old count plus all additions |
| TileEpisode.EpisodeAdditions | include/graphblas/nonblocking/coordinates.hpp:684-686 | every index an episode commits lies in its tile, is present afterwards, and was not on the old stack |
| TileEpisode.AssignsStep | include/graphblas/nonblocking/coordinates.hpp:235-250 | one more `assign` sets the flag of its offset, and adds the offset to the newly assigned list exactly when its flag was not yet set |
| TileEpisode.ApplyAssigns | include/graphblas/nonblocking/coordinates.hpp:235-250 | `assign` of each offset in turn through a view keeps it valid; its flags and stack are those the assignments give; only its own flags and the stack slots above its old top change |
| TileEpisode.AssignNext | include/graphblas/nonblocking/coordinates.hpp:235-250 | one `assign` through a view advances that account by one offset |
| TileEpisode.SeedTile | include/graphblas/nonblocking/coordinates.hpp:442-474 | `asyncSubsetInit` on tile `t` keeps the structure valid and its flags; the tile is seeded with its present offsets, once each; only the tile's segment and counter change |
| TileEpisode.SeedTiles | include/graphblas/nonblocking/coordinates.hpp:442-474 | `asyncSubsetInit` on every tile, in tile order, keeps the structure valid, leaves the stack region alone, and seeds every tile |
| TileEpisode.SeededView | include/graphblas/nonblocking/coordinates.hpp:483-508 | the view of a seeded tile, with `_n` the seed's length, is valid, sees the tile's slice of the flags, and its stack is the seed |
| TileEpisode.AssignView | include/graphblas/nonblocking/coordinates.hpp:483-508 | `asyncSubset` then the assignments: the tile's local stack holds the seed followed by the newly assigned offsets, the flags change only inside the tile as the assignments say, and the local stack stays consistent with them |
| TileEpisode.CloseView | include/graphblas/nonblocking/coordinates.hpp:516-532 | `asyncJoinSubset` records the view's additions in the tile's counter; the tile is gathered, only its slots changed, and the flags are untouched |
| TileEpisode.GatherTile | include/graphblas/nonblocking/coordinates.hpp:483-532 | the view of tile `t`, its assignments and `asyncJoinSubset`: the tile's flags are those the assignments give, its local stack gains the newly assigned offsets and its counter their number, and nothing outside the tile changes |
| TileEpisode.GatherTiles | include/graphblas/nonblocking/coordinates.hpp:483-532 | the views of all tiles, in tile order: every tile is gathered from the flags before the views, and the stack region is untouched |
| TileEpisode.GatherLoopStep | include/graphblas/nonblocking/coordinates.hpp:483-532 | after one more tile's view, the tiles before it and it are gathered, the tiles after it are still seeded with untouched flags, and the stack region is untouched |
| TileEpisode.EpisodeFromGather | include/graphblas/nonblocking/coordinates.hpp:442-532 | once every tile is gathered, every tile went through its seeding and its view, as `EpisodeConsistent` needs |
| TileEpisode.ViewsFromGather | include/graphblas/nonblocking/coordinates.hpp:483-508 | once every tile is gathered, every tile's flags and additions are those its assignments give |
| TileEpisode.GatherEpisode | include/graphblas/nonblocking/coordinates.hpp:442-532 | seeding and all views: every view's assignments are applied, the stack and `_n` are unchanged, the counters hold the tiles' numbers of additions, and the old stack followed by the additions is consistent with the new flags |
| TileEpisode.PrepareCommit | include/graphblas/nonblocking/coordinates.hpp:550-656 | `prefixSumComputation` writes only the prefix slots, so every tile stays gathered |
| TileEpisode.ScanEpisode | include/graphblas/nonblocking/coordinates.hpp:550-656 | `prefixSumComputation` after the views: the flags are untouched, `_n` grows by all additions, and every tile is ready to commit with none committed yet |
| TileEpisode.JoinTile | include/graphblas/nonblocking/coordinates.hpp:662-693 | `joinSubset` on tile `t` copies its additions, raised by `lower_bound`, to the global stack at the tile's prefix sum minus its count, zeroes its counter, and changes nothing else |
| TileEpisode.CommitStep | include/graphblas/nonblocking/coordinates.hpp:662-693 | one `joinSubset` extends the committed stack by tile `t`'s additions raised by `lower_bound`, clears its counter, and keeps every later tile ready to commit |
| TileEpisode.CommitTile | include/graphblas/nonblocking/coordinates.hpp:662-693 | `joinSubset` on tile `t` advances the committed tiles by one |
| TileEpisode.CommitTiles | include/graphblas/nonblocking/coordinates.hpp:662-693 | `joinSubset` on every tile, in tile order, leaves the old stack followed by every tile's additions raised to global indices, and every counter 0 |
| TileEpisode.CommitRead | include/graphblas/nonblocking/coordinates.hpp:662-693 | after the last `joinSubset` the stack is the committed one, the prefix sums are the running totals from the old `_n`, and every counter is 0 |
| TileEpisode.JoinEpisode | include/graphblas/nonblocking/coordinates.hpp:662-693 | `joinSubset` on every tile after `prefixSumComputation`: the stack is the old one followed by all additions in tile order, the prefix sums are the running totals from the old `_n`, the counters are 0 |
| TileEpisode.SettleEpisode | include/graphblas/nonblocking/coordinates.hpp:550-693 | `prefixSumComputation` then `joinSubset` on every tile: the stack is the old one followed by all additions in tile order, `_n` grows by their number, the counters are cleared and the flags are untouched |
| TileEpisode.Episode | include/graphblas/nonblocking/coordinates.hpp:442-693 | a whole episode from a valid structure: views applied, additions fresh, stack and `_n` as the commits say, prefix sums the running totals, counters cleared |
| TileEpisode.RunEpisode | include/graphblas/nonblocking/coordinates.hpp:442-693 | a whole episode in tile order (`asyncSubsetInit`, `asyncSubset`, `assign`, `asyncJoinSubset`, `prefixSumComputation`, `joinSubset`) leaves the structure valid; every view's assignments are applied; the stack is the old stack followed by every tile's new indices, shifted by `lower_bound`, in tile order; each of them lies in its tile, is present and was not on the old stack; `_n` grows by their number; the counters are 0 |
| EpisodeExample.WorkedScan | include/graphblas/nonblocking/coordinates.hpp:572-576 | counters (1, 1, 0, 2) from `_n = 0` give the prefix sums (1, 2, 2, 4) and the new `_n` 4 |
| EpisodeExample.WorkedStack | include/graphblas/nonblocking/coordinates.hpp:678-689 | with tile size 2, tile additions {1}, {1}, {}, {0, 1} commit to the global stack (1, 3, 6, 7) |
| EpisodeExample.WorkedEpisode | include/graphblas/nonblocking/coordinates.hpp:442-693 | capacity 8, tile size 2, no index present: views that add 1, 3, 6 and 7 leave flags 1, 3, 6, 7 set, prefix sums (1, 2, 2, 4), `_n` 4 and the stack (1, 3, 6, 7) |
| MixedRadix.CoordsToRowcol | include/graphblas/utils/ndim_matrix_builders.hpp:143-151 | the row number is the mixed-radix value of the coordinates |
| MixedRadix.RoundTrip | include/graphblas/utils/ndim_matrix_builders.hpp:125-151 | converting a row to coordinates and back gives the row again |
| MixedRadix.CoordsUnique | include/graphblas/utils/ndim_matrix_builders.hpp:125-151 | coordinates in range (last one unbounded) are the only coordinates of their row number |
| MixedRadix.CoordsInRange | include/graphblas/utils/ndim_matrix_builders.hpp:116-124 | every coordinate but the last is below its size |
| MixedRadix.RowToCoords | include/graphblas/utils/ndim_matrix_builders.hpp:125-136 | the corrected conversion fills the coordinate array with the mixed-radix digits of the row |
| MixedRadix.RowToCoordsAsWrittenLosesRow | include/graphblas/utils/ndim_matrix_builders.hpp:131-134 | as written, sizes (4,3,2) and row 5 give (1,0,0), which is row 1, not (1,1,0) |
| MixedRadix.RowToCoordsAsWrittenDividesByZero | include/graphblas/utils/ndim_matrix_builders.hpp:131-134 | as written, sizes (1,1,5) and row 3 divide by zero |
| MixedRadix.RowToCoordsAsWrittenWrapsLine | include/graphblas/utils/ndim_matrix_builders.hpp:135 | as written, one dimension of size 3 and row 4 give coordinate 1, which is row 1 |
| MixedRadix.SuccRow | include/graphblas/utils/ndim_matrix_builders.hpp:160-176 | the odometer step raises the row number by exactly one and stays in range |
| MixedRadix.SuccIsNextRow | include/graphblas/utils/ndim_matrix_builders.hpp:160-176 | the odometer step yields the coordinates of the next row |
| MixedRadix.IncrementRow | include/graphblas/utils/ndim_matrix_builders.hpp:160-176 | the corrected increment leaves the coordinates of row `RowOf(old) + 1` |
| MixedRadix.IncrementRowAsWrittenGoesBack | include/graphblas/utils/ndim_matrix_builders.hpp:166-175 | as written, one dimension of size 3 at coordinate 2 moves to 1 instead of 3 |
| MixedRadix.IncrementRowAsWrittenStalls | include/graphblas/utils/ndim_matrix_builders.hpp:166-175 | as written, sizes (1,3) at (0,0) stay at (0,0) instead of reaching (0,1) |
| NdimGenerators.CheckSizes | include/graphblas/utils/ndim_matrix_builders.hpp:97-106 | no error iff every size is positive; otherwise the zero-size error |
| NdimGenerators.CheckMatrixArgs | include/graphblas/utils/ndim_matrix_builders.hpp:219-229 | each of the three errors is reported exactly when its check is the first to fail; no error iff all hold |
| NdimGenerators.StepAcceptedIsStricter | include/graphblas/utils/ndim_matrix_builders.hpp:440-442 | an exact multiple passes the written guard, and the intended guard means `finer == step * coarser` |
| NdimGenerators.CheckCoarsenerArgs | include/graphblas/utils/ndim_matrix_builders.hpp:437-449 | no error iff sizes are positive and every finer size is a positive multiple; `ZeroSize` iff some coarse size is 0; with positive sizes that fail, the error is `NotMultiple(d)` for the first dimension `d` that fails, as line 442 throws |
| NdimGenerators.CoarsenerGuardAdmitsNonMultiple | include/graphblas/utils/ndim_matrix_builders.hpp:442 | the written guard accepts coarse 2 and finer 5, which is not a multiple; for coarse grid (2, 2) and finer grid (5, 2), the emitted coarse point (0, 1) (row 2 of 4) gets column 4, while the scaled point's row in the finer grid is 5 |
| NdimGenerators.HaloBoxInGrid | include/graphblas/utils/ndim_matrix_builders.hpp:338-355 | the halo box is non-empty, and its points are exactly the grid points within `halo` of the row point in every dimension (both directions) |
| NdimGenerators.ColumnStepInBox | include/graphblas/utils/ndim_matrix_builders.hpp:374-393 | a column step inside the halo box stays inside it |
| NdimGenerators.ColumnStepAdvances | include/graphblas/utils/ndim_matrix_builders.hpp:374-393 | if not every coordinate is at its maximum, a column step raises the point's rank in the box by exactly one |
| NdimGenerators.ColumnStepWraps | include/graphblas/utils/ndim_matrix_builders.hpp:374-393 | if every coordinate is at its maximum, a column step returns to the first point of the box |
| NdimGenerators.BoxRankInjective | include/graphblas/utils/ndim_matrix_builders.hpp:374-393 | distinct points of the halo box have distinct walk positions, so with `BoxRankRange`, `BoxRankFirst`, `ColumnStepAdvances` and `BoxRankLast` the iterator emits each halo neighbour exactly once |
| NdimGenerators.BoxRankRange | include/graphblas/utils/ndim_matrix_builders.hpp:374-393 | each point of the box has a rank between 0 and the box size |
| NdimGenerators.BoxRankFirst | include/graphblas/utils/ndim_matrix_builders.hpp:361-365 | the first point of the box has rank 0 |
| NdimGenerators.BoxRankLast | include/graphblas/utils/ndim_matrix_builders.hpp:374-393 | the point with every coordinate at its maximum has the last rank |
| NdimGenerators.MatrixGeneratorIterator.constructor | include/graphblas/utils/ndim_matrix_builders.hpp:219-236 | the row point is the coordinates of `row`, the column point is the first point of its halo box (rank 0), and column and value are consistent |
| NdimGenerators.MatrixGeneratorIterator.V | include/graphblas/utils/ndim_matrix_builders.hpp:322-324 | the diagonal value exactly when column equals row, the off-diagonal value otherwise |
| NdimGenerators.MatrixGeneratorIterator.NotEquals | include/graphblas/utils/ndim_matrix_builders.hpp:274-290 | `!=` is the negation of `==`, which compares row and column |
| NdimGenerators.MatrixGeneratorIterator.UpdateColumnMaxValues | include/graphblas/utils/ndim_matrix_builders.hpp:338-342 | each maximum is `min(size - 1, row coordinate + halo)` |
| NdimGenerators.MatrixGeneratorIterator.ResetColumnCoords | include/graphblas/utils/ndim_matrix_builders.hpp:352-355 | only coordinate `dim` changes, to `max(0, row coordinate - halo)` without unsigned wrap |
| NdimGenerators.MatrixGeneratorIterator.ResetAllColumns | include/graphblas/utils/ndim_matrix_builders.hpp:361-365 | the column point becomes the first point of the halo box |
| NdimGenerators.MatrixGeneratorIterator.IncrementColumn | include/graphblas/utils/ndim_matrix_builders.hpp:374-393 | rewinds iff every coordinate was at its maximum; the new point is the odometer step, and without rewind its rank rises by one |
| NdimGenerators.MatrixGeneratorIterator.AdvanceRow | include/graphblas/utils/ndim_matrix_builders.hpp:254-258 | the row rises by one, the row point is its coordinates, and the column point is the first point of the new halo box |
| NdimGenerators.MatrixGeneratorIterator.Next | include/graphblas/utils/ndim_matrix_builders.hpp:251-265 | either the next column in the halo box (rank + 1, same row) or, after the last one, the next row at rank 0; the invariant is kept |
| NdimGenerators.FinerColIsFineRow | include/graphblas/utils/ndim_matrix_builders.hpp:531-540 | with exact multiples, the finer column is the row number, in the finer grid, of the scaled coarse point |
| NdimGenerators.ScaledInGrid | include/graphblas/utils/ndim_matrix_builders.hpp:531-540 | the scaled coarse point lies inside the finer grid |
| NdimGenerators.CoordsToFinerCol | include/graphblas/utils/ndim_matrix_builders.hpp:531-540 | the loop computes the finer-grid column of the coarse point |
| NdimGenerators.FillSteps | include/graphblas/utils/ndim_matrix_builders.hpp:439-448 | each step is the finer size divided by the coarse size |
| NdimGenerators.CoarsenerGeneratorIterator.constructor | include/graphblas/utils/ndim_matrix_builders.hpp:437-456 | the row point is the coordinates of `row`, and the column is the finer-grid row of the scaled point |
| NdimGenerators.CoarsenerGeneratorIterator.FinerMatches | include/graphblas/utils/ndim_matrix_builders.hpp:437-456 | the iterator's column formula agrees with the finer-grid row of the scaled point |
| NdimGenerators.CoarsenerGeneratorIterator.V | include/graphblas/utils/ndim_matrix_builders.hpp:520-522 | always 1 |
| NdimGenerators.CoarsenerGeneratorIterator.NotEquals | include/graphblas/utils/ndim_matrix_builders.hpp:479-491 | `!=` is the negation of `==`, which compares row and column |
| NdimGenerators.CoarsenerGeneratorIterator.Next | include/graphblas/utils/ndim_matrix_builders.hpp:468-474 | the row rises by one, the row point is its coordinates, and the column is recomputed consistently |
| BansheeRawFold.Cell | include/graphblas/banshee/blas1-raw.hpp:168 | entry `(i, k)` of the column-major matrix is element `k * n + i`, which lies inside the matrix |
| BansheeRawFold.FoldLeftSnoc | include/graphblas/banshee/blas1-raw.hpp:300-307 | folding one more input applies the operator once more on the right |
| BansheeRawFold.RowInputs | include/graphblas/banshee/blas1-raw.hpp:300-307 | row `i` without column `skip`, in column order; the whole row when `skip == K` |
| BansheeRawFold.FoldColsIsFold | include/graphblas/banshee/blas1-raw.hpp:300-307 | the column-by-column loop with the skip computes the left fold of `op` over the row's kept inputs |
| BansheeRawFold.FoldColumnBlock | include/graphblas/banshee/blas1-raw.hpp:275-281 | each buffer slot is folded with column `k`'s element of its row |
| BansheeRawFold.FoldBlock | include/graphblas/banshee/blas1-raw.hpp:270-295 | the rows of one block receive the fold over all kept columns; nothing outside the block changes |
| BansheeRawFold.WriteBack | include/graphblas/banshee/blas1-raw.hpp:292-294 | the block buffer lands in the entries from `i` on, and no other entry changes |
| BansheeRawFold.FoldRow | include/graphblas/banshee/blas1-raw.hpp:300-307 | the coda row receives the fold over all kept columns; nothing else changes |
| BansheeRawFold.FoldBlocked | include/graphblas/banshee/blas1-raw.hpp:269-307 | blocks plus coda give every row `i < n` the per-element fold; rows at or beyond `n` are untouched |
| BansheeRawFold.FoldUnmasked | include/graphblas/banshee/blas1-raw.hpp:219-311 | ILLEGAL iff `K == 0` or `skip > K`, with no change; else SUCCESS, and each `x[i]`, `i < n`, becomes the left fold of `op` over row `i` without column `skip` |
| BansheeRawFold.MaskedColsIsFold | include/graphblas/banshee/blas1-raw.hpp:158-185 | the masked update of an entry is no change if nothing is selected, else the entry becomes present with the left fold of `acc`, seeded with its old value or with its first selected input |
| BansheeRawFold.MaskedColsReadsOnlyKept | include/graphblas/banshee/blas1-raw.hpp:160-169 | the result depends only on matrix entries whose mask is true outside the skipped column |
| BansheeRawFold.FoldMaskedEntry | include/graphblas/banshee/blas1-raw.hpp:169-182 | one selected entry: accumulated if present, else assigned and marked present; only entry `i` changes |
| BansheeRawFold.FoldMaskedColumn | include/graphblas/banshee/blas1-raw.hpp:159-183 | one column of one row advances the masked update by one step |
| BansheeRawFold.FoldMaskedRow | include/graphblas/banshee/blas1-raw.hpp:158-184 | one row receives the masked update over all columns, and the coordinates stay valid |
| BansheeRawFold.FoldMasked | include/graphblas/banshee/blas1-raw.hpp:96-192 | MISMATCH if `n != size`, ILLEGAL if `K == 0` or a skip beyond `K`, with no change; else SUCCESS with each entry `i < n` given the masked update |

## Left out

- Concurrency is not modelled.
  - The OpenMP loops in `set`, `clear` and `localCoordinatesInit` are sequential loops here.
  - The parallel prefix sum is modelled as chunks over explicit cut points (`ChunkedScan`).
  - `Chunks` requires strictly increasing cuts, so every chunk `localRange` gives is assumed non-empty. For an empty chunk the source would read `pref_sum[upper - 1]` outside the chunk (line 607); that case is not modelled.
  - The analytic model that picks thread counts and tile sizes becomes parameters (`ts`, `nt`, `psTileSize`, `cuts`, `bs`).
- `Set` works in index slots and takes the aligned stack start as a parameter. The byte-level alignment step of `set` is modelled on its own, by `AlignUp` and `StackCarveFits`.
- StackCarveFits: covers a dimension of 0 only when the raw buffer is already aligned. `bufferSize(0)` has no spare element, so a misaligned buffer of that size is not shown to hold the scratch and prefix indices.
- LocalCoordinatesInit: requires the whole carve to fit in the scratch buffer, that is `numTiles` segments of `tileSize + 1` slots plus `2 * numTiles` counter and prefix slots (`numTiles * (tileSize + 3) <= buf`). The source asserts only `_buf >= 4 * num_tiles` (coordinates.hpp:415), which is weaker.
- `parbufSize` and `prefixbufSize` depend on `vectorBufferSize` and `maxBufferTiles`, which are not part of this model. `BufferSize` takes that value as a parameter.
- Copy and move constructors and assignment operators of `Coordinates` and of both iterators are left out; they copy fields.
- `mask()` is left out: it forwards to `interpretMask`, which is not part of this model.
- `reset_global_nnz_counter` is left out: it only sets `_n` to 0.
- The global analytic model copy kept by `localCoordinatesInit` is left out.
- Debug printing (`_DEBUG`) and debug-only assertions are left out. Where an assertion states a caller obligation, it becomes a `requires`.
- Exceptions thrown by the generator constructors become the validation methods `CheckSizes`, `CheckMatrixArgs` and `CheckCoarsenerArgs`. The constructors then require their arguments to pass.
- 64-bit overflow of sizes, row numbers and prefix sums is not modelled; these are unbounded naturals. The exception is the one `size_t` subtraction in `asyncJoinSubset`, which is wrapped explicitly (`Wrap`).
- The iterators' `operator*` (the value triple) is left out. Its parts are `I`, `J` and `V`.
- Value types and operators of the raw folds are uninterpreted. Casting and floating point are not modelled.
  - The masked fold takes the element conversion as a parameter `cast`.
  - The unmasked fold's SIMD block size is a parameter `bs > 0`.
- `Coordinates<banshee>` is not part of this model.
  - Its `asyncAssign` and `joinUpdate` are modelled by an immediate `Coordinates.Assign` on the nonblocking coordinates. Whether a later `joinUpdate` happens is not captured.
  - Its buffered update list is left out.
- BansheeRawFold.FoldUnmasked: the source does not compare `n` with the vector size. The model requires `n <= foldInto.Length` rather than modelling an out-of-bounds write.
- BansheeRawFold.FoldMasked: the contract states the presence map and the values. It does not state the order in which newly present indices are pushed onto the stack.
- NonblockingCoordinates.Coordinates.JoinSubset: a single call does not show the global indices to be present or inside `[lower_bound, upper_bound)`; that depends on the earlier steps of the episode. `TileEpisode.TileAdditions` and `TileEpisode.RunEpisode` prove it for a whole episode.
- The tile protocol is modelled as one sequential episode in tile order: every tile is seeded, then every tile's view runs, then the prefix sums, then every tile commits. Interleavings of the pipeline's threads are not modelled.
- A view's updates are modelled as a sequence of `assign` calls with tile-local offsets (`updates[t]`). The pipeline stages that compute them are not part of this model.
- The DIMS == 1 case of `row_to_coords` and `increment_row` follows the documented behaviour. The last coordinate is unbounded, so a single dimension is not wrapped (see Findings).

## Findings

| source | as written | input that shows it | evidently intended | confidence | as-written member | corrected member |
|---|---|---|---|---|---|---|
| include/graphblas/utils/ndim_matrix_builders.hpp:133 | after computing coordinate `i`, the stride is divided by `physical_sizes[i]` | sizes (4,3,2), row 5: gives (1,0,0), whose row is 1 | divide by `physical_sizes[i-1]`, giving (1,1,0) | high, not executed | MixedRadix.RowToCoordsAsWrittenLosesRow | MixedRadix.RowToCoords |
| include/graphblas/utils/ndim_matrix_builders.hpp:133 | the stride can become 0 when a size is 1, and the next coordinate divides by it; `row_generator`'s constructor calls `row_to_coords` (line 105), so this happens before the matrix and coarsener constructors check their own arguments (lines 220, 438) | sizes (1,1,5), row 3: division by zero | the coordinates (0,0,3) | high, not executed | MixedRadix.RowToCoordsAsWrittenDividesByZero | MixedRadix.RowToCoords |
| include/graphblas/utils/ndim_matrix_builders.hpp:135 | with one dimension, the only (last) coordinate is reduced modulo its size | sizes (3), row 4: gives 1, whose row is 1 | the last coordinate is unbounded, as documented, giving 4 | medium, not executed | MixedRadix.RowToCoordsAsWrittenWrapsLine | MixedRadix.RowToCoords |
| include/graphblas/utils/ndim_matrix_builders.hpp:166-175 | with one dimension, the loop wraps the only coordinate and the final increment then raises it | sizes (3), coordinates (2): gives (1) | (3), the next row | medium, not executed | MixedRadix.IncrementRowAsWrittenGoesBack | MixedRadix.IncrementRow |
| include/graphblas/utils/ndim_matrix_builders.hpp:169 | a carry is detected by `new_coord < coord`, which misses the wrap of a size-1 dimension (0 to 0) | sizes (1,3), coordinates (0,0): stays (0,0) | (0,1), the next row | high, not executed | MixedRadix.IncrementRowAsWrittenStalls | MixedRadix.IncrementRow |
| include/graphblas/utils/ndim_matrix_builders.hpp:442 | the guard accepts when `finer / step == coarser`, which holds for non-multiples | coarse (2, 2), finer (5, 2): accepted with steps (2, 1); coarse row 2, point (0, 1), emits column 4 instead of 5 | require `finer % coarser == 0` | high, not executed | NdimGenerators.CoarsenerGuardAdmitsNonMultiple | NdimGenerators.CheckCoarsenerArgs |
