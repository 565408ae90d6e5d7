# Verified model of the CADO-NFS filtering core and its exact arithmetic kernels

This project models, in Dafny 4.11, the parts of CADO-NFS whose correctness rests on an argument that
spans several functions or a whole run, and proves those arguments. `dafny verify dfyconfig.toml` checks
everything.

**Structured Gaussian elimination (`merge`, `replay`).** A row is a strictly increasing sequence of column
numbers whose meaning is a set; addition is symmetric difference. `XorSets` defines sums over GF(2) by
counting, `Elimination` the operations (add a row to another, drop a row) and the theorem about the left
kernel. `SpanningTree` is Prim's algorithm on arrays, with minimality proved by an exchange argument over a
cut definition of connectivity. `SortedRows`, `ColumnWeights` and `MergeMatrix` are the row additions and
the frozen one-byte column weights, `MergeTree`, `HistoryLines` and `Merge` one merge, `Transpose` the
construction of the row lists, `MergePass` the threads of a pass, `WeightedPass` the same with the column
weights that they update cell by cell, `MergeRun` and `WeightedRun` whole runs, `HistoryText` the printed
history and its parser, `Replay` the other program, and `Pipeline` the agreement of the two. `Collections`
and `Arithmetic` hold what several modules need.

A pass is a state machine over atomic actions: looking at a busy flag, claiming it, one row addition, one row
removal. A schedule is any sequence of candidate numbers. In `WeightedPass` each row operation is preceded by
one atomic weight update per cell, in any order and mixed with the actions of all other threads; the invariant
is that a stored weight of at most 32 is exact for the rows as far as the updates have come, and larger ones
are frozen. Every pass ends, and between passes weights and rows agree, so the row lists of the next pass are
right. A run therefore needs no assumption about its candidates beyond exact small weights at the start.
A candidate is discarded only because another one has reserved one of its rows, and a weight is frozen only
because its column has been in more than 32 rows.

**Purge.** `PurgeGraph` holds the combinatorics (largest singleton-free subset, components of the graph whose
links are columns of weight two), `PurgeMatrix` the mutable matrix with saturating weights, `Singletons` and
`SingletonRace` singleton removal for any visiting order and for any interleaving of its atomic actions,
`Cliques` the component search, `Heaviest` the threads' selection, `CliqueRemoval` the deletions and `Purge`
the driver. The excess is a function of the rows that are left, so a run is described by the rows after each
step.

**Exact arithmetic.** `ModularInverse` and `MaskedInverse` are the binary Euclid inverse and its two masked
vector forms; `Limbs`, `Montgomery` and `FieldOps` the radix-2^52 field operations for any number of limbs;
`Gf2Poly`, `Gf2Words`, `Karatsuba`, `KaratsubaMul`, `Gf2Mul`, `Gf2Unbalanced` and `Gf2Product` multiplication
in GF(2)[x] on one memory, where overlap of operands, output and scratch is expressible.

**Smaller state machines.** `RowHeap`, `HeapSteps` and `HeapCollection` are the row heap and its copying
garbage collection, `SmAppend` and `SmProtocol` the master/worker protocol, `DependencyGraph`,
`NeededRelations` and `LogPropagation` the reconstruction of logarithms.

Four statements that one might expect are false of the code, and are given with their exact condition.
`merge_do` returns the constant -3 for a column with a single row, so its result is the change in the number
of entries exactly when the column has at least two rows or its only row has three entries
(`Merge.MergeDo`); a row of one entry shows the difference (`Merge.SingleMiscounted`). A history line is
read back as printed exactly when all its numbers fit a signed 32-bit index (`HistoryText.LineRoundTrip`);
a line that destroys one of the rows from 0x8000_0000 on is read back as one that destroys none
(`HistoryText.LargeIndexMisread`). The final comparison of counts in `process_input` of
`compute_needed_rels` succeeds exactly when no wanted logarithm comes from a relation that earlier ones
need already (`NeededRelations.ProcessWanted`); asking twice for the same one is enough to make it fail
(`NeededRelations.RepeatIsNotNew`). And a weight is tested before it is updated, in a step of its own: with the
two in one step small weights stay exact under every interleaving (`ColumnWeights.TogglesExact`), and an
update whose test has become old keeps them exact unless it takes a weight that was frozen meanwhile back
among the small ones (`ColumnWeights.LateToggleExact`), which can happen (`ColumnWeights.OldTestMiscounts`).

The comment at filter/merge_heap.c:131-132 says the list of full pages is sorted by generation; the code
inserts before the page it stops at, and the model follows the code. The fall-through of length zero at
gf2x/gf2x.c:53-54 is modelled as the code has it, and is shown to be harmless when reached from
`gf2x_mul_toom`.

## Model

| member | source | states |
|---|---|---|
| `Elimination.KernelPreserved` | filter/merge.cpp:732-1063 | after any sequence of additions and of drops of rows with a private column, a set of original relations sums to zero iff it is the sum of the relation-sets of a set of live rows that itself sums to zero, and that set of rows is unique |
| `Elimination.RelationSetsNonEmpty` | filter/replay.cpp:767-794 | relation-sets of live rows stay independent, so a row is live iff its relation-set is not empty |
| `Elimination.UniqueChoice` | filter/replay.cpp:394-436 | no two sets of live rows have the same sum of relation-sets |
| `SpanningTree.MinimalSpanningTree` | filter/mst.c:19-62 | for every symmetric weight matrix and m from 2 to 32 the arrays hold a spanning tree grown from vertex 0 whose weight is returned and is least among all spanning trees |
| `SpanningTree.GreedyIsMinimal` | filter/mst.c:36-60 | always attaching by the lightest edge that leaves the reached set gives least total weight |
| `SpanningTree.GrownIsSpanningTree` | filter/mst.c:36-60 | edges attached one new vertex at a time form a spanning tree |
| `SpanningTree.Exchange` | filter/mst.c:36-60 | an edge across a cut can replace an edge of any spanning tree across the same cut |
| `SpanningTree.SpansIffWalks` | filter/mst.c:19-62 | connectivity by cuts and connectivity by walks are the same |
| `SortedRows.AddSorted` | filter/sparse.c:56-213 | the two-pointer loop returns the strictly increasing listing of the symmetric difference |
| `SortedRows.WeightSum` | filter/merge_replay_matrix.c:63-134 | the counting loop returns the size of the symmetric difference without building it |
| `SortedRows.ListingUnique` | filter/sparse.c:56-213 | a set has only one strictly increasing listing |
| `ColumnWeights.TogglesExact` | filter/merge.cpp:684-712 | under any order of the atomic updates, a stored weight of at most 32 stays the number of rows with that column |
| `ColumnWeights.FrozenWhenLarge` | filter/merge.cpp:684-712 | under any order of the atomic updates, a weight that starts exact and small is stored exactly as long as its column is in at most 32 rows, and is frozen from the first moment it is in more |
| `ColumnWeights.LateToggleExact` | filter/merge.cpp:684-712 | an update that acts on an old test keeps small weights exact iff it does not take 33 down to 32 while the true weight is not 33, nor 255 over to 0 |
| `ColumnWeights.OldTestMiscounts` | filter/merge.cpp:684-712 | a start and an interleaving of three updates after which 32 is stored for a column of weight 33 |
| `ColumnWeights.TogglesOrderIrrelevant` | filter/merge.cpp:684-712 | the rows do not depend on the order of the updates |
| `ColumnWeights.ToggleExact` | filter/merge.cpp:684-712 | a decrement with its freeze is right for an entry that disappears, and an increment for one that appears: weights of at most 32 that were exact stay exact |
| `MergeMatrix.FilterMatrix.AddRow` | filter/merge.cpp:732-778 | row i1 becomes the sum, relation-sets add up, weights are updated once per cell of row i2, exactness of small weights is kept, frozen weights are left alone, and a small one is frozen iff its column is now in more than 32 rows |
| `MergeMatrix.FilterMatrix.RemoveRow` | filter/merge.cpp:883-891 | the row disappears from the matrix and from the weights, exactness is kept, and no small weight is frozen |
| `MergeMatrix.FollowsNext` | filter/merge.cpp:684-778 | over a sequence of row operations a small weight is frozen iff its column is in more than 32 rows before or after one of them |
| `Transpose.ComputeR` | filter/merge.cpp:556-634 | if small weights are exact, then for any split of the columns and any order in which the scans of the rows advance and take slots, each slice lists exactly the rows with its column, once each, and every light column has a slice |
| `Transpose.ScanRows` | filter/merge.cpp:612-634 | scanning each row from its last cell and stopping at the first column below j0 finds exactly the entries of light columns from j0 on, once each, however the scans are interleaved |
| `Transpose.NumberColumns` | filter/merge.cpp:558-600 | light columns get consecutive numbers and the pointers are the prefix sums of their weights |
| `WeightedRun.SlicesListColumns` | filter/merge.cpp:556-634 | the slices are the row lists that candidates of a pass are made from |
| `Merge.FillRowAddMatrix` | filter/mst.c:67-78 | the matrix holds the size of the sum of every two listed rows |
| `Merge.AddFatherToSons` | filter/merge.cpp:979-1002 | adding fathers to sons in reverse Prim order performs the planned additions, each on the original contents, and the history holds the corresponding lines |
| `MergeTree.AdditionsResult` | filter/merge.cpp:979-1002 | every son ends as the sum of the original contents of father and son |
| `MergeTree.MergeLossless` | filter/merge.cpp:979-1063 | after the additions only the root has the column, so dropping it loses nothing of the kernel |
| `MergeTree.MergeFill` | filter/merge.cpp:1032-1062 | the change in the number of entries is the weight of the tree minus the sizes of the merged rows |
| `Merge.LightestFillsLeast` | filter/merge.cpp:1032-1062 | a minimum spanning tree gives the least fill-in of all trees |
| `Merge.MergeDo` | filter/merge.cpp:1005-1063 | one merge: new matrix, lossless, history lines equivalent to it, least fill-in, returned value equal to the change in entries iff there are two rows or more or the only row has three entries, -3 for a single row, weights kept exact and frozen only when a column has been in more than 32 rows |
| `Merge.SingleMiscounted` | filter/merge.cpp:1018-1033 | for the only row {5} of column 5 the number of entries changes by -1, not by the -3 that is returned |
| `HistoryLines.MergeLinesOps` | filter/merge.cpp:1046-1060 | executing the lines of a merge is executing the merge |
| `HistoryText.ReportLine` | filter/merge.cpp:954-975 | the printed text of a line |
| `HistoryText.ParseHisfileLine` | filter/sparse.c:222-258 | the scanning loop computes the parse of a line, wrap-around included |
| `HistoryText.LineRoundTrip` | filter/sparse.c:222-258 | a printed line is read back exactly iff all numbers fit a signed 32-bit index |
| `HistoryText.ColumnRoundTrip` | filter/sparse.c:222-258 | a line with a pivot column is read back with its numbers, their count and the column |
| `HistoryText.LargeIndexMisread` | filter/sparse.c:222-258 | a line for any row i from 2^31 on is read back as i - 2^32, which keeps the row that the line destroys |
| `HistoryText.MergeTextFits` | filter/merge.cpp:954-975 | the text of any merge fits the buffer |
| `MergePass.StepInv` | filter/merge.cpp:1166-1254 | every atomic action of every thread keeps the invariant of a pass |
| `MergePass.ActiveDisjoint` | filter/merge.cpp:1166-1254 | merges under way at the same time have disjoint rows |
| `MergePass.StepLossless` | filter/merge.cpp:1166-1254 | the next operation of a merge is possible and loses nothing, whatever other threads did in between |
| `MergePass.ExecuteLossless` | filter/merge.cpp:1166-1254 | under every schedule the interleaved operations are possible and lossless |
| `MergePass.ScheduleIndependent` | filter/merge.cpp:1166-1254 | the final matrix is that of the merges that were done, one after another in any order |
| `MergePass.HistoryReproducesPass` | filter/merge.cpp:1166-1249 | executing the written lines in any order of the thread buffers gives the matrix the threads produced |
| `MergePass.PassProgress` | filter/merge.cpp:1236-1254 | with candidates at least one merge is done, and each removes one row |
| `MergePass.ExecuteJustified` | filter/merge.cpp:1166-1254 | in every reachable state a flagged row has been reserved by a candidate, and a discarded candidate has a row that another one has reserved |
| `MergePass.UnopposedIsMerged` | filter/merge.cpp:1166-1254 | under every schedule a candidate that shares no row with another one is merged |
| `MergePass.DisjointAllMerged` | filter/merge.cpp:1166-1254 | if no two candidates share a row, all are merged |
| `WeightedPass.PassKeepsExact` | filter/merge.cpp:684-891 | when the weight updates of all threads interleave with one another and with all other actions of a pass, small weights that were exact before the pass are exact after it, frozen ones have not changed, and a small one has been frozen iff its column was in more than 32 rows at some moment |
| `WeightedPass.ScheduleExecutes` | filter/merge.cpp:1166-1254 | leaving out the weight updates turns any such interleaving into a schedule of the pass without weights, with the same rows and claims |
| `WeightedPass.PassEnds` | filter/merge.cpp:1166-1254 | whatever possible action a scheduler picks each time, the pass comes to an end with every candidate merged or discarded |
| `WeightedPass.NotStuck` | filter/merge.cpp:1166-1254 | as long as a candidate is neither merged nor discarded, some action is possible |
| `WeightedRun.RunFromWeights` | filter/merge.cpp:1567-1640 | if small weights are exact at the start, the candidates of every pass of the run list their columns |
| `WeightedRun.WeightsKeepKernel` | filter/merge.cpp:1567-1640 | such a run keeps the left kernel, under any interleaving of rows and weights in every pass |
| `MergeRun.MergeKeepsKernel` | filter/merge.cpp:1567-1640 | a whole run whose candidates list their columns keeps the left kernel under any schedules |
| `MergeRun.HistoryReproducesRun` | filter/merge.cpp:1567-1640 | executing the whole history gives the rows with which the run ended |
| `Replay.ReplayMatrix.AddRowsUpdateIndex` | filter/sparse.c:56-213 | row and relation-set of i1 both become sums |
| `Replay.ReplayMatrix.DoAllAdds` | filter/replay.cpp:394-436 | one line has the effect of its operations on rows and relation-sets |
| `Replay.ReplayMatrix.BuildNewrows` | filter/replay.cpp:501-535 | the file has the effect of the lines up to its end, an incomplete line, or too few rows; comments are skipped |
| `Replay.ExecutedStops` | filter/replay.cpp:501-535 | the executed lines are the records before the first line that is incomplete or comes when fewer than Nmax rows are counted |
| `Replay.CrunchRows` | filter/replay.cpp:767-776 | closing the gaps in place keeps the remaining rows in order |
| `Replay.CrunchIndex` | filter/replay.cpp:781-790 | the same for the index, by emptiness of relation-sets |
| `Replay.MasksAgree` | filter/replay.cpp:767-794 | a row is absent iff its relation-set is empty |
| `Replay.KeptLists` | filter/replay.cpp:767-794 | closing the gaps keeps every position that is to be kept, in increasing order |
| `Replay.FasterVersion` | filter/replay.cpp:730-794 | the output consists of all rows that the executed lines leave live, in order and no others, each with its relation-set, and each is the sum of the purged rows in its relation-set |
| `Pipeline.ReplayMatchesMerge` | filter/replay.cpp:501-535 | with at most 2^31 rows, printing the history of any run on the unburied columns with comments at any places, reading it back and replaying it on full relations gives the rows and relation-sets of `merge`, plus buried columns, as long as the run leaves at least the number of rows at which reading stops |
| `Pipeline.ReplayMatchesWeights` | filter/merge.cpp:1567-1680 | the same for any run that starts with exact small weights, with nothing assumed of its candidates but their construction from the lists |
| `Pipeline.ReplayRun` | filter/replay.cpp:730-794 | `replay` on the history of any run of `merge` that starts with exact small weights puts out exactly the rows of `merge`, in order, with buried columns and relation-sets |
| `Pipeline.IndicesInRange` | filter/merge.cpp:954-975 | every number in a history that can be executed on at most 2^31 rows fits a signed 32-bit index |
| `Pipeline.FileStops` | filter/replay.cpp:501-535 | of a file with comments at any places, exactly the printed lines before the moment with fewer than Nmax live rows are executed |
| `Pipeline.FileExecuted` | filter/replay.cpp:501-535 | if at least Nmax rows are left at the end, all of them are executed |
| `PurgeGraph.CoreUnique` | filter/purge_matrix.cpp:162-191 | the largest singleton-free subset is unique |
| `PurgeGraph.ComponentUnique` | filter/clique_removal.cpp:113-235 | a row has only one component |
| `PurgeGraph.ComponentExists` | filter/clique_removal.cpp:113-235 | every row has a component |
| `PurgeGraph.LinksSurvive` | filter/clique_removal.cpp:237-252 | deleting whole components leaves the links among other rows as they were |
| `PurgeMatrix.Matrix.NewRow` | filter/purge_matrix.hpp:57-90 | loading a relation keeps rows, weights and both counters exact, and as long as nothing has been deleted every weight is the smaller of 255 and the number of loaded relations with the column |
| `PurgeMatrix.Matrix.DeleteRow` | filter/purge_matrix.cpp:121-140 | deleting a row keeps weights and both counters exact |
| `PurgeMatrix.Matrix.SaturatedMeans255` | filter/purge_matrix.hpp:57-90 | a column whose weight is never changed again was in at least 255 of the loaded relations |
| `PurgeMatrix.Matrix.ExcessMeaning` | filter/purge_matrix.hpp:57-90 | the excess is the number of live rows less the number of columns they hold, saturated ones and those outside the range included |
| `Singletons.OneSingletonRemoval` | filter/purge_matrix.cpp:142-160 | a pass in any order deletes only rows outside every singleton-free subset and does not lower the excess |
| `Singletons.SingletonRemoval` | filter/purge_matrix.cpp:162-191 | whatever the orders, the largest singleton-free subset is left and the excess is not lower |
| `SingletonRace.RaceEndsInCore` | filter/purge_matrix.cpp:121-191 | the same under any interleaving of the atomic decrements and deletions, with exact counters at the end; columns that no stored row contains may have any weight |
| `SingletonRace.ValidIsSetup` | filter/purge_matrix.hpp:57-90 | the matrix as loaded, with primes outside the range counted but not stored, meets what the interleaving needs |
| `SingletonRace.RaceEnds` | filter/purge_matrix.cpp:121-191 | whatever possible action a scheduler picks each time, the deletions come to an end, in such a state |
| `SingletonRace.MatrixRace` | filter/purge_matrix.cpp:162-191 | for the matrix of the driver and any scheduler, the largest singleton-free subset is left, counters are exact and the excess is not lower |
| `Cliques.ComputeSum2` | filter/purge_matrix.cpp:104-119 | the sums identify exactly the pairs of rows linked by a column of weight two |
| `Cliques.LinkTest` | filter/clique_removal.cpp:127-150 | after other components are gone, the test on a cell still finds exactly the original links |
| `Cliques.ComponentWithSet` | filter/clique_removal.cpp:113-160 | the search with a set reports the component of its smallest row, or nothing |
| `Cliques.ConnectedComponent` | filter/clique_removal.cpp:162-235 | the search with a list, which gives up on long components, reports the same |
| `Cliques.ReportedIffFirst` | filter/clique_removal.cpp:113-235 | something is reported iff the search starts from the smallest row, and then it is the component |
| `Heaviest.Fragment` | filter/clique_removal.cpp:312-345 | a thread keeps the heaviest components among those whose smallest row it visits |
| `Heaviest.RowsShared` | filter/clique_removal.cpp:347-361 | every row is visited by exactly one thread |
| `Heaviest.WeightOfRows` | filter/clique_removal.cpp:162-235 | the weight of a component does not depend on the order in which its rows are found |
| `CliqueRemoval.DeleteConnectedComponent` | filter/clique_removal.cpp:237-252 | recomputing a component at deletion time gives the same rows, and deleting it lowers the excess by at most one |
| `CliqueRemoval.EveryRowInOneComponent` | filter/clique_removal.cpp:282-363 | the reported components partition the rows |
| `CliqueRemoval.CliqueRemovalCore` | filter/clique_removal.cpp:296-418 | whole components are deleted, heaviest listed first, until the excess is at the target or none is left; never below it, and none is deleted once it is there |
| `CliqueRemoval.HeaviestDeleted` | filter/clique_removal.cpp:364-412 | as long as no more components are deleted than each thread keeps, they are the heaviest of all, equal weights by smallest row, for any number of threads |
| `CliqueRemoval.RowsGo` | filter/clique_removal.cpp:423-463 | if there are rows and the excess is above the target, some are deleted |
| `CliqueRemoval.RemoveCliques` | filter/clique_removal.cpp:423-463 | nothing changes when the excess is at most the target; otherwise whole components go, the heaviest listed first, until the excess is at the target or all listed are gone, and it ends at or above it |
| `Purge.Steps` | filter/purge.cpp:364-380 | the chosen number of steps is the given one, 0 without excess to remove, else 1 to 50 |
| `Purge.StepsMeaning` | filter/purge.cpp:364-380 | a chosen number other than the default is the least with which each step takes less than one percent of the columns |
| `Purge.OneStep` | filter/purge.cpp:395-412 | clique removal to the target followed by singleton removal, both in full |
| `Purge.SingletonAndCliqueRemoval` | filter/purge.cpp:332-427 | step 0 leaves the largest singleton-free subset; the run goes on iff its excess is positive and large enough for the columns; then exactly the planned steps are made, each from where the one before ended, and one more that aims at `keep` if needed |
| `Purge.PlanReachesKeep` | filter/purge.cpp:395-427 | with more than `keep` after step 0 and steps to make, rows are deleted, and in the end the excess is at most `keep` or the last step aimed at it |
| `Purge.PlanKeepsExcess` | filter/purge.cpp:395-427 | the excess never ends below `keep`, or never drops if it was lower after step 0 |
| `ModularInverse.StepInv` | bench/avx2-modinv.c:33-57 | each step keeps both congruences, coprimality and the ranges, without 32-bit wrap-around |
| `ModularInverse.IterateWithin` | bench/avx2-modinv.c:33-57 | at most 124 steps are needed for operands below 2^31 |
| `ModularInverse.InverseUnique` | bench/avx2-modinv.c:33-57 | there is one inverse in the range |
| `ModularInverse.ModInv1` | bench/avx2-modinv.c:33-57 | returns the inverse in [0, b) for every odd b below 2^31 and every coprime a from 1 to b - 1 |
| `MaskedInverse.LaneAvx2` | bench/avx2-modinv.c:68-137 | one iteration of the AVX2 code is one scalar step in every lane, signed comparisons included |
| `MaskedInverse.LaneAvx512` | bench/avx512-modinv.c:44-118 | one iteration of the AVX-512 code is one scalar step in every lane |
| `MaskedInverse.ModInv8` | bench/avx2-modinv.c:68-137 | every lane goes through the scalar states and all finish within 124 of the 4096 iterations, with the inverses |
| `MaskedInverse.ModInv16` | bench/avx512-modinv.c:44-118 | the same for the mask-register version |
| `Limbs.Repack` | bench/ifma-gfp.c:161-176 | repacking between limb widths keeps the value modulo the size of the output, and the accumulator never needs more than 128 bits |
| `Limbs.RepackBothWays` | bench/ifma-gfp.c:161-176 | repacking there and back gives the same limbs |
| `Montgomery.MaddExact` | bench/ifma-gfp.c:56-60 | one inner step does not overflow a lane, and limb and carry are exact |
| `Montgomery.LowestVanishes` | bench/ifma-gfp.c:63-66 | the multiple of m chosen makes the lowest limb zero |
| `Montgomery.MultiplyAdd` | bench/ifma-gfp.c:54-62 | adds one limb times b exactly |
| `Montgomery.ReduceOne` | bench/ifma-gfp.c:63-77 | adds a multiple of m and divides by the base exactly |
| `Montgomery.SubtractIfNotLess` | bench/ifma-gfp.c:79-87 | the borrow loop subtracts m exactly when the value is at least m |
| `FieldOps.MontMul` | bench/ifma-gfp.c:44-87 | for any number of limbs and odd m with 2m at most the radix power, the result is reduced and congruent to a b R^-1 |
| `FieldOps.AddMod` | bench/ifma-gfp.c:89-110 | reduced sum modulo m |
| `FieldOps.PlainMul` | bench/ifma-gfp.c:112-119 | exactly a b mod m |
| `FieldOps.DotProd` | bench/ifma-gfp.c:121-133 | exactly the dot product mod m, for any length |
| `FieldOps.RoutedDotProd` | bench/ifma-gfp.c:250-292 | the same plus w when everything is stored in 64-bit limbs |
| `Gf2Poly.KaratsubaIdentity` | gf2x/toom.c:270-297 | three half-length products give the whole product |
| `Karatsuba.SpaceSuffices` | gf2x/toom.c:144-155 | the scratch words the recursion uses are at most those allocated, for every length |
| `Karatsuba.CombinedIsProduct` | gf2x/toom.c:279-297 | what the final loops leave in the four quarters is the assembled product |
| `KaratsubaMul.SplitLoops` | gf2x/toom.c:273-282 | the scratch areas hold the sums of halves and of inner quarters, odd lengths included |
| `KaratsubaMul.CombineLoops` | gf2x/toom.c:286-297 | the middle quarters receive their corrections in place |
| `KaratsubaMul.Kara` | gf2x/toom.c:234-298 | the output holds the product for every length, although the middle product overwrites parts of the other two; nothing outside output and scratch changes |
| `Gf2Mul.MulToom` | gf2x/toom.c:172-180 | skipping leading zero words gives the same product, also when all words are zero |
| `Gf2Product.MulRows` | gf2x/gf2x.c:70-78 | one word of the shorter operand at a time gives the product |
| `Gf2Product.Basecase` | gf2x/gf2x.c:45-82 | short operands of any two lengths |
| `Gf2Unbalanced.AddBlocks` | gf2x/gf2x.c:224-230 | blocks of the longer operand are multiplied and accumulated at their places |
| `Gf2Unbalanced.MulUnbalanced` | gf2x/gf2x.c:205-244 | the loop that swaps operands ends, stays inside output and scratch, and accumulates exactly the product |
| `Gf2Product.MulR` | gf2x/gf2x.c:112-258 | operands of any positive lengths, also when the output is one of them |
| `HeapSteps.SetupInv` | filter/merge_heap.c:151-170 | in whatever order the threads take their first pages, the heap meets the invariant with no row |
| `HeapSteps.NewRowInv` | filter/merge_heap.c:212-239 | allocating a row keeps the heap invariant and adds its contents |
| `HeapSteps.NewPageNeeded` | filter/merge_heap.c:68-229 | another page is allocated only if none is empty, and a page is changed only if the row does not fit |
| `HeapSteps.ReplaceRowInv` | filter/merge.cpp:748-778 | allocating room, shrinking, destroying the old record and setting the pointer changes the contents of that row only |
| `HeapSteps.DestroyInv` | filter/merge_heap.c:255-261 | destroying a row keeps the invariant, the waste counters included |
| `HeapSteps.RefillInv` | filter/merge_heap.c:68-149 | releasing a page and getting an empty one keeps every page in exactly one place |
| `HeapCollection.CopyInv` | filter/merge_heap.c:263-292 | copying a live record moves the row pointer and keeps all contents |
| `HeapCollection.FinishInv` | filter/merge_heap.c:286-290 | returning a page keeps the invariant and the sum of the waste counters exact |
| `HeapCollection.StepProgress` | filter/merge_heap.c:305-322 | each step lowers the number of old pages in use, or keeps it and lowers the records left |
| `HeapCollection.CollectionEnds` | filter/merge_heap.c:305-322 | under any schedule the collection ends with all contents and pointers kept, pages partitioned, waste equal to the size of dead records, and dead records only in pages that were left as they were |
| `SmAppend.ProduceLoop` | filter/sm_append.cpp:459-495 | the reading loop |
| `SmAppend.ProduceSpec` | filter/sm_append.cpp:459-495 | a batch is the next relation lines in order; a short one means the input is exhausted |
| `SmProtocol.WorkerInv` | filter/sm_append.cpp:314-349 | every worker step keeps the invariant |
| `SmProtocol.MasterInv` | filter/sm_append.cpp:557-599 | every master step keeps the invariant: printed, held and unread lines make up the input in order |
| `SmProtocol.WaitsForWork` | filter/sm_append.cpp:376-382 | when the master waits, that worker has a batch to answer and can go on |
| `SmProtocol.StuckMeansOver` | filter/sm_append.cpp:557-599 | nobody can go on only when all is over and every worker has received exactly one finish message |
| `SmProtocol.RunsEnd` | filter/sm_append.cpp:557-599 | for every input, batch size, number of workers and scheduler the run ends, with every relation line printed once, in input order, with its own values |
| `SmProtocol.SameAsSequential` | filter/sm_append.cpp:609-652 | the relations printed are those of the sequential program |
| `DependencyGraph.Dependencies.ComputeDependencies` | filter/reconstructlog.cpp:1215-1231 | passes end with no row having exactly one unknown, and the graph acyclic |
| `DependencyGraph.MarkAcyclic` | filter/reconstructlog.cpp:1135-1162 | marking the only unknown column of a row keeps the graph acyclic |
| `NeededRelations.NeededRelsFromIndex` | filter/reconstructlog.cpp:1092-1130 | newly marked relations have their dependencies marked, none is marked without need, and the count is one too high iff the relation was marked before |
| `NeededRelations.ProcessWanted` | filter/reconstructlog.cpp:1236-1260 | the marked set is the smallest closed one; the final check succeeds iff all wanted logarithms are known and each needs a new relation |
| `NeededRelations.RepeatIsNotNew` | filter/reconstructlog.cpp:1260-1260 | asking twice for a reconstructed logarithm makes the final check fail |
| `LogPropagation.LogSolver.AdjustNumberOfUnknowns` | filter/reconstructlog.cpp:711-726 | known entries move to the known part and the relation still adds up to zero |
| `LogPropagation.Forces` | filter/reconstructlog.cpp:758-770 | the value computed from one unknown is the one the relation forces |
| `LogPropagation.LogSolver.UseRelation` | filter/reconstructlog.cpp:733-777 | using a relation keeps the table correct, and the error of a non-zero sum does not occur for consistent relations |
| `LogPropagation.LogSolver.ComputeLogs` | filter/reconstructlog.cpp:974-992 | at the fixpoint the table agrees with every consistent assignment and no needed relation has exactly one unknown |
| `LogPropagation.NeededAreKnown` | filter/reconstructlog.cpp:1092-1162 | at such a fixpoint every column reconstructed from a needed relation is known |
| `LogPropagation.MarkedIffObtainable` | filter/reconstructlog.cpp:1135-1231 | a column is marked iff it is in no set of unknown columns of which every relation has none or several |
| `LogPropagation.ReconstructLogs` | filter/reconstructlog.cpp:1440-1451 | the run ends with all wanted logarithms iff each has a number below n, is in no blocked set of columns, and none comes from a relation needed already; what each other outcome means is stated likewise; only columns of marked relations are added, and all values agree with what the relations force |

## Left out

- The discrete-logarithm variants of merge and replay (`FOR_DL`), whose exponents have a fixed width.
- File reading and writing, compression, command lines, timing and statistics of all programs.
- The computation of the initial column weights (filter/merge_compute_weights.c): the model takes them as given, exact where at most 32.
- HistoryText.LineRoundTrip: lines longer than the reader's buffer, which `fgets` would split, are not modelled.
- `rem_ncols` and `jmin` of merge, which are an upper bound and a heuristic; renumbering of columns and removal of buried ones appear only as the restriction of rows to unburied columns.
- The choice of candidates of a pass by cost: any list of candidates whose row lists list their columns is allowed.
- Merge.MergeDo: says nothing about the returned value for a column with one row beyond the exact condition under which it is the change in entries, because the code returns a constant there.
- Transpose.ComputeR: the order in which the scans of the rows advance is a parameter, of which only is asked that each row gets enough turns; the entries are found first and take their slots afterwards in the same order, since scanning changes nothing.
- MergeRun.MergeKeepsKernel: that candidates list their columns is a hypothesis here and derived from exact weights in WeightedRun.
- ColumnWeights.TogglesExact: the test of a weight and its update are one step, here and in all results on passes and runs; LateToggleExact says what an older test can do.
- WeightedPass.PassKeepsExact: the cells of a row operation are updated in any order, and the row itself changes after them, as in the addition loop, which fills a new row before the pointer is set.
- Singletons.SingletonRemoval: visits rows in any order, one at a time; interleavings inside a deletion are the subject of SingletonRace.
- Cliques.ConnectedComponent: weights are sums of reals of any weight function, not of single-precision numbers, so rounding is not modelled.
- Heaviest.Fragment: the binary heap of the standard library is an ascending list from which the least element is removed.
- Purge.SingletonAndCliqueRemoval: counters and the required-excess comparison are over unbounded integers and reals.
- Limbs.Repack: one routine with the two widths as parameters stands for both directions; the number of limbs is arbitrary.
- FieldOps.MontMul: one lane is modelled, since the lanes do not interact; products of two limbs, `madd52lo` and `madd52hi` act on the low 52 bits as the instructions do.
- Karatsuba.MulFixed: the straight-line products of one to nine words are specified as exact products, as are the products of one word by many.
- Gf2Product.MulR: the Toom-Cook 3 and 4, unbalanced Toom-Cook and FFT paths, the tuned thresholds and the reuse of a pool between calls are not part of the model; allocation always succeeds; lengths are positive.
- Gf2Words.Poly: words are sets of bit positions, not bit-vectors.
- HeapCollection.CollectionEnds: the heap is modelled on values, with linked lists as sequences and the cells of a page as its list of records; a row pointer is a page and a record number; order in the list of full pages is not claimed.
- HeapSteps.ReplaceRowInv: allocation, shrinking and destruction of the old record are one step.
- SmProtocol.RunsEnd: lines are given; the 1023-character limit of the input buffer and a last line without newline are not modelled; batch size and number of workers are positive, as the program is otherwise not started in this form.
- LogPropagation.LogSolver.UseRelation: the relations are used one at a time, as with one thread, so the second look at whether the logarithm has become known meanwhile is not needed; inversion modulo ell is a parameter that is right for the exponents that occur.
- DependencyGraph.Dependencies.ComputeDependencies: one thread, for the same reason: the graph is acyclic only when a row is examined as one step.
- Schirokauer maps, renumber tables, duplicate removal, Galois filtering, characters and block matrices.
