# Permutation-significance engine, modelled in Dafny

This project models the core of `Do_Corr_Percentiles_GenMesh_345.py`. That script correlates an R×C matrix of simulated field values with C behavioural effect sizes, one Spearman coefficient per row (mesh node). It then estimates significance with a permutation test:

1. **Ranking.** `rankdata_average` gives every row tie-aware average ranks. It sorts each row, marks where runs of equal values start, takes cumulative counts and gives each entry `0.5 * (start of next run + start of its run + 1)`.
2. **Spearman.** `spearman_row` correlates every ranked row with the ranked effect sizes. `runCorrelation` returns those coefficients and a placeholder `1`.
3. **Null store.** `parallel_process` runs P permutation tasks. In each task, `worker` shuffles the effect sizes and re-runs the correlation; a task that raises yields a column of zeros. The tasks run in batches of B, and batch `i` is written to columns `[i*B, min((i+1)*B, P))` of an R×P store.
4. **P-values.** `read_mmap_file_and_compute_pvalues` reads the store in chunks of rows. For row `i`, `p[i]` is the fraction of permutations whose coefficient is `>=` the observed one: ties count, and there is no `+1` pseudo-count.
5. **Clip.** Before `-log10`, the p-values are clipped below at `1e-10`.

## How it is modelled

- **Reference ranks.** `RankReference` defines the rank of entry `k` as `(2·#below + #tied + 1)/2`. That is the mean of the 1-based sorted positions its tie group occupies. The module proves the rank bounds, the row sum `C(C+1)/2`, strict-order preservation, the constant-row value `(C+1)/2`, invariance under strictly increasing transforms, and that re-ranking changes nothing.
- **The source's own algorithm.** `RankTransform` follows each step of `rankdata_average`: argsort, `np.diff != 0`, `cumsum`, the inverse permutation, `flatnonzero` plus the row length, and the `0.5*(...)` formula. It proves the result equals the reference for *every* sorting permutation, which covers the unstable order of `np.argsort`. `RankData` is the in-place tail: the rows are grouped by their number of runs, and each group is written into a zero-initialised `array2`. It is proved against the reference entry by entry.
- **Correlation.** The correlation (`compute_corr`) is an abstract function parameter. `Spearman` composes it with the ranks. For a matrix with at least one row, the broadcasting rule of the elementwise product (the trailing lengths agree, or one of them is 1) decides whether a task raises.
- **Null store and batches.** `NullDistribution.NullStore` is a class over an `array2<Stat>`. `ParallelProcess` takes the outcome of each task as a parameter, which stands in for the pool, the randomness and the correlation. It is proved to leave task `k`'s output in column `k`, and zeros for a raised task. `Batching` proves the batch arithmetic that both batched loops share.
- **P-values and clip.** `Significance.ComputePValues` is the chunked reduction with its ghost write counter. It is proved equal to the unbatched p-values for every chunk size, and each index is written exactly once. Its lemmas cover the `1/P` case, the bounds, monotonicity and the NaN behaviour. `ClipP` is the clip.
- **End to end.** `Pipeline.PermutationTest` strings the whole test together for one attribute type (lines 209-222).

Correlation coefficients and p-values are `Stats.Stat = Num(real) | NaN`. A comparison with `NaN` is false, so:
- an undefined observed coefficient (a zero-variance row) gets `p = 0`, which the clip raises to `1e-10`;
- a row filled only by failed tasks (zeros) gets `p = 1` when the observed coefficient is `<= 0`, and `p = 0` otherwise.

Both follow the code as written and are modelled, not corrected.

Correlating the rows against the effect sizes presumes that both have the same length. The code does not check this and relies on numpy broadcasting, and the model follows the code: `Spearman.Broadcastable` states when the shapes broadcast.

## Model

| member | source | states |
|---|---|---|
| Stats.AtLeast | Do_Corr_Percentiles_GenMesh_345.py:122 | the elementwise `>=` of the null row against the observed value: true only when both are numbers and the first is at least the second, so false whenever either side is NaN |
| Counting.Count | Do_Corr_Percentiles_GenMesh_345.py:31-34 | the number of entries below, tied with, or at most a value never exceeds the row length |
| Counting.SortedCountIsPrefix | Do_Corr_Percentiles_GenMesh_345.py:18-22 | in a sorted row the entries below (or at most) v are exactly the first Count of them |
| Counting.CountAtMostSplits | Do_Corr_Percentiles_GenMesh_345.py:31-34 | entries at most v = entries below v + entries tied with v |
| Counting.CountTiedDistinct | Do_Corr_Percentiles_GenMesh_345.py:19-21 | in a row of distinct values each value is tied only with itself |
| Permutations.Gather | Do_Corr_Percentiles_GenMesh_345.py:18-22 | take_along_axis on one row: one entry per index of s, entry p being x[s[p]] |
| Permutations.IndexOf | Do_Corr_Percentiles_GenMesh_345.py:17 | the result is a position holding the index looked for |
| Permutations.Inverse | Do_Corr_Percentiles_GenMesh_345.py:15-17 | put_along_axis(inv, sorter, arange) yields a permutation with inv[sorter[p]] == p and sorter[inv[k]] == k |
| Permutations.ArgSort | Do_Corr_Percentiles_GenMesh_345.py:14 | the result is a permutation of the indices that lists the row in ascending order |
| Permutations.ArgSortPrefix | Do_Corr_Percentiles_GenMesh_345.py:14 | the insertion sort of indices [0, n) holds each of them once, and the entries gathered by it are in ascending order |
| Permutations.InsertByKeySorted | Do_Corr_Percentiles_GenMesh_345.py:14 | inserting an index by key keeps the gathered row sorted |
| Permutations.GatherPreservesCounts | Do_Corr_Percentiles_GenMesh_345.py:18 | take_along_axis by a permutation changes no count of entries below, tied or at most a value |
| RankReference.RankBounds | Do_Corr_Percentiles_GenMesh_345.py:33-34 | every average rank lies in [1, C] |
| RankReference.RankIsMeanOfTiePositions | Do_Corr_Percentiles_GenMesh_345.py:31-34 | a rank times its tie-group size equals the sum of the 1-based sorted positions that group occupies |
| RankReference.StrictOrderPreserved | Do_Corr_Percentiles_GenMesh_345.py:14-22 | x[a] < x[b] implies rank[a] < rank[b] |
| RankReference.ConstantRowRanksMiddle | Do_Corr_Percentiles_GenMesh_345.py:31-34 | a row of equal values ranks every entry (C+1)/2 |
| RankReference.RanksDependOnlyOnOrder | Do_Corr_Percentiles_GenMesh_345.py:14-22 | two rows with the same pattern of "below" and "tied" get the same ranks |
| RankReference.RerankingIsIdentity | Do_Corr_Percentiles_GenMesh_345.py:12-39 | ranking a row of ranks returns the same ranks |
| RankReference.MonotoneTransformKeepsRanks | Do_Corr_Percentiles_GenMesh_345.py:12-39 | a strictly increasing transform of the values leaves the ranks unchanged |
| RankReference.GrowPool | Do_Corr_Percentiles_GenMesh_345.py:33-34 | adding a value to a row raises each doubled rank by 2 above it and by 1 tied with it |
| RankReference.DoubledRankSumTotal | Do_Corr_Percentiles_GenMesh_345.py:33-34 | the doubled ranks of a row sum to C(C+1) |
| RankReference.RankSumIsTriangular | Do_Corr_Percentiles_GenMesh_345.py:33-34 | the ranks of a row sum to C(C+1)/2 whatever the ties |
| RowPrimitives.CountTrue | Do_Corr_Percentiles_GenMesh_345.py:24 | np.count_nonzero of a boolean row, never more than its length |
| RowPrimitives.Boundaries | Do_Corr_Percentiles_GenMesh_345.py:19-20 | obs starts with true and is true exactly where a sorted entry differs from its predecessor |
| RowPrimitives.CumCount | Do_Corr_Percentiles_GenMesh_345.py:21 | cumsum entry p counts the boundaries in [0, p] and lies between 1 and the number of runs |
| RowPrimitives.FlatNonZero | Do_Corr_Percentiles_GenMesh_345.py:31 | flatnonzero lists the true positions in increasing order; entry m has exactly m true entries before it, and there are count_nonzero of them |
| RowPrimitives.RunStart | Do_Corr_Percentiles_GenMesh_345.py:31-34 | count[dense-1] is where the run holding sorted position p starts |
| RowPrimitives.RunEnd | Do_Corr_Percentiles_GenMesh_345.py:32-34 | count[dense] (flatnonzero with the row length appended) is where the next run starts |
| RankTransform.RunBoundaries | Do_Corr_Percentiles_GenMesh_345.py:18-20 | obs for a given sorter: np.c_[True, diff != 0] of the sorted row (RowPrimitives.Boundaries), one entry per element (one for an empty row) and the first true |
| RankTransform.RunStarts | Do_Corr_Percentiles_GenMesh_345.py:31-32 | _count for a given sorter: one more entry than there are runs, the last being len_r |
| RankTransform.RankOfRun | Do_Corr_Percentiles_GenMesh_345.py:33-34 | 0.5 * (count[d] + count[d-1] + 1): for a non-empty run the rank lies between its first and last 1-based sorted positions |
| RankTransform.RowRanksWith | Do_Corr_Percentiles_GenMesh_345.py:14-34 | one row of rankdata_average for a given sorter, one rank per entry; RowRanksWithCorrect proves it equal to the reference ranks |
| RankTransform.DenseRanks | Do_Corr_Percentiles_GenMesh_345.py:21-22 | dense[sorter[p]] is the cumulative boundary count of sorted position p, and every dense rank lies between 1 and the number of runs |
| RankTransform.SortedRunLimits | Do_Corr_Percentiles_GenMesh_345.py:31-34 | in a sorted row the run containing p starts at #below and ends at #at-most of its value |
| RankTransform.RunStartsOfEntry | Do_Corr_Percentiles_GenMesh_345.py:22-34 | for any argsort permutation, count[dense[k]-1] = #below x[k] and count[dense[k]] = #below + #tied |
| RankTransform.RowRanksWithEntry | Do_Corr_Percentiles_GenMesh_345.py:33-34 | the source's 0.5*(count[dense] + count[dense-1] + 1) equals the reference average rank |
| RankTransform.RowRanksWithCorrect | Do_Corr_Percentiles_GenMesh_345.py:14-34 | for every permutation that sorts the row, `RowRanksWith` equals the reference average ranks |
| RankTransform.RowRanks | Do_Corr_Percentiles_GenMesh_345.py:12-39 | one row of rankdata_average equals its reference average ranks |
| RankTransform.DistinctRowRanksArePermutation | Do_Corr_Percentiles_GenMesh_345.py:14-34 | a row of distinct values ranks its p-th smallest entry p+1, so the ranks are a permutation of 1..C |
| RankTransform.RankMatrix | Do_Corr_Percentiles_GenMesh_345.py:12-39 | output row i is the average ranks of input row i alone |
| RankTransform.RunCount | Do_Corr_Percentiles_GenMesh_345.py:24 | nonzero for one row: the number of runs of equal values in sorted order, at least 1 and at most the row length (1 for an empty row) |
| RankTransform.Unique | Do_Corr_Percentiles_GenMesh_345.py:27 | np.unique is strictly increasing and holds exactly the values present |
| RankTransform.Where | Do_Corr_Percentiles_GenMesh_345.py:29 | np.where(nonzero == nz) lists, increasing, exactly the rows with that run count |
| RankTransform.WriteGroup | Do_Corr_Percentiles_GenMesh_345.py:37-38 | final_ranks[indices] = result sets exactly the listed rows and leaves every other row unchanged |
| RankTransform.GroupRows | Do_Corr_Percentiles_GenMesh_345.py:24-35 | the run count of every row, the distinct counts (each row's among them), and per count the rows having it paired with their reference ranks |
| RankTransform.WriteGroups | Do_Corr_Percentiles_GenMesh_345.py:37-38 | when every row's run count is among the distinct counts, the loop over ranks_list leaves every row holding its target ranks |
| RankTransform.WhereOccursOnce | Do_Corr_Percentiles_GenMesh_345.py:29 | np.where(nonzero == nz)[0] lists row i once if its count is nz and not at all otherwise |
| RankTransform.WritesPrefix | Do_Corr_Percentiles_GenMesh_345.py:37-38 | the first h groups write a row once if its count is among the first h distinct counts, and never otherwise |
| RankTransform.RowWrittenOnce | Do_Corr_Percentiles_GenMesh_345.py:27-38 | a row whose count is among the distinct counts is written by the loop over ranks_list exactly once |
| RankTransform.EachRowWrittenOnce | Do_Corr_Percentiles_GenMesh_345.py:24-38 | grouping by np.unique of the run counts writes every row of final_ranks exactly once: in exactly one group, and once within it |
| RankTransform.FillRanks | Do_Corr_Percentiles_GenMesh_345.py:24-39 | a fresh n0 x n1 output whose every entry is the reference average rank of rows[i] at k |
| RankTransform.RankGroups | Do_Corr_Percentiles_GenMesh_345.py:26-35 | entry h pairs the rows with the h-th distinct run count with their ranks |
| RankTransform.RankData | Do_Corr_Percentiles_GenMesh_345.py:12-39 | every entry of the fresh output is the reference average rank of that entry within its row |
| Spearman.Broadcastable | Do_Corr_Percentiles_GenMesh_345.py:48 | `xm * ym` broadcasts an R x cols array against a 1 x m array exactly when cols == m, cols == 1 or m == 1 |
| Spearman.SpearmanRow | Do_Corr_Percentiles_GenMesh_345.py:55-60 | coefficient i is corr of the average ranks of row i and of the effect sizes; one coefficient per row |
| Spearman.RunCorrelation | Do_Corr_Percentiles_GenMesh_345.py:62-65 | returns those coefficients and the placeholder 1 |
| Spearman.EffectSizeTransformInvariant | Do_Corr_Percentiles_GenMesh_345.py:55-60 | a strictly increasing transform of the effect sizes changes no coefficient |
| Spearman.MatrixTransformInvariant | Do_Corr_Percentiles_GenMesh_345.py:55-60 | a strictly increasing transform of the matrix entries changes no coefficient |
| Spearman.RankedInputsInvariant | Do_Corr_Percentiles_GenMesh_345.py:55-60 | already ranked inputs give the same coefficients |
| Spearman.RankVector | Do_Corr_Percentiles_GenMesh_345.py:59 | ranking effectSize[None, :] as a 1-row array yields its reference average ranks |
| Spearman.RankedRows | Do_Corr_Percentiles_GenMesh_345.py:58 | the array rankdata_average returns, read as rows, is the ranked matrix |
| Spearman.SpearmanRowOf | Do_Corr_Percentiles_GenMesh_345.py:55-60 | the array computation of spearman_row equals SpearmanRow on the rows of the matrix |
| Batching.NumBatchesIsCeiling | Do_Corr_Percentiles_GenMesh_345.py:80 | (n + B - 1) // B is the ceiling of n/B: the batches hold n entries and one fewer would not |
| Batching.BatchShape | Do_Corr_Percentiles_GenMesh_345.py:94-95 | every batch [i*B, min((i+1)*B, n)) is non-empty, within [0, n) and at most B long |
| Batching.BatchesAreContiguous | Do_Corr_Percentiles_GenMesh_345.py:93-96 | each batch ends where the next starts, and the last ends at n (the row chunks of lines 116-117 follow the same arithmetic) |
| Batching.BatchOf | Do_Corr_Percentiles_GenMesh_345.py:93-96 | entry k lies in batch k // B, which exists |
| Batching.BatchUnique | Do_Corr_Percentiles_GenMesh_345.py:93-96 | no other batch holds k, so the batches are disjoint |
| NullDistribution.WorkerOutput | Do_Corr_Percentiles_GenMesh_345.py:73-76 | a completed task hands back its coefficients; a raised one, one zero per matrix row |
| NullDistribution.NullStore.constructor | Do_Corr_Percentiles_GenMesh_345.py:85-90 | a fresh num_rows × num_cols store of zeros |
| NullDistribution.NullStore.Row | Do_Corr_Percentiles_GenMesh_345.py:118-122 | row i of the store read as a sequence of P coefficients |
| NullDistribution.NullStore.WriteColumns | Do_Corr_Percentiles_GenMesh_345.py:99 | mmap_file[:, start:end] = block writes exactly those columns; every other column keeps its value |
| NullDistribution.BatchBlock | Do_Corr_Percentiles_GenMesh_345.py:96-98 | the block of a batch is its tasks' outputs in task order, as pool.map returns them |
| NullDistribution.ParallelProcess | Do_Corr_Percentiles_GenMesh_345.py:78-110 | after all batches, store[i, k] is row i of task k's output (zeros for a raised task), with R rows and P columns |
| Significance.CountAtLeast | Do_Corr_Percentiles_GenMesh_345.py:122 | the number of entries >= the observed value is at most the row length |
| Significance.PValue | Do_Corr_Percentiles_GenMesh_345.py:122 | p is undefined exactly when there are no columns; otherwise p in [0, 1] and p·P is the count of null values >= observed |
| Significance.CountAtLeastAll | Do_Corr_Percentiles_GenMesh_345.py:122 | the count is the row length iff every entry reaches the observed value |
| Significance.CountAtLeastNone | Do_Corr_Percentiles_GenMesh_345.py:122 | the count is 0 iff no entry reaches the observed value |
| Significance.CountAtLeastOne | Do_Corr_Percentiles_GenMesh_345.py:122 | the count is 1 when exactly one entry reaches the observed value |
| Significance.CountAtLeastAntitone | Do_Corr_Percentiles_GenMesh_345.py:122 | a larger observed value is reached by no more entries |
| Significance.CountAtLeastMember | Do_Corr_Percentiles_GenMesh_345.py:122 | one entry reaching the observed value makes the count positive |
| Significance.PValueIsOneIff | Do_Corr_Percentiles_GenMesh_345.py:122 | p = 1 iff every null coefficient is >= the observed one |
| Significance.PValueIsZeroIff | Do_Corr_Percentiles_GenMesh_345.py:121-122 | p = 0 iff no null coefficient reaches the observed one; an undefined observed coefficient gets p = 0 |
| Significance.SingleTieGivesOneOverP | Do_Corr_Percentiles_GenMesh_345.py:122 | one null value equal to the observed one, none of the others reaching it: p = 1/P |
| Significance.PValueAntitone | Do_Corr_Percentiles_GenMesh_345.py:122 | a larger observed coefficient gets a p-value no larger |
| Significance.PValueAtLeastOneOverP | Do_Corr_Percentiles_GenMesh_345.py:122 | one null value reaching the observed one makes p >= 1/P |
| Significance.AllRaisedPValue | Do_Corr_Percentiles_GenMesh_345.py:122 | a row of zeros from failed tasks gives p = 1 if the observed value is <= 0, else p = 0 |
| Significance.PValues | Do_Corr_Percentiles_GenMesh_345.py:115-123 | the unbatched p-value vector: entry i is the p-value of row i |
| Significance.CountRowAtLeast | Do_Corr_Percentiles_GenMesh_345.py:122 | np.sum(batch[i, :] >= orig_value) counted column by column |
| Significance.RowPValue | Do_Corr_Percentiles_GenMesh_345.py:121-122 | the count divided by num_cols is the row's p-value |
| Significance.ReduceChunk | Do_Corr_Percentiles_GenMesh_345.py:120-123 | each row of the chunk gets its p-value at its own index and one more write; nothing else changes |
| Significance.ComputePValues | Do_Corr_Percentiles_GenMesh_345.py:112-128 | for every chunk size >= 1 the result is the unbatched p-value vector, and every index is written exactly once |
| Significance.ClipP | Do_Corr_Percentiles_GenMesh_345.py:222 | the clipped value is >= 1e-10, equals p whenever p >= 1e-10, is 1e-10 otherwise, and stays undefined for an undefined p |
| Significance.ClipAll | Do_Corr_Percentiles_GenMesh_345.py:222 | np.clip applies the clip to every entry |
| Significance.ClipMonotoneIdempotent | Do_Corr_Percentiles_GenMesh_345.py:222 | clipping keeps the order of p-values and clipping twice changes nothing |
| Significance.ClipChangesOnlyZero | Do_Corr_Percentiles_GenMesh_345.py:222 | with at most 10^10 permutations the clip changes a p-value only when it is 0, and then to 1e-10 |
| Pipeline.Worker | Do_Corr_Percentiles_GenMesh_345.py:67-76 | a task raises iff the shapes do not broadcast; otherwise coefficient i correlates the ranks of row i with the ranks of the shuffled effect sizes |
| Pipeline.NullRow | Do_Corr_Percentiles_GenMesh_345.py:97-99 | entry k is task k's contribution to row i, i.e. the coefficient under shuffle k when the shapes broadcast |
| Pipeline.Identity | Do_Corr_Percentiles_GenMesh_345.py:71 | the shuffle leaving every effect size in place is a permutation |
| Pipeline.IdentityShuffleCountsItself | Do_Corr_Percentiles_GenMesh_345.py:71-72 | if one shuffle is the identity, a defined observed coefficient gets p >= 1/P |
| Pipeline.StoreRowIsNullRow | Do_Corr_Percentiles_GenMesh_345.py:97-99 | a store row holding the task outputs is the null row |
| Pipeline.BuildNullStore | Do_Corr_Percentiles_GenMesh_345.py:78-110 | parallel_process over the worker tasks leaves the null row of i in row i of the store |
| Pipeline.NullPValues | Do_Corr_Percentiles_GenMesh_345.py:216-222 | given the observed coefficients, the batched store, the chunked p-values and the clip give, for every row, the clipped p-value of its observed coefficient against its null row |
| Pipeline.PermutationTest | Do_Corr_Percentiles_GenMesh_345.py:209-222 | the observed coefficients are SpearmanRow, and entry i is the clipped fraction of permutations whose row-i coefficient reaches the observed one |

## Left out

- Float32: inputs, ranks, coefficients and p-values are `real`. The rounding of `np.float32`, including the float32 value of `1e-10` in the clip, is not modelled.
- `compute_corr` (lines 41-53) is an abstract function parameter. Its float32 means, square root and division, and its NaN on zero variance, are not modelled. `-np.log10` (line 222) and the row mean `averageMesh` (line 233) are not modelled.
- Randomness: `np.random.permutation` (line 71) is a shuffle permutation passed in by the caller. Task outcomes are parameters of `ParallelProcess`.
- Concurrency and I/O are not modelled:
  - the `multiprocessing.Pool`;
  - `open_memmap`, `np.load`/`np.save`, `flush`, `del` and `gc.collect`;
  - file removal;
  - logging, timing and progress prints.
  The store is an in-memory `array2`.
- The first call `worker(tasks[0])` (line 82) is modelled only for what it provides: the row count of its output.
- Crashes the source does not handle are preconditions:
  - P = 0 (`tasks[0]` raises IndexError);
  - a batch size of 0 (ZeroDivisionError at line 80, `range` step 0 at line 116);
  - fewer observed values than store rows (IndexError at line 121);
  - a completed task whose column length differs from the store's row count (`np.concatenate` at line 98 or the column write at line 99 raises);
  - shapes that do not broadcast in the observed `runCorrelation` at line 210;
  - a matrix with no rows: `np.apply_along_axis` at line 21 raises ValueError, so `rankdata_average` raises. `RankTransform.RankData`, `Spearman.SpearmanRowOf` and `Pipeline.PermutationTest` require at least one row. Inside a task this error would be caught (lines 73-76), but the zero column it yields is empty anyway.
- Spearman.SpearmanRow: NaN in the input matrix or effect sizes is not modelled; `np.argsort` places NaN last, and the ranks of such rows are not described.
- Pipeline.Worker: the only exception modelled inside a task is a shape that does not broadcast. Other failures (memory, a foreign exception) are covered only through the abstract outcomes that `ParallelProcess` accepts.
- `computeMesh` (lines 130-141) and the `__main__` block are not part of this model: argument parsing, CSV reading and grouping, mesh loading and writing, and hard-coded paths. Only lines 209-222 of it are modelled, as `Pipeline.PermutationTest`.
- The other files of the repository are not part of this model.
