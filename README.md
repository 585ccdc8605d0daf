# Parallel matrix multiplication, modelled in Dafny

The program multiplies two matrices in two ways and checks that the results are equal.

- The sequential multiplier fills a zero buffer with a triple loop.
- The parallel multiplier computes each output row as an independent work item. It tags each row with its index and collects the tagged rows. It sorts them by tag and reads the rows off in that order. The collection of rayon's indexed iterator already keeps index order, so the sort moves nothing; the model allows any collection order and proves the result does not depend on it.

This project models both multipliers, and the row computation they share, over unbounded integers. It proves:

- the shape and the contents of both results;
- that sorting restores row order whatever the collection order was;
- that the two results are equal cell by cell, for every input that keeps every index in bounds.

Files, one module each:

- `matrix.dfy` (`Matrix`): nested-sequence matrices and the exact in-bounds conditions (`RowConformable`, `RowsConformable`, `Conformable`). It also holds the in-order accumulation `Fold` that both multipliers perform, the textbook sum `Sum` and product `Product`, identity and zero laws, two worked products, and the bound showing that the driver's inputs cannot overflow an i64.
- `single_threaded.dfy` (`SingleThreaded`): the triple loop over a mutable nested sequence, with its loop invariants.
- `permutations.dfy` (`Permutations`): collection orders as rearrangements of `0..n-1`, stated with multisets.
- `multi_threaded.dfy` (`MultiThreaded`): the row computation, the collection in a given order, an in-place sort of an array of tagged rows, and the projection.
- `equivalence.dfy` (`Equivalence`): the driver's comparison of the two results.

Modelling decisions:

- The element type is generic in the source; its one use is i64, fed with i16 values. It is `int` here, and its default value is `0`.
- The worker pool becomes a sequential map. The order in which the pairs are collected is a parameter `order`, which may be any rearrangement of the row indices (`IsPermutation`). The contracts hold for every such order.
- Neither multiplier checks shapes; a bad shape makes the source panic. The `requires` clauses are exactly the conditions under which every index is in range:
  - `b[0]` must exist;
  - and, when `b` has a column, every row of `a` must have at least `|b|` entries and every row of `b` at least `|b[0]|`.
- Longer rows are allowed and their extra entries are ignored, as in the source.
- The sequential multiplier reads `b[0]` even when `a` is empty, so it needs `|b| > 0` always. The parallel multiplier touches `b` only through a row of `a`, so with `a` empty it needs nothing.
- Empty operands: with `a` and `b` both empty, only the parallel multiplier returns the empty matrix; the sequential one reads `b[0]` and panics. Neither multiplier has a shape-mismatch error value; a bad shape panics. The model follows the code in both respects, rather than both returning an empty matrix and rejecting mismatched shapes with an error.

## Model

| member | source | states |
|---|---|---|
| Matrix.FoldThenSum | parallel_matrix_multiply/src/main.rs:12-16 | The in-order accumulation from 0 of `row[t] * b[t][j]` over t < k, followed by the rest of the sum, is the whole textbook sum. With k = `|b|`, the cell each multiplier builds is the mathematical inner product. |
| Matrix.RightIdentity | parallel_matrix_multiply/src/main.rs:6-21 | Multiplying an n-by-m matrix on the right by the m-by-m identity returns it unchanged. |
| Matrix.LeftIdentity | parallel_matrix_multiply/src/main.rs:6-21 | Multiplying a rectangular matrix on the left by the identity returns it unchanged. |
| Matrix.RightZero | parallel_matrix_multiply/src/main.rs:6-21 | A zero right operand gives an all-zero product with `|a|` rows and as many columns as the zero operand. |
| Matrix.LeftZero | parallel_matrix_multiply/src/main.rs:6-21 | A zero left operand gives an all-zero product with as many rows as the zero operand and `|b[0]|` columns. |
| Matrix.SmallProducts | parallel_matrix_multiply/src/main.rs:6-21 | [[1,2],[3,4]] times [[5,6],[7,8]] is [[19,22],[43,50]], and [[2]] times [[3]] is [[6]]. |
| Matrix.FoldBounded | parallel_matrix_multiply/src/main.rs:15 | With 16-bit entries, each partial accumulation of k terms lies within [-k * 2^30, k * 2^30]. |
| Matrix.FoldFitsI64 | parallel_matrix_multiply/src/main.rs:65-70 | For the driver's operands (i16 entries widened to i64, at most 256 rows), every intermediate value of every accumulation is a valid i64, so unbounded `int` computes the same values. |
| SingleThreaded.MultiplySingleThreaded | parallel_matrix_multiply/src/main.rs:6-21 | The result has `|a|` rows of `|b[0]|` cells each. Cell (i, j) is the accumulation from 0 of `a[i][k] * b[k][j]` for k increasing over `0..|b|`, and the whole result is the textbook product. |
| Permutations.PermutationFacts | parallel_matrix_multiply/src/main.rs:38-40 | A collection order of the n row indices has length n and stays below n. It repeats no index and omits none. |
| MultiThreaded.InnerProds | parallel_matrix_multiply/src/main.rs:23-30 | The row has `|b[0]|` entries. Entry j is the fold from 0 of `row[i] * b[i][j]` over `i` in `0..|b|`, so the whole row is the row of the textbook product that `row` yields. |
| MultiThreaded.CollectTagsEachRowOnce | parallel_matrix_multiply/src/main.rs:38-45 | Whatever the collection order, the collection holds `|a|` pairs, each of the form (i, `InnerProds(a[i], b)`) with i < `|a|`. It has no two pairs with the same key and has a pair for every row index. |
| MultiThreaded.SortedCollectIsTagged | parallel_matrix_multiply/src/main.rs:47 | Any rearrangement of the collected pairs whose keys do not decrease is exactly the pairs (0, row 0), (1, row 1), ..., (`|a|`-1, row `|a|`-1), so the keys read 0, 1, ..., `|a|`-1. |
| MultiThreaded.SortIsOrderIndependent | parallel_matrix_multiply/src/main.rs:45-49 | Two different collection orders, once sorted by key, give the same sequence: the output is deterministic. |
| MultiThreaded.IndexOrderCollect | parallel_matrix_multiply/src/main.rs:38-45 | Rows collected in index order (what rayon's indexed collect produces) form a valid collection order, equal the row-ordered tagging, and are already sorted by key. |
| MultiThreaded.SortByKey | parallel_matrix_multiply/src/main.rs:47 | Sorting in place leaves the keys non-decreasing and the array a rearrangement of its former contents. |
| MultiThreaded.MultiplyMultiThreaded | parallel_matrix_multiply/src/main.rs:32-50 | For every collection order, row i of the result is `InnerProds(a[i], b)` and there are `|a|` rows, so the result is the textbook product. With `a` empty the result is empty and `b` is not inspected. |
| Equivalence.CompareMultipliers | parallel_matrix_multiply/src/main.rs:72-80 | On the same operands the parallel and the sequential results are equal, and both are the textbook product with `|a|` rows of `|b[0]|` cells. Each cell is, in both, the same in-order accumulation. |

## Left out

- `gen_random_matrix` (main.rs:52-62) is a wrapper over the thread-local random generator; it has no behaviour to state. The operands are parameters instead.
- `main` (main.rs:64-87): the size sweep, the timing with `Instant` and the printed line are I/O and benchmarking. Its equality assertion is `Equivalence.CompareMultipliers`, and its operand bounds are used by `Matrix.FoldFitsI64`. The model compares general operands `a` and `b`, where the driver multiplies one matrix by itself.
- The rayon thread pool and work stealing are modelled as a sequential map.
- The model allows any collection order (`order`, any permutation of the row indices). rayon's `collect` on an indexed iterator keeps index order, which is one of them (`MultiThreaded.IndexOrderCollect`); the model does not promise that the sort is a no-op in the program.
- Threads, the join barrier and `Send`/`Sync` sharing of the read-only inputs are not modelled.
- `MultiThreaded.SortByKey`: `par_sort_by` is a parallel stable merge sort; the model sorts by insertion. It proves non-decreasing keys and a permutation, not stability. Keys are distinct here, so stability cannot change the result.
- Fixed-width i64 arithmetic and its overflow are not modelled. `Matrix.FoldFitsI64` shows that no overflow can occur for the driver's inputs.
- The generic element type and its trait bounds (`Default`, `Copy`, `AddAssign`, `Add`, `Mul`) are not modelled: the element type is `int` with default `0`.
- Moves and clones of the `Vec` operands are not modelled: matrices are values.
