# Plonky3 mixed-height Merkle tree and FRI commit phase, in Dafny

This project models two sequential pieces of Plonky3's commitment layer and proves properties of them.

- **The mixed-height batched Merkle tree** (`merkle-tree/src/lib.rs`). This covers `MerkleTree::new`, `root`, and the MMCS operations `open_batch`, `get_matrices` and `commit`.
  - Matrices whose heights are powers of two are sorted stably by descending height.
  - Layer 0 hashes the rows of the tallest matrices.
  - Every later layer compresses adjacent pairs. When the previous layer's length equals the height of a group of matrices, that group's row hash is also compressed in.
  - The hasher and the compression function are function-valued parameters `h` and `c`, standing in for the generics `H` and `C`.
- **The FRI prover's commit phase** (`fri/src/prover.rs`). This covers:
  - `reduce_matrices`, the Horner combination `acc <- acc * alpha + col` of every column into one value per row;
  - `commit_phase` up to the `todo!()` where the source stops;
  - `fold_even_odd`, whose body is `todo!()`. It is modelled from its doc comment as a function on coefficient sequences.

The project has four modules, one per concern:

- `Wrappers` holds `Result`. The panics of the source (`assert!` in `new`, `expect("No matrices?")` in `commit_phase`) are modelled as `Failure` values.
- `Matrices` holds the matrix type, powers of two, and the stable sort by descending height. It also holds `peeking_take_while`, modelled as `RunLength`, and `group_by`, modelled as `GroupByHeight`. Both the tree and the FRI prover use these.
- `MerkleTrees` models `merkle-tree/src/lib.rs`. Besides the construction it holds a reference definition, `RefLayers`, which states which matrices are injected at each layer by height alone, without the sort and the peeking iterator. `LayersFromIsRef` and `NewIsRef` prove that the construction equals it.
- `FriProver` models `fri/src/prover.rs`. Field elements are `int`. Every statement proved is an identity of commutative rings, so it also holds in a prime field and its extensions.

The code as written differs from the usual mixed-height MMCS/FRI description in these ways, and the model follows the code:

- `commit_phase` pushes `current` to `committed` *before* reducing the next group into it. It never Merkle-commits anything.
- `commit_phase` does not fold down to a terminal value after the last group.
- `open_batch` returns an empty proof rather than an authentication path.
- A matrix of height `h` is injected when the previous layer has length `h`. Only its rows `0..h/2` are read, since the next layer has `h/2` entries.
- The fold loop's guard is the one in the code; see Findings.

## Model

| member | source | states |
|---|---|---|
| MerkleTrees.New | merkle-tree/src/lib.rs:31-93 | Construction fails with `NoMatrices` exactly when the list is empty, and with `HeightNotPowerOfTwo` exactly when some height is not a power of two (height 0 included). Otherwise it succeeds, keeps the matrices unchanged in input order, and has at least one layer. |
| MerkleTrees.NewLeafLayer | merkle-tree/src/lib.rs:46-58 | Layer 0 has `maxHeight` entries. Entry `i` is `h` applied to row `i` of every matrix of the largest height, concatenated in input order (the sort keeps ties in input order). |
| MerkleTrees.NewLayerCount | merkle-tree/src/lib.rs:60-87 | A built tree has `log2(maxHeight) + 1` layers. Layer `k` has `maxHeight / 2^k` entries, so each layer is half the one before, and the last layer has exactly one entry. |
| MerkleTrees.NewLayerSteps | merkle-tree/src/lib.rs:67-84 | Every layer after the first has half the previous length. Entry `i` is `c(prev[2i], prev[2i+1])` when no shorter matrix has height `|prev|`. Otherwise it is `c(c(prev[2i], prev[2i+1]), h(row i of those matrices, in input order))`. |
| MerkleTrees.LayersFromIsRef | merkle-tree/src/lib.rs:61-87 | The loop driven by the peeking iterator over the sorted matrices builds the same layers as the reference. The reference injects, after a layer of length `p`, every matrix of height `p` (none at the top). |
| MerkleTrees.NewIsRef | merkle-tree/src/lib.rs:46-87 | The digest layers of `New` are layer 0 followed by the reference layers, for every valid input. |
| MerkleTrees.OnlyUsedRowsMatter | merkle-tree/src/lib.rs:68-81 | Take two matrix lists with the same heights that agree on every row the construction reads: all rows of the tallest matrices, and rows `0..h/2` of a shorter matrix of height `h`. Their trees have identical digest layers, so changing any other row changes nothing. |
| MerkleTrees.HeightOneMatricesIgnored | merkle-tree/src/lib.rs:61-65 | When the tallest matrix has more than one row, two lists that differ only in the contents of height-1 matrices build identical digest layers (and so the same root). The loop stops at length 1 before any height-1 matrix is taken. |
| MerkleTrees.OpenBatch | merkle-tree/src/lib.rs:141-149 | `open_batch(row)` returns one row per stored matrix, in input order. Entry `k` is row `row` of matrix `k`, and the proof is empty. |
| MerkleTrees.OpenBatchMatchesLeaf | merkle-tree/src/lib.rs:141-149 | The rows `open_batch(row)` returns for the matrices of largest height are exactly what leaf digest `row` hashes. Entry `row` of layer 0 is `h` of those rows concatenated. |
| MerkleTrees.Commit | merkle-tree/src/lib.rs:173-177 | `commit` succeeds exactly when `new` does. It returns the tree `new` builds and that tree's root. `get_matrices` of the tree is the input list, the tree has `log2(maxHeight) + 1` layers, the last layer has one entry, and the root is that entry. |
| Matrices.Log2 | merkle-tree/src/lib.rs:39-44 | For a power of two `n`, `2^Log2(n) == n`. |
| Matrices.PowerOfTwoIsPow2 | merkle-tree/src/lib.rs:39-44 | `is_power_of_two` holds exactly for the numbers `2^k`, and `Log2` inverts `2^k`. |
| Matrices.SortByHeightDesc | merkle-tree/src/lib.rs:46-49 | The sorted list is a permutation of the input (same multiset) and is ordered by non-increasing height. |
| Matrices.SortIsStable | merkle-tree/src/lib.rs:46-49 | For every height `q`, the matrices of height `q` appear in the sorted list in the same order as in the input. |
| Matrices.SortedStartsWithMax | merkle-tree/src/lib.rs:46-50 | The sorted list is as long as the input, and its first matrix has the largest height, as `peek().unwrap().height()` takes. |
| Matrices.RunOfSortedIsFilter | merkle-tree/src/lib.rs:52-54 | On a sorted list bounded by `q`, `peeking_take_while(height == q)` takes exactly the matrices of height `q`. Everything left behind is shorter than `q`. |
| Matrices.GroupByHeight | fri/src/prover.rs:45-49 | `group_by(height)` splits the list into non-empty groups. Each group's matrices all have its height, adjacent groups have different heights, and the groups concatenate back to the list. |
| Matrices.GroupIsFilter | fri/src/prover.rs:45-49 | On a sorted list, group `j` holds exactly the matrices of its height, in list order. |
| Matrices.GroupsOfSortedDescend | fri/src/prover.rs:45-49 | On a sorted list, the group heights strictly descend. |
| FriProver.HeightGroups | fri/src/prover.rs:45-50 | The groups `commit_phase` iterates over are well formed and strictly descending in height. There are none exactly when there are no matrices. |
| FriProver.HeightGroupsAreClasses | fri/src/prover.rs:45-49 | Each group holds exactly the input matrices of its height, in input order, and every input height has its group. |
| FriProver.ReduceMatrices | fri/src/prover.rs:79-102 | The output has exactly `height` entries. Entry `r` is the left fold `acc <- acc * alpha + col` from `init[r]` over the concatenated row `r` of all matrices, in order. |
| FriProver.ReduceRowIsHorner | fri/src/prover.rs:93-99 | The nested loops (matrix by matrix, then column by column) equal one Horner fold over the concatenation of the rows. |
| FriProver.HornerAppend | fri/src/prover.rs:95-97 | Folding over `a + b` equals folding over `a` and then continuing over `b`. |
| FriProver.ReduceNoMatrices | fri/src/prover.rs:91-101 | With no matrices the output is `init[..height]`. |
| FriProver.ReduceContinuation | fri/src/prover.rs:93-98 | Reducing `ms1 + ms2` from `init` equals reducing `ms2` from the reduction of `ms1`. This is the running accumulation. |
| FriProver.ReducePrefix | fri/src/prover.rs:91-93 | Only `init[..height]` is read, and a shorter reduction is a prefix of a longer one over the same matrices. |
| FriProver.HornerClosedForm | fri/src/prover.rs:93-99 | The fold equals `acc * alpha^n + sum over k of col_k * alpha^(n-1-k)`. |
| FriProver.ReduceClosedForm | fri/src/prover.rs:91-101 | Row `r` of the output equals `init[r] * alpha^n + sum over k of col_k * alpha^(n-1-k)`, where the columns are row `r` of every matrix in order. |
| FriProver.FoldEvenOdd | fri/src/prover.rs:74-77 | The output has `ceil(n/2)` entries (half of an even length), and entry `i` is `p[2i] + beta * p[2i+1]`. A missing last odd coefficient counts as 0. This is derived from the doc comment; the body is `todo!()`. |
| FriProver.EvenOddSplit | fri/src/prover.rs:74 | `p(x) = p_even(x^2) + x * p_odd(x^2)` for every `x`, with `p_even` and `p_odd` the even- and odd-index coefficients. |
| FriProver.FoldEvaluates | fri/src/prover.rs:74 | The folded polynomial evaluates to `p_even(y) + beta * p_odd(y)` at every point `y`. |
| FriProver.FoldWithZeroBeta | fri/src/prover.rs:74 | With `beta = 0` the fold is exactly the even-index part. |
| FriProver.FoldAtSquare | fri/src/prover.rs:74 | `2x * fold(p, beta)(x^2) == (x + beta) * p(x) + (x - beta) * p(-x)`. This is the division-free even/odd identity on a pair `x, -x` of the domain. |
| FriProver.CommitPhase | fri/src/prover.rs:33-72 | The commit phase fails with `NoMatrices` exactly when the codewords hold no matrix. Otherwise `committed` has one entry per distinct height. |
| FriProver.CommitPhaseFirst | fri/src/prover.rs:52-56 | The first working codeword is every matrix of the largest height, in input order, reduced from the zero vector of that height. |
| FriProver.CommitPhaseChain | fri/src/prover.rs:56-70 | `committed[0]` is the reduction of the tallest group. For `j >= 1`, `committed[j]` is the running accumulation of groups `0..j-1`, taken before group `j` is reduced in. That entry is longer than group `j`, so the fold guard `current.len() < height` never holds. The final `current` is all matrices reduced over the rows of the smallest height. |
| FriProver.CommitGroupsChain | fri/src/prover.rs:53-70 | The same chain stated on the height groups. Each entry is `Accumulated`: the matrices of groups `0..j` reduced from zero over `groups[j].height` rows. |
| FriProver.ReduceGroupsChain | fri/src/prover.rs:58-70 | Each iteration of the group loop pushes the accumulation so far, then extends it by one group. |
| FriProver.AccumulateStep | fri/src/prover.rs:64-69 | Reducing group `j` into the accumulation after group `j-1` yields the accumulation after group `j`. This combines continuation and prefix. |
| FriProver.CommittedRepeatsFirst | fri/src/prover.rs:56-63 | With two or more heights, `committed[1] == committed[0]`. |
| FriProver.AsWrittenExample | fri/src/prover.rs:58-70 | Take heights 4 and 2, one column each, `alpha = 1`. Then `committed == [[1,2,3,4],[1,2,3,4]]` and `current == [6, 8]`: the height-2 matrix is added to rows 0 and 1 of the unfolded codeword. |
| FriProver.FoldDown | fri/src/prover.rs:59-62 | This is the corrected fold loop (`>`). It leaves a codeword no longer than the height unchanged, and folds a power-of-two codeword down to a smaller power-of-two height exactly. |
| FriProver.FoldDownDraws | fri/src/prover.rs:59-62 | Folding from `2^a` down to `2^b` draws exactly `a - b` challenges. |
| FriProver.FoldDownChallenges | fri/src/prover.rs:59-62 | Folding a codeword `2^n` times longer than the height takes exactly `n` halvings, and halving `t` uses the fresh challenge `betas(draws + t)`. The result is the fold with `betas(draws)`, ..., `betas(draws + n - 1)` in that order, and the draw counter advances by `n`. A loop that reuses one challenge for every halving does not meet this. |
| FriProver.FoldAllIsWeightedSum | fri/src/prover.rs:74-77 | Folding `2^k` coefficients with challenges `b_0, ..., b_(k-1)` in turn leaves one value: `sum_i p[i] * prod b_t` over the set bits `t` of `i`. This is the multilinear evaluation of the coefficients at the challenges. |
| FriProver.FoldDownToOne | fri/src/prover.rs:59-62 | With the corrected guard, folding a codeword of length `2^n` down to one entry leaves `sum_i current[i] * prod betas(draws + t)` over the set bits `t` of `i`. |
| FriProver.ExampleFoldDownToOne | fri/src/prover.rs:59-62 | Four entries folded down to one give `p0 + p1 * betas(0) + p2 * betas(1) + p3 * betas(0) * betas(1)`. The first halving uses `betas(0)` and the second uses `betas(1)`. |
| FriProver.ExampleFoldDown | fri/src/prover.rs:59-62 | With the corrected guard, the example's height-4 codeword is folded with the first challenge to `[1 + 2 beta, 3 + 4 beta]`, and one challenge is drawn. The unfolded `[1, 2]` is never obtained. |
| FriProver.TwoGroupsFolding | fri/src/prover.rs:52-69 | With the corrected guard and two height groups, the phase commits the first reduction. It then folds that reduction down to the second height, commits the folded codeword, and reduces the second group into it. |
| FriProver.FoldedExample | fri/src/prover.rs:52-69 | On the example with the corrected guard, `committed == [[1,2,3,4], [1 + 2 beta, 3 + 4 beta]]`, `current == [6 + 2 beta, 9 + 4 beta]`, and one challenge is drawn. This is the counterpart of `FriProver.AsWrittenExample`. |
| FriProver.CommitGroupsFolding | fri/src/prover.rs:53-70 | With the corrected guard, every committed codeword has exactly the height of its group, and the final `current` has the smallest height. |
| FriProver.CommitPhaseFolding | fri/src/prover.rs:33-72 | With the corrected guard, on codewords with power-of-two heights, the phase fails exactly when there are no matrices. Otherwise there is one committed codeword per distinct height, and each has exactly the height of its group. |

## Left out

- `verify_batch` (merkle-tree/src/lib.rs:155-163) is `todo!()`, and `open_batch` returns an empty proof, so no authentication path or verifier exists to model.
- `prove` (fri/src/prover.rs:13-31), the query phase and the verifier are `todo!()` or absent. The challenger is not modelled: `alpha` and the `beta` draws are parameters.
- `commit_phase` never returns: the model returns the state `(committed, current)` reached at its `todo!()`. Its declared result, the Merkle prover data of every round, is not built by the source.
- Field arithmetic is `int`. The Goldilocks/extension-field representation, lifting from base to extension field, and inverses are not modelled. No statement needs division.
- Hash and compression functions are opaque function parameters. No collision-resistance property is claimed.
- `RowMajorMatrix` is modelled as a sequence of rows. Its flat storage and width are not modelled, and rows of one matrix are not required to have equal length, since no property depends on it.
- `MerkleTreeMMCS::new` is the datatype constructor `MerkleTreeMmcs`. The remaining repository files (fri/src/lib.rs, the Poseidon tables and imports, code/src/systematic.rs, multi-stark/src/prover.rs, the PCS adapter) are not part of this model.
- MerkleTrees.Root and MerkleTrees.GetMatrices carry no contract of their own. What they return is stated in `MerkleTrees.Commit`.
- MerkleTrees.OpenBatch requires every matrix to have more than `row` rows, because reading a shorter matrix's row panics in the source. As a consequence, in a tree whose matrices have different heights, no row at or above the smallest height can be opened, even though it is a row of the tallest matrices and has a leaf digest in layer 0. `MerkleTrees.OpenBatchMatchesLeaf` carries the same requires. This is a limitation of the source's `open_batch`, not of the model.
- FriProver.FoldEvenOdd is a coefficient-form specification taken from the doc comment, since the body is `todo!()`. On an odd length the last even coefficient has no odd partner, which is a modelling choice. In the corrected commit phase (`FriProver.FoldDown`, `FriProver.FoldDownChallenges`, `FriProver.FoldDownToOne` and the examples) this coefficient fold is applied to `current`, which the code holds as a codeword of evaluations, so the folded values there rest on reading the input of `fold_even_odd` as coefficients; `FriProver.FoldAtSquare` is what links the coefficient fold to pairs of evaluations `p(x)`, `p(-x)`.
- FriProver.CommitPhase does not model the fixed `beta = ZERO` of the fold loop, because that loop body is unreachable. `CommitPhaseFolding` takes the draws as a parameter `betas`.
- `usize` arithmetic: heights and indices are unbounded naturals. No index expression in the source can overflow for a sequence that fits in memory.
- Parallelism, `no_std`/alloc plumbing, and cloning are not modelled.

## Findings

| source | as written | input that shows it | evidently intended | confidence | as-written member | corrected member |
|---|---|---|---|---|---|---|
| fri/src/prover.rs:59-62 | The fold loop runs `while current.len() < height`. The groups come in strictly descending height and `current` is as long as the previous group, so the guard is never true and no fold happens. Each later group is added to a prefix of the unfolded codeword, and `committed[1]` repeats `committed[0]`. | Two matrices of heights 4 and 2, one column each (`[1,2,3,4]` and `[5,6]`), `alpha = 1`. As written, `committed == [[1,2,3,4],[1,2,3,4]]` and `current == [6, 8]` (`FriProver.AsWrittenExample`). For every input, `FriProver.CommitPhaseChain` shows each later group is shorter than the entry pushed before it. | `while current.len() > height`, folding with a fresh `beta` per step (`FriProver.FoldDownChallenges`), so that every committed codeword has its group's height. In the example the height-4 codeword becomes `[1 + 2 beta, 3 + 4 beta]` first. Then `committed == [[1,2,3,4],[1 + 2 beta, 3 + 4 beta]]` and `current == [6 + 2 beta, 9 + 4 beta]` (`FriProver.FoldedExample`). | medium (not executed; the surrounding code is unfinished) | FriProver.CommitPhase | FriProver.CommitPhaseFolding |
