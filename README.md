# ml-rust in Dafny: matrix utilities, k-nearest neighbours, RBF regression

This project models the index-and-shape core of ml-rust, a small machine-learning library written in Rust on top of nalgebra's `DMatrix`. Three parts are covered:

- **Dense-matrix utilities** (`src/utils/utils.rs`): row slicing, column append, copy, matrix product, polynomial feature expansion, the train/test split and the accuracy score.
- **The k-nearest-neighbour classifier** (`src/clusters/knn.rs`). For each query row it lists (distance, label) for every training row, sorts that list stably by distance, counts labels among the first k items and answers a label with the largest count.
- **The structural part of RBF regression** (`src/regressions/rbf_regression.rs`):
  - the constructor's all-ones placeholders;
  - the in-place centre sampling in `fit`;
  - the Gaussian kernel matrix of `calculate_gradient`;
  - the factorisation dispatch;
  - the product computed by `predict`.

Modelling choices:

- **Matrices.** A matrix is `Dense(nrows, ncols, data)` with `|data| == nrows * ncols`. Storage is column-major, as in nalgebra: cell (r, c) is at `c * nrows + r`. Entries are mathematical reals rather than `f32`.
- **Loops and specifications.** Each Rust function that fills a zeroed buffer cell by cell is a method over a local `array`. Its loop invariants are stated at those column-major offsets, and it is proved to return a specification matrix built by `Matrices.Build`.
- **Panics.** A panic is the `Panic(fault)` case of `Outcomes.Result`, and every panic condition of the code is stated as an if-and-only-if.
- **Caller-supplied collaborators.** Randomness, `exp` and the linear solvers are supplied by the caller:
  - a shuffle is a permutation of `0..n` (`Shuffles.IsShuffle`);
  - `exp` is any function from reals to reals;
  - `solve(f, A, b)` is any function that returns some matrix or `None` for factorisation `f`. `None` stands for a failed nalgebra solve, where the `unwrap` panics. The only constraint is the shape of the answer (`Rbf.SolvesToShape`): one row per column of A and one column per column of b, as nalgebra's SVD, QR and LU solves return. With it, the weights keep one row per centre through `new` and every `fit`, which is part of `Rbf.RBFRegression.Valid`.
- **KNN labels** are reals compared by equality. The hash map's iteration order is left open: the vote may return any label of maximal count.
- **Behaviour worth noting:**
  - The test count of `train_test_split` is `floor(n * test_size)`, because `as usize` truncates (src/utils/utils.rs:41).
  - With k = 1, a query equal to a training row gets the label of the earliest training row at distance 0. That is another row's label when an earlier training row also equals the query (`Knn.ExactMatchGetsZeroDistanceLabel`, `Knn.OneNeighborIsNearest`).

Files: `outcomes.dfy` (Option, Result, faults), `matrix.dfy` (the matrix type, cell access, `Build`, transpose, squared row distance), `shuffles.dfy` (permutations of `0..n`), `types.dfy` (the two enums of `src/utils/types.rs`), `utils.dfy`, `knn.dfy`, `rbf.dfy`.

## Model

| member | source | states |
|---|---|---|
| Matrices.RowSqDistFacts | src/clusters/knn.rs:39-42 | the squared distance between two rows is never negative, and it is 0 when the rows agree in every column |
| Shuffles.ShuffleFacts | src/utils/utils.rs:47-52 | a shuffle of `0..n` has length n, holds only indices below n, holds every index below n, and holds none twice |
| Shuffles.SplitPartitions | src/utils/utils.rs:54-57 | cutting a shuffle at t puts every index in the prefix or the suffix and never in both |
| Shuffles.RangeIsShuffle | src/utils/utils.rs:47-52 | the unshuffled `indices` (0, 1, …, n-1) form a permutation of `0..n` |
| Utils.SliceRowsAt | src/utils/utils.rs:122-131 | entry (i, c) of the slice is entry (idx[i], c) of the source matrix |
| Utils.SliceRowsRow | src/utils/utils.rs:122-131 | row i of the slice is row idx[i] of the source, so repeated indices give repeated rows |
| Utils.SliceAllRows | src/utils/utils.rs:122-131 | slicing by 0, 1, …, nrows-1 gives back the matrix |
| Utils.SliceOfSlice | src/utils/utils.rs:122-131 | slicing a slice is slicing by the composed index list |
| Utils.SliceByRow | src/utils/utils.rs:122-131 | `slice_by_row` panics exactly when the matrix has columns and some index is not a row; otherwise it returns the slice, with one row per index and the source's column count |
| Utils.WithColumnAt | src/utils/utils.rs:83-93 | the first ncols columns of the result are m, and column ncols holds the new column's entries |
| Utils.WithColumnIgnoresExtra | src/utils/utils.rs:83-93 | entries of the new column beyond m's row count do not affect the result |
| Utils.AppendColumn | src/utils/utils.rs:83-93 | `append_column` panics exactly when the column is shorter than m's row count; otherwise it returns m with the column appended, of shape nrows × (ncols + 1) |
| Utils.FlatMatrix | src/utils/utils.rs:72-81 | `flat_matrix` returns a matrix equal to its argument: same shape, same entries |
| Utils.ProductAt | src/utils/utils.rs:95-120 | entry (r, c) of the product is the sum over i < a.ncols of a[r, i] · b[i, c] |
| Utils.ProductIdentity | src/utils/utils.rs:95-120 | the identity matrix is neutral on both sides of the product |
| Utils.RunningSum | src/utils/utils.rs:111-114 | the running sum `s` of the inner loop ends at the dot product of row r of a with column c of b |
| Utils.MatMul | src/utils/utils.rs:95-120 | `matmul` panics with a shape mismatch exactly when a's column count differs from b's row count; otherwise it returns the product of shape a.nrows × b.ncols |
| Utils.ExpandAt | src/utils/utils.rs:9-19 | for col + 1 < degree, entry (row, col) is x[row, 0] raised to col + 1; the last column is all ones |
| Utils.ExpandOnlyReadsFirstColumn | src/utils/utils.rs:9-19 | two inputs with the same row count and the same first column expand identically: only column 0 is read |
| Utils.ExpandMatrix | src/utils/utils.rs:9-19 | `expand_matrix` panics exactly when x has a row and either no column or degree 0; otherwise it returns the expansion, of shape x.nrows × degree |
| Utils.TestCount | src/utils/utils.rs:41 | the test count `floor(n * test_size)` never exceeds n when 0 < test_size ≤ 1 |
| Utils.TrainTestSplit | src/utils/utils.rs:21-60 | panics in the code's order: row counts differ (shape mismatch), then test_size outside (0, 1], then a test count below 1. Otherwise the test parts are the rows at the first n_test indices and the train parts the rows at the rest, the indices being the caller's shuffle or 0..n-1 |
| Utils.SplitFacts | src/utils/utils.rs:47-59 | train and test row counts add up to n for x and for y; every index lands in exactly one part; test row i is source row order[i], and train row i is source row order[n_test + i] |
| Utils.UnshuffledSplit | src/utils/utils.rs:50-57 | without shuffling, test row i is row i and train row i is row n_test + i, for x and for y |
| Utils.MatchCount | src/utils/utils.rs:63-68 | the number of matching positions is at most the length of y_hat |
| Utils.MatchCountAll | src/utils/utils.rs:63-68 | when every position matches, the count is the length of y_hat |
| Utils.MatchCountNone | src/utils/utils.rs:63-68 | when no position matches, the count is 0 |
| Utils.Accuracy | src/utils/utils.rs:62-70 | `accuracy` panics exactly when y_hat is longer than y_target; it is NaN exactly when both are empty; any other value lies in [0, 1] |
| Utils.AccuracyOfIdentical | src/utils/utils.rs:62-70 | identical non-empty vectors score exactly 1 |
| Utils.AccuracyWithoutMatches | src/utils/utils.rs:62-70 | equal-length non-empty vectors that never match score exactly 0 |
| Knn.SortByDistIsStableSort | src/clusters/knn.rs:51-52 | the sort returns its input ordered by non-decreasing distance and as a permutation; items of equal distance keep their input order |
| Knn.FirstNearest | src/clusters/knn.rs:51-52 | the chosen position holds a minimal distance, and every earlier position holds a strictly larger one |
| Knn.SortedHeadIsFirstNearest | src/clusters/knn.rs:51-52 | the first sorted item is the earliest item at minimal distance |
| Knn.CountedLabelIsPresent | src/clusters/knn.rs:54-60 | a label with a positive count is the label of one of the counted items |
| Knn.MaxByCount | src/clusters/knn.rs:60 | `max_by_key` over the count map: None exactly for an empty map; otherwise a key whose count is at least every other key's, in any iteration order |
| Knn.Vote | src/clusters/knn.rs:54-60 | panics exactly when k is 0 (the `unwrap`) or exceeds the list (the indexing); otherwise it returns a label that occurs among the first k items and whose count there is at least every label's |
| Knn.OneNeighborIsNearest | src/clusters/knn.rs:37-60 | with k = 1 the answer is the label of a training row at minimal distance from the query, and no earlier training row is as near |
| Knn.ExactMatchGetsZeroDistanceLabel | src/clusters/knn.rs:37-60 | with k = 1, a query equal to a training row gets the label of a training row at distance 0 |
| Knn.KNN.constructor | src/clusters/knn.rs:26-32 | `KNN::new` stores x, y and n_neighborhood unchanged |
| Knn.KNN.Predict | src/clusters/knn.rs:34-64 | panics exactly when there is a query row and either the training rows cannot be read against it (column mismatch, y without column 0 or with fewer rows than x) or k is 0 or exceeds the training rows. Otherwise it returns one label per query row, in query order. Each label is a majority among the first k items of the stably sorted list of (squared distance to training row i, y[i, 0]). The stored model is not modified |
| Rbf.SquaredDistance | src/regressions/rbf_regression.rs:107-110 | the norm accumulated over the row difference is the squared Euclidean distance between the centre and the sample |
| Rbf.CalculateGradient | src/regressions/rbf_regression.rs:103-116 | `calculate_gradient` panics exactly when both matrices have rows and their column counts differ. Otherwise it returns the x.nrows × centres.nrows matrix whose entry (row, col) is exp(-beta · squared distance from centre col to sample row), stored column-major |
| Rbf.NearerCenterWeighsMore | src/regressions/rbf_regression.rs:107-111 | with beta ≥ 0 and an increasing exp, a nearer centre gets a kernel value at least that of a farther one, and no value exceeds exp(0) |
| Rbf.SampledCentersRows | src/regressions/rbf_regression.rs:47-60 | after sampling, centre i is expanded sample perm[i] for i below both the centre count and the sample count, the remaining centres keep their previous rows, and no sample is taken twice |
| Rbf.SampledCenterMatchesItsSample | src/regressions/rbf_regression.rs:52-62 | a centre sampled from a training sample has kernel value exp(0) at that sample |
| Rbf.NormalMatrixSymmetric | src/regressions/rbf_regression.rs:64-89 | the matrix GᵀG handed to every factorisation is symmetric |
| Rbf.RBFRegression.constructor | src/regressions/rbf_regression.rs:17-39 | `new` stores beta, num_center and the factorisation, and `numCols` (standing for the centre matrix's column count, the `num_cols` argument); centres are a num_center × num_cols matrix of ones, and weights a num_center × 1 matrix of ones |
| Rbf.RBFRegression.SampleCenters | src/regressions/rbf_regression.rs:47-60 | the sampling loop panics exactly when there is a sample with a coordinate but no centre. Otherwise it leaves the centre buffer equal to `SampledCenters` of its previous contents: exactly min(num_center, n) rows are copied, in shuffle order |
| Rbf.RBFRegression.Fit | src/regressions/rbf_regression.rs:41-90 | `fit` panics when the expansion fails, when there is a sample but no centre, or when y's row count differs from x's. Otherwise the centres are resampled from the expansion of x to the centres' width, and the centre shape is kept. Given a solver whose answers have the shape of nalgebra's, the weights keep one row per centre. The weights are the solver's answer to (GᵀG, Gᵀy) for the configured factorisation, SVD when none is set, and the call panics exactly when the solver fails |
| Rbf.RBFRegression.Predict | src/regressions/rbf_regression.rs:92-100 | `predict` panics exactly when the expansion fails; the weights always have one row per centre, so the product never mismatches. Otherwise it returns the kernel matrix of the expanded input against the centres times the weights, and the model is not modified |

## Left out

- **Floating point.** `f32` rounding, overflow to infinity and NaN are not modelled; entries are reals. Two consequences follow. The NaN that makes KNN's `partial_cmp(..).unwrap()` panic cannot arise. `accuracy`'s 0/0 is a separate `NotANumber` result.
- **KNN labels.** The code groups labels through `f32::to_string` and returns them as `String`s. The model groups and returns the real values. `-0.0` and `0.0` therefore count as one label here, although they are two strings in the code.
- **`NeighborhoodItem::new`.** Its placeholder values (-1, `f32::MAX`) are overwritten before use, so the model builds each item directly from its distance and label.
- **Solvers and `exp`.** The SVD, QR and LU solves of `fit` come from nalgebra and are parameters here. This includes the SVD's singular-value threshold of 1.0. Only which solver is called, on which matrices, and the shape of its answer are modelled; that the answer solves the system is not. `exp` is a parameter too.
- **Randomness.** `thread_rng` shuffles are parameters: a permutation of the row indices.
- **Rbf.RBFRegression.Fit:** the state after a panic is not specified. In the code, a panic after sampling has already changed the centres. Fit also does not state which fault is raised; only `SampleCenters` and the utilities do.
- **Rbf.RBFRegression.SampleCenters:** the loop runs over positions of the shuffled index, where the code iterates the shuffled vector itself. Both visit `perm[0], perm[1], …` in the same order.
- **`src/main.rs`** is not part of this model. It holds argument handling, CSV reading and plotting, which are all I/O.
- **Other regressions and statistics.** `src/utils/stats.rs`, `src/regressions/linear_regression.rs` and `src/regressions/polynomial_regression.rs` are floating-point numerics or a direct call into nalgebra's SVD. None of them belongs to the modelled core.
- **`TypeRegression`** is declared (`Types.Loss`) but is used only by the polynomial regression, which is left out.
