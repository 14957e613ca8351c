# MI-API estimators in Dafny

MI-API estimates the mutual information between side-channel traces and a
secret. It has two estimators and a set of helpers:

- **The GKOV estimator.** This is a k-nearest-neighbour estimator under the
  Chebyshev (L-infinity) metric. There are three revisions:
  - `src/gkov.cpp`, the current one;
  - `gkov.cpp`, an earlier one;
  - `library.cpp`, the first draft.

  Each revision checks the input sizes and assembles the joint sample matrix
  [X | Y]. It then projects that matrix onto its X and Y marginals. For every
  sample i it computes:
  - d_ixy, the joint distance of the t-th neighbour;
  - d_i, the tie count;
  - n_ix and n_iy, the marginal neighbour counts within that distance.
- **The histogram estimator.** There are two revisions, `src/hist.cpp` and
  `hist.cpp`. They build per-dimension bins with running offsets, flatten
  multi-dimensional bin indices, count samples into a histogram and normalise
  the counts into a pdf. They also extract the distinct values of a discrete
  input.
- **The helpers.** These are `src/utils.cpp` and `utils.cpp`:
  - the row views and row copies that bring an n-dimensional array into GKOV
    layout, including a recursive flatten;
  - the empirical distribution of a discrete input;
  - the trace file name.

The model is split into modules:

- `Gkov`, `GkovEarly` and `GkovDraft` model the three GKOV revisions.
- `Hist` and `HistEarly` model the two histogram revisions.
- `Utils` and `UtilsEarly` model the two helper files.
- Four modules stand in for the libraries the code calls:
  - `NeighborSearch` gives the brute-force contract of the mlpack k-NN and
    range searches;
  - `Sorting` gives an insertion-sort specification of `std::sort`;
  - `Matrices` covers the Armadillo `t()`, `submat` and `col`;
  - `Arith` holds products, sums and C integer division and truncation.

Some conventions hold throughout:

- Coordinates are `real`.
- The C++ exceptions become a `Result` or `Outcome` carrying the source's own
  message.
- `digamma` and `log` are parameters of the estimating methods.
- The loops that fill arrays in place are methods with loop invariants. Each is
  proved against a specification function of its inputs.

One place where the specification and the code disagree: in the tie branch of
`src/gkov.cpp` (lines 50-53), d_i is set to the number of query lists that
the range search returns. That number is always 1, not the number of
coincident samples. The model follows the code; see
`Gkov.TieBranchIgnoresCoincidentCount`.

## Model

| member | source | states |
|---|---|---|
| Gkov.CheckDimensions | src/gkov.cpp:118-128 | passes exactly when sizeOfX > 0, both extents of Y are positive and sizeOfX equals the first extent; otherwise fails with the message of the first test that fails, in source order |
| Gkov.JointPoints | src/gkov.cpp:102-110 | the joint space has sizeOfX points of D+1 coordinates each, all of one width |
| Gkov.PrepareData | src/gkov.cpp:102-110 | validates first and fails with check_dimensions' error; on success it returns a sizeOfX x (D+1) matrix whose column 0 is X and whose entry (i, j+1) is Y[i][j] (Y sample-major) |
| Gkov.MarginalColumns | src/gkov.cpp:26-29 | after the transpose, row 0 is the X marginal and rows 1..D the Y marginal, and column i of each is sample i |
| Gkov.Rank | src/gkov.cpp:25 | t is int(t_n) converted to size_t: it is below 2^64, equals the truncation when that is in [0, 2^64), and is the truncation plus 2^64 (the size_t wrap) when that is negative |
| Gkov.RankBelowCount | src/gkov.cpp:25 | for a truncation within `int` and an `int` sample count n, t < n exactly when t_n truncates into [0, n): a negative t_n always gives an out-of-range rank |
| Gkov.RankOfLogFive | gkov.cpp:23 | with `log` as t_n and five samples, as in the test driver, t = 1 |
| Gkov.MarginalsCloser | src/gkov.cpp:27-29 | the X-only and Y-only Chebyshev distances between two samples never exceed their joint distance |
| Gkov.SampleBounds | src/gkov.cpp:44-65 | d_ixy is non-negative and is 0 when t = 0 (the self-match); at least t+1 samples lie within d_ixy in each marginal |
| Gkov.EstimationBounds | src/gkov.cpp:39-69 | over every sample: d_ixy >= 0, n_ix and n_iy >= t+1, d_i >= 1 unless t = 0, and t = 0 forces d_ixy = 0 and d_i = 1 |
| Gkov.TieBranchIgnoresCoincidentCount | src/gkov.cpp:50-53 | however many samples coincide with sample i, the tie branch sets d_i to 1, the number of query lists |
| Gkov.GkovEstimator.constructor | src/gkov.cpp:12-14 | stores the callback, so that t_n(n) returns callback(n) unchanged |
| Gkov.GkovEstimator.Estimate | src/gkov.cpp:24-47 | fails with the size error, or with RankOutOfRange when t >= N (where the k-NN search for t+1 neighbours throws); otherwise every per-sample array is the estimation over the joint and marginal points |
| Gkov.ComputeEstimation | src/gkov.cpp:39-69 | the two loops together yield the estimation defined sample by sample |
| Gkov.JointDistanceLoop | src/gkov.cpp:39-47 | slot k of d_ixy is the element at 0-based position t of the ascending joint distances from sample k, self included |
| Gkov.StatisticsLoop | src/gkov.cpp:40-69 | slot k of d_i is 1 when d_ixy[k] = 0 and t otherwise; n_ix[k] and n_iy[k] count the samples within d_ixy[k] in each marginal; a_i[k] is the sample's term |
| Gkov.SampleStatistics | src/gkov.cpp:50-68 | the loop body for one sample: the tie branch, and the two inclusive marginal range counts |
| Gkov.AccumulateCounts | src/gkov.cpp:57-59 | `n[i] += size()` over the non-empty lists adds up the sizes of all the lists |
| Gkov.SumLengthsSingle | src/gkov.cpp:56-59 | a single-query range search contributes the size of its only list |
| GkovEarly.YColumnPoints | gkov.cpp:71-73 | sample r of the Y marginal reads entry r of every coordinate row Y[i] |
| GkovEarly.ColumnMajorPoints | gkov.cpp:67-75 | sample r of the joint space is [X[r], Y[0][r], ..., Y[D-1][r]] |
| GkovEarly.ColumnMajorIsTransposedJoint | gkov.cpp:71-73 | reading Y coordinate-major gives the same joint points as the current revision applied to the transpose of Y |
| GkovEarly.AssembleColumnMajor | gkov.cpp:69-73 | the column-assignment loop builds exactly the column-major joint points |
| GkovEarly.PrepareData | gkov.cpp:67-75 | the same three size checks and messages as check_dimensions (gkov.cpp:83-93); on success, column 0 is X and column i+1 is Y[i] |
| GkovEarly.ColumnMarginals | gkov.cpp:25-27 | after the transpose, row 0 is the X marginal and rows 1..D the Y marginal |
| GkovEarly.FirstSampleOnly | gkov.cpp:38-51 | because of the return inside the loop, the estimate is sample 0's term / N + log N; the zero-distance count includes the self-match, so d_i[0] >= t+1 when d_ixy[0] = 0 and d_i[0] >= 1 always; n_ix[0] and n_iy[0] are at least 1 |
| GkovEarly.GkovEstimator.constructor | gkov.cpp:10-12 | stores the callback; t_n(n) returns callback(n) |
| GkovEarly.GkovEstimator.Estimate | gkov.cpp:22-51 | fails with the size error, or with RankOutOfRange when t >= N (where `distances(t)` reads past the N distances); otherwise only slot 0 of each per-sample array is written, and the result is sample 0's term |
| GkovEarly.SampleStatistics | gkov.cpp:39-49 | d_ixy is the t-th of all N sorted distances; d_i is the number of zero distances (tie) or t; n_ix and n_iy count the marginal distances at most d_i (the count, not d_ixy) |
| GkovEarly.FirstIteration | gkov.cpp:38-51 | the loop runs once and returns; it fails exactly when t >= N |
| GkovDraft.CheckDimensions | library.cpp:45-53 | fails with the X message exactly when sizeOfX <= 0 and otherwise returns true; it accepts everything Gkov.CheckDimensions accepts, and on failure it gives the same error |
| GkovDraft.PrepareData | library.cpp:29-37 | checks first (library.cpp:30), then column 0 is X and column i+1 is Y[i] |
| GkovDraft.GkovEstimator.constructor | library.cpp:13-19 | stores the callback; t_n(n) returns callback(n) unchanged |
| NeighborSearch.Chebyshev | src/gkov.cpp:130-131 | the metric of the searches is non-negative |
| NeighborSearch.ChebyshevIsLargestDifference | src/gkov.cpp:130-131 | the distance bounds every coordinate difference and equals one of them |
| NeighborSearch.ChebyshevProjection | src/gkov.cpp:28-29 | dropping the Y or the X coordinates never increases the distance |
| NeighborSearch.KNearestDistances | src/gkov.cpp:45-46 | a k-NN search reports k distances in ascending order |
| NeighborSearch.RangeSearchMembers | src/gkov.cpp:135-136 | a range search reports point k for a query exactly when its distance lies in [lo, hi] |
| NeighborSearch.RangeSearchCount | src/gkov.cpp:56-65 | a one-query search over [0, r] returns one list, holding every point within r |
| NeighborSearch.SelfMatchFirst | src/gkov.cpp:45-46 | the nearest distance from a reference point is its own, 0 |
| NeighborSearch.RankCount | src/gkov.cpp:45-46 | at least t+1 points lie within the t-th distance |
| NeighborSearch.ZeroKthDistance | gkov.cpp:40-42 | the t-th distance is 0 exactly when at least t+1 points coincide with the query |
| NeighborSearch.KthMonotone | src/gkov.cpp:45-46 | neighbour distances do not decrease with rank |
| NeighborSearch.CountWithinMonotone | src/gkov.cpp:56-65 | a space whose distances are pointwise smaller has at least as many points within any radius |
| NeighborSearch.AllNeighbors | gkov.cpp:39-48 | a search for all N neighbours counts, at or below r, exactly the points within r |
| Sorting.SortSorted | src/hist.cpp:225 | the sort is ascending |
| Sorting.SortPermutation | src/hist.cpp:225 | the sort keeps exactly the elements, with their multiplicities |
| Matrices.Transpose | src/gkov.cpp:27 | entry (j, i) of the transpose is entry (i, j) |
| Matrices.Submat | src/gkov.cpp:28-29 | submat(r0, c0, r1, c1) is the block of rows r0..r1 and columns c0..c1 |
| Hist.HistEstimator.constructor | src/hist.cpp:10-20 | totalBins is the product and sumOfBins the sum of the first `dimensions` bin counts |
| Hist.HistEstimator.InitializeHistogram | src/hist.cpp:56-69 | a fresh record of totalBins counts and pdf entries, all zero, with size totalBins, the estimator's dimensions and no GSL histogram |
| Hist.BinIndexSlot | src/hist.cpp:129-130 | component i of get_bin_indexes lies in its own slots [offset, offset + bins) exactly when the value lies in [min, max) |
| Hist.BinIndexesInSlots | src/hist.cpp:125-134 | for in-range values, component i lies in [Σ bins[..i], Σ bins[..i+1]), hence below the sum of all bins |
| Hist.HistEstimator.GetBinIndexes | src/hist.cpp:125-134 | the loop with the running offset gives the floor bin of each value, shifted by that offset |
| Hist.SumAtMostProd | src/hist.cpp:13-18 | with at least two bins per dimension, the offset slots (sumOfBins of them) fit among totalBins cells |
| Hist.SampleIndexInBounds | src/hist.cpp:109-112 | coordinate j of sample i, at `i + j * size / dims`, lies inside Y |
| Hist.IncrementsLength | src/hist.cpp:109-116 | each of the size/dims samples adds exactly dims increments |
| Hist.IncrementsInBounds | src/hist.cpp:113-115 | when every value lies in its range, every increment lands below sumOfBins |
| Hist.TallySnoc | src/hist.cpp:115 | one increment at b raises count b by one and changes no other count |
| Hist.TallyTotal | src/hist.cpp:114-115 | in-bounds increments add one each to the total count |
| Hist.NdHistogramTotal | src/hist.cpp:105-118 | the counts total (size/dims) * dims |
| Hist.HistEstimator.ZeroCounts | src/hist.cpp:106-108 | a fresh array of zeros, the tally of no increments |
| Hist.AddCounts | src/hist.cpp:114-115 | after one sample's loop, the counts are the tally of the increments so far plus that sample's |
| Hist.HistEstimator.AddSample | src/hist.cpp:110-115 | one pass of the sample loop turns the tally of i samples into the tally of i+1 |
| Hist.HistEstimator.BuildNdHistogram | src/hist.cpp:105-118 | count b is the number of increments at b, over every sample's bin indexes in loop order |
| Hist.Pdf | src/hist.cpp:146-147 | one probability per count |
| Hist.PdfSumsToOne | src/hist.cpp:143-148 | the probabilities sum to 1 |
| Hist.HistEstimator.ComputePdf | src/hist.cpp:141-148 | for more than two dimensions, pdf[i] is count i divided by the total count |
| Hist.HistEstimator.BuildHistogram | src/hist.cpp:39-50 | for n-dimensional input: the counts are the tally of all increments, they total (size/dims) * dims, and the pdf is their normalisation |
| Hist.HistEstimator.FlatBinIndex | src/hist.cpp:200-206 | as written: Σ bin_indexes[k] * Π bins[..k], first dimension fastest, with the offsets still in the indexes |
| Hist.FirstFastestBound | src/hist.cpp:201-206 | digits within their radices give a flat index below the product of the radices |
| Hist.FlatIndexOverrun | src/hist.cpp:200-206 | with three dimensions of two bins and all values 0, the as-written flat index is 20, past the 8 cells of the pdf |
| Hist.HistEstimator.CorrectedFlatBinIndex | src/hist.cpp:200-206 | the flat index with each dimension's offset removed first |
| Hist.CorrectedFlatIndexInRange | src/hist.cpp:200-207 | with the offsets removed, every in-range sample's flat index lies inside the pdf |
| Hist.RunHeadsStep | src/hist.cpp:227-229 | one more element adds a distinct value exactly when it differs from its predecessor |
| Hist.RunHeadsElements | src/hist.cpp:221-236 | the run heads are exactly the values that occur |
| Hist.RunHeadsIncreasing | src/hist.cpp:225-234 | in sorted input the run heads are strictly increasing |
| Hist.IncreasingCard | src/hist.cpp:226-229 | a strictly increasing sequence has as many distinct values as entries |
| Hist.WrittenPositionsMembers | src/hist.cpp:230-234 | as written, position i is stored into exactly when it starts a run, and there are uniqueSize such positions |
| Hist.UniqueOverrun | src/hist.cpp:230-234 | for [1, 1, 2], uniqueSize is 2 but the loop stores into position 2 |
| Hist.UniqueWritesPastEnd | src/hist.cpp:226-234 | for every sorted copy in which a duplicate precedes a later run head, the loop's last store is at a position >= uniqueSize |
| Hist.WrittenPositionsLast | src/hist.cpp:230-234 | the as-written stores end at the last run head; there are at most last + 1 of them, and at most last once a duplicate precedes it |
| Hist.CountRunHeads | src/hist.cpp:226-229 | the counting loop counts the runs of the sorted copy |
| Hist.StoreRunHeads | src/hist.cpp:230-234 | corrected: storing at a running counter writes exactly the run heads |
| Hist.Unique | src/hist.cpp:221-236 | uniqueSize is the number of distinct values of X[..size] (positive); the array holds them strictly increasing; unique[0] is the minimum; X is unchanged |
| Hist.UniqueProperties | src/hist.cpp:221-236 | the run heads of the sorted input are strictly increasing, hold exactly the input's values, and number the distinct values |
| HistEarly.UniformRanges | hist.cpp:15-25 | there are numberOfBins = Σ bins range slots |
| HistEarly.UniformRangesSlot | hist.cpp:19-29 | slot Σ bins[..i] + j holds [min + w*j, min + w*(j+1)], w = (max - min)/bins[i] |
| HistEarly.UniformRangesCover | hist.cpp:24-25 | in each dimension the first bin starts at rangeMin, the last ends at rangeMax, and each bin ends where the next begins |
| HistEarly.HistEstimator.constructor | hist.cpp:4-17 | sizeOfHistogram is Π bins and numberOfBins is Σ bins; numberOfBins fresh slots hold the uniform ranges |
| HistEarly.HistEstimator.GenerateUniformRanges | hist.cpp:19-29 | the nested loops with the running offset fill every slot with its uniform range |
| HistEarly.HistEstimator.BuildHistogram | hist.cpp:36-42 | a fresh array of sizeOfHistogram zeros; X is ignored |
| HistEarly.LastFastestBound | hist.cpp:44-52 | in-range digits give an index below the product of the bins |
| HistEarly.LastFastestInjective | hist.cpp:44-52 | distinct in-range tuples get distinct indexes |
| HistEarly.HistEstimator.GetIndex | hist.cpp:44-52 | the downward loop computes the row-major index, last dimension fastest |
| HistEarly.GetIndexInRange | hist.cpp:44-52 | get_index maps in-range tuples injectively into [0, sizeOfHistogram) |
| HistEarly.HistEstimator.CheckDimensions | hist.cpp:54-65 | passes exactly when dimensions, size > 0, sizes is non-null, every sizes[i] > 0 and Π sizes = size; otherwise fails with the message of the first failing test |
| Utils.ToGkovFormat | src/utils.cpp:13-21 | row i starts at i * Π sizes[1..dimensions), for each of the sizes[0] rows |
| Utils.RowsTile | src/utils.cpp:15-19 | the rows cover Π sizes: each position of X below that product lies in exactly one row |
| Utils.ComputeDistribution | src/utils.cpp:30-42 | distribution[v] is the number of k < n with (int)X[k] = v, divided by n = Π sizes |
| Utils.CountOccurrences | src/utils.cpp:37-38 | after the counting loop, slot v holds the occurrences of v |
| Utils.Normalize | src/utils.cpp:39-40 | every count is divided by n |
| Utils.DistributionSumsToOne | src/utils.cpp:34-40 | the counts sum to n and, once divided by n, sum to 1 |
| Utils.DecimalLength | src/utils.cpp:112 | a number below 10^k has at most k decimal digits |
| Utils.DecimalInjective | src/utils.cpp:112 | distinct numbers have distinct decimal forms |
| Utils.FilenameFits | src/utils.cpp:110-113 | a uint32 count gives a name of at most 35 characters, which fits the 100-character buffer with its NUL; distinct counts give distinct names |
| Utils.Append | src/utils.cpp:111-113 | strcpy/strcat leave the old text followed by the appended one and a NUL |
| Utils.GenerateFilename | src/utils.cpp:109-115 | the name is "../data/traces/" + decimal(n_trc) + "_traces.h5", shorter than the buffer |
| UtilsEarly.Flatten | utils.cpp:11-22 | flattened[index..index + Π sizes) becomes the X window of that length; everything outside the window is unchanged |
| UtilsEarly.CopyRun | utils.cpp:12-14 | the one-dimensional case copies sizes[0] consecutive elements to index |
| UtilsEarly.FlattenBlocks | utils.cpp:15-21 | block i of width Π sizes[1..] is flattened at index + i * offset, and the blocks together copy the whole window |
| UtilsEarly.ToGkovFormat | utils.cpp:25-37 | sizes[0] rows of width Π sizes[1..dimensions), which laid end to end are X[..Π sizes] |
| UtilsEarly.CopyRow | utils.cpp:30-33 | row i's buffer holds X[i * flattenedSize .. (i+1) * flattenedSize) |
| UtilsEarly.ConcatRow | utils.cpp:30-33 | rows of equal width laid end to end: row r is the slice [r*w, (r+1)*w) |

## Left out

- **The mlpack tree searches (BallTree and VPTree).** The model replaces them with brute-force specification functions with the same results: the sorted distances with the self-match included, and the inclusive range lists. The tree structure is not modelled.
- **digamma, log and log2.** These are function parameters, not implementations. So the sign and size of the final mutual-information value and of the entropies are not modelled. Only the per-sample term's shape is.
- **`pdf_entropy`, and the entropy sums of `conditional_entropy`.** These include the `pX[(int) X[i]]` lookup (src/hist.cpp:171-177, 191-210). They are floating-point logarithms. Of `conditional_entropy`, only the flat bin index and `unique` are modelled.
- **The GSL one- and two-dimensional histograms and their pdf branches** (src/hist.cpp:77-97, 149-162). These are foreign library calls. `Hist.HistEstimator.BuildHistogram` covers only `dimensions` other than 1 and 2.
- **HDF5 `read_traces`/`write_traces`, and all of src/simulator.cpp.** These are file I/O and random number generation.
- **Console output and the manual `clear()` and `delete[]` calls.** There is no observable state to model. The leaked `new` arrays of src/hist.cpp are not modelled either.
- **hist.cpp `estimate`.** It has no return statement, so its result is undefined. Only the `check_dimensions` and `build_histogram` it calls are modelled.
- **utils.cpp `to_gkov_format`'s return value.** Each row buffer is deleted after it is stored, and the function returns a dangling `double*`. `UtilsEarly.ToGkovFormat` returns the row contents that each buffer held before it was freed.
- **library.cpp `check_dimensions`' comparisons of a `pair<int,int>` with an int** (library.cpp:49-52). They are ill-formed. `GkovDraft.CheckDimensions` models only the sizeOfX test.
- GkovDraft.PrepareData: requires sizeOfY.second >= 0. The draft never checks Y, and a negative column count has no matrix.
- **32-bit `int` overflow.** This affects totalBins, sumOfBins, sizeCheck, flattenedSize and the offset products. These quantities are unbounded in the model. `size_t` wrap-around of t is modelled (`Gkov.Rank`), and so is the uint32 range of n_trc.
- Hist.HistEstimator.ComputePdf: requires a non-zero total. With an all-zero histogram the source divides 0 by 0, giving NaN. Floating point is not modelled.
- Hist.HistEstimator.BuildNdHistogram: requires every increment to land inside the histogram. The source writes out of bounds otherwise, and `Hist.IncrementsInBounds` gives a sufficient condition.
- Utils.ComputeDistribution: requires 0 <= (int)X[k] < n. The source writes out of bounds otherwise.
- HistEarly.HistEstimator.constructor: requires every bin count to be positive. With a zero count the width is a division by zero. A negative count allocates an array of negative length.
- Gkov.GkovEstimator.Estimate: when t >= N, the k-NN search for t+1 > N neighbours throws std::invalid_argument. If t+1 wraps to 0, `distances(t, 0)` is read out of range instead. The model returns `RankOutOfRange` for both.
- GkovEarly.GkovEstimator.Estimate: when t >= N, `distances(t)` reads past the N distances the search returns. The model returns `RankOutOfRange` instead of modelling that read.
- Hist.Unique: requires 0 < size. With size 0 the source reads `sorted[0]` of an empty array, and with a negative size `new double[size]` throws. Neither case is modelled.
- Hist.WellFormed: requires min < max for every range. A reversed range is well defined in the source (the width is negative and the bins are mirrored), but it is excluded here. This affects `Hist.HistEstimator.GetBinIndexes`, `BuildNdHistogram`, `BuildHistogram` and the flat indexes. An empty range divides by zero.
- Utils.ToGkovFormat: requires sizes[0] >= 0. With a negative count, `new double*[sizes[0]]` throws, and that case is not modelled.
- UtilsEarly.Flatten: X and the output buffer are separate values. The source could alias them through raw pointers, and that aliasing is not modelled.
- **Local vectors and per-row buffers.** The local `vec`s of `estimate` and the per-row buffers of `to_gkov_format` are modelled as sequence values, not heap arrays. The in-place `std::sort` of `unique` is modelled by its result on a sequence.
- **The estimators' settings.** Both `HistEstimator` constructors keep the caller's `bins` and `ranges` pointers (src/hist.cpp:10-20, hist.cpp:4-8). The model copies them into immutable sequence fields, so a later change by the caller is not visible to the model.

## Findings

| source | as written | input that shows it | evidently intended | confidence | as-written member | corrected member |
|---|---|---|---|---|---|---|
| src/hist.cpp:200-206 | the flat bin index multiplies the offset-bearing `get_bin_indexes` components, so dimension k's index already contains Σ bins[..k] | three dimensions of two bins over [0, 1), all values 0: indexes [0, 2, 4], flat index 20, but the pdf has 8 cells | remove each dimension's offset before flattening, so the index lies in [0, totalBins) | not executed | Hist.HistEstimator.FlatBinIndex, Hist.FlatIndexOverrun | Hist.HistEstimator.CorrectedFlatBinIndex, Hist.CorrectedFlatIndexInRange |
| src/hist.cpp:230-234 | `unique[i] = sorted[i]` stores at the source position i into an array of uniqueSize cells | X = [1, 1, 2]: uniqueSize = 2, but the loop stores into unique[2] | store at a running counter, so the array holds the distinct values in order | not executed | Hist.WrittenPositionsMembers, Hist.UniqueWritesPastEnd, Hist.UniqueOverrun | Hist.StoreRunHeads, Hist.Unique |
