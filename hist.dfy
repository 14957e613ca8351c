/** The histogram entropy estimator of src/hist.cpp, for the n-dimensional
    path: the bin totals kept by the estimator, the per-dimension bin indices
    with their running offsets, the zeroed histogram, the n-dimensional
    counting, the probability mass function, the flat bin index used by the
    conditional entropy, and `unique`. The GSL 1-D and 2-D histograms and the
    entropy sums themselves (log2) are not part of this model. */
module Hist {
  import opened Arith
  import opened Sorting

  /** A per-dimension value range (min, max). */
  type Range = (real, real)

  /** The n-dimensional binning is usable: at least one dimension, a positive
      bin count and a non-empty range for each. */
  predicate WellFormed(bins: seq<int>, ranges: seq<Range>, dims: int)
  {
    && 0 < dims <= |bins| && dims <= |ranges|
    && (forall i :: 0 <= i < dims ==> bins[i] > 0)
    && (forall i :: 0 <= i < dims ==> ranges[i].0 < ranges[i].1)
  }

  /** Component i of `get_bin_indexes`: the bin of value v among `bins` equal
      bins of the range, `(int) floor((v - min) / ((max - min) / bins))`,
      shifted by the running offset. */
  function BinIndex(v: real, r: Range, bins: int, offset: int): int
    requires bins > 0 && r.0 < r.1
  {
    ((v - r.0) / ((r.1 - r.0) / bins as real)).Floor + offset
  }

  /** The index lands in the dimension's own slots [offset, offset + bins)
      exactly when the value lies in [min, max). */
  lemma BinIndexSlot(v: real, r: Range, bins: int, offset: int)
    requires bins > 0 && r.0 < r.1
    ensures offset <= BinIndex(v, r, bins, offset) < offset + bins <==> r.0 <= v < r.1
  {
    var b := bins as real;
    var w := (r.1 - r.0) / b;
    var x := (v - r.0) / w;
    assert w > 0.0;
    assert x * w == v - r.0;
    assert w * b == r.1 - r.0;
    assert x >= 0.0 <==> v >= r.0;
    assert x < b <==> v < r.1 by {
      assert x < b <==> x * w < b * w;
    }
    assert x.Floor >= 0 <==> x >= 0.0;
    assert x.Floor < bins <==> x < b;
  }

  /** Partial sums of non-negative bin counts never decrease. */
  lemma {:induction false} SumPrefixMonotone(bins: seq<int>, i: nat, j: nat)
    requires i <= j <= |bins|
    requires forall k :: 0 <= k < |bins| ==> bins[k] >= 0
    ensures Sum(bins[..i]) <= Sum(bins[..j])
  {
    if i < j {
      SumPrefixMonotone(bins, i, j - 1);
      SumPrefixStep(bins, j - 1);
    }
  }

  /** `get_bin_indexes` for one sample: component i is the bin of values[i] in
      dimension i, offset by the bins of the dimensions before it. */
  function BinIndexes(values: seq<real>, bins: seq<int>, ranges: seq<Range>, dims: int): (bi: seq<int>)
    requires WellFormed(bins, ranges, dims) && |values| >= dims
    ensures |bi| == dims
  {
    seq(dims, i requires 0 <= i < dims => BinIndex(values[i], ranges[i], bins[i], Sum(bins[..i])))
  }

  /** When every value lies in its range, component i lies in dimension i's
      slots [Sum(bins[..i]), Sum(bins[..i+1])), hence below sumOfBins. */
  lemma BinIndexesInSlots(values: seq<real>, bins: seq<int>, ranges: seq<Range>, dims: int)
    requires WellFormed(bins, ranges, dims) && |values| >= dims
    requires forall i :: 0 <= i < dims ==> ranges[i].0 <= values[i] < ranges[i].1
    ensures forall i :: 0 <= i < dims ==>
              Sum(bins[..i]) <= BinIndexes(values, bins, ranges, dims)[i] < Sum(bins[..i + 1])
    ensures forall i :: 0 <= i < dims ==> 0 <= BinIndexes(values, bins, ranges, dims)[i] < Sum(bins[..dims])
  {
    var bs := bins[..dims];
    forall i | 0 <= i < dims
      ensures Sum(bins[..i]) <= BinIndexes(values, bins, ranges, dims)[i] < Sum(bins[..i + 1])
      ensures 0 <= BinIndexes(values, bins, ranges, dims)[i] < Sum(bins[..dims])
    {
      BinIndexSlot(values[i], ranges[i], bins[i], Sum(bins[..i]));
      SumPrefixStep(bins, i);
      assert bs[..i] == bins[..i] && bs[..i + 1] == bins[..i + 1] && bs[..dims] == bins[..dims];
      SumPrefixMonotone(bs, 0, i);
      SumPrefixMonotone(bs, i + 1, dims);
      assert bs[..0] == [];
    }
  }

  /** With at least two bins per dimension, the per-dimension slots
      (sumOfBins of them) fit in the totalBins cells of the histogram. */
  lemma {:induction false} SumAtMostProd(bins: seq<int>)
    requires |bins| > 0
    requires forall k :: 0 <= k < |bins| ==> bins[k] >= 2
    ensures 2 <= Sum(bins) <= Prod(bins)
  {
    var n := |bins| - 1;
    var init := bins[..n];
    if n == 0 {
      assert init == [];
    } else {
      SumAtMostProd(init);
      var p, b := Prod(init), bins[n];
      assert (p - 1) * (b - 1) >= 1;
    }
  }

  /** The number of samples of an n-dimensional input of `size` values:
      `size / dims` in C, none for a negative size. */
  function Samples(size: int, dims: int): nat
    requires dims > 0
  {
    if size < 0 then 0 else size / dims
  }

  /** Coordinate j of sample i sits at `i + j * size / dims`, which is below
      `size` for every sample and coordinate. */
  lemma SampleIndexInBounds(size: int, dims: int, i: nat, j: nat)
    requires dims > 0 && i < Samples(size, dims) && j < dims
    ensures 0 <= i + (j * size) / dims < size
  {
    var q := size / dims;
    QuotientBelow(size, dims);
    ProductBelow(j, dims, size, q);
    DivBelow(j * size, size - q + 1, dims);
  }

  lemma QuotientBelow(size: int, dims: int)
    requires size >= 0 && dims > 0
    ensures (size / dims) * dims <= size
  {
  }

  /** j * size stays below (size - q + 1) * dims when q * dims <= size. */
  lemma ProductBelow(j: nat, dims: int, size: int, q: int)
    requires j < dims && size >= 0 && q * dims <= size
    ensures 0 <= j * size < (size - q + 1) * dims
  {
    MulMonotone(j, dims - 1, size);
    assert (dims - 1) * size == dims * size - size;
    assert (size - q + 1) * dims == size * dims - q * dims + dims;
  }


  /** Sample i of the n-dimensional input: its coordinate j is
      `Y[i + j * size / dims]`. */
  function SampleValues(Y: seq<real>, size: int, dims: int, i: nat): (vs: seq<real>)
    requires dims > 0 && |Y| >= size && i < Samples(size, dims)
    ensures |vs| == dims
  {
    seq(dims, j requires 0 <= j < dims =>
      SampleIndexInBounds(size, dims, i, j);
      Y[i + (j * size) / dims])
  }

  /** The bin increments of the first k samples, in the order the loop makes
      them: sample 0's dims indices, then sample 1's, and so on. */
  function Increments(Y: seq<real>, size: int, bins: seq<int>, ranges: seq<Range>, dims: int, k: nat): (s: seq<int>)
    requires WellFormed(bins, ranges, dims) && |Y| >= size && k <= Samples(size, dims)
  {
    if k == 0 then []
    else Increments(Y, size, bins, ranges, dims, k - 1) + BinIndexes(SampleValues(Y, size, dims, k - 1), bins, ranges, dims)
  }

  /** Each sample contributes dims increments. */
  lemma {:induction false} IncrementsLength(Y: seq<real>, size: int, bins: seq<int>, ranges: seq<Range>, dims: int, k: nat)
    requires WellFormed(bins, ranges, dims) && |Y| >= size && k <= Samples(size, dims)
    ensures |Increments(Y, size, bins, ranges, dims, k)| == k * dims
  {
    if k > 0 {
      IncrementsLength(Y, size, bins, ranges, dims, k - 1);
      assert k * dims == (k - 1) * dims + dims;
    }
  }

  /** The increments of fewer samples are a prefix of those of more. */
  lemma {:induction false} IncrementsPrefix(Y: seq<real>, size: int, bins: seq<int>, ranges: seq<Range>, dims: int, k1: nat, k2: nat)
    requires WellFormed(bins, ranges, dims) && |Y| >= size && k1 <= k2 <= Samples(size, dims)
    ensures var s1, s2 := Increments(Y, size, bins, ranges, dims, k1), Increments(Y, size, bins, ranges, dims, k2);
            |s1| <= |s2| && s2[..|s1|] == s1
  {
    if k1 < k2 {
      IncrementsPrefix(Y, size, bins, ranges, dims, k1, k2 - 1);
    }
  }

  /** Every increment lands in a cell of an n-cell histogram. */
  predicate InBounds(s: seq<int>, n: int)
  {
    forall k :: 0 <= k < |s| ==> 0 <= s[k] < n
  }

  /** When every value lies in its range and the per-dimension slots fit in the
      histogram, every increment of every sample is in bounds. */
  lemma {:induction false} IncrementsInBounds(Y: seq<real>, size: int, bins: seq<int>, ranges: seq<Range>, dims: int, k: nat)
    requires WellFormed(bins, ranges, dims) && |Y| >= size && k <= Samples(size, dims)
    requires forall i, j :: 0 <= i < k && 0 <= j < dims ==> ranges[j].0 <= SampleValues(Y, size, dims, i)[j] < ranges[j].1
    ensures InBounds(Increments(Y, size, bins, ranges, dims, k), Sum(bins[..dims]))
  {
    if k > 0 {
      IncrementsInBounds(Y, size, bins, ranges, dims, k - 1);
      BinIndexesInSlots(SampleValues(Y, size, dims, k - 1), bins, ranges, dims);
    }
  }

  /** The counts after a list of increments on a zeroed n-cell histogram:
      cell b holds the number of increments at b. */
  function Tally(s: seq<int>, n: nat): (counts: seq<int>)
    ensures |counts| == n
  {
    seq(n, b requires 0 <= b < n => multiset(s)[b])
  }

  /** A zeroed histogram is the tally of no increments. */
  lemma ZerosAreEmptyTally(counts: seq<int>)
    requires forall k :: 0 <= k < |counts| ==> counts[k] == 0
    ensures counts == Tally([], |counts|)
  {
  }

  /** One more increment at b raises cell b by one and leaves the others. */
  lemma TallySnoc(s: seq<int>, b: int, n: nat)
    requires 0 <= b < n
    ensures Tally(s + [b], n) == Tally(s, n)[b := Tally(s, n)[b] + 1]
  {
    assert multiset(s + [b]) == multiset(s) + multiset{b};
  }

  /** Every in-bounds increment adds one to the total: the counts sum to the
      number of increments. */
  lemma {:induction false} TallyTotal(s: seq<int>, n: nat)
    requires InBounds(s, n)
    ensures Sum(Tally(s, n)) == |s|
  {
    if |s| == 0 {
      assert Tally(s, n) == seq(n, _ => 0);
      SumZeros(n);
    } else {
      var init, b := s[..|s| - 1], s[|s| - 1];
      assert s == init + [b];
      TallyTotal(init, n);
      TallySnoc(init, b, n);
      SumIncrement(Tally(init, n), b);
    }
  }

  /** The increments of sample i are among those of all samples, so they are
      in bounds when all are. */
  lemma SampleIncrementsInBounds(Y: seq<real>, size: int, bins: seq<int>, ranges: seq<Range>, dims: int, i: nat, n: int)
    requires WellFormed(bins, ranges, dims) && |Y| >= size && i < Samples(size, dims)
    requires InBounds(Increments(Y, size, bins, ranges, dims, Samples(size, dims)), n)
    ensures InBounds(BinIndexes(SampleValues(Y, size, dims, i), bins, ranges, dims), n)
  {
    SampleInBoundsFrom(Y, size, bins, ranges, dims, i, Samples(size, dims), n);
  }

  /** Sample i's increments are in bounds when those of any longer prefix
      of samples are; by induction on the length k of that prefix. */
  lemma {:induction false} SampleInBoundsFrom(Y: seq<real>, size: int, bins: seq<int>, ranges: seq<Range>, dims: int, i: nat, k: nat, n: int)
    requires WellFormed(bins, ranges, dims) && |Y| >= size && i < k <= Samples(size, dims)
    requires InBounds(Increments(Y, size, bins, ranges, dims, k), n)
    ensures InBounds(BinIndexes(SampleValues(Y, size, dims, i), bins, ranges, dims), n)
    decreases k
  {
    InBoundsSplit(Increments(Y, size, bins, ranges, dims, k - 1), BinIndexes(SampleValues(Y, size, dims, k - 1), bins, ranges, dims), n);
    if i < k - 1 {
      SampleInBoundsFrom(Y, size, bins, ranges, dims, i, k - 1, n);
    }
  }

  /** Both parts of an in-bounds concatenation are in bounds. */
  lemma InBoundsSplit(a: seq<int>, b: seq<int>, n: int)
    requires InBounds(a + b, n)
    ensures InBounds(a, n) && InBounds(b, n)
  {
    forall j | 0 <= j < |a| ensures 0 <= a[j] < n {
      assert (a + b)[j] == a[j];
    }
    forall j | 0 <= j < |b| ensures 0 <= b[j] < n {
      assert (a + b)[|a| + j] == b[j];
    }
  }

  /** The inner loop of `build_nd_histogram`: one increment of `histogram` at
      each bin index of a sample, in order. */
  method AddCounts(histogram: array<int>, binIndexes: seq<int>, ghost before: seq<int>)
    requires histogram[..] == Tally(before, histogram.Length)
    requires InBounds(binIndexes, histogram.Length)
    modifies histogram
    ensures histogram[..] == Tally(before + binIndexes, histogram.Length)
  {
    for j := 0 to |binIndexes|
      invariant histogram[..] == Tally(before + binIndexes[..j], histogram.Length)
    {
      assert before + binIndexes[..j + 1] == (before + binIndexes[..j]) + [binIndexes[j]];
      TallySnoc(before + binIndexes[..j], binIndexes[j], histogram.Length);
      histogram[binIndexes[j]] := histogram[binIndexes[j]] + 1;
    }
    assert binIndexes[..|binIndexes|] == binIndexes;
  }

  /** `build_nd_histogram` totals: each of the size/dims samples adds exactly
      dims counts. */
  lemma NdHistogramTotal(Y: seq<real>, size: int, bins: seq<int>, ranges: seq<Range>, dims: int, n: nat)
    requires WellFormed(bins, ranges, dims) && |Y| >= size
    requires InBounds(Increments(Y, size, bins, ranges, dims, Samples(size, dims)), n)
    ensures Sum(Tally(Increments(Y, size, bins, ranges, dims, Samples(size, dims)), n)) == Samples(size, dims) * dims
  {
    TallyTotal(Increments(Y, size, bins, ranges, dims, Samples(size, dims)), n);
    IncrementsLength(Y, size, bins, ranges, dims, Samples(size, dims));
  }

  /** The heap-allocated histogram record: the n-dimensional counts, the two
      GSL histograms (only whether they are set), the probability mass
      function, the number of cells and the number of dimensions. */
  class Histogram {
    var counts: array<int>
    var hasGsl1d: bool
    var hasGsl2d: bool
    var pdf: array<real>
    var size: int
    var dimensions: int

    /** A record holding the given arrays, with no GSL histogram attached. */
    constructor (counts: array<int>, pdf: array<real>, size: int, dimensions: int)
      ensures this.counts == counts && this.pdf == pdf
      ensures this.size == size && this.dimensions == dimensions
      ensures !hasGsl1d && !hasGsl2d
    {
      this.counts := counts;
      this.pdf := pdf;
      this.size := size;
      this.dimensions := dimensions;
      hasGsl1d, hasGsl2d := false, false;
    }
  }

  /** The probability mass function of a histogram: each count divided by the
      total count. */
  function Pdf(counts: seq<int>): (p: seq<real>)
    requires Sum(counts) != 0
    ensures |p| == |counts|
  {
    seq(|counts|, i requires 0 <= i < |counts| => counts[i] as real / Sum(counts) as real)
  }

  /** The probabilities sum to 1. */
  lemma PdfSumsToOne(counts: seq<int>)
    requires Sum(counts) != 0
    ensures SumR(Pdf(counts)) == 1.0
  {
    var d := Sum(counts) as real;
    SumRScaled(counts, d);
    assert Pdf(counts) == seq(|counts|, i requires 0 <= i < |counts| => counts[i] as real / d);
    DivSelf(d);
  }

  lemma DivSelf(d: real)
    requires d != 0.0
    ensures d / d == 1.0
  {
  }

  /** The estimator's settings: the number of dimensions, the bins per
      dimension, their product and sum, and the range of each dimension. They
      are fixed by the constructor and never changed afterwards. */
  class HistEstimator {
    const histogramDimensions: int
    const numOfBinsPerDimension: seq<int>
    const totalBins: int
    const sumOfBins: int
    const rangesPerDimension: seq<Range>

    /** Stores the settings; totalBins is the product and sumOfBins the sum of
        the bins of the `dimensions` dimensions, accumulated in one loop. */
    constructor (dimensions: nat, bins: seq<int>, ranges: seq<Range>)
      requires |bins| >= dimensions && |ranges| >= dimensions
      ensures histogramDimensions == dimensions
      ensures numOfBinsPerDimension == bins && rangesPerDimension == ranges
      ensures totalBins == Prod(bins[..dimensions]) && sumOfBins == Sum(bins[..dimensions])
    {
      var total, sum := 1, 0;
      for i := 0 to dimensions
        invariant total == Prod(bins[..i]) && sum == Sum(bins[..i])
      {
        ProdPrefixStep(bins, i);
        SumPrefixStep(bins, i);
        total := total * bins[i];
        sum := sum + bins[i];
      }
      histogramDimensions := dimensions;
      numOfBinsPerDimension := bins;
      totalBins := total;
      sumOfBins := sum;
      rangesPerDimension := ranges;
    }

    predicate Valid()
    {
      WellFormed(numOfBinsPerDimension, rangesPerDimension, histogramDimensions)
    }

    /** `initialize_histogram`: a fresh record whose totalBins counts and pdf
        entries are all zero, with no GSL histogram attached. */
    method InitializeHistogram() returns (h: Histogram)
      requires totalBins >= 0
      ensures fresh(h) && fresh(h.counts) && fresh(h.pdf)
      ensures h.size == totalBins && h.dimensions == histogramDimensions
      ensures h.counts.Length == totalBins && h.pdf.Length == totalBins
      ensures forall i :: 0 <= i < totalBins ==> h.counts[i] == 0 && h.pdf[i] == 0.0
      ensures !h.hasGsl1d && !h.hasGsl2d
    {
      var counts := new int[totalBins];
      var pdf := new real[totalBins];
      for i := 0 to totalBins
        invariant forall k :: 0 <= k < i ==> counts[k] == 0 && pdf[k] == 0.0
      {
        counts[i] := 0;
        pdf[i] := 0.0;
      }
      h := new Histogram(counts, pdf, totalBins, histogramDimensions);
    }

    /** `get_bin_indexes`: one index per dimension, with the offset running
        over the bins of the earlier dimensions. */
    method GetBinIndexes(values: seq<real>) returns (binIndexes: array<int>)
      requires Valid() && |values| >= histogramDimensions
      ensures fresh(binIndexes)
      ensures binIndexes[..] == BinIndexes(values, numOfBinsPerDimension, rangesPerDimension, histogramDimensions)
    {
      var bins := numOfBinsPerDimension;
      ghost var spec := BinIndexes(values, bins, rangesPerDimension, histogramDimensions);
      binIndexes := new int[histogramDimensions];
      var offset := 0;
      for i := 0 to histogramDimensions
        invariant offset == Sum(bins[..i])
        invariant binIndexes[..i] == spec[..i]
      {
        binIndexes[i] := BinIndex(values[i], rangesPerDimension[i], bins[i], offset);
        SumPrefixStep(bins, i);
        offset := offset + bins[i];
      }
    }

    /** `build_nd_histogram`: a fresh zeroed array of totalBins counts, then
        for each of the size/dims samples one increment at each of its bin
        indices. Every increment must land inside the array. */
    method BuildNdHistogram(Y: seq<real>, size: int) returns (histogram: array<int>)
      requires Valid() && totalBins >= 0 && |Y| >= size
      requires InBounds(Increments(Y, size, numOfBinsPerDimension, rangesPerDimension, histogramDimensions,
                                   Samples(size, histogramDimensions)), totalBins)
      ensures fresh(histogram)
      ensures histogram[..] == Tally(Increments(Y, size, numOfBinsPerDimension, rangesPerDimension, histogramDimensions,
                                                Samples(size, histogramDimensions)), totalBins)
    {
      histogram := ZeroCounts(totalBins);
      for i := 0 to Samples(size, histogramDimensions)
        invariant histogram[..] == Tally(Increments(Y, size, numOfBinsPerDimension, rangesPerDimension, histogramDimensions, i), totalBins)
      {
        AddSample(histogram, Y, size, i);
      }
    }

    /** The first loop of `build_nd_histogram`: a fresh array of n zero
        counts, the tally of no increments. */
    static method ZeroCounts(n: nat) returns (histogram: array<int>)
      ensures fresh(histogram) && histogram[..] == Tally([], n)
    {
      histogram := new int[n];
      for b := 0 to n
        invariant forall k :: 0 <= k < b ==> histogram[k] == 0
      {
        histogram[b] := 0;
      }
      ZerosAreEmptyTally(histogram[..]);
    }

    /** The body of the sample loop of `build_nd_histogram` for sample i: its
        values are gathered, their bin indices computed, and one count is
        added at each. */
    method AddSample(histogram: array<int>, Y: seq<real>, size: int, i: nat)
      requires Valid() && |Y| >= size && i < Samples(size, histogramDimensions)
      requires InBounds(Increments(Y, size, numOfBinsPerDimension, rangesPerDimension, histogramDimensions,
                                   Samples(size, histogramDimensions)), histogram.Length)
      requires histogram[..] == Tally(Increments(Y, size, numOfBinsPerDimension, rangesPerDimension, histogramDimensions, i), histogram.Length)
      modifies histogram
      ensures histogram[..] == Tally(Increments(Y, size, numOfBinsPerDimension, rangesPerDimension, histogramDimensions, i + 1), histogram.Length)
    {
      var dims, bins, ranges := histogramDimensions, numOfBinsPerDimension, rangesPerDimension;
      var values := SampleValues(Y, size, dims, i);
      var binIndexes := GetBinIndexes(values);
      SampleIncrementsInBounds(Y, size, bins, ranges, dims, i, histogram.Length);
      AddCounts(histogram, binIndexes[..], Increments(Y, size, bins, ranges, dims, i));
    }

    /** `compute_pdf`, branch for more than two dimensions: the total count is
        accumulated, then each pdf entry is its count divided by the total. */
    method ComputePdf(h: Histogram)
      requires h.dimensions > 2
      requires h.counts.Length == h.size && h.pdf.Length == h.size
      requires Sum(h.counts[..]) != 0
      modifies h.pdf
      ensures h.pdf[..] == Pdf(h.counts[..])
    {
      var sum := 0;
      for i := 0 to h.size
        invariant sum == Sum(h.counts[..i])
      {
        SumPrefixStep(h.counts[..], i);
        sum := sum + h.counts[i];
      }
      assert h.counts[..h.size] == h.counts[..];
      for i := 0 to h.size
        invariant forall k :: 0 <= k < i ==> h.pdf[k] == h.counts[k] as real / sum as real
      {
        h.pdf[i] := h.counts[i] as real / sum as real;
      }
    }

    /** `build_histogram` when `dimensions` is neither 1 nor 2: a zeroed
        record, its counts replaced by the n-dimensional histogram, then its
        probability mass function. The total count is size/dims * dims, so
        at least one full sample makes the division well defined. */
    method BuildHistogram(Y: seq<real>, size: int, dimensions: int) returns (h: Histogram)
      requires dimensions != 1 && dimensions != 2 && histogramDimensions > 2
      requires Valid() && totalBins >= 0 && |Y| >= size && Samples(size, histogramDimensions) > 0
      requires InBounds(Increments(Y, size, numOfBinsPerDimension, rangesPerDimension, histogramDimensions,
                                   Samples(size, histogramDimensions)), totalBins)
      ensures fresh(h) && h.size == totalBins && h.dimensions == histogramDimensions
      ensures h.counts[..] == Tally(Increments(Y, size, numOfBinsPerDimension, rangesPerDimension, histogramDimensions,
                                              Samples(size, histogramDimensions)), totalBins)
      ensures Sum(h.counts[..]) == Samples(size, histogramDimensions) * histogramDimensions
      ensures h.pdf[..] == Pdf(h.counts[..])
    {
      h := InitializeHistogram();
      var counts := BuildNdHistogram(Y, size);
      h.counts := counts;
      NdHistogramTotal(Y, size, numOfBinsPerDimension, rangesPerDimension, histogramDimensions, totalBins);
      MulPositive(Samples(size, histogramDimensions), histogramDimensions);
      ComputePdf(h);
    }

    /** The flat bin index of `conditional_entropy`, as written: the bin
        indices of `get_bin_indexes`, offsets included, weighted by the
        product of the bins of the earlier dimensions. */
    method FlatBinIndex(binIndexes: seq<int>) returns (binIndex: int)
      requires 0 <= histogramDimensions <= |binIndexes| && histogramDimensions <= |numOfBinsPerDimension|
      ensures binIndex == FirstFastest(binIndexes[..histogramDimensions], numOfBinsPerDimension[..histogramDimensions])
    {
      var bins := numOfBinsPerDimension;
      binIndex := 0;
      var offset := 1;
      for k := 0 to histogramDimensions
        invariant binIndex == FirstFastest(binIndexes[..k], bins[..k])
        invariant offset == Prod(bins[..k])
      {
        assert binIndexes[..k + 1][..k] == binIndexes[..k] && bins[..k + 1][..k] == bins[..k];
        binIndex := binIndex + binIndexes[k] * offset;
        ProdPrefixStep(bins, k);
        offset := offset * bins[k];
      }
    }

    /** The flat bin index with each dimension's offset removed first, so that
        component k counts from 0 within its own bins. */
    method CorrectedFlatBinIndex(binIndexes: seq<int>) returns (binIndex: int)
      requires 0 <= histogramDimensions <= |binIndexes| && histogramDimensions <= |numOfBinsPerDimension|
      ensures binIndex == FirstFastest(LocalIndexes(binIndexes, numOfBinsPerDimension, histogramDimensions),
                                       numOfBinsPerDimension[..histogramDimensions])
    {
      var bins := numOfBinsPerDimension;
      ghost var local := LocalIndexes(binIndexes, bins, histogramDimensions);
      binIndex := 0;
      var offset := 1;
      var start := 0;
      for k := 0 to histogramDimensions
        invariant binIndex == FirstFastest(local[..k], bins[..k])
        invariant offset == Prod(bins[..k]) && start == Sum(bins[..k])
      {
        assert local[..k + 1][..k] == local[..k] && bins[..k + 1][..k] == bins[..k];
        binIndex := binIndex + (binIndexes[k] - start) * offset;
        ProdPrefixStep(bins, k);
        SumPrefixStep(bins, k);
        offset := offset * bins[k];
        start := start + bins[k];
      }
      assert local[..histogramDimensions] == local;
    }
  }


  /** The mixed-radix index `Σ idx[k] * Π_{m<k} radices[m]`, first dimension
      fastest. */
  function FirstFastest(idx: seq<int>, radices: seq<int>): int
    requires |idx| == |radices|
  {
    if |idx| == 0 then 0
    else
      var n := |idx| - 1;
      FirstFastest(idx[..n], radices[..n]) + idx[n] * Prod(radices[..n])
  }

  /** Digits within their radices give an index within the product of the
      radices. */
  lemma {:induction false} FirstFastestBound(idx: seq<int>, radices: seq<int>)
    requires |idx| == |radices|
    requires forall k :: 0 <= k < |idx| ==> 0 <= idx[k] < radices[k]
    ensures 0 <= FirstFastest(idx, radices) < Prod(radices)
  {
    if |idx| > 0 {
      var n := |idx| - 1;
      FirstFastestBound(idx[..n], radices[..n]);
      var p := Prod(radices[..n]);
      assert Prod(radices) == p * radices[n];
      DigitBound(idx[n], radices[n], p, FirstFastest(idx[..n], radices[..n]));
    }
  }

  /** Bin indices with the running offsets of `get_bin_indexes` removed. */
  function LocalIndexes(binIndexes: seq<int>, bins: seq<int>, dims: nat): (local: seq<int>)
    requires dims <= |binIndexes| && dims <= |bins|
    ensures |local| == dims
  {
    seq(dims, k requires 0 <= k < dims => binIndexes[k] - Sum(bins[..k]))
  }

  /** With the offsets removed, every in-range sample has a flat index below
      totalBins, a valid cell of the pdf. */
  lemma CorrectedFlatIndexInRange(values: seq<real>, bins: seq<int>, ranges: seq<Range>, dims: int)
    requires WellFormed(bins, ranges, dims) && |values| >= dims
    requires forall i :: 0 <= i < dims ==> ranges[i].0 <= values[i] < ranges[i].1
    ensures 0 <= FirstFastest(LocalIndexes(BinIndexes(values, bins, ranges, dims), bins, dims), bins[..dims]) < Prod(bins[..dims])
  {
    var local := LocalIndexes(BinIndexes(values, bins, ranges, dims), bins, dims);
    BinIndexesInSlots(values, bins, ranges, dims);
    forall k | 0 <= k < dims ensures 0 <= local[k] < bins[..dims][k] {
      SumPrefixStep(bins, k);
    }
    FirstFastestBound(local, bins[..dims]);
  }

  /** As written, the offsets stay in: with three dimensions of two bins over
      [0, 1) and a sample at the origin, the bin indices are [0, 2, 4] and the
      flat index is 20, past the 8 cells of the pdf; the corrected index is 0. */
  lemma FlatIndexOverrun()
    ensures var bins, ranges := [2, 2, 2], [(0.0, 1.0), (0.0, 1.0), (0.0, 1.0)];
            && WellFormed(bins, ranges, 3)
            && BinIndexes([0.0, 0.0, 0.0], bins, ranges, 3) == [0, 2, 4]
            && FirstFastest([0, 2, 4], bins) == 20 && Prod(bins) == 8
            && FirstFastest(LocalIndexes([0, 2, 4], bins, 3), bins) == 0
  {
    var bins, ranges := [2, 2, 2], [(0.0, 1.0), (0.0, 1.0), (0.0, 1.0)];
    assert bins[..0] == [] && bins[..1] == [2] && bins[..2] == [2, 2] && bins[..3] == bins;
    assert Sum(bins[..1]) == 2 && Sum(bins[..2]) == 4 by {
      assert [2][..0] == [] && [2, 2][..1] == [2];
    }
    assert BinIndex(0.0, (0.0, 1.0), 2, 0) == 0;
    assert BinIndex(0.0, (0.0, 1.0), 2, 2) == 2;
    assert BinIndex(0.0, (0.0, 1.0), 2, 4) == 4;
    assert BinIndexes([0.0, 0.0, 0.0], bins, ranges, 3) == [0, 2, 4];
    var idx: seq<int> := [0, 2, 4];
    assert idx[..2] == [0, 2] && idx[..1] == [0] && idx[..0] == [];
    assert Prod([2, 2]) == 4 by { assert [2, 2][..1] == [2]; assert [2][..0] == []; }
    assert FirstFastest([0], [2]) == 0 by { assert [0][..0] == [] && [2][..0] == []; }
    assert FirstFastest([0, 2], [2, 2]) == 4 by { assert [0, 2][..1] == [0] && [2, 2][..1] == [2]; }
    assert LocalIndexes(idx, bins, 3) == [0, 0, 0];
    assert FirstFastest([0, 0, 0], bins) == 0 by {
      assert [0, 0, 0][..2] == [0, 0] && [0, 0][..1] == [0] && [0][..0] == [];
      assert FirstFastest([0], [2]) == 0 by { assert [2][..0] == []; }
      assert FirstFastest([0, 0], [2, 2]) == 0 by { assert [2, 2][..1] == [2]; }
    }
  }

  // unique

  /** The first element of every run of equal adjacent elements, in order. */
  function RunHeads(s: seq<real>): seq<real>
  {
    if |s| == 0 then []
    else
      var n := |s| - 1;
      if n == 0 || s[n] != s[n - 1] then RunHeads(s[..n]) + [s[n]] else RunHeads(s[..n])
  }

  function Elements(s: seq<real>): set<real>
  {
    set x | x in s
  }

  /** One more element adds a run head exactly when it differs from its
      predecessor. */
  lemma RunHeadsStep(s: seq<real>, i: nat)
    requires 0 < i < |s|
    ensures RunHeads(s[..i + 1]) == if s[i] != s[i - 1] then RunHeads(s[..i]) + [s[i]] else RunHeads(s[..i])
  {
    assert s[..i + 1][..i] == s[..i];
  }

  /** An element that starts a run is the run head numbered by the run
      heads before it. */
  lemma RunHeadAt(s: seq<real>, i: nat)
    requires i < |s| && (i == 0 || s[i] != s[i - 1])
    ensures |RunHeads(s[..i])| < |RunHeads(s)| && RunHeads(s)[|RunHeads(s[..i])|] == s[i]
  {
    if i == 0 {
      assert s[..1] == [s[0]] && RunHeads(s[..1]) == [s[0]] by {
        assert s[..1][..0] == [];
      }
      assert s[..0] == [];
    } else {
      RunHeadsStep(s, i);
    }
    RunHeadsPrefix(s, i + 1, |s|);
    assert s[..|s|] == s;
  }

  /** Extending a sequence only appends run heads. */
  lemma {:induction false} RunHeadsPrefix(s: seq<real>, i: nat, j: nat)
    requires i <= j <= |s|
    ensures |RunHeads(s[..i])| <= |RunHeads(s[..j])|
    ensures RunHeads(s[..j])[..|RunHeads(s[..i])|] == RunHeads(s[..i])
  {
    if i < j {
      RunHeadsPrefix(s, i, j - 1);
      assert s[..j][..j - 1] == s[..j - 1];
    }
  }

  /** Run heads are exactly the values that occur. */
  lemma {:induction false} RunHeadsElements(s: seq<real>)
    ensures Elements(RunHeads(s)) == Elements(s)
  {
    if |s| > 0 {
      var n := |s| - 1;
      RunHeadsElements(s[..n]);
      assert s == s[..n] + [s[n]];
      assert Elements(s) == Elements(s[..n]) + {s[n]};
      if n > 0 && s[n] == s[n - 1] {
        assert s[n] in Elements(s[..n]) by { assert s[..n][n - 1] == s[n]; }
      }
    }
  }

  /** In a sorted sequence the run heads are strictly increasing. */
  lemma {:induction false} RunHeadsIncreasing(s: seq<real>)
    requires Sorted(s)
    ensures StrictlyIncreasing(RunHeads(s))
  {
    if |s| > 0 {
      var n := |s| - 1;
      assert Sorted(s[..n]);
      RunHeadsIncreasing(s[..n]);
      if n > 0 && s[n] != s[n - 1] {
        var r := RunHeads(s[..n]);
        RunHeadsElements(s[..n]);
        forall k | 0 <= k < |r| ensures r[k] < s[n] {
          assert r[k] in Elements(s[..n]);
        }
      }
    }
  }

  predicate StrictlyIncreasing(s: seq<real>)
  {
    forall i, j :: 0 <= i < j < |s| ==> s[i] < s[j]
  }

  /** A strictly increasing sequence has as many distinct values as entries. */
  lemma {:induction false} IncreasingCard(r: seq<real>)
    requires StrictlyIncreasing(r)
    ensures |Elements(r)| == |r|
  {
    if |r| > 0 {
      var n := |r| - 1;
      IncreasingCard(r[..n]);
      assert r == r[..n] + [r[n]];
      assert Elements(r) == Elements(r[..n]) + {r[n]};
      assert r[n] !in Elements(r[..n]);
    }
  }

  /** The number of distinct values of `s`. */
  function DistinctCount(s: seq<real>): nat
  {
    |Elements(s)|
  }

  /** `unique` as written: the positions its second loop stores into, which
      are 0 and every source position i whose value differs from its
      predecessor. */
  function WrittenPositions(sorted: seq<real>): seq<nat>
    requires |sorted| > 0
  {
    var n := |sorted| - 1;
    if n == 0 then [0]
    else WrittenPositions(sorted[..n]) + (if sorted[n] != sorted[n - 1] then [n] else [])
  }

  /** As written, position i is stored into exactly when it is 0 or its value
      differs from its predecessor, and there are as many stores as run
      heads; a position is therefore within the array only while no duplicate
      precedes it. */
  lemma {:induction false} WrittenPositionsMembers(sorted: seq<real>)
    requires |sorted| > 0
    ensures |WrittenPositions(sorted)| == |RunHeads(sorted)|
    ensures forall i :: i in WrittenPositions(sorted) <==> StartsRun(sorted, i)
  {
    var n := |sorted| - 1;
    if n > 0 {
      WrittenPositionsMembers(sorted[..n]);
      var tail: seq<nat> := if sorted[n] != sorted[n - 1] then [n] else [];
      assert WrittenPositions(sorted) == WrittenPositions(sorted[..n]) + tail;
      forall i ensures i in WrittenPositions(sorted) <==> StartsRun(sorted, i) {
        if 0 <= i < n {
          assert StartsRun(sorted[..n], i) == StartsRun(sorted, i);
          assert i !in tail;
        } else if i == n {
          assert !StartsRun(sorted[..n], i);
        } else {
          assert !StartsRun(sorted[..n], i) && i !in tail;
        }
      }
    }
  }

  /** Position i of a sorted copy holds the first element of a run. */
  predicate StartsRun(sorted: seq<real>, i: int)
  {
    0 <= i < |sorted| && (i == 0 || sorted[i] != sorted[i - 1])
  }

  /** With input [1, 1, 2] the array has uniqueSize = 2 cells but the loop
      stores at position 2. */
  lemma UniqueOverrun()
    ensures |RunHeads([1.0, 1.0, 2.0])| == 2
    ensures 2 in WrittenPositions([1.0, 1.0, 2.0])
  {
    var s := [1.0, 1.0, 2.0];
    assert s[..2] == [1.0, 1.0] && s[..2][..1] == [1.0] && s[..2][..1][..0] == [];
    assert RunHeads([1.0, 1.0]) == [1.0];
    assert WrittenPositions([1.0, 1.0]) == [0];
  }

  /** As written, for every input: once a duplicate precedes some later run
      head, the loop's last store lands at or past uniqueSize = |RunHeads|,
      outside the array. */
  lemma UniqueWritesPastEnd(sorted: seq<real>, d: nat, i: nat)
    requires 0 < d < i < |sorted| && sorted[d] == sorted[d - 1] && StartsRun(sorted, i)
    ensures var w := WrittenPositions(sorted);
            |w| > 0 && w[|w| - 1] >= |RunHeads(sorted)|
  {
    WrittenPositionsMembers(sorted);
    WrittenPositionsLast(sorted, d);
  }

  /** The stores of `unique` as written end at the last run head, and there
      are at most last + 1 of them, or at most last once a duplicate precedes
      the last one. */
  lemma {:induction false} WrittenPositionsLast(s: seq<real>, d: int)
    requires |s| > 0
    ensures var w := WrittenPositions(s);
            |w| > 0 && w[|w| - 1] < |s| && |w| <= w[|w| - 1] + 1
    ensures var w := WrittenPositions(s);
            forall k :: 0 <= k < |w| ==> w[k] <= w[|w| - 1]
    ensures var w := WrittenPositions(s);
            0 < d < w[|w| - 1] && s[d] == s[d - 1] ==> |w| <= w[|w| - 1]
  {
    var n := |s| - 1;
    if n > 0 {
      var s' := s[..n];
      WrittenPositionsLast(s', d);
      WrittenPositionsMembers(s');
      var w' := WrittenPositions(s');
      var last' := w'[|w'| - 1];
      assert last' in w';
      assert StartsRun(s', last');
      if 0 < d < n {
        assert s'[d] == s[d] && s'[d - 1] == s[d - 1];
      }
      if s[n] != s[n - 1] {
        assert WrittenPositions(s) == w' + [n];
      } else {
        assert WrittenPositions(s) == w';
      }
    }
  }

  /** `unique`, with the stores made at a running counter: a sorted copy of
      X[..size] is scanned twice, once to count the run heads and once to
      store them. The result is strictly increasing, holds exactly the values
      of X[..size], starts with their minimum, and uniqueSize is the number of
      distinct values. */
  method Unique(X: seq<real>, size: int) returns (unique: array<real>, uniqueSize: int)
    requires 0 < size <= |X|
    ensures uniqueSize == unique.Length == DistinctCount(X[..size]) > 0
    ensures unique[..] == RunHeads(Sort(X[..size]))
    ensures StrictlyIncreasing(unique[..])
    ensures Elements(unique[..]) == Elements(X[..size])
    ensures forall k :: 0 <= k < size ==> unique[0] <= X[k]
  {
    var sorted := Sort(X[..size]);
    uniqueSize := CountRunHeads(sorted);
    unique := new real[uniqueSize];
    StoreRunHeads(sorted, unique);
    UniqueProperties(X[..size]);
  }

  /** The counting loop of `unique`: one for the first element and one for
      every element that differs from its predecessor. */
  method CountRunHeads(sorted: seq<real>) returns (count: int)
    ensures count == |RunHeads(sorted)|
  {
    count := 0;
    for i := 0 to |sorted|
      invariant count == |RunHeads(sorted[..i])|
    {
      assert sorted[..i + 1][..i] == sorted[..i];
      if i == 0 || sorted[i] != sorted[i - 1] {
        count := count + 1;
      }
    }
    assert sorted[..|sorted|] == sorted;
  }

  /** The storing loop of `unique`, writing at a running counter: the first
      element, then each element that differs from its predecessor. */
  method StoreRunHeads(sorted: seq<real>, unique: array<real>)
    requires |sorted| > 0 && unique.Length == |RunHeads(sorted)|
    modifies unique
    ensures unique[..] == RunHeads(sorted)
  {
    ghost var heads := RunHeads(sorted);
    RunHeadAt(sorted, 0);
    unique[0] := sorted[0];
    var count := 1;
    for i := 1 to |sorted|
      invariant count == |RunHeads(sorted[..i])| <= unique.Length
      invariant forall k :: 0 <= k < count ==> unique[k] == heads[k]
    {
      RunHeadsStep(sorted, i);
      if sorted[i] != sorted[i - 1] {
        RunHeadAt(sorted, i);
        unique[count] := sorted[i];
        count := count + 1;
      }
    }
    assert sorted[..|sorted|] == sorted;
    assert unique[..] == heads;
  }

  /** The run heads of the sorted input are strictly increasing, hold exactly
      the input's values, number as many as its distinct values, and start
      with its minimum. */
  lemma UniqueProperties(x: seq<real>)
    requires |x| > 0
    ensures var r := RunHeads(Sort(x));
            && StrictlyIncreasing(r)
            && Elements(r) == Elements(x)
            && |r| == DistinctCount(x)
            && |r| > 0 && forall k :: 0 <= k < |x| ==> r[0] <= x[k]
  {
    var u := Sort(x);
    var r := RunHeads(u);
    SortSorted(x);
    SortPermutation(x);
    RunHeadsIncreasing(u);
    RunHeadsElements(u);
    assert Elements(u) == Elements(x) by {
      forall v ensures v in u <==> v in x {
        assert v in u <==> v in multiset(u);
      }
    }
    IncreasingCard(r);
    forall k | 0 <= k < |x| ensures |r| > 0 && r[0] <= x[k] {
      assert x[k] in Elements(r);
      var m :| 0 <= m < |r| && r[m] == x[k];
    }
  }
}
