/** The earlier histogram estimator of hist.cpp: bins are cut uniformly from
    one common range, their edges are stored dimension after dimension in a
    flat array, and a multi-dimensional bin is addressed in row-major order
    (last dimension fastest). */
module HistEarly {
  import opened Wrappers
  import opened Arith
  import opened Hist

  const DIMENSIONS_NOT_POSITIVE := "Dimensions, size and sizes cannot be less or equal to 0 and sizes cannot be null."
  const SIZES_NOT_POSITIVE := "Sizes cannot be less or equal to 0."
  const LENGTH_MISMATCH := "Length of array X is not equal to the product of single histogram dimensions."

  /** Width of one of `bins` equal bins of range r. */
  function Width(r: Range, bins: int): real
    requires bins > 0
  {
    (r.1 - r.0) / bins as real
  }

  /** Bin j of `bins` equal bins of range r: [min + w*j, min + w*(j+1)]. */
  function Bin(r: Range, bins: int, j: int): Range
    requires bins > 0
  {
    (r.0 + Width(r, bins) * j as real, r.0 + Width(r, bins) * (j + 1) as real)
  }

  /** The edges of one dimension's bins, in order. */
  function DimensionRanges(r: Range, bins: int): (rs: seq<Range>)
    requires bins > 0
    ensures |rs| == bins
  {
    seq(bins, j requires 0 <= j < bins => Bin(r, bins, j))
  }

  /** The edges of every dimension, one block per dimension, in order. */
  function UniformRanges(bins: seq<int>, r: Range): (rs: seq<Range>)
    requires AllPositive(bins)
    ensures |rs| == Sum(bins)
  {
    if |bins| == 0 then []
    else
      var n := |bins| - 1;
      UniformRanges(bins[..n], r) + DimensionRanges(r, bins[n])
  }

  /** Slot Sum(bins[..i]) + j holds bin j of dimension i. */
  lemma {:induction false} UniformRangesSlot(bins: seq<int>, r: Range, i: nat, j: nat)
    requires AllPositive(bins) && i < |bins| && j < bins[i]
    ensures 0 <= Sum(bins[..i]) && Sum(bins[..i]) + j < Sum(bins)
    ensures UniformRanges(bins, r)[Sum(bins[..i]) + j] == Bin(r, bins[i], j)
  {
    var n := |bins| - 1;
    var init := bins[..n];
    assert bins[..n + 1] == bins && bins[..0] == [];
    SumPrefixStep(bins, n);
    SumPrefixMonotone(bins, 0, i);
    if i < n {
      assert init[..i] == bins[..i] && init[i] == bins[i];
      UniformRangesSlot(init, r, i, j);
    }
  }

  /** Within a dimension the bins are contiguous: they start at the common
      minimum, each upper edge is the next lower edge, and the last upper edge
      is the common maximum. */
  lemma UniformRangesCover(bins: seq<int>, r: Range, i: nat)
    requires AllPositive(bins) && i < |bins|
    ensures 0 <= Sum(bins[..i]) && Sum(bins[..i]) + bins[i] <= |UniformRanges(bins, r)|
    ensures UniformRanges(bins, r)[Sum(bins[..i])].0 == r.0
    ensures UniformRanges(bins, r)[Sum(bins[..i]) + bins[i] - 1].1 == r.1
    ensures forall k :: Sum(bins[..i]) <= k < Sum(bins[..i]) + bins[i] - 1 ==>
              UniformRanges(bins, r)[k].1 == UniformRanges(bins, r)[k + 1].0
  {
    var rs, first, b := UniformRanges(bins, r), Sum(bins[..i]), bins[i];
    UniformRangesSlot(bins, r, i, 0);
    UniformRangesSlot(bins, r, i, b - 1);
    BinEnds(r, b);
    forall k | first <= k < first + b - 1 ensures rs[k].1 == rs[k + 1].0 {
      UniformRangesSlot(bins, r, i, k - first);
      UniformRangesSlot(bins, r, i, k - first + 1);
      BinsAdjacent(r, b, k - first);
    }
  }

  /** The first bin starts at the minimum and the last one ends at the
      maximum: the widths add up to the range. */
  lemma BinEnds(r: Range, bins: int)
    requires bins > 0
    ensures Bin(r, bins, 0).0 == r.0 && Bin(r, bins, bins - 1).1 == r.1
  {
    var w := Width(r, bins);
    assert w * bins as real == r.1 - r.0;
  }

  /** Bin j computed from a width w worked out beforehand. */
  lemma BinFormula(r: Range, bins: int, w: real, j: int)
    requires bins > 0 && w == (r.1 - r.0) / bins as real
    ensures Bin(r, bins, j) == (r.0 + w * j as real, r.0 + w * (j + 1) as real)
  {
    assert Width(r, bins) == w;
    assert Bin(r, bins, j).0 == r.0 + w * j as real;
    assert Bin(r, bins, j).1 == r.0 + w * (j + 1) as real;
  }

  lemma BinsAdjacent(r: Range, bins: int, j: int)
    requires bins > 0
    ensures Bin(r, bins, j).1 == Bin(r, bins, j + 1).0
  {
  }

  /** Row-major flattening, last dimension fastest:
      `Σ idx[i] * Π_{m>i} radices[m]`. */
  function LastFastest(idx: seq<int>, radices: seq<int>): int
    requires |idx| == |radices|
  {
    if |idx| == 0 then 0 else idx[0] * Prod(radices[1..]) + LastFastest(idx[1..], radices[1..])
  }

  /** Digits within their radices give an index within the product. */
  lemma {:induction false} LastFastestBound(idx: seq<int>, radices: seq<int>)
    requires |idx| == |radices|
    requires forall k :: 0 <= k < |idx| ==> 0 <= idx[k] < radices[k]
    ensures 0 <= LastFastest(idx, radices) < Prod(radices)
  {
    if |idx| > 0 {
      LastFastestBound(idx[1..], radices[1..]);
      ProdCons(radices);
      DigitBound(idx[0], radices[0], Prod(radices[1..]), LastFastest(idx[1..], radices[1..]));
    }
  }

  /** Digits in range are recovered from the index: distinct in-range tuples
      get distinct indices. */
  lemma {:induction false} LastFastestInjective(a: seq<int>, b: seq<int>, radices: seq<int>)
    requires |a| == |b| == |radices|
    requires forall k :: 0 <= k < |a| ==> 0 <= a[k] < radices[k] && 0 <= b[k] < radices[k]
    requires LastFastest(a, radices) == LastFastest(b, radices)
    ensures a == b
  {
    if |a| > 0 {
      LastFastestBound(a[1..], radices[1..]);
      LastFastestBound(b[1..], radices[1..]);
      DigitUnique(a[0], b[0], Prod(radices[1..]), LastFastest(a[1..], radices[1..]), LastFastest(b[1..], radices[1..]));
      LastFastestInjective(a[1..], b[1..], radices[1..]);
      assert a == [a[0]] + a[1..] && b == [b[0]] + b[1..];
    }
  }

  /** Division with remainder is unique. */
  lemma DigitUnique(x: int, y: int, p: int, u: int, v: int)
    requires 0 <= u < p && 0 <= v < p && x * p + u == y * p + v
    ensures x == y && u == v
  {
    assert (x + 1) * p == x * p + p && (y + 1) * p == y * p + p;
    MulLtCancel(x, y + 1, p);
    MulLtCancel(y, x + 1, p);
  }

  class HistEstimator {
    const histDimensions: nat
    const bins: seq<int>
    const ranges: Range
    const numberOfBins: int
    const sizeOfHistogram: int
    const rangesPerDimension: array<Range>

    /** The settings, the product (sizeOfHistogram) and sum (numberOfBins) of
        the bins, and numberOfBins range slots filled by GenerateUniformRanges. */
    constructor (dimensions: nat, bins: seq<int>, rangeMin: real, rangeMax: real)
      requires |bins| >= dimensions && AllPositive(bins[..dimensions])
      ensures histDimensions == dimensions && this.bins == bins && ranges == (rangeMin, rangeMax)
      ensures sizeOfHistogram == Prod(bins[..dimensions]) && numberOfBins == Sum(bins[..dimensions])
      ensures fresh(rangesPerDimension)
      ensures rangesPerDimension[..] == UniformRanges(bins[..dimensions], (rangeMin, rangeMax))
      ensures Valid()
    {
      var size, number := 1, 0;
      for i := 0 to dimensions
        invariant size == Prod(bins[..i]) && number == Sum(bins[..i])
      {
        ProdPrefixStep(bins, i);
        SumPrefixStep(bins, i);
        size := size * bins[i];
        number := number + bins[i];
      }
      histDimensions := dimensions;
      this.bins := bins;
      ranges := (rangeMin, rangeMax);
      sizeOfHistogram := size;
      numberOfBins := number;
      SumPrefixMonotone(bins[..dimensions], 0, dimensions);
      assert bins[..dimensions][..0] == [] && bins[..dimensions][..dimensions] == bins[..dimensions];
      rangesPerDimension := new Range[number];
      new;
      GenerateUniformRanges();
    }

    predicate Valid()
    {
      && |bins| >= histDimensions && AllPositive(bins[..histDimensions])
      && numberOfBins == Sum(bins[..histDimensions]) && rangesPerDimension.Length == numberOfBins
      && sizeOfHistogram == Prod(bins[..histDimensions])
    }

    /** `generate_uniform_ranges`: dimension i's bins go to the slots from
        offset_i = Σ_{m<i} bins[m] on, bin j spanning [min + w*j, min + w*(j+1)]. */
    method GenerateUniformRanges()
      requires Valid()
      modifies rangesPerDimension
      ensures rangesPerDimension[..] == UniformRanges(bins[..histDimensions], ranges)
    {
      ghost var bs := bins[..histDimensions];
      ghost var spec := UniformRanges(bs, ranges);
      assert rangesPerDimension.Length == |spec|;
      var offset := 0;
      for i := 0 to histDimensions
        invariant offset == Sum(bs[..i]) <= |spec|
        invariant forall k :: 0 <= k < offset ==> rangesPerDimension[k] == spec[k]
      {
        var range := (ranges.1 - ranges.0) / bins[i] as real;
        assert bs[i] == bins[i];
        SumPrefixStep(bs, i);
        SumPrefixMonotone(bs, i + 1, histDimensions);
        assert bs[..histDimensions] == bs;
        for j := 0 to bins[i]
          invariant offset + j <= |spec|
          invariant forall k :: 0 <= k < offset + j ==> rangesPerDimension[k] == spec[k]
        {
          UniformRangesSlot(bs, ranges, i, j);
          BinFormula(ranges, bins[i], range, j);
          rangesPerDimension[offset + j] := (ranges.0 + range * j as real, ranges.0 + range * (j + 1) as real);
          assert rangesPerDimension[offset + j] == Bin(ranges, bins[i], j) == spec[offset + j];
        }
        offset := offset + bins[i];
      }
      assert bs[..histDimensions] == bs;
      assert rangesPerDimension[..] == spec;
    }

    /** `build_histogram`: a fresh array of sizeOfHistogram zero counts; the
        input is not read. */
    method BuildHistogram(X: seq<real>, dimensions: int, size: int, sizes: seq<int>) returns (histogram: array<int>)
      requires sizeOfHistogram >= 0
      ensures fresh(histogram) && histogram.Length == sizeOfHistogram
      ensures forall i :: 0 <= i < histogram.Length ==> histogram[i] == 0
    {
      histogram := new int[sizeOfHistogram];
      for i := 0 to sizeOfHistogram
        invariant forall k :: 0 <= k < i ==> histogram[k] == 0
      {
        histogram[i] := 0;
      }
    }

    /** `get_index`: walks the dimensions from the last one down, so the last
        dimension varies fastest. */
    method GetIndex(indexes: seq<int>) returns (index: int)
      requires |indexes| >= histDimensions && |bins| >= histDimensions
      ensures index == LastFastest(indexes[..histDimensions], bins[..histDimensions])
    {
      var d := histDimensions;
      index := 0;
      var offset := 1;
      var i: int := d as int - 1;
      while i >= 0
        invariant -1 <= i < d
        invariant index == LastFastest(indexes[i + 1..d], bins[i + 1..d])
        invariant offset == Prod(bins[i + 1..d])
      {
        assert indexes[i..d][1..] == indexes[i + 1..d] && bins[i..d][1..] == bins[i + 1..d];
        ProdCons(bins[i..d]);
        index := index + indexes[i] * offset;
        offset := offset * bins[i];
        i := i - 1;
      }
      assert indexes[..d] == indexes[0..d] && bins[..d] == bins[0..d];
    }

    /** `check_dimensions`: the first failing test decides the message; it
        passes exactly when there are dimensions, a positive size, a sizes
        array of positive entries, and their product equals the size. */
    method CheckDimensions(dimensions: int, size: int, sizes: Option<seq<int>>) returns (r: Outcome)
      requires sizes.Some? ==> |sizes.value| >= dimensions
      ensures r.Pass? <==> dimensions > 0 && size > 0 && sizes.Some?
                           && AllPositive(sizes.value[..dimensions]) && Prod(sizes.value[..dimensions]) == size
      ensures (dimensions <= 0 || size <= 0 || sizes.None?) ==> r == Fail(InvalidArgument(DIMENSIONS_NOT_POSITIVE))
      ensures (dimensions > 0 && size > 0 && sizes.Some? && !AllPositive(sizes.value[..dimensions]))
              ==> r == Fail(InvalidArgument(SIZES_NOT_POSITIVE))
      ensures (dimensions > 0 && size > 0 && sizes.Some? && AllPositive(sizes.value[..dimensions])
               && Prod(sizes.value[..dimensions]) != size) ==> r == Fail(InvalidArgument(LENGTH_MISMATCH))
    {
      if dimensions <= 0 || size <= 0 || sizes.None? {
        return Fail(InvalidArgument(DIMENSIONS_NOT_POSITIVE));
      }
      var s := sizes.value;
      var sizeCheck := 1;
      for i := 0 to dimensions
        invariant sizeCheck == Prod(s[..i]) && AllPositive(s[..i])
      {
        if s[i] <= 0 {
          assert s[..dimensions][i] == s[i];
          return Fail(InvalidArgument(SIZES_NOT_POSITIVE));
        }
        ProdPrefixStep(s, i);
        sizeCheck := sizeCheck * s[i];
        assert s[..i + 1] == s[..i] + [s[i]];
      }
      if sizeCheck != size {
        return Fail(InvalidArgument(LENGTH_MISMATCH));
      }
      return Pass;
    }
  }

  /** Every tuple of in-range bin indices has its own cell: get_index maps
      them injectively into [0, sizeOfHistogram). */
  lemma GetIndexInRange(h: HistEstimator, a: seq<int>, b: seq<int>)
    requires h.Valid() && |a| == |b| == h.histDimensions
    requires forall k :: 0 <= k < |a| ==> 0 <= a[k] < h.bins[k] && 0 <= b[k] < h.bins[k]
    ensures 0 <= LastFastest(a, h.bins[..h.histDimensions]) < h.sizeOfHistogram
    ensures LastFastest(a, h.bins[..h.histDimensions]) == LastFastest(b, h.bins[..h.histDimensions]) ==> a == b
  {
    var r := h.bins[..h.histDimensions];
    LastFastestBound(a, r);
    if LastFastest(a, r) == LastFastest(b, r) {
      LastFastestInjective(a, b, r);
    }
  }
}
