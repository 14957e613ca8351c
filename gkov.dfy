/** The GKOV mutual-information estimator of src/gkov.cpp, up to the per-sample
    neighbour statistics. The k-NN and range searches are the brute-force
    contracts of module NeighborSearch; `digamma` and `log` are passed in as
    function values. */
module Gkov {
  import opened Wrappers
  import opened Arith
  import opened Matrices
  import opened Sorting
  import opened NeighborSearch

  const X_NOT_POSITIVE := "Size of X must be greater than 0."
  const Y_NOT_POSITIVE := "Sizes of Y must be greater than 0."
  const X_Y_MISMATCH := "Size of X must be equal to first size of Y."

  /** `size_t` wraps modulo 2^64. */
  const SIZE_T_MODULUS: int := 0x1_0000_0000_0000_0000

  /** The range of a 32-bit `int`. */
  const INT_MIN: int := -0x8000_0000
  const INT_MAX: int := 0x7fff_ffff

  /** Upper end of `Range(0, 1e-15)`, the radius of the tie query. */
  const TIE_RADIUS: real := 0.000000000000001

  /** `check_dimensions`: X must be non-empty, Y must have positive extents, and
      Y must have one row per X value; nothing else is inspected. */
  function CheckDimensions(sizeOfX: int, sizeOfY: (int, int)): (r: Outcome)
    ensures r.Pass? <==> sizeOfX > 0 && sizeOfY.0 > 0 && sizeOfY.1 > 0 && sizeOfX == sizeOfY.0
    ensures sizeOfX <= 0 ==> r == Fail(InvalidArgument(X_NOT_POSITIVE))
    ensures sizeOfX > 0 && (sizeOfY.0 <= 0 || sizeOfY.1 <= 0) ==> r == Fail(InvalidArgument(Y_NOT_POSITIVE))
    ensures sizeOfX > 0 && sizeOfY.0 > 0 && sizeOfY.1 > 0 && sizeOfX != sizeOfY.0 ==> r == Fail(InvalidArgument(X_Y_MISMATCH))
  {
    if sizeOfX <= 0 then Fail(InvalidArgument(X_NOT_POSITIVE))
    else if sizeOfY.0 <= 0 || sizeOfY.1 <= 0 then Fail(InvalidArgument(Y_NOT_POSITIVE))
    else if sizeOfX != sizeOfY.0 then Fail(InvalidArgument(X_Y_MISMATCH))
    else Pass
  }

  /** The caller's buffers hold at least the declared number of values:
      X has sizeOfX entries and Y is sample-major, sizeOfY.0 rows of sizeOfY.1. */
  predicate InputBuffers(X: seq<real>, Y: seq<seq<real>>, sizeOfX: int, sizeOfY: (int, int))
  {
    |X| >= sizeOfX && |Y| >= sizeOfY.0 &&
    forall i :: 0 <= i < |Y| && i < sizeOfY.0 ==> |Y[i]| >= sizeOfY.1
  }

  /** Sample i as a point of the joint space: [X[i], Y[i][0], ..., Y[i][d-1]]. */
  function JointPoints(X: seq<real>, Y: seq<seq<real>>, n: nat, d: nat): (ps: seq<seq<real>>)
    requires |X| >= n && |Y| >= n && forall i :: 0 <= i < n ==> |Y[i]| >= d
    ensures IsMatrix(ps, n, d + 1) && Uniform(ps)
  {
    seq(n, i requires 0 <= i < n => [X[i]] + Y[i][..d])
  }

  /** Sample i in the X-only marginal space. */
  function XPoints(X: seq<real>, n: nat): (ps: seq<seq<real>>)
    requires |X| >= n
    ensures IsMatrix(ps, n, 1) && Uniform(ps)
  {
    seq(n, i requires 0 <= i < n => [X[i]])
  }

  /** Sample i in the Y-only marginal space. */
  function YPoints(Y: seq<seq<real>>, n: nat, d: nat): (ps: seq<seq<real>>)
    requires |Y| >= n && forall i :: 0 <= i < n ==> |Y[i]| >= d
    ensures IsMatrix(ps, n, d) && Uniform(ps)
  {
    seq(n, i requires 0 <= i < n => Y[i][..d])
  }

  /** `prepare_data`: validates the sizes first; on success the result is the
      sizeOfX x (sizeOfY.1 + 1) matrix whose row i is sample i of the joint
      space (column 0 holds X, entry (i, j+1) holds Y[i][j]). */
  method PrepareData(X: seq<real>, Y: seq<seq<real>>, sizeOfX: int, sizeOfY: (int, int)) returns (r: Result<Matrix>)
    requires InputBuffers(X, Y, sizeOfX, sizeOfY)
    ensures r.Ok? <==> CheckDimensions(sizeOfX, sizeOfY).Pass?
    ensures r.Err? ==> r.error == CheckDimensions(sizeOfX, sizeOfY).error
    ensures r.Ok? ==> IsMatrix(r.value, sizeOfX, sizeOfY.1 + 1)
    ensures r.Ok? ==> forall i :: 0 <= i < sizeOfX ==>
              r.value[i][0] == X[i] && forall j :: 0 <= j < sizeOfY.1 ==> r.value[i][j + 1] == Y[i][j]
    ensures r.Ok? ==> r.value == JointPoints(X, Y, sizeOfX, sizeOfY.1)
  {
    var check := CheckDimensions(sizeOfX, sizeOfY);
    if check.Fail? {
      return Err(check.error);
    }
    var n, d := sizeOfX, sizeOfY.1;
    var data := new real[n, d + 1];
    forall i | 0 <= i < n {
      data[i, 0] := X[i];
    }
    for i := 0 to sizeOfY.0
      invariant forall a :: 0 <= a < n ==> data[a, 0] == X[a]
      invariant forall a, b :: 0 <= a < i && 0 <= b < d ==> data[a, b + 1] == Y[a][b]
    {
      for j := 0 to d
        invariant forall a :: 0 <= a < n ==> data[a, 0] == X[a]
        invariant forall a, b :: 0 <= a < i && 0 <= b < d ==> data[a, b + 1] == Y[a][b]
        invariant forall b :: 0 <= b < j ==> data[i, b + 1] == Y[i][b]
      {
        data[i, j + 1] := Y[i][j];
      }
    }
    var m := Rows(data);
    forall i | 0 <= i < n ensures m[i] == JointPoints(X, Y, n, d)[i] {
      assert forall b :: 0 <= b < d + 1 ==> m[i][b] == ([X[i]] + Y[i][..d])[b];
    }
    return Ok(m);
  }

  /** After `xy_data = xy_data.t()`, column i of the transposed joint matrix,
      of its row-0 block `x_data` and of its rows-1..d block `y_data` is
      sample i in the joint, X-only and Y-only spaces respectively. */
  lemma MarginalColumns(X: seq<real>, Y: seq<seq<real>>, n: nat, d: nat)
    requires n > 0 && d > 0
    requires |X| >= n && |Y| >= n && forall i :: 0 <= i < n ==> |Y[i]| >= d
    ensures var xy := Transpose(JointPoints(X, Y, n, d), n, d + 1);
            && Columns(xy, n) == JointPoints(X, Y, n, d)
            && Columns(Submat(xy, n, 0, 0, 0, n - 1), n) == XPoints(X, n)
            && Columns(Submat(xy, n, 1, 0, d, n - 1), n) == YPoints(Y, n, d)
  {
    var jp := JointPoints(X, Y, n, d);
    SplitColumns(jp, n, d);
    assert Heads(jp) == XPoints(X, n);
    assert Tails(jp) == YPoints(Y, n, d);
  }

  /** `size_t t = int(t_n(n))`: truncation toward zero, then conversion of the
      int to size_t, which wraps a negative value modulo 2^64. */
  function Rank(tn: real): (t: nat)
    ensures t < SIZE_T_MODULUS
    ensures 0 <= Trunc(tn) < SIZE_T_MODULUS ==> t == Trunc(tn)
    ensures -SIZE_T_MODULUS <= Trunc(tn) < 0 ==> t == Trunc(tn) + SIZE_T_MODULUS
  {
    Trunc(tn) % SIZE_T_MODULUS
  }

  /** For a truncation within `int` (`int(x)` of a larger value is undefined)
      and an `int` sample count n, the rank is below n exactly when t_n
      truncates to a value in [0, n): a negative t_n wraps to a huge size_t
      and is always out of range. */
  lemma RankBelowCount(tn: real, n: int)
    requires INT_MIN <= Trunc(tn) <= INT_MAX && 0 < n <= INT_MAX
    ensures Rank(tn) < n <==> 0 <= Trunc(tn) < n
  {
    if Trunc(tn) < 0 {
      assert Rank(tn) == Trunc(tn) + SIZE_T_MODULUS;
    }
  }

  /** With `log` as t_n and five samples, as in the test driver, t is 1. */
  lemma RankOfLogFive(ln: real -> real)
    requires 1.0 <= ln(5.0) < 2.0
    ensures Rank(ln(5 as real)) == 1
  {
  }

  /** The per-sample statistics computed by `estimate`, exposed alongside the
      returned value. */
  datatype Estimation = Estimation(
    t: nat,
    dIxy: seq<real>,
    dI: seq<int>,
    nIx: seq<int>,
    nIy: seq<int>,
    aI: seq<real>,
    mi: real)

  /** What `estimate` computes over the joint points `jp` and the marginal
      points `xp`, `yp` of n samples with rank t: d_ixy[i] is the t-th smallest
      joint distance from sample i (self included); d_i[i] is t, or, on a tie
      at distance 0, the number of query lists returned by the tie range
      search, which is 1; n_ix[i] and n_iy[i] count the samples within d_ixy[i]
      in each marginal (self included); a_i[i] is sample i's share of the
      estimate and the result is their sum. */
  ghost predicate IsEstimation(e: Estimation, jp: seq<seq<real>>, xp: seq<seq<real>>, yp: seq<seq<real>>,
                               n: nat, t: nat, digamma: real -> real, ln: real -> real)
    requires 0 < n && t < n && |jp| == n && |xp| == n && |yp| == n
    requires Uniform(jp) && Uniform(xp) && Uniform(yp)
  {
    && e.t == t
    && |e.dIxy| == n && |e.dI| == n && |e.nIx| == n && |e.nIy| == n && |e.aI| == n
    && (forall i :: 0 <= i < n ==> e.dIxy[i] == KthDistance(jp, i, t))
    && (forall i :: 0 <= i < n ==> e.dI[i] == if e.dIxy[i] == 0.0 then 1 else t)
    && (forall i :: 0 <= i < n ==> e.nIx[i] == CountWithin(xp, i, e.dIxy[i]))
    && (forall i :: 0 <= i < n ==> e.nIy[i] == CountWithin(yp, i, e.dIxy[i]))
    && (forall i :: 0 <= i < n ==> e.aI[i] == SampleTerm(e.dI[i], e.nIx[i], e.nIy[i], n, digamma, ln))
    && e.mi == SumR(e.aI)
  }

  /** `a_i[i] = (digamma(d_i[i]) - log(n_ix[i]) - log(n_iy[i]) + log(N)) / N`. */
  function SampleTerm(dI: int, nIx: int, nIy: int, n: nat, digamma: real -> real, ln: real -> real): real
    requires n > 0
  {
    (digamma(dI as real) - ln(nIx as real) - ln(nIy as real) + ln(n as real)) / (n as real)
  }

  /** Sample i in either marginal is never farther from sample k than in the
      joint space. */
  lemma MarginalsCloser(X: seq<real>, Y: seq<seq<real>>, n: nat, d: nat, i: nat, k: nat)
    requires i < n && k < n
    requires |X| >= n && |Y| >= n && forall j :: 0 <= j < n ==> |Y[j]| >= d
    ensures Chebyshev(XPoints(X, n)[i], XPoints(X, n)[k]) <= Chebyshev(JointPoints(X, Y, n, d)[i], JointPoints(X, Y, n, d)[k])
    ensures Chebyshev(YPoints(Y, n, d)[i], YPoints(Y, n, d)[k]) <= Chebyshev(JointPoints(X, Y, n, d)[i], JointPoints(X, Y, n, d)[k])
  {
    var jp, xp, yp := JointPoints(X, Y, n, d), XPoints(X, n), YPoints(Y, n, d);
    ChebyshevProjection(jp[i], jp[k]);
    assert jp[i][..1] == xp[i] && jp[k][..1] == xp[k];
    assert jp[i][1..] == yp[i] && jp[k][1..] == yp[k];
  }

  /** For one sample: the t-th joint distance is non-negative, and 0 when t is 0
      (the self-match comes first); at least t+1 samples lie within it in each
      marginal, because a marginal distance never exceeds the joint one. */
  lemma SampleBounds(X: seq<real>, Y: seq<seq<real>>, n: nat, d: nat, i: nat, t: nat)
    requires i < n && t < n
    requires |X| >= n && |Y| >= n && forall j :: 0 <= j < n ==> |Y[j]| >= d
    ensures KthDistance(JointPoints(X, Y, n, d), i, t) >= 0.0
    ensures t == 0 ==> KthDistance(JointPoints(X, Y, n, d), i, t) == 0.0
    ensures CountWithin(XPoints(X, n), i, KthDistance(JointPoints(X, Y, n, d), i, t)) >= t + 1
    ensures CountWithin(YPoints(Y, n, d), i, KthDistance(JointPoints(X, Y, n, d), i, t)) >= t + 1
  {
    var jp, xp, yp := JointPoints(X, Y, n, d), XPoints(X, n), YPoints(Y, n, d);
    KthDistanceNonNegative(jp, i, t);
    SelfMatchFirst(jp, i);
    RankCount(jp, i, t);
    forall k | 0 <= k < n
      ensures Chebyshev(xp[i], xp[k]) <= Chebyshev(jp[i], jp[k])
      ensures Chebyshev(yp[i], yp[k]) <= Chebyshev(jp[i], jp[k])
    {
      MarginalsCloser(X, Y, n, d, i, k);
    }
    CountWithinMonotone(xp, jp, i, KthDistance(jp, i, t));
    CountWithinMonotone(yp, jp, i, KthDistance(jp, i, t));
  }

  /** Over a whole estimation: every d_ixy is non-negative, and 0 with d_i = 1
      when t is 0; every marginal count is at least t+1 (so at least 1, and the
      logarithms of a_i are taken of positive counts); d_i is at least 1 except
      when t is 0 and the nearest other sample is at a positive distance. */
  lemma EstimationBounds(e: Estimation, X: seq<real>, Y: seq<seq<real>>, n: nat, d: nat, t: nat,
                         digamma: real -> real, ln: real -> real)
    requires 0 < n && t < n
    requires |X| >= n && |Y| >= n && forall j :: 0 <= j < n ==> |Y[j]| >= d
    requires IsEstimation(e, JointPoints(X, Y, n, d), XPoints(X, n), YPoints(Y, n, d), n, t, digamma, ln)
    ensures forall i :: 0 <= i < n ==> e.dIxy[i] >= 0.0
    ensures t == 0 ==> forall i :: 0 <= i < n ==> e.dIxy[i] == 0.0 && e.dI[i] == 1
    ensures forall i :: 0 <= i < n ==> e.nIx[i] >= t + 1 && e.nIy[i] >= t + 1
    ensures forall i :: 0 <= i < n ==> e.dI[i] >= 1 || (t == 0 && e.dIxy[i] != 0.0)
  {
    forall i | 0 <= i < n
      ensures e.dIxy[i] >= 0.0
      ensures t == 0 ==> e.dIxy[i] == 0.0
      ensures e.nIx[i] >= t + 1 && e.nIy[i] >= t + 1
    {
      SampleBounds(X, Y, n, d, i, t);
    }
  }

  /** The tie branch reads the number of query lists of the tie range search,
      not the size of the one list: when at least t+1 samples (sample i
      included) coincide with sample i in the joint space, d_ixy[i] is 0 and
      d_i[i] is 1, however many samples coincide. */
  lemma TieBranchIgnoresCoincidentCount(e: Estimation, jp: seq<seq<real>>, xp: seq<seq<real>>, yp: seq<seq<real>>,
                                        n: nat, t: nat, i: nat, digamma: real -> real, ln: real -> real)
    requires 0 < n && t < n && i < n && |jp| == n && |xp| == n && |yp| == n
    requires Uniform(jp) && Uniform(xp) && Uniform(yp)
    requires IsEstimation(e, jp, xp, yp, n, t, digamma, ln)
    requires CountWithin(jp, i, 0.0) >= t + 1
    ensures e.dIxy[i] == 0.0 && e.dI[i] == 1
  {
    ZeroKthDistance(jp, i, t);
  }

  /** The estimator object: it holds the rank policy t_n supplied by the caller. */
  class GkovEstimator {
    const tnCallback: int -> real

    /** Stores the callback; t_n then returns the callback's value unchanged. */
    constructor (callback: int -> real)
      ensures tnCallback == callback
      ensures forall n :: TN(n) == callback(n)
    {
      tnCallback := callback;
    }

    /** `t_n(n)`: delegates to the stored callback. */
    function TN(n: int): real
    {
      tnCallback(n)
    }

    /** `estimate`: t = int(t_n(sizeOfX)) as size_t; the joint matrix is
        prepared (which may throw) and transposed; the joint k-NN search with
        k = t+1 gives d_ixy; the second loop gives d_i, the inclusive marginal
        range counts n_ix and n_iy, and a_i; the sum of a_i is returned. When
        t+1 exceeds the number of samples the k-NN search throws
        std::invalid_argument (and when t+1 wraps to 0, `distances(t, 0)` is
        read out of range); RankOutOfRange stands for both. */
    method Estimate(X: seq<real>, Y: seq<seq<real>>, sizeOfX: int, sizeOfY: (int, int),
                    digamma: real -> real, ln: real -> real) returns (r: Result<Estimation>)
      requires InputBuffers(X, Y, sizeOfX, sizeOfY)
      ensures r.Ok? <==> CheckDimensions(sizeOfX, sizeOfY).Pass? && Rank(TN(sizeOfX)) < sizeOfX
      ensures CheckDimensions(sizeOfX, sizeOfY).Fail? ==> r == Err(CheckDimensions(sizeOfX, sizeOfY).error)
      ensures CheckDimensions(sizeOfX, sizeOfY).Pass? && Rank(TN(sizeOfX)) >= sizeOfX ==> r == Err(RankOutOfRange)
      ensures r.Ok? ==> 0 < sizeOfX && r.value.t == Rank(TN(sizeOfX)) < sizeOfX
      ensures r.Ok? ==> IsEstimation(r.value, JointPoints(X, Y, sizeOfX, sizeOfY.1), XPoints(X, sizeOfX),
                             YPoints(Y, sizeOfX, sizeOfY.1), sizeOfX, r.value.t, digamma, ln)
      ensures r.Ok? ==> forall i :: 0 <= i < sizeOfX ==>
                r.value.nIx[i] >= r.value.t + 1 && r.value.nIy[i] >= r.value.t + 1
    {
      var t := Rank(TN(sizeOfX));
      var prepared := PrepareData(X, Y, sizeOfX, sizeOfY);
      if prepared.Err? {
        return Err(prepared.error);
      }
      var n, d := sizeOfX, sizeOfY.1;
      var xyData := Transpose(prepared.value, n, d + 1);
      var xData := Submat(xyData, n, 0, 0, 0, n - 1);
      var yData := Submat(xyData, n, 1, 0, d, n - 1);
      MarginalColumns(X, Y, n, d);
      var xy, x, y := Columns(xyData, n), Columns(xData, n), Columns(yData, n);
      if t + 1 > n {
        return Err(RankOutOfRange);
      }

      var e := ComputeEstimation(xy, x, y, t, digamma, ln);
      EstimationBounds(e, X, Y, n, d, t, digamma, ln);
      return Ok(e);
    }
  }

  /** The two loops of `estimate` over the joint points `xy` and the marginal
      points `x`, `y`. */
  method ComputeEstimation(xy: seq<seq<real>>, x: seq<seq<real>>, y: seq<seq<real>>, t: nat,
                           digamma: real -> real, ln: real -> real) returns (e: Estimation)
    requires |xy| == |x| == |y| > 0 && t < |xy|
    requires Uniform(xy) && Uniform(x) && Uniform(y)
    ensures IsEstimation(e, xy, x, y, |xy|, t, digamma, ln)
  {
    var dIxy := JointDistanceLoop(xy, t);
    var dI, nIx, nIy, aI := StatisticsLoop(dIxy, xy, x, y, t, digamma, ln);
    e := Estimation(t, dIxy, dI, nIx, nIy, aI, SumR(aI));
  }

  /** The first loop of `estimate`: d_ixy starts as zeros(N), and iteration i
      stores in slot i the distance at position t of the k = t+1 nearest joint
      neighbours of sample i. */
  method JointDistanceLoop(xy: seq<seq<real>>, t: nat) returns (dIxy: seq<real>)
    requires t < |xy| && Uniform(xy)
    ensures |dIxy| == |xy|
    ensures forall k :: 0 <= k < |xy| ==> dIxy[k] == KthDistance(xy, k, t)
  {
    dIxy := seq(|xy|, _ => 0.0);
    for i := 0 to |xy|
      invariant |dIxy| == |xy|
      invariant forall k :: 0 <= k < i ==> dIxy[k] == KthDistance(xy, k, t)
    {
      var distances := KNearestDistances(xy, xy[i], t + 1);
      dIxy := dIxy[i := distances[t]];
    }
  }

  /** The second loop of `estimate`: d_i, n_ix, n_iy and a_i start as
      zeros(N), and iteration i stores slot i of each, computed from d_ixy[i]. */
  method StatisticsLoop(dIxy: seq<real>, xy: seq<seq<real>>, x: seq<seq<real>>, y: seq<seq<real>>, t: nat,
                        digamma: real -> real, ln: real -> real)
    returns (dI: seq<int>, nIx: seq<int>, nIy: seq<int>, aI: seq<real>)
    requires |xy| == |x| == |y| == |dIxy| > 0
    requires Uniform(xy) && Uniform(x) && Uniform(y)
    ensures |dI| == |nIx| == |nIy| == |aI| == |xy|
    ensures forall k :: 0 <= k < |xy| ==> dI[k] == if dIxy[k] == 0.0 then 1 else t
    ensures forall k :: 0 <= k < |xy| ==> nIx[k] == CountWithin(x, k, dIxy[k])
    ensures forall k :: 0 <= k < |xy| ==> nIy[k] == CountWithin(y, k, dIxy[k])
    ensures forall k :: 0 <= k < |xy| ==> aI[k] == SampleTerm(dI[k], nIx[k], nIy[k], |xy|, digamma, ln)
  {
    var n := |xy|;
    dI, nIx, nIy, aI := seq(n, _ => 0), seq(n, _ => 0), seq(n, _ => 0), seq(n, _ => 0.0);
    for i := 0 to n
      invariant |dI| == |nIx| == |nIy| == |aI| == n
      invariant forall k :: 0 <= k < i ==> dI[k] == if dIxy[k] == 0.0 then 1 else t
      invariant forall k :: 0 <= k < i ==> nIx[k] == CountWithin(x, k, dIxy[k])
      invariant forall k :: 0 <= k < i ==> nIy[k] == CountWithin(y, k, dIxy[k])
      invariant forall k :: 0 <= k < i ==> aI[k] == SampleTerm(dI[k], nIx[k], nIy[k], n, digamma, ln)
    {
      var di, nx, ny, a := SampleStatistics(dIxy, xy, x, y, t, i, digamma, ln);
      dI, nIx, nIy, aI := dI[i := di], nIx[i := nx], nIy[i := ny], aI[i := a];
    }
  }

  /** The body of the second loop for sample i: d_i[i], n_ix[i], n_iy[i] and
      a_i[i], the last from the first three. */
  method SampleStatistics(dIxy: seq<real>, xy: seq<seq<real>>, x: seq<seq<real>>, y: seq<seq<real>>, t: nat, i: nat,
                          digamma: real -> real, ln: real -> real)
    returns (dI: int, nIx: int, nIy: int, aI: real)
    requires |xy| == |x| == |y| == |dIxy|
    requires i < |xy|
    requires Uniform(xy) && Uniform(x) && Uniform(y)
    ensures dI == if dIxy[i] == 0.0 then 1 else t
    ensures nIx == CountWithin(x, i, dIxy[i])
    ensures nIy == CountWithin(y, i, dIxy[i])
    ensures aI == SampleTerm(dI, nIx, nIy, |xy|, digamma, ln)
  {
    if dIxy[i] == 0.0 {
      var tied := RangeSearch(xy, [xy[i]], 0.0, TIE_RADIUS);
      dI := |tied|;
    } else {
      dI := t;
    }
    var xNeighbors := RangeSearch(x, [x[i]], 0.0, dIxy[i]);
    RangeSearchCount(x, i, dIxy[i]);
    SumLengthsSingle(xNeighbors);
    nIx := AccumulateCounts(xNeighbors);
    var yNeighbors := RangeSearch(y, [y[i]], 0.0, dIxy[i]);
    RangeSearchCount(y, i, dIxy[i]);
    SumLengthsSingle(yNeighbors);
    nIy := AccumulateCounts(yNeighbors);
    aI := SampleTerm(dI, nIx, nIy, |xy|, digamma, ln);
  }

  /** The inner loops `for j: if (range_neighbors[j].size() > 0) n[i] += range_neighbors[j].size()`
      on a slot that starts at zero: the total size of all per-query lists. */
  method AccumulateCounts(neighbors: seq<seq<nat>>) returns (count: int)
    ensures count == SumLengths(neighbors)
  {
    count := 0;
    for j := 0 to |neighbors|
      invariant count == SumLengths(neighbors[..j])
    {
      assert neighbors[..j + 1][..j] == neighbors[..j];
      if |neighbors[j]| > 0 {
        count := count + |neighbors[j]|;
      }
    }
    assert neighbors[..|neighbors|] == neighbors;
  }

  /** Total size of a list of neighbour lists. */
  function SumLengths(ls: seq<seq<nat>>): nat
  {
    if |ls| == 0 then 0 else SumLengths(ls[..|ls| - 1]) + |ls[|ls| - 1]|
  }

  lemma SumLengthsSingle(ls: seq<seq<nat>>)
    requires |ls| == 1
    ensures SumLengths(ls) == |ls[0]|
  {
    assert ls[..0] == [];
  }
}
