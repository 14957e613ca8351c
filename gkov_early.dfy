/** The earlier GKOV estimator of gkov.cpp (top level of the repository). It
    differs from module Gkov in three ways: Y arrives dimension-major (Y[i] is
    coordinate i of every sample), every search asks for all N neighbours and
    the statistics are counts over those N distances, and the loop returns
    after its first iteration, so only sample 0 contributes. */
module GkovEarly {
  import opened Wrappers
  import opened Arith
  import opened Matrices
  import opened Sorting
  import opened NeighborSearch
  import Gkov

  /** The caller's buffers hold at least the declared number of values:
      X has sizeOfX entries and Y holds sizeOfY.1 coordinate rows of
      sizeOfX values each. */
  predicate ColumnBuffers(X: seq<real>, Y: seq<seq<real>>, sizeOfX: int, sizeOfY: (int, int))
  {
    |X| >= sizeOfX && |Y| >= sizeOfY.1 &&
    forall i :: 0 <= i < |Y| && i < sizeOfY.1 ==> |Y[i]| >= sizeOfX
  }

  /** Sample r as a point of the Y-only space, read across the coordinate rows. */
  function YColumnPoints(Y: seq<seq<real>>, n: nat, d: nat): (ps: seq<seq<real>>)
    requires |Y| >= d && forall i :: 0 <= i < d ==> |Y[i]| >= n
    ensures IsMatrix(ps, n, d) && Uniform(ps)
    ensures forall r, i :: 0 <= r < n && 0 <= i < d ==> ps[r][i] == Y[i][r]
  {
    seq(n, r requires 0 <= r < n => seq(d, i requires 0 <= i < d => Y[i][r]))
  }

  /** Sample r as a point of the joint space: [X[r], Y[0][r], ..., Y[d-1][r]]. */
  function ColumnMajorPoints(X: seq<real>, Y: seq<seq<real>>, n: nat, d: nat): (ps: seq<seq<real>>)
    requires |X| >= n && |Y| >= d && forall i :: 0 <= i < d ==> |Y[i]| >= n
    ensures IsMatrix(ps, n, d + 1) && Uniform(ps)
    ensures forall r :: 0 <= r < n ==> ps[r][0] == X[r]
    ensures forall r, i :: 0 <= r < n && 0 <= i < d ==> ps[r][i + 1] == Y[i][r]
  {
    var ys := YColumnPoints(Y, n, d);
    seq(n, r requires 0 <= r < n => [X[r]] + ys[r])
  }

  /** Reading Y coordinate-major gives the same joint points as reading its
      transpose sample-major. */
  lemma ColumnMajorIsTransposedJoint(X: seq<real>, Y: Matrix, n: nat, d: nat)
    requires |X| >= n && IsMatrix(Y, d, n)
    ensures ColumnMajorPoints(X, Y, n, d) == Gkov.JointPoints(X, Transpose(Y, d, n), n, d)
  {
    var cm, jp := ColumnMajorPoints(X, Y, n, d), Gkov.JointPoints(X, Transpose(Y, d, n), n, d);
    forall r | 0 <= r < n ensures cm[r] == jp[r] {
      assert forall b :: 0 <= b < d + 1 ==> cm[r][b] == jp[r][b];
    }
  }

  /** `mat data(sizeOfX, sizeOfY.second + 1); data.col(0) = vec(X, sizeOfX);
      data.col(i + 1) = vec(Y[i], sizeOfX)` for each coordinate row i: column 0
      is X and column i+1 is coordinate row i. */
  method AssembleColumnMajor(X: seq<real>, Y: seq<seq<real>>, n: nat, d: nat) returns (m: Matrix)
    requires |X| >= n && |Y| >= d && forall i :: 0 <= i < d ==> |Y[i]| >= n
    ensures m == ColumnMajorPoints(X, Y, n, d)
  {
    var data := new real[n, d + 1];
    forall r | 0 <= r < n {
      data[r, 0] := X[r];
    }
    for i := 0 to d
      invariant forall r :: 0 <= r < n ==> data[r, 0] == X[r]
      invariant forall r, b :: 0 <= r < n && 0 <= b < i ==> data[r, b + 1] == Y[b][r]
    {
      forall r | 0 <= r < n {
        data[r, i + 1] := Y[i][r];
      }
    }
    m := Rows(data);
    MatrixEquality(m, ColumnMajorPoints(X, Y, n, d), n, d + 1);
  }

  /** `prepare_data`: `check_dimensions` (the same three checks and messages
      as Gkov.CheckDimensions) and then the coordinate-major assembly. */
  method PrepareData(X: seq<real>, Y: seq<seq<real>>, sizeOfX: int, sizeOfY: (int, int)) returns (r: Result<Matrix>)
    requires ColumnBuffers(X, Y, sizeOfX, sizeOfY)
    ensures r.Ok? <==> Gkov.CheckDimensions(sizeOfX, sizeOfY).Pass?
    ensures r.Err? ==> r.error == Gkov.CheckDimensions(sizeOfX, sizeOfY).error
    ensures r.Ok? ==> r.value == ColumnMajorPoints(X, Y, sizeOfX, sizeOfY.1)
  {
    var check := Gkov.CheckDimensions(sizeOfX, sizeOfY);
    if check.Fail? {
      return Err(check.error);
    }
    var m := AssembleColumnMajor(X, Y, sizeOfX, sizeOfY.1);
    return Ok(m);
  }

  /** After the transpose, the columns of the joint matrix, of its row-0 block
      and of its rows-1..d block are the joint, X-only and Y-only points. */
  lemma ColumnMarginals(X: seq<real>, Y: seq<seq<real>>, n: nat, d: nat)
    requires n > 0 && d > 0
    requires |X| >= n && |Y| >= d && forall i :: 0 <= i < d ==> |Y[i]| >= n
    ensures var xy := Transpose(ColumnMajorPoints(X, Y, n, d), n, d + 1);
            && Columns(xy, n) == ColumnMajorPoints(X, Y, n, d)
            && Columns(Submat(xy, n, 0, 0, 0, n - 1), n) == Gkov.XPoints(X, n)
            && Columns(Submat(xy, n, 1, 0, d, n - 1), n) == YColumnPoints(Y, n, d)
  {
    var jp := ColumnMajorPoints(X, Y, n, d);
    SplitColumns(jp, n, d);
    assert Heads(jp) == Gkov.XPoints(X, n);
    assert Tails(jp) == YColumnPoints(Y, n, d);
  }

  /** `a_i[i] = digamma(d_i[i]) - log(n_ix[i] + 1) - log(n_iy[i] + 1)`. */
  function SampleTerm(dI: int, nIx: int, nIy: int, digamma: real -> real, ln: real -> real): real
  {
    digamma(dI as real) - ln((nIx + 1) as real) - ln((nIy + 1) as real)
  }

  /** What this `estimate` returns over n samples with rank t: only slot 0 of
      each vector is filled. d_ixy[0] is the t-th smallest joint distance from
      sample 0; d_i[0] is the number of samples at joint distance 0 when that
      distance is 0, and t otherwise; n_ix[0] and n_iy[0] count the samples
      whose marginal distance is at most d_i[0] (the count, used as a radius);
      the result is sum(a_i)/N + log(N). */
  ghost predicate IsEstimation(e: Gkov.Estimation, jp: seq<seq<real>>, xp: seq<seq<real>>, yp: seq<seq<real>>,
                               n: nat, t: nat, digamma: real -> real, ln: real -> real)
    requires 0 < n && t < n && |jp| == n && |xp| == n && |yp| == n
    requires Uniform(jp) && Uniform(xp) && Uniform(yp)
  {
    && e.t == t
    && |e.dIxy| == n && |e.dI| == n && |e.nIx| == n && |e.nIy| == n && |e.aI| == n
    && e.dIxy[0] == KthDistance(jp, 0, t)
    && e.dI[0] == (if e.dIxy[0] == 0.0 then CountWithin(jp, 0, 0.0) else t)
    && e.nIx[0] == CountWithin(xp, 0, e.dI[0] as real)
    && e.nIy[0] == CountWithin(yp, 0, e.dI[0] as real)
    && e.aI[0] == SampleTerm(e.dI[0], e.nIx[0], e.nIy[0], digamma, ln)
    && (forall k :: 1 <= k < n ==> e.dIxy[k] == 0.0 && e.dI[k] == 0 && e.nIx[k] == 0 && e.nIy[k] == 0)
    && (forall k :: 1 <= k < n ==> e.aI[k] == 0.0)
    && e.mi == SumR(e.aI) / (n as real) + ln(n as real)
  }

  /** Because of the return inside the loop, the estimate is sample 0's term
      alone: a_i[0]/N + log(N). The tie count d_i[0] is at least t+1 (so at
      least 1), the non-tie value t is at least 1 (t = 0 always ties, on the
      self-match), and both marginal counts are at least 1, sample 0 itself. */
  lemma FirstSampleOnly(e: Gkov.Estimation, jp: seq<seq<real>>, xp: seq<seq<real>>, yp: seq<seq<real>>,
                        n: nat, t: nat, digamma: real -> real, ln: real -> real)
    requires 0 < n && t < n && |jp| == n && |xp| == n && |yp| == n
    requires Uniform(jp) && Uniform(xp) && Uniform(yp)
    requires IsEstimation(e, jp, xp, yp, n, t, digamma, ln)
    ensures e.mi == e.aI[0] / (n as real) + ln(n as real)
    ensures e.dIxy[0] == 0.0 ==> e.dI[0] >= t + 1
    ensures e.dI[0] >= 1 && e.dI[0] >= t
    ensures e.nIx[0] >= 1 && e.nIy[0] >= 1
  {
    SumRFirstOnly(e.aI);
    ZeroKthDistance(jp, 0, t);
    SelfMatchFirst(jp, 0);
    SelfWithin(xp, 0, e.dI[0] as real);
    SelfWithin(yp, 0, e.dI[0] as real);
  }

  /** The estimator object of gkov.cpp: it holds the rank policy t_n. */
  class GkovEstimator {
    const tnCallback: int -> real

    /** Stores the callback; t_n then returns the callback's value unchanged. */
    constructor (callback: int -> real)
      ensures tnCallback == callback
      ensures forall n :: TN(n) == callback(n)
    {
      tnCallback := callback;
    }

    /** `t_n(n)`: delegates to the stored callback. */
    function TN(n: int): real
    {
      tnCallback(n)
    }

    /** `estimate`: t = int(t_n(sizeOfX)) as size_t; the data are prepared
        (which may throw) and transposed; in the first iteration the joint
        search for all N neighbours gives d_ixy[0] = distances(t), which is out
        of range when t >= N; then d_i[0], n_ix[0], n_iy[0] and a_i[0] are
        computed and sum(a_i)/N + log(N) is returned at once. */
    method Estimate(X: seq<real>, Y: seq<seq<real>>, sizeOfX: int, sizeOfY: (int, int),
                    digamma: real -> real, ln: real -> real) returns (r: Result<Gkov.Estimation>)
      requires ColumnBuffers(X, Y, sizeOfX, sizeOfY)
      ensures r.Ok? <==> Gkov.CheckDimensions(sizeOfX, sizeOfY).Pass? && Gkov.Rank(TN(sizeOfX)) < sizeOfX
      ensures Gkov.CheckDimensions(sizeOfX, sizeOfY).Fail? ==> r == Err(Gkov.CheckDimensions(sizeOfX, sizeOfY).error)
      ensures Gkov.CheckDimensions(sizeOfX, sizeOfY).Pass? && Gkov.Rank(TN(sizeOfX)) >= sizeOfX ==> r == Err(RankOutOfRange)
      ensures r.Ok? ==> 0 < sizeOfX && r.value.t == Gkov.Rank(TN(sizeOfX)) < sizeOfX
      ensures r.Ok? ==> IsEstimation(r.value, ColumnMajorPoints(X, Y, sizeOfX, sizeOfY.1), Gkov.XPoints(X, sizeOfX),
                             YColumnPoints(Y, sizeOfX, sizeOfY.1), sizeOfX, r.value.t, digamma, ln)
    {
      var t := Gkov.Rank(TN(sizeOfX));
      var prepared := PrepareData(X, Y, sizeOfX, sizeOfY);
      if prepared.Err? {
        return Err(prepared.error);
      }
      var n, d := sizeOfX, sizeOfY.1;
      var xyData := Transpose(prepared.value, n, d + 1);
      var xData := Submat(xyData, n, 0, 0, 0, n - 1);
      var yData := Submat(xyData, n, 1, 0, d, n - 1);
      ColumnMarginals(X, Y, n, d);
      var xy, x, y := Columns(xyData, n), Columns(xData, n), Columns(yData, n);
      r := FirstIteration(xy, x, y, t, digamma, ln);
    }
  }

  /** The body of the loop for sample i, up to the return: the joint search
      for all N neighbours gives d_ixy[i] and d_i[i], the marginal searches
      give n_ix[i] and n_iy[i] by counting distances at most d_i[i], and a_i[i]
      follows from those. */
  method SampleStatistics(xy: seq<seq<real>>, x: seq<seq<real>>, y: seq<seq<real>>, t: nat, i: nat,
                          digamma: real -> real, ln: real -> real)
    returns (dIxy: real, dI: int, nIx: int, nIy: int, aI: real)
    requires |xy| == |x| == |y| && i < |xy| && t < |xy|
    requires Uniform(xy) && Uniform(x) && Uniform(y)
    ensures dIxy == KthDistance(xy, i, t)
    ensures dI == if dIxy == 0.0 then CountWithin(xy, i, 0.0) else t
    ensures nIx == CountWithin(x, i, dI as real)
    ensures nIy == CountWithin(y, i, dI as real)
    ensures aI == SampleTerm(dI, nIx, nIy, digamma, ln)
  {
    var n := |xy|;
    var distances := KNearestDistances(xy, xy[i], n);
    AllNeighbors(xy, i, 0.0);
    dIxy := distances[t];
    if dIxy == 0.0 {
      dI := CountEq(distances, 0.0);
    } else {
      dI := t;
    }
    distances := KNearestDistances(x, x[i], n);
    AllNeighbors(x, i, dI as real);
    nIx := CountLe(distances, dI as real);
    distances := KNearestDistances(y, y[i], n);
    AllNeighbors(y, i, dI as real);
    nIy := CountLe(distances, dI as real);
    aI := SampleTerm(dI, nIx, nIy, digamma, ln);
  }

  /** The loop of `estimate` over the joint points `xy` and the marginal points
      `x`, `y`: the vectors start as zeros(N) and the body returns at the end
      of iteration 0. */
  method FirstIteration(xy: seq<seq<real>>, x: seq<seq<real>>, y: seq<seq<real>>, t: nat,
                        digamma: real -> real, ln: real -> real) returns (r: Result<Gkov.Estimation>)
    requires |xy| == |x| == |y| > 0
    requires Uniform(xy) && Uniform(x) && Uniform(y)
    ensures r.Ok? <==> t < |xy|
    ensures r.Err? ==> r.error == RankOutOfRange
    ensures r.Ok? ==> r.value.t == t && IsEstimation(r.value, xy, x, y, |xy|, t, digamma, ln)
  {
    var n := |xy|;
    var dIxy, dI, nIx, nIy, aI := seq(n, _ => 0.0), seq(n, _ => 0), seq(n, _ => 0), seq(n, _ => 0), seq(n, _ => 0.0);
    for i := 0 to n
      invariant i == 0
    {
      if t >= n {
        // the search has returned N distances and `distances(t)` reads past them
        return Err(RankOutOfRange);
      }
      var dIxyI, dII, nIxI, nIyI, aII := SampleStatistics(xy, x, y, t, i, digamma, ln);
      dIxy, dI, nIx, nIy, aI := dIxy[i := dIxyI], dI[i := dII], nIx[i := nIxI], nIy[i := nIyI], aI[i := aII];
      return Ok(Gkov.Estimation(t, dIxy, dI, nIx, nIy, aI, SumR(aI) / (n as real) + ln(n as real)));
    }
    assert false;
  }
}
