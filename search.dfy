/** The contracts of the mlpack searches the estimator calls, stated as
    brute-force specifications over the reference points (the tree structures
    themselves are not modelled):
    - `NeighborSearch<NearestNeighborSort, ChebyshevDistance, ...>::Search(q, k, ...)`
      reports the k smallest Chebyshev distances from q to the reference points,
      in ascending order; a reference point equal to q is reported at distance 0;
    - `RangeSearch<ChebyshevDistance, ...>::Search(qs, Range(lo, hi), ...)`
      reports, for each query point, the reference points whose distance lies in
      the closed interval [lo, hi]. */
module NeighborSearch {
  import opened Sorting

  function Abs(x: real): real
  {
    if x < 0.0 then -x else x
  }

  function Max(a: real, b: real): real
  {
    if a < b then b else a
  }

  /** Chebyshev (L-infinity) distance: the largest coordinate-wise difference
      (lemma ChebyshevIsLargestDifference). */
  function Chebyshev(a: seq<real>, b: seq<real>): (d: real)
    requires |a| == |b|
    ensures d >= 0.0
  {
    if |a| == 0 then 0.0 else Max(Abs(a[0] - b[0]), Chebyshev(a[1..], b[1..]))
  }

  /** The Chebyshev distance bounds every coordinate difference and, for
      non-empty points, equals one of them. */
  lemma {:induction false} ChebyshevIsLargestDifference(a: seq<real>, b: seq<real>)
    requires |a| == |b|
    ensures forall j :: 0 <= j < |a| ==> Abs(a[j] - b[j]) <= Chebyshev(a, b)
    ensures |a| > 0 ==> exists j :: 0 <= j < |a| && Abs(a[j] - b[j]) == Chebyshev(a, b)
  {
    if |a| > 1 {
      ChebyshevIsLargestDifference(a[1..], b[1..]);
      assert forall j :: 1 <= j < |a| ==> a[j] == a[1..][j - 1] && b[j] == b[1..][j - 1];
      var j :| 0 <= j < |a| - 1 && Abs(a[1..][j] - b[1..][j]) == Chebyshev(a[1..], b[1..]);
      if Abs(a[0] - b[0]) < Chebyshev(a[1..], b[1..]) {
        assert Abs(a[j + 1] - b[j + 1]) == Chebyshev(a, b);
      }
    } else if |a| == 1 {
      assert Chebyshev(a[1..], b[1..]) == 0.0;
    }
  }

  lemma ChebyshevSelf(a: seq<real>)
    ensures Chebyshev(a, a) == 0.0
  {
    ChebyshevIsLargestDifference(a, a);
    if |a| > 0 {
      var j :| 0 <= j < |a| && Abs(a[j] - a[j]) == Chebyshev(a, a);
    }
  }

  lemma ChebyshevSymmetric(a: seq<real>, b: seq<real>)
    requires |a| == |b|
    ensures Chebyshev(a, b) == Chebyshev(b, a)
  {
    ChebyshevIsLargestDifference(a, b);
    ChebyshevIsLargestDifference(b, a);
    var d, e := Chebyshev(a, b), Chebyshev(b, a);
    if |a| > 0 {
      var j :| 0 <= j < |a| && Abs(a[j] - b[j]) == d;
      var k :| 0 <= k < |a| && Abs(b[k] - a[k]) == e;
      assert Abs(b[j] - a[j]) <= e && Abs(a[k] - b[k]) <= d;
    }
  }

  /** Dropping coordinates never increases the Chebyshev distance: the distance
      between the first coordinates alone, and between the remaining coordinates
      alone, are both at most the distance between the whole points. */
  lemma ChebyshevProjection(a: seq<real>, b: seq<real>)
    requires |a| == |b| > 0
    ensures Chebyshev(a[..1], b[..1]) <= Chebyshev(a, b)
    ensures Chebyshev(a[1..], b[1..]) <= Chebyshev(a, b)
  {
    assert a[..1][1..] == [] && b[..1][1..] == [];
    assert Chebyshev(a[..1], b[..1]) == Max(Abs(a[0] - b[0]), 0.0);
  }

  /** The distances from `q` to every reference point, in reference order. */
  function DistancesTo(points: seq<seq<real>>, q: seq<real>): (ds: seq<real>)
    requires forall k :: 0 <= k < |points| ==> |points[k]| == |q|
    ensures |ds| == |points|
    ensures forall k :: 0 <= k < |points| ==> ds[k] == Chebyshev(q, points[k]) && ds[k] >= 0.0
  {
    seq(|points|, k requires 0 <= k < |points| => Chebyshev(q, points[k]))
  }

  /** The distance column reported by a k-nearest-neighbour search: the k
      smallest distances, ascending (the query point itself included when it
      is one of the reference points). */
  function KNearestDistances(points: seq<seq<real>>, q: seq<real>, k: nat): (ds: seq<real>)
    requires forall j :: 0 <= j < |points| ==> |points[j]| == |q|
    requires k <= |points|
    ensures |ds| == k
    ensures Sorted(ds)
  {
    SortSorted(DistancesTo(points, q));
    Sort(DistancesTo(points, q))[..k]
  }

  /** Indices (counted from `base`) of the entries of `ds` lying in [lo, hi]. */
  function InRange(ds: seq<real>, lo: real, hi: real, base: nat): seq<nat>
  {
    if |ds| == 0 then []
    else (if lo <= ds[0] <= hi then [base] else []) + InRange(ds[1..], lo, hi, base + 1)
  }

  lemma {:induction false} InRangeMembers(ds: seq<real>, lo: real, hi: real, base: nat)
    ensures forall k :: k in InRange(ds, lo, hi, base) <==> base <= k < base + |ds| && lo <= ds[k - base] <= hi
  {
    if |ds| > 0 {
      InRangeMembers(ds[1..], lo, hi, base + 1);
      forall k ensures k in InRange(ds, lo, hi, base) <==> base <= k < base + |ds| && lo <= ds[k - base] <= hi {
        if k > base && k < base + |ds| {
          assert ds[k - base] == ds[1..][k - (base + 1)];
        }
      }
    }
  }

  /** With a lower bound of 0, the number of in-range entries of a non-negative
      distance list is the number of entries at most `hi`. */
  lemma {:induction false} InRangeCount(ds: seq<real>, hi: real, base: nat)
    requires forall k :: 0 <= k < |ds| ==> ds[k] >= 0.0
    ensures |InRange(ds, 0.0, hi, base)| == CountLe(ds, hi)
  {
    if |ds| > 0 {
      InRangeCount(ds[1..], hi, base + 1);
    }
  }

  /** The result of a range search: one list per query point, holding the
      indices of the reference points at a distance in [lo, hi] from it. */
  function RangeSearch(points: seq<seq<real>>, queries: seq<seq<real>>, lo: real, hi: real): (rs: seq<seq<nat>>)
    requires forall j, k :: 0 <= j < |queries| && 0 <= k < |points| ==> |points[k]| == |queries[j]|
    ensures |rs| == |queries|
  {
    seq(|queries|, j requires 0 <= j < |queries| => InRange(DistancesTo(points, queries[j]), lo, hi, 0))
  }

  /** Reference point k is reported for query j exactly when its distance to
      the query lies in [lo, hi]. */
  lemma RangeSearchMembers(points: seq<seq<real>>, queries: seq<seq<real>>, lo: real, hi: real, j: nat, k: int)
    requires forall j, k :: 0 <= j < |queries| && 0 <= k < |points| ==> |points[k]| == |queries[j]|
    requires j < |queries|
    ensures k in RangeSearch(points, queries, lo, hi)[j] <==> 0 <= k < |points| && lo <= Chebyshev(queries[j], points[k]) <= hi
  {
    InRangeMembers(DistancesTo(points, queries[j]), lo, hi, 0);
  }

  /** Every point has the same number of coordinates. */
  predicate Uniform(points: seq<seq<real>>)
  {
    forall j, k :: 0 <= j < |points| && 0 <= k < |points| ==> |points[j]| == |points[k]|
  }

  /** How many reference points lie within Chebyshev distance `r` (inclusive)
      of reference point i, point i itself included. */
  function CountWithin(points: seq<seq<real>>, i: nat, r: real): nat
    requires i < |points| && Uniform(points)
  {
    CountLe(DistancesTo(points, points[i]), r)
  }

  /** The distance at 0-based position t of the ascending distances from
      reference point i to all reference points, itself included. */
  function KthDistance(points: seq<seq<real>>, i: nat, t: nat): real
    requires i < |points| && t < |points| && Uniform(points)
  {
    Sort(DistancesTo(points, points[i]))[t]
  }

  /** A one-query range search over [0, r] from reference point i finds exactly
      CountWithin(points, i, r) reference points. */
  lemma RangeSearchCount(points: seq<seq<real>>, i: nat, r: real)
    requires i < |points| && Uniform(points)
    ensures |RangeSearch(points, [points[i]], 0.0, r)| == 1
    ensures |RangeSearch(points, [points[i]], 0.0, r)[0]| == CountWithin(points, i, r)
  {
    InRangeCount(DistancesTo(points, points[i]), r, 0);
  }

  /** The self-match: the smallest distance from reference point i is 0. */
  lemma SelfMatchFirst(points: seq<seq<real>>, i: nat)
    requires i < |points| && Uniform(points)
    ensures KthDistance(points, i, 0) == 0.0
  {
    var ds := DistancesTo(points, points[i]);
    ChebyshevSelf(points[i]);
    assert ds[i] == 0.0;
    assert 0.0 in multiset(ds);
    SortNonNegative(ds);
    SortPermutation(ds);
    SortSorted(ds);
    SortedFirstIsZero(Sort(ds));
  }

  /** Every neighbour distance is non-negative. */
  lemma KthDistanceNonNegative(points: seq<seq<real>>, i: nat, t: nat)
    requires i < |points| && t < |points| && Uniform(points)
    ensures KthDistance(points, i, t) >= 0.0
  {
    SortNonNegative(DistancesTo(points, points[i]));
  }

  /** The t-th smallest distance (0-based) from point i has at least t+1
      reference points within it. */
  lemma RankCount(points: seq<seq<real>>, i: nat, t: nat)
    requires i < |points| && t < |points| && Uniform(points)
    ensures CountWithin(points, i, KthDistance(points, i, t)) >= t + 1
  {
    var ds := DistancesTo(points, points[i]);
    SortSorted(ds);
    SortedRankCount(Sort(ds), t);
    CountLeSort(ds, Sort(ds)[t]);
  }

  /** The t-th neighbour distance of point i is 0 exactly when at least t+1
      points (point i included) coincide with point i. */
  lemma ZeroKthDistance(points: seq<seq<real>>, i: nat, t: nat)
    requires i < |points| && t < |points| && Uniform(points)
    ensures KthDistance(points, i, t) == 0.0 <==> CountWithin(points, i, 0.0) >= t + 1
  {
    var ds := DistancesTo(points, points[i]);
    KthDistanceNonNegative(points, i, t);
    RankCount(points, i, t);
    if CountWithin(points, i, 0.0) >= t + 1 {
      CountLeSort(ds, 0.0);
      SortSorted(ds);
      SortedCountLeRank(Sort(ds), 0.0, t);
    }
  }

  /** The k-th neighbour distance does not decrease as k grows. */
  lemma KthMonotone(points: seq<seq<real>>, i: nat, t1: nat, t2: nat)
    requires i < |points| && t1 <= t2 < |points| && Uniform(points)
    ensures KthDistance(points, i, t1) <= KthDistance(points, i, t2)
  {
    SortSorted(DistancesTo(points, points[i]));
  }

  /** If, from point i, every point of `small` is at most as far as the
      corresponding point of `large`, then at least as many points of `small`
      lie within any radius. */
  lemma CountWithinMonotone(small: seq<seq<real>>, large: seq<seq<real>>, i: nat, r: real)
    requires |small| == |large| && i < |small| && Uniform(small) && Uniform(large)
    requires forall k :: 0 <= k < |small| ==> Chebyshev(small[i], small[k]) <= Chebyshev(large[i], large[k])
    ensures CountWithin(small, i, r) >= CountWithin(large, i, r)
  {
    CountLeMonotone(DistancesTo(small, small[i]), DistancesTo(large, large[i]), r);
  }

  /** A search for as many neighbours as there are reference points, from
      reference point i, returns all distances ascending: position t holds the
      t-th neighbour distance, the entries at most r are the points within r,
      and the zero entries are the points coinciding with point i. */
  lemma AllNeighbors(points: seq<seq<real>>, i: nat, r: real)
    requires i < |points| && Uniform(points)
    ensures var ds := KNearestDistances(points, points[i], |points|);
            && (forall t :: 0 <= t < |points| ==> ds[t] == KthDistance(points, i, t))
            && CountLe(ds, r) == CountWithin(points, i, r)
            && CountEq(ds, 0.0) == CountWithin(points, i, 0.0)
  {
    var all := DistancesTo(points, points[i]);
    assert KNearestDistances(points, points[i], |points|) == Sort(all);
    CountLeSort(all, r);
    CountEqSort(all, 0.0);
    CountLeZeroIsCountEq(all);
  }

  /** Point i lies within any non-negative radius of itself. */
  lemma SelfWithin(points: seq<seq<real>>, i: nat, r: real)
    requires i < |points| && Uniform(points) && r >= 0.0
    ensures CountWithin(points, i, r) >= 1
  {
    ChebyshevSelf(points[i]);
    CountLeWitness(DistancesTo(points, points[i]), i, r);
  }
}
