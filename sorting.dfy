/** The contract of an ascending sort (std::sort in `unique`, and the order in
    which mlpack reports neighbour distances), given by an insertion sort on
    sequences of reals, together with order-statistic counting. */
module Sorting {

  predicate Sorted(s: seq<real>)
  {
    forall i, j :: 0 <= i < j < |s| ==> s[i] <= s[j]
  }

  /** Inserts `x` before the first element of `s` that is not smaller than it
      (at the end if there is none). */
  function Insert(x: real, s: seq<real>): (r: seq<real>)
    ensures multiset(r) == multiset(s) + multiset{x}
    ensures |r| == |s| + 1
  {
    if |s| == 0 then [x]
    else if x <= s[0] then [x] + s
    else
      assert s == [s[0]] + s[1..];
      [s[0]] + Insert(x, s[1..])
  }

  /** Inserting into a sorted sequence keeps it sorted. */
  lemma {:induction false} InsertSorted(x: real, s: seq<real>)
    requires Sorted(s)
    ensures Sorted(Insert(x, s))
  {
    if |s| > 0 && x > s[0] {
      InsertSorted(x, s[1..]);
      var rest := Insert(x, s[1..]);
      forall k | 0 <= k < |rest| ensures s[0] <= rest[k] {
        assert rest[k] in multiset(s[1..]) + multiset{x};
      }
    }
  }

  /** An insertion sort: the head of `s` inserted into its sorted tail. That
      the result is ascending and a permutation of `s` are lemmas SortSorted
      and SortPermutation. */
  function Sort(s: seq<real>): (r: seq<real>)
    ensures |r| == |s|
  {
    if |s| == 0 then [] else Insert(s[0], Sort(s[1..]))
  }

  /** `Sort(s)` is ascending. */
  lemma {:induction false} SortSorted(s: seq<real>)
    ensures Sorted(Sort(s))
  {
    if |s| > 0 {
      SortSorted(s[1..]);
      InsertSorted(s[0], Sort(s[1..]));
    }
  }

  /** `Sort(s)` holds exactly the elements of `s`, with their multiplicities. */
  lemma {:induction false} SortPermutation(s: seq<real>)
    ensures multiset(Sort(s)) == multiset(s)
  {
    if |s| > 0 {
      SortPermutation(s[1..]);
      MultisetOfCons(s);
    }
  }

  lemma MultisetOfCons(s: seq<real>)
    requires |s| > 0
    ensures multiset(s) == multiset(s[1..]) + multiset{s[0]}
  {
    assert s == [s[0]] + s[1..];
  }

  /** How many elements of `s` are at most `r`. */
  function CountLe(s: seq<real>, r: real): nat
  {
    if |s| == 0 then 0 else (if s[0] <= r then 1 else 0) + CountLe(s[1..], r)
  }

  /** How many elements of `s` equal `r`. */
  function CountEq(s: seq<real>, r: real): nat
  {
    if |s| == 0 then 0 else (if s[0] == r then 1 else 0) + CountEq(s[1..], r)
  }

  lemma {:induction false} CountLeInsert(x: real, s: seq<real>, r: real)
    ensures CountLe(Insert(x, s), r) == CountLe(s, r) + (if x <= r then 1 else 0)
  {
    if |s| > 0 && x > s[0] {
      CountLeInsert(x, s[1..], r);
      assert Insert(x, s)[1..] == Insert(x, s[1..]);
    } else if |s| > 0 {
      assert Insert(x, s)[1..] == s;
    }
  }

  /** Sorting does not change how many elements lie at or below a bound. */
  lemma {:induction false} CountLeSort(s: seq<real>, r: real)
    ensures CountLe(Sort(s), r) == CountLe(s, r)
  {
    if |s| > 0 {
      CountLeSort(s[1..], r);
      CountLeInsert(s[0], Sort(s[1..]), r);
    }
  }

  lemma {:induction false} CountEqInsert(x: real, s: seq<real>, r: real)
    ensures CountEq(Insert(x, s), r) == CountEq(s, r) + (if x == r then 1 else 0)
  {
    if |s| > 0 && x > s[0] {
      CountEqInsert(x, s[1..], r);
      assert Insert(x, s)[1..] == Insert(x, s[1..]);
    } else if |s| > 0 {
      assert Insert(x, s)[1..] == s;
    }
  }

  /** Sorting does not change how often a value occurs. */
  lemma {:induction false} CountEqSort(s: seq<real>, r: real)
    ensures CountEq(Sort(s), r) == CountEq(s, r)
  {
    if |s| > 0 {
      CountEqSort(s[1..], r);
      CountEqInsert(s[0], Sort(s[1..]), r);
    }
  }

  /** If the first k+1 elements are all at most r, at least k+1 elements are. */
  lemma {:induction false} CountLeOfPrefix(u: seq<real>, k: nat, r: real)
    requires k < |u|
    requires forall j :: 0 <= j <= k ==> u[j] <= r
    ensures CountLe(u, r) >= k + 1
  {
    if k > 0 {
      CountLeOfPrefix(u[1..], k - 1, r);
    }
  }

  /** In a sorted sequence the element at 0-based position t has at least t+1
      elements (itself and all before it) at or below it. */
  lemma SortedRankCount(u: seq<real>, t: nat)
    requires Sorted(u)
    requires t < |u|
    ensures CountLe(u, u[t]) >= t + 1
  {
    CountLeOfPrefix(u, t, u[t]);
  }

  /** In a sorted sequence whose first element exceeds r, no element is at most r. */
  lemma {:induction false} CountLeAboveFirst(u: seq<real>, r: real)
    requires Sorted(u) && |u| > 0 && u[0] > r
    ensures CountLe(u, r) == 0
  {
    if |u| > 1 {
      assert Sorted(u[1..]) && u[1..][0] == u[1] >= u[0];
      CountLeAboveFirst(u[1..], r);
    }
  }

  /** The converse of SortedRankCount: if at least t+1 elements of a sorted
      sequence are at most r, the element at position t is at most r. */
  lemma {:induction false} SortedCountLeRank(u: seq<real>, r: real, t: nat)
    requires Sorted(u) && t < |u|
    requires CountLe(u, r) >= t + 1
    ensures u[t] <= r
  {
    if u[0] > r {
      CountLeAboveFirst(u, r);
    } else if t > 0 {
      assert Sorted(u[1..]) && u[1..][t - 1] == u[t];
      SortedCountLeRank(u[1..], r, t - 1);
    }
  }

  /** Pointwise smaller elements give at least as many elements under a bound. */
  lemma {:induction false} CountLeMonotone(a: seq<real>, b: seq<real>, r: real)
    requires |a| == |b|
    requires forall k :: 0 <= k < |a| ==> a[k] <= b[k]
    ensures CountLe(a, r) >= CountLe(b, r)
  {
    if |a| > 0 {
      CountLeMonotone(a[1..], b[1..], r);
    }
  }

  /** The first element of a sorted sequence is its minimum: when every element
      is non-negative and one of them is 0, the first element is 0. */
  lemma SortedFirstIsZero(u: seq<real>)
    requires Sorted(u)
    requires 0.0 in multiset(u)
    requires forall k :: 0 <= k < |u| ==> u[k] >= 0.0
    ensures |u| > 0 && u[0] == 0.0
  {
    assert 0.0 in u;
    var k :| 0 <= k < |u| && u[k] == 0.0;
  }

  /** Every element of a permutation of a non-negative sequence is non-negative. */
  lemma SortNonNegative(s: seq<real>)
    requires forall k :: 0 <= k < |s| ==> s[k] >= 0.0
    ensures forall k :: 0 <= k < |Sort(s)| ==> Sort(s)[k] >= 0.0
  {
    var u := Sort(s);
    SortPermutation(s);
    forall k | 0 <= k < |u| ensures u[k] >= 0.0 {
      assert u[k] in multiset(s);
      assert u[k] in s;
    }
  }

  /** In a non-negative sequence the elements at most 0 are exactly the zeros. */
  lemma {:induction false} CountLeZeroIsCountEq(s: seq<real>)
    requires forall k :: 0 <= k < |s| ==> s[k] >= 0.0
    ensures CountLe(s, 0.0) == CountEq(s, 0.0)
  {
    if |s| > 0 {
      CountLeZeroIsCountEq(s[1..]);
    }
  }

  /** An element that occurs in `s` is counted at least once. */
  lemma {:induction false} CountEqPresent(s: seq<real>, k: nat)
    requires k < |s|
    ensures CountEq(s, s[k]) >= 1
  {
    if k > 0 {
      CountEqPresent(s[1..], k - 1);
    }
  }

  /** An element at most r is counted. */
  lemma {:induction false} CountLeWitness(s: seq<real>, k: nat, r: real)
    requires k < |s| && s[k] <= r
    ensures CountLe(s, r) >= 1
  {
    if k > 0 {
      CountLeWitness(s[1..], k - 1, r);
    }
  }
}
