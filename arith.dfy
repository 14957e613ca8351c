/** Integer and real helpers shared by the histogram, utility and estimator
    models: products and sums over prefixes (the accumulator loops of the C++
    code), C's truncating division and the truncating (int) cast of a double. */
module Arith {

  /** Product of the elements, accumulated left to right as `p *= s[i]` does. */
  function Prod(s: seq<int>): int
  {
    if |s| == 0 then 1 else Prod(s[..|s| - 1]) * s[|s| - 1]
  }

  /** Sum of the elements, accumulated left to right as `acc += s[i]` does. */
  function Sum(s: seq<int>): int
  {
    if |s| == 0 then 0 else Sum(s[..|s| - 1]) + s[|s| - 1]
  }

  /** Sum of real elements, left to right. */
  function SumR(s: seq<real>): real
  {
    if |s| == 0 then 0.0 else SumR(s[..|s| - 1]) + s[|s| - 1]
  }

  /** C/C++ integer division on `int`: the quotient is truncated toward zero. */
  function CDiv(a: int, b: int): (q: int)
    requires b > 0
    ensures a >= 0 ==> q == a / b
    ensures a < 0 ==> q <= 0
  {
    if a >= 0 then a / b else -((-a) / b)
  }

  /** The C cast `(int) x` of a finite double: truncation toward zero. */
  function Trunc(x: real): (r: int)
    ensures x >= 0.0 ==> r as real <= x < r as real + 1.0
    ensures x < 0.0 ==> r as real - 1.0 < x <= r as real
  {
    if x >= 0.0 then x.Floor else -((-x).Floor)
  }

  predicate AllNonNegative(s: seq<int>)
  {
    forall i :: 0 <= i < |s| ==> s[i] >= 0
  }

  predicate AllPositive(s: seq<int>)
  {
    forall i :: 0 <= i < |s| ==> s[i] > 0
  }

  /** Peeling the first factor: the product of a sequence is its head times the
      product of its tail (the `offset` loops that start at index 1 rely on it). */
  lemma {:induction false} ProdCons(s: seq<int>)
    requires |s| > 0
    ensures Prod(s) == s[0] * Prod(s[1..])
  {
    if |s| > 1 {
      var init := s[..|s| - 1];
      ProdCons(init);
      assert init[1..] == s[1..][..|s[1..]| - 1];
      assert init[0] == s[0];
      calc {
        Prod(s);
        Prod(init) * s[|s| - 1];
        s[0] * Prod(init[1..]) * s[|s| - 1];
        s[0] * (Prod(s[1..][..|s[1..]| - 1]) * s[1..][|s[1..]| - 1]);
        s[0] * Prod(s[1..]);
      }
    } else {
      assert s[..0] == [];
      assert s[1..] == [];
    }
  }

  lemma {:induction false} ProdNonNegative(s: seq<int>)
    requires AllNonNegative(s)
    ensures Prod(s) >= 0
  {
    if |s| > 0 {
      ProdNonNegative(s[..|s| - 1]);
    }
  }

  lemma {:induction false} ProdPositive(s: seq<int>)
    requires AllPositive(s)
    ensures Prod(s) > 0
  {
    if |s| > 0 {
      ProdPositive(s[..|s| - 1]);
    }
  }

  /** Appending one element multiplies the product / adds to the sum (the step
      of every accumulator loop, stated on prefixes). */
  lemma ProdPrefixStep(s: seq<int>, i: nat)
    requires i < |s|
    ensures Prod(s[..i + 1]) == Prod(s[..i]) * s[i]
  {
    assert s[..i + 1][..i] == s[..i];
  }

  lemma SumPrefixStep(s: seq<int>, i: nat)
    requires i < |s|
    ensures Sum(s[..i + 1]) == Sum(s[..i]) + s[i]
  {
    assert s[..i + 1][..i] == s[..i];
  }

  lemma SumRPrefixStep(s: seq<real>, i: nat)
    requires i < |s|
    ensures SumR(s[..i + 1]) == SumR(s[..i]) + s[i]
  {
    assert s[..i + 1][..i] == s[..i];
  }

  /** Incrementing one slot of a counter array raises the total by one. */
  lemma {:induction false} SumIncrement(s: seq<int>, b: int)
    requires 0 <= b < |s|
    ensures Sum(s[b := s[b] + 1]) == Sum(s) + 1
  {
    var t := s[b := s[b] + 1];
    var n := |s| - 1;
    if b == n {
      assert t[..n] == s[..n];
    } else {
      SumIncrement(s[..n], b);
      assert t[..n] == s[..n][b := s[..n][b] + 1];
    }
  }

  /** A sequence of zeros sums to zero. */
  lemma {:induction false} SumZeros(n: nat)
    ensures Sum(seq(n, _ => 0)) == 0
  {
    if n > 0 {
      SumZeros(n - 1);
      assert seq(n, _ => 0)[..n - 1] == seq(n - 1, _ => 0);
    }
  }

  /** Dividing every element by the same non-zero denominator divides the sum. */
  lemma {:induction false} SumRScaled(s: seq<int>, d: real)
    requires d != 0.0
    ensures SumR(seq(|s|, i requires 0 <= i < |s| => s[i] as real / d)) == Sum(s) as real / d
  {
    var q := seq(|s|, i requires 0 <= i < |s| => s[i] as real / d);
    if |s| > 0 {
      var n := |s| - 1;
      SumRScaled(s[..n], d);
      assert q[..n] == seq(n, i requires 0 <= i < n => s[..n][i] as real / d);
      calc {
        SumR(q);
        SumR(q[..n]) + q[n];
        Sum(s[..n]) as real / d + s[n] as real / d;
        (Sum(s[..n]) as real + s[n] as real) / d;
        Sum(s) as real / d;
      }
    }
  }

  /** A sum whose terms after the first are all zero is its first term. */
  lemma {:induction false} SumRFirstOnly(s: seq<real>)
    requires |s| > 0
    requires forall k :: 1 <= k < |s| ==> s[k] == 0.0
    ensures SumR(s) == s[0]
  {
    if |s| > 1 {
      var init := s[..|s| - 1];
      SumRFirstOnly(init);
    }
  }

  // Small facts of integer multiplication and division, kept apart so that
  // the proofs that use them stay linear.

  lemma MulMonotone(a: int, b: int, c: int)
    requires a <= b && c >= 0
    ensures a * c <= b * c
  {
  }

  lemma MulLtCancel(a: int, b: int, c: int)
    requires c > 0 && a * c < b * c
    ensures a < b
  {
  }

  lemma MulPositive(a: int, b: int)
    requires a > 0 && b > 0
    ensures a * b > 0
  {
  }

  lemma DivBelow(a: int, b: int, d: int)
    requires a >= 0 && d > 0 && a < b * d
    ensures a / d < b
  {
  }

  /** A leading digit below its radix, followed by a remainder below the
      weight p, stays below radix * p. */
  lemma DigitBound(d: int, r: int, p: int, rest: int)
    requires 0 <= d < r && 0 <= rest < p
    ensures 0 <= d * p + rest < r * p
  {
    MulMonotone(d, r - 1, p);
    assert (r - 1) * p + p == r * p;
  }
}
