/** The earlier helpers of utils.cpp: a recursive flatten of a
    multi-dimensional array into a caller's buffer, and the per-row copies of
    the GKOV conversion built on it. X and the output buffer are distinct
    storage here. */
module UtilsEarly {
  import opened Arith

  /** `flatten`: copies the Π sizes[..dimensions] elements of X that start at
      xStart into `flattened` from position `index` on. With one dimension it
      copies sizes[0] elements directly; otherwise it recurses on each of the
      sizes[0] blocks of length Π sizes[1..dimensions], block i going to
      index + i * offset. Nothing outside that window changes. */
  method Flatten(X: seq<real>, xStart: nat, sizes: seq<int>, dimensions: nat, flattened: array<real>, index: nat)
    requires 1 <= dimensions <= |sizes| && AllNonNegative(sizes[..dimensions])
    requires xStart + Prod(sizes[..dimensions]) <= |X|
    requires index + Prod(sizes[..dimensions]) <= flattened.Length
    modifies flattened
    ensures Prod(sizes[..dimensions]) >= 0
    ensures flattened[index..index + Prod(sizes[..dimensions])] == X[xStart..xStart + Prod(sizes[..dimensions])]
    ensures flattened[..index] == old(flattened[..index])
    ensures flattened[index + Prod(sizes[..dimensions])..] == old(flattened[index + Prod(sizes[..dimensions])..])
    decreases dimensions, 1
  {
    ProdNonNegative(sizes[..dimensions]);
    ProdCons(sizes[..dimensions]);
    assert sizes[..dimensions][1..] == sizes[1..][..dimensions - 1];
    if dimensions == 1 {
      assert sizes[1..][..0] == [];
      CopyRun(X, xStart, sizes[0], flattened, index);
    } else {
      var offset := 1;
      for i := 1 to dimensions
        invariant offset == Prod(sizes[1..i])
        invariant flattened[..] == old(flattened[..])
      {
        assert sizes[1..i + 1] == sizes[1..][..i] && sizes[1..i] == sizes[1..][..i - 1];
        ProdPrefixStep(sizes[1..], i - 1);
        offset := offset * sizes[i];
      }
      assert sizes[1..dimensions] == sizes[1..][..dimensions - 1];
      TailNonNegative(sizes, dimensions);
      FlattenBlocks(X, xStart, sizes, dimensions, offset, flattened, index);
    }
  }

  /** The block loop of `flatten` with more than one dimension: block i of
      `offset` elements is flattened from X + i * offset to index + i * offset,
      for each i below sizes[0]. */
  method FlattenBlocks(X: seq<real>, xStart: nat, sizes: seq<int>, dimensions: nat, offset: int,
                       flattened: array<real>, index: nat)
    requires 2 <= dimensions <= |sizes| && sizes[0] >= 0 && AllNonNegative(sizes[1..][..dimensions - 1])
    requires offset == Prod(sizes[1..][..dimensions - 1])
    requires xStart + sizes[0] * offset <= |X| && index + sizes[0] * offset <= flattened.Length
    modifies flattened
    ensures offset >= 0
    ensures flattened[index..index + sizes[0] * offset] == X[xStart..xStart + sizes[0] * offset]
    ensures flattened[..index] == old(flattened[..index])
    ensures flattened[index + sizes[0] * offset..] == old(flattened[index + sizes[0] * offset..])
    decreases dimensions, 0
  {
    ProdNonNegative(sizes[1..][..dimensions - 1]);
    for i := 0 to sizes[0]
      invariant i * offset <= sizes[0] * offset
      invariant flattened[index..index + i * offset] == X[xStart..xStart + i * offset]
      invariant flattened[..index] == old(flattened[..index])
      invariant flattened[index + i * offset..] == old(flattened[index + i * offset..])
    {
      BlockFits(i, sizes[0], offset);
      ghost var before := flattened[..];
      Flatten(X, xStart + i * offset, sizes[1..], dimensions - 1, flattened, index + i * offset);
      assert (i + 1) * offset == i * offset + offset;
      Splice(old(flattened[..]), before, flattened[..], X, index, index + i * offset, index + (i + 1) * offset, xStart);
    }
  }

  /** The one-dimensional case of `flatten`: n consecutive elements of X
      copied one by one. */
  method CopyRun(X: seq<real>, xStart: nat, n: nat, flattened: array<real>, index: nat)
    requires xStart + n <= |X| && index + n <= flattened.Length
    modifies flattened
    ensures flattened[index..index + n] == X[xStart..xStart + n]
    ensures flattened[..index] == old(flattened[..index])
    ensures flattened[index + n..] == old(flattened[index + n..])
  {
    for i := 0 to n
      invariant flattened[index..index + i] == X[xStart..xStart + i]
      invariant flattened[..index] == old(flattened[..index])
      invariant flattened[index + i..] == old(flattened[index + i..])
    {
      ghost var before := flattened[..];
      flattened[index + i] := X[xStart + i];
      StoreStep(old(flattened[..]), before, flattened[..], X, index, index + i, xStart);
    }
  }

  /** The sizes after the first are non-negative when all are. */
  lemma TailNonNegative(sizes: seq<int>, dimensions: nat)
    requires 1 <= dimensions <= |sizes| && AllNonNegative(sizes[..dimensions])
    ensures AllNonNegative(sizes[1..dimensions]) && AllNonNegative(sizes[1..][..dimensions - 1])
  {
    assert sizes[1..dimensions] == sizes[1..][..dimensions - 1];
    forall m | 0 <= m < dimensions - 1 ensures sizes[1..dimensions][m] >= 0 {
      assert sizes[..dimensions][m + 1] == sizes[1..dimensions][m];
    }
  }

  /** One more block copied: if window [index, m) already holds X from
      xStart, and the next call fills [m, e) with the following elements of X
      and leaves the rest alone, the window [index, e) holds X and everything
      outside it is as at the start. */
  lemma Splice(o: seq<real>, a: seq<real>, b: seq<real>, X: seq<real>, index: nat, m: nat, e: nat, xStart: nat)
    requires |o| == |a| == |b| && index <= m <= e <= |a| && xStart + (e - index) <= |X|
    requires a[..index] == o[..index] && a[m..] == o[m..] && a[index..m] == X[xStart..xStart + (m - index)]
    requires b[..m] == a[..m] && b[e..] == a[e..]
    requires b[m..e] == X[xStart + (m - index)..xStart + (e - index)]
    ensures b[..index] == o[..index] && b[e..] == o[e..]
    ensures b[index..e] == X[xStart..xStart + (e - index)]
  {
    assert b[..index] == b[..m][..index] == a[..m][..index] == a[..index];
    assert b[e..] == a[e..] == a[m..][e - m..] == o[m..][e - m..] == o[e..];
    assert b[index..m] == b[..m][index..] == a[..m][index..] == a[index..m];
    assert b[index..e] == b[index..m] + b[m..e];
    assert X[xStart..xStart + (e - index)] == X[xStart..xStart + (m - index)] + X[xStart + (m - index)..xStart + (e - index)];
  }

  /** One element stored at position m = index + (m - index). */
  lemma StoreStep(o: seq<real>, a: seq<real>, b: seq<real>, X: seq<real>, index: nat, m: nat, xStart: nat)
    requires |o| == |a| && index <= m < |a| && xStart + (m - index) < |X|
    requires a[..index] == o[..index] && a[m..] == o[m..] && a[index..m] == X[xStart..xStart + (m - index)]
    requires b == a[m := X[xStart + (m - index)]]
    ensures b[..index] == o[..index] && b[m + 1..] == o[m + 1..]
    ensures b[index..m + 1] == X[xStart..xStart + (m + 1 - index)]
  {
    Splice(o, a, b, X, index, m, m + 1, xStart);
  }

  /** Block i of width w, for i below n, lies within n * w. */
  lemma BlockFits(i: nat, n: int, w: nat)
    requires i < n
    ensures i * w + w <= n * w
  {
    assert i * w + w == (i + 1) * w;
    MulMonotone(i + 1, n, w);
  }


  /** `to_gkov_format` of utils.cpp: for each of the sizes[0] rows, a fresh
      buffer of flattenedSize = Π sizes[1..dimensions] elements is filled by
      Flatten from X + i * flattenedSize; row i is therefore the i-th
      consecutive block of X. */
  method ToGkovFormat(X: seq<real>, sizes: seq<int>, dimensions: nat) returns (rows: seq<seq<real>>)
    requires 2 <= dimensions <= |sizes| && AllNonNegative(sizes[..dimensions])
    requires Prod(sizes[..dimensions]) <= |X|
    ensures |rows| == sizes[0] && Prod(sizes[..dimensions]) >= 0
    ensures forall i :: 0 <= i < |rows| ==> |rows[i]| == Prod(sizes[1..dimensions])
    ensures Concat(rows) == X[..Prod(sizes[..dimensions])]
  {
    ProdCons(sizes[..dimensions]);
    assert sizes[..dimensions][1..] == sizes[1..dimensions];
    TailNonNegative(sizes, dimensions);
    ProdNonNegative(sizes[1..dimensions]);
    var flattenedSize := 1;
    for i := 1 to dimensions
      invariant flattenedSize == Prod(sizes[1..i])
    {
      assert sizes[1..i + 1] == sizes[1..][..i] && sizes[1..i] == sizes[1..][..i - 1];
      ProdPrefixStep(sizes[1..], i - 1);
      flattenedSize := flattenedSize * sizes[i];
    }
    rows := [];
    for i := 0 to sizes[0]
      invariant |rows| == i && 0 <= i * flattenedSize <= sizes[0] * flattenedSize
      invariant forall r :: 0 <= r < i ==> |rows[r]| == flattenedSize
      invariant Concat(rows) == X[..i * flattenedSize]
    {
      BlockFits(i, sizes[0], flattenedSize);
      var row := CopyRow(X, i * flattenedSize, sizes, dimensions, flattenedSize);
      assert (i + 1) * flattenedSize == i * flattenedSize + flattenedSize;
      assert Concat(rows + [row]) == Concat(rows) + row by {
        assert (rows + [row])[..i] == rows;
      }
      assert X[..(i + 1) * flattenedSize] == X[..i * flattenedSize] + row;
      rows := rows + [row];
    }
  }

  /** The rows laid end to end. */
  function Concat(rows: seq<seq<real>>): seq<real>
  {
    if |rows| == 0 then [] else Concat(rows[..|rows| - 1]) + rows[|rows| - 1]
  }

  /** Rows of equal width w laid end to end: row r is the slice
      [r * w, (r + 1) * w) of the whole. */
  lemma {:induction false} ConcatRow(rows: seq<seq<real>>, w: nat, r: nat)
    requires r < |rows| && forall k :: 0 <= k < |rows| ==> |rows[k]| == w
    ensures |Concat(rows)| == |rows| * w
    ensures 0 <= r * w && (r + 1) * w <= |Concat(rows)| && Concat(rows)[r * w..(r + 1) * w] == rows[r]
  {
    var n := |rows| - 1;
    var init := rows[..n];
    assert forall k :: 0 <= k < |init| ==> |init[k]| == w;
    ConcatLength(init, w);
    assert |Concat(rows)| == n * w + w == |rows| * w;
    if r < n {
      ConcatRow(init, w, r);
      BlockFits(r, n, w);
      assert Concat(rows)[r * w..(r + 1) * w] == Concat(init)[r * w..(r + 1) * w];
    } else {
      assert r * w == |Concat(init)|;
    }
  }

  lemma {:induction false} ConcatLength(rows: seq<seq<real>>, w: nat)
    requires forall k :: 0 <= k < |rows| ==> |rows[k]| == w
    ensures |Concat(rows)| == |rows| * w
  {
    if |rows| > 0 {
      var n := |rows| - 1;
      assert forall k :: 0 <= k < n ==> |rows[..n][k]| == w;
      ConcatLength(rows[..n], w);
      assert n * w + w == |rows| * w;
    }
  }

  /** One row of `to_gkov_format`: a fresh buffer of flattenedSize elements,
      filled by Flatten from X + start. */
  method CopyRow(X: seq<real>, start: nat, sizes: seq<int>, dimensions: nat, flattenedSize: nat) returns (row: seq<real>)
    requires 2 <= dimensions <= |sizes| && AllNonNegative(sizes[1..dimensions])
    requires flattenedSize == Prod(sizes[1..dimensions]) && start + flattenedSize <= |X|
    ensures row == X[start..start + flattenedSize]
  {
    var flattened := new real[flattenedSize];
    assert sizes[1..][..dimensions - 1] == sizes[1..dimensions];
    Flatten(X, start, sizes[1..], dimensions - 1, flattened, 0);
    assert flattened[..] == flattened[0..flattenedSize];
    row := flattened[..];
  }
}
