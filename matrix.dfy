/** The few Armadillo matrix operations the estimator uses (`t()`, `submat`,
    `col`), on matrices stored as sequences of rows. */
module Matrices {

  type Matrix = seq<seq<real>>

  /** `m` has `rows` rows of `cols` entries each. */
  predicate IsMatrix(m: Matrix, rows: nat, cols: nat)
  {
    |m| == rows && forall i :: 0 <= i < rows ==> |m[i]| == cols
  }

  /** Column `j` of `m`, top to bottom (`m.col(j)`). */
  function Col(m: Matrix, j: nat): (c: seq<real>)
    requires forall i :: 0 <= i < |m| ==> j < |m[i]|
    ensures |c| == |m|
    ensures forall i :: 0 <= i < |m| ==> c[i] == m[i][j]
  {
    seq(|m|, i requires 0 <= i < |m| => m[i][j])
  }

  /** The transpose (`m.t()`): entry (j, i) of the result is entry (i, j) of `m`. */
  function Transpose(m: Matrix, rows: nat, cols: nat): (r: Matrix)
    requires IsMatrix(m, rows, cols)
    ensures IsMatrix(r, cols, rows)
    ensures forall j, i :: 0 <= j < cols && 0 <= i < rows ==> r[j][i] == m[i][j]
  {
    seq(cols, j requires 0 <= j < cols => Col(m, j))
  }

  /** `m.submat(r0, c0, r1, c1)`: the block of rows r0..r1 and columns c0..c1,
      both ends included. */
  function Submat(m: Matrix, cols: nat, r0: nat, c0: nat, r1: nat, c1: nat): (r: Matrix)
    requires IsMatrix(m, |m|, cols)
    requires r0 <= r1 < |m| && c0 <= c1 < cols
    ensures IsMatrix(r, r1 - r0 + 1, c1 - c0 + 1)
    ensures forall i, j :: 0 <= i <= r1 - r0 && 0 <= j <= c1 - c0 ==> r[i][j] == m[r0 + i][c0 + j]
  {
    seq(r1 - r0 + 1, i requires 0 <= i <= r1 - r0 => m[r0 + i][c0..c1 + 1])
  }

  /** The columns of `m` as a list of points: point j is column j. */
  function Columns(m: Matrix, cols: nat): (ps: seq<seq<real>>)
    requires IsMatrix(m, |m|, cols)
    ensures |ps| == cols
    ensures forall j :: 0 <= j < cols ==> ps[j] == Col(m, j)
  {
    seq(cols, j requires 0 <= j < cols => Col(m, j))
  }

  /** The rows of a two-dimensional array, as a matrix value. */
  function Rows(a: array2<real>): (m: Matrix)
    reads a
    ensures IsMatrix(m, a.Length0, a.Length1)
    ensures forall i, j :: 0 <= i < a.Length0 && 0 <= j < a.Length1 ==> m[i][j] == a[i, j]
  {
    seq(a.Length0, i requires 0 <= i < a.Length0 reads a =>
      seq(a.Length1, j requires 0 <= j < a.Length1 reads a => a[i, j]))
  }

  /** The first entry of every row, as a one-entry row. */
  function Heads(m: Matrix): (h: Matrix)
    requires forall i :: 0 <= i < |m| ==> |m[i]| > 0
    ensures |h| == |m| && forall i :: 0 <= i < |m| ==> h[i] == m[i][..1]
  {
    seq(|m|, i requires 0 <= i < |m| => m[i][..1])
  }

  /** Every row without its first entry. */
  function Tails(m: Matrix): (t: Matrix)
    requires forall i :: 0 <= i < |m| ==> |m[i]| > 0
    ensures |t| == |m| && forall i :: 0 <= i < |m| ==> t[i] == m[i][1..]
  {
    seq(|m|, i requires 0 <= i < |m| => m[i][1..])
  }

  /** For an n x (d+1) matrix m of samples (one per row): after transposing, the
      columns of the whole matrix are the rows of m, the columns of the row-0
      block are the first entries, and the columns of the rows-1..d block are
      the remaining entries. */
  lemma SplitColumns(m: Matrix, n: nat, d: nat)
    requires n > 0 && d > 0 && IsMatrix(m, n, d + 1)
    ensures var xy := Transpose(m, n, d + 1);
            && Columns(xy, n) == m
            && Columns(Submat(xy, n, 0, 0, 0, n - 1), n) == Heads(m)
            && Columns(Submat(xy, n, 1, 0, d, n - 1), n) == Tails(m)
  {
    var xy := Transpose(m, n, d + 1);
    var xs := Submat(xy, n, 0, 0, 0, n - 1);
    var ys := Submat(xy, n, 1, 0, d, n - 1);
    forall i | 0 <= i < n ensures Columns(xy, n)[i] == m[i] {
      assert forall b :: 0 <= b < d + 1 ==> Columns(xy, n)[i][b] == m[i][b];
    }
    forall i | 0 <= i < n ensures Columns(xs, n)[i] == Heads(m)[i] {
      assert Columns(xs, n)[i][0] == m[i][0];
    }
    forall i | 0 <= i < n ensures Columns(ys, n)[i] == Tails(m)[i] {
      assert forall b :: 0 <= b < d ==> Columns(ys, n)[i][b] == m[i][b + 1];
    }
  }

  /** Two matrices of the same shape with the same entries are equal. */
  lemma MatrixEquality(a: Matrix, b: Matrix, rows: nat, cols: nat)
    requires IsMatrix(a, rows, cols) && IsMatrix(b, rows, cols)
    requires forall i, j :: 0 <= i < rows && 0 <= j < cols ==> a[i][j] == b[i][j]
    ensures a == b
  {
    forall i | 0 <= i < rows ensures a[i] == b[i] {
      assert forall j :: 0 <= j < cols ==> a[i][j] == b[i][j];
    }
  }
}
