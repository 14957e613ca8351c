/** The array and string helpers of src/utils.cpp: row views for the GKOV
    estimator, the distribution of a discrete input, and the trace file name. */
module Utils {
  import opened Arith
  import opened Hist

  /** Product of the sizes of every dimension after the first: the length of
      one row once the first dimension is kept and the rest flattened. */
  function FlattenedSize(sizes: seq<int>, dimensions: int): int
    requires dimensions <= |sizes|
  {
    if dimensions <= 1 then 1 else Prod(sizes[1..dimensions])
  }

  /** `to_gkov_format`: row i is a view of X starting at element
      i * flattenedSize (an offset into X); no data is copied. */
  method ToGkovFormat(X: seq<real>, sizes: seq<int>, dimensions: int) returns (rows: array<int>)
    requires 1 <= |sizes| && dimensions <= |sizes| && sizes[0] >= 0
    ensures fresh(rows) && rows.Length == sizes[0]
    ensures forall i :: 0 <= i < rows.Length ==> rows[i] == i * FlattenedSize(sizes, dimensions)
  {
    rows := new int[sizes[0]];
    var flattenedSize := 1;
    var i := 1;
    assert sizes[1..1] == [];
    while i < dimensions
      invariant 1 <= i <= |sizes| && (dimensions >= 1 ==> i <= dimensions) && (dimensions <= 1 ==> i == 1)
      invariant flattenedSize == Prod(sizes[1..i])
    {
      assert sizes[1..i + 1] == sizes[1..][..i];
      assert sizes[1..i] == sizes[1..][..i - 1];
      ProdPrefixStep(sizes[1..], i - 1);
      flattenedSize := flattenedSize * sizes[i];
      i := i + 1;
    }
    assert flattenedSize == FlattenedSize(sizes, dimensions);
    for r := 0 to sizes[0]
      invariant forall k :: 0 <= k < r ==> rows[k] == k * flattenedSize
    {
      rows[r] := r * flattenedSize;
    }
  }

  /** The row views tile X[0 .. rows * width): each position belongs to the
      row k / width, and to no other, and the rows end where the whole
      multi-dimensional array ends. */
  lemma RowsTile(sizes: seq<int>, dimensions: int, k: int)
    requires 1 <= dimensions <= |sizes| && AllPositive(sizes[..dimensions])
    requires 0 <= k < sizes[0] * FlattenedSize(sizes, dimensions)
    ensures sizes[0] * FlattenedSize(sizes, dimensions) == Prod(sizes[..dimensions])
    ensures var w := FlattenedSize(sizes, dimensions);
            && 0 <= k / w < sizes[0] && (k / w) * w <= k < (k / w) * w + w
            && forall i :: 0 <= i < sizes[0] && i * w <= k < i * w + w ==> i == k / w
  {
    var w := FlattenedSize(sizes, dimensions);
    var s := sizes[..dimensions];
    ProdCons(s);
    assert s[1..] == sizes[1..dimensions];
    if dimensions <= 1 {
      assert s[1..] == [];
    }
    ProdPositive(s[1..]);
    assert w > 0;
    DivMulBounds(k, w, sizes[0]);
  }

  /** k / w is the only block of width w that contains k. */
  lemma DivMulBounds(k: int, w: int, n: int)
    requires w > 0 && 0 <= k < n * w
    ensures 0 <= k / w < n && (k / w) * w <= k < (k / w) * w + w
    ensures forall i :: 0 <= i < n && i * w <= k < i * w + w ==> i == k / w
  {
    var q := k / w;
    assert q * w <= k < q * w + w;
    MulLtCancel(-1, q, w);
    MulLtCancel(q, n, w);
    forall i | 0 <= i < n && i * w <= k < i * w + w ensures i == q {
      BlockUnique(i, q, w, k);
    }
  }

  /** Two blocks of width w that both contain k are the same block. */
  lemma BlockUnique(i: int, j: int, w: int, k: int)
    requires w > 0 && i * w <= k < i * w + w && j * w <= k < j * w + w
    ensures i == j
  {
    assert (i + 1) * w == i * w + w && (j + 1) * w == j * w + w;
    MulLtCancel(i, j + 1, w);
    MulLtCancel(j, i + 1, w);
  }


  /** The discrete input truncated to integers, as `(int) X[k]` does. */
  function Truncated(X: seq<real>, n: nat): (t: seq<int>)
    requires n <= |X|
    ensures |t| == n
  {
    seq(n, k requires 0 <= k < n => Trunc(X[k]))
  }

  /** `compute_distribution`: the counts of each truncated value among the
      first n = Π sizes inputs, each divided by n. The counts sum to n, so the
      distribution is the probability mass function of the tally. */
  method ComputeDistribution(X: seq<real>, sizes: seq<int>, dimensions: nat) returns (distribution: array<real>)
    requires dimensions <= |sizes| && Prod(sizes[..dimensions]) >= 0 && Prod(sizes[..dimensions]) <= |X|
    requires InBounds(Truncated(X, Prod(sizes[..dimensions])), Prod(sizes[..dimensions]))
    ensures fresh(distribution) && distribution.Length == Prod(sizes[..dimensions])
    ensures forall v :: 0 <= v < distribution.Length ==>
              distribution[v] == multiset(Truncated(X, distribution.Length))[v] as real / distribution.Length as real
  {
    var flattenedSize := 1;
    for i := 0 to dimensions
      invariant flattenedSize == Prod(sizes[..i])
    {
      ProdPrefixStep(sizes, i);
      flattenedSize := flattenedSize * sizes[i];
    }
    var n := flattenedSize;
    ghost var t := Truncated(X, n);
    distribution := new real[n];
    for i := 0 to n
      invariant forall b :: 0 <= b < i ==> distribution[b] == 0.0
    {
      distribution[i] := 0.0;
    }
    CountOccurrences(distribution, X);
    Normalize(distribution, t);
  }

  /** The counting loop of `compute_distribution`: one increment at
      (int) X[i] for every i below the length of the counts. */
  method CountOccurrences(counts: array<real>, X: seq<real>)
    requires counts.Length <= |X| && InBounds(Truncated(X, counts.Length), counts.Length)
    requires forall b :: 0 <= b < counts.Length ==> counts[b] == 0.0
    modifies counts
    ensures forall b :: 0 <= b < counts.Length ==> counts[b] == multiset(Truncated(X, counts.Length))[b] as real
  {
    ghost var t := Truncated(X, counts.Length);
    for i := 0 to counts.Length
      invariant forall b :: 0 <= b < counts.Length ==> counts[b] == multiset(t[..i])[b] as real
    {
      assert t[..i + 1] == t[..i] + [t[i]];
      counts[Trunc(X[i])] := counts[Trunc(X[i])] + 1.0;
    }
    assert t[..counts.Length] == t;
  }

  /** The dividing loop of `compute_distribution`: every count is divided
      by the number of inputs. */
  method Normalize(distribution: array<real>, ghost t: seq<int>)
    requires forall b :: 0 <= b < distribution.Length ==> distribution[b] == multiset(t)[b] as real
    modifies distribution
    ensures forall b :: 0 <= b < distribution.Length ==>
              distribution[b] == multiset(t)[b] as real / distribution.Length as real
  {
    var n := distribution.Length;
    for i := 0 to n
      invariant forall b :: 0 <= b < i ==> distribution[b] == multiset(t)[b] as real / n as real
      invariant forall b :: i <= b < n ==> distribution[b] == multiset(t)[b] as real
    {
      distribution[i] := distribution[i] / n as real;
    }
  }

  /** Whenever the input is not empty, the counts sum to n, so the
      distribution is the probability mass function of the tally and sums
      to 1. */
  lemma DistributionSumsToOne(X: seq<real>, n: nat)
    requires 0 < n <= |X| && InBounds(Truncated(X, n), n)
    ensures Sum(Tally(Truncated(X, n), n)) == n
    ensures forall v :: 0 <= v < n ==>
              Pdf(Tally(Truncated(X, n), n))[v] == multiset(Truncated(X, n))[v] as real / n as real
    ensures SumR(Pdf(Tally(Truncated(X, n), n))) == 1.0
  {
    TallyTotal(Truncated(X, n), n);
    PdfSumsToOne(Tally(Truncated(X, n), n));
  }

  const TRACES_DIRECTORY := "../data/traces/"
  const TRACES_SUFFIX := "_traces.h5"
  const FILENAME_BUFFER := 100
  const UINT32_MODULUS := 0x1_0000_0000

  /** The character of a decimal digit. */
  function Digit(d: int): char
    requires 0 <= d < 10
  {
    "0123456789"[d]
  }

  /** `std::to_string` of a non-negative integer: its decimal digits, most
      significant first, with no leading zero. */
  function Decimal(n: nat): (s: seq<char>)
    ensures |s| >= 1
    decreases n
  {
    if n < 10 then [Digit(n)] else Decimal(n / 10) + [Digit(n % 10)]
  }

  /** The name of the trace file of n_trc traces. */
  function Filename(nTrc: nat): string
  {
    TRACES_DIRECTORY + Decimal(nTrc) + TRACES_SUFFIX
  }

  /** A uint32 has at most ten decimal digits. */
  lemma {:induction false} DecimalLength(n: nat, k: nat)
    requires n < Pow10(k) && k >= 1
    ensures |Decimal(n)| <= k
    decreases k
  {
    assert Pow10(1) == 10;
    if n >= 10 {
      assert n / 10 < Pow10(k - 1);
      DecimalLength(n / 10, k - 1);
    }
  }

  function Pow10(k: nat): nat
  {
    if k == 0 then 1 else 10 * Pow10(k - 1)
  }

  /** Different numbers have different decimal forms. */
  lemma {:induction false} DecimalInjective(a: nat, b: nat)
    requires Decimal(a) == Decimal(b)
    ensures a == b
    decreases a
  {
    var da, db := Decimal(a), Decimal(b);
    DecimalSingle(a);
    DecimalSingle(b);
    if a < 10 {
      assert da[0] == Digit(a) && db[0] == Digit(b);
    } else {
      var n := |da| - 1;
      assert da[..n] == Decimal(a / 10) && db[..n] == Decimal(b / 10);
      assert da[n] == Digit(a % 10) && db[n] == Digit(b % 10);
      DecimalInjective(a / 10, b / 10);
    }
  }

  /** Exactly the numbers below ten have one digit. */
  lemma DecimalSingle(n: nat)
    ensures |Decimal(n)| == 1 <==> n < 10
  {
    if n >= 10 {
      assert |Decimal(n / 10)| >= 1;
    }
  }

  /** The file name of a uint32 count, with its terminating NUL, fits the
      100-character buffer, and distinct counts name distinct files. */
  lemma FilenameFits(a: nat, b: nat)
    requires a < UINT32_MODULUS && b < UINT32_MODULUS
    ensures |Filename(a)| <= 35 && |Filename(a)| + 1 <= FILENAME_BUFFER
    ensures Filename(a) == Filename(b) ==> a == b
  {
    assert Pow10(10) == 10000000000;
    DecimalLength(a, 10);
    if Filename(a) == Filename(b) {
      DecimalLength(b, 10);
      var da, db := Decimal(a), Decimal(b);
      assert |da| == |db|;
      assert da == Filename(a)[15..15 + |da|];
      assert db == Filename(b)[15..15 + |db|];
      DecimalInjective(a, b);
    }
  }

  /** `strcpy`/`strcat` into a character buffer holding a NUL-terminated
      string of `len` characters: s is copied from position len on, and the
      terminator moves behind it. */
  method Append(buffer: array<char>, len: nat, s: string) returns (newLen: nat)
    requires len + |s| < buffer.Length
    modifies buffer
    ensures newLen == len + |s|
    ensures buffer[..newLen] == old(buffer[..len]) + s && buffer[newLen] == '\0'
  {
    for k := 0 to |s|
      invariant buffer[..len] == old(buffer[..len])
      invariant forall m :: 0 <= m < k ==> buffer[len + m] == s[m]
    {
      buffer[len + k] := s[k];
    }
    newLen := len + |s|;
    buffer[newLen] := '\0';
    assert buffer[..newLen] == buffer[..len] + s;
  }

  /** `generate_filename`: the directory, the decimal count and the suffix,
      concatenated in a 100-character buffer. */
  method GenerateFilename(nTrc: nat) returns (filename: string)
    requires nTrc < UINT32_MODULUS
    ensures filename == Filename(nTrc) && |filename| < FILENAME_BUFFER
  {
    FilenameFits(nTrc, nTrc);
    var buffer := new char[FILENAME_BUFFER];
    var len := Append(buffer, 0, TRACES_DIRECTORY);
    len := Append(buffer, len, Decimal(nTrc));
    len := Append(buffer, len, TRACES_SUFFIX);
    filename := buffer[..len];
  }
}
