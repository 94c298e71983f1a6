/** Specification functions over row-major storage (`seq<seq<real>>`),
    shared by both versions of the `MATRIX` class, and their properties. */
module Grids {

  /** Every unchecked read `a[k][i]` with `k < n`, `i < m` is in range:
      unless `m` is 0 (no read at all), the first `n` rows exist and each
      has at least `m` entries. */
  ghost predicate Covers(a: seq<seq<real>>, n: nat, m: nat)
  {
    m == 0 || (n <= |a| && forall r :: 0 <= r < n ==> m <= |a[r]|)
  }

  /** Every row has exactly `m` entries. */
  ghost predicate Rectangular(a: seq<seq<real>>, m: nat)
  {
    forall r :: 0 <= r < |a| ==> |a[r]| == m
  }

  /** The column count the constructors derive from a buffer: the length
      of row 0, or 0 for an empty buffer. */
  function Width(a: seq<seq<real>>): nat
  {
    if |a| == 0 then 0 else |a[0]|
  }

  /** Negative indices address from the end: `i < 0 ? n + i : i`. */
  function Resolve(i: int, n: nat): (r: int)
    ensures -(n as int) < i < n ==> 0 <= r < n
    ensures -(n as int) < i < 0 ==> r == n + i
    ensures 0 <= i ==> r == i
  {
    if i < 0 then n + i else i
  }

  /** The first `m` entries of every row. */
  function LeadingColumns(a: seq<seq<real>>, m: nat): seq<seq<real>>
    requires forall r :: 0 <= r < |a| ==> m <= |a[r]|
  {
    seq(|a|, r requires 0 <= r < |a| => a[r][..m])
  }

  /** The leading `n x m` block: entries `a[k][i]` with `k < n`, `i < m`. */
  function LeadingBlock(a: seq<seq<real>>, n: nat, m: nat): seq<seq<real>>
    requires Covers(a, n, m)
  {
    seq(n, k requires 0 <= k < n => seq(m, i requires 0 <= i < m => a[k][i]))
  }

  /** `n` rows of `m` zeros. */
  function Zeros(n: nat, m: nat): seq<seq<real>>
  {
    seq(n, _ => seq(m, _ => 0.0))
  }

  function EntrySum(a: seq<seq<real>>, b: seq<seq<real>>, n: nat, m: nat): seq<seq<real>>
    requires Covers(a, n, m) && Covers(b, n, m)
  {
    seq(n, k requires 0 <= k < n => seq(m, i requires 0 <= i < m => a[k][i] + b[k][i]))
  }

  function EntryDifference(a: seq<seq<real>>, b: seq<seq<real>>, n: nat, m: nat): seq<seq<real>>
    requires Covers(a, n, m) && Covers(b, n, m)
  {
    seq(n, k requires 0 <= k < n => seq(m, i requires 0 <= i < m => a[k][i] - b[k][i]))
  }

  function EntryScaled(a: seq<seq<real>>, s: real, n: nat, m: nat): seq<seq<real>>
    requires Covers(a, n, m)
  {
    seq(n, k requires 0 <= k < n => seq(m, i requires 0 <= i < m => a[k][i] * s))
  }

  /** The `m x n` transpose of the leading `n x m` block of `a`. */
  function Transposed(a: seq<seq<real>>, n: nat, m: nat): seq<seq<real>>
    requires Covers(a, n, m)
  {
    seq(m, i requires 0 <= i < m => seq(n, k requires 0 <= k < n => a[k][i]))
  }

  /** Entries `a[0][c] .. a[n-1][c]`. */
  function Column(a: seq<seq<real>>, c: nat, n: nat): seq<real>
    requires Covers(a, n, c + 1)
  {
    seq(n, r requires 0 <= r < n => a[r][c])
  }

  /** `n x n` identity. */
  function Identity(n: nat): seq<seq<real>>
  {
    seq(n, k => seq(n, i => if k == i then 1.0 else 0.0))
  }

  // ---------------------------------------------------------------------
  // The loop of `operator*(const MATRIX&)` as written
  // ---------------------------------------------------------------------

  /** What the innermost loop accumulates into `C[k][i]` after `j` steps of
      `C[k][i] += A[k][i] * B[j][k]`. */
  function LoopSum(a: seq<seq<real>>, b: seq<seq<real>>, k: nat, i: nat, j: nat): real
    requires k < |a| && i < |a[k]| && Covers(b, j, k + 1)
  {
    if j == 0 then 0.0 else LoopSum(a, b, k, i, j - 1) + a[k][i] * b[j - 1][k]
  }

  /** Whether every access the loop makes is in range: the reads of `A`
      and `B` and the writes to the `nA x mB` result. */
  ghost predicate LoopInRange(a: seq<seq<real>>, b: seq<seq<real>>, nA: nat, mA: nat, nB: nat, mB: nat)
  {
    Covers(a, nA, mA) && (nA == 0 || mA == 0 || nB == 0 || (mA <= mB && Covers(b, nB, nA)))
  }

  /** The `nA x mB` matrix the loop leaves behind. */
  function LoopProduct(a: seq<seq<real>>, b: seq<seq<real>>, nA: nat, mA: nat, nB: nat, mB: nat): seq<seq<real>>
    requires LoopInRange(a, b, nA, mA, nB, mB)
  {
    seq(nA, k requires 0 <= k < nA =>
      seq(mB, i requires 0 <= i < mB =>
        if i < mA && nB > 0 then LoopSum(a, b, k, i, nB) else 0.0))
  }

  // ---------------------------------------------------------------------
  // The matrix product the header promises
  // ---------------------------------------------------------------------

  /** `a[k][0]*b[0][i] + ... + a[k][j-1]*b[j-1][i]`. */
  function RowTimesColumn(a: seq<seq<real>>, b: seq<seq<real>>, k: nat, i: nat, j: nat): real
    requires (j == 0 || (k < |a| && j <= |a[k]|)) && Covers(b, j, i + 1)
  {
    if j == 0 then 0.0 else RowTimesColumn(a, b, k, i, j - 1) + a[k][j - 1] * b[j - 1][i]
  }

  /** The standard `n x m` product of an `n x p` and a `p x m` matrix. */
  function Product(a: seq<seq<real>>, b: seq<seq<real>>, n: nat, p: nat, m: nat): seq<seq<real>>
    requires Covers(a, n, p) && Covers(b, p, m)
  {
    seq(n, k requires 0 <= k < n =>
      seq(m, i requires 0 <= i < m => RowTimesColumn(a, b, k, i, p)))
  }

  // ---------------------------------------------------------------------
  // Properties
  // ---------------------------------------------------------------------

  /** Two `n x m` grids with the same entries are equal. */
  lemma SameEntries(x: seq<seq<real>>, y: seq<seq<real>>, n: nat, m: nat)
    requires |x| == |y| == n && Rectangular(x, m) && Rectangular(y, m)
    requires forall k, i :: 0 <= k < n && 0 <= i < m ==> x[k][i] == y[k][i]
    ensures x == y
  {
    forall k | 0 <= k < n
      ensures x[k] == y[k]
    {
    }
  }

  /** Index `i` and index `i - n` address the same row or column. */
  lemma ResolveWrapsAround(i: int, n: nat)
    requires 0 <= i < n
    ensures Resolve(i - n, n) == Resolve(i, n) == i
  {
  }

  /** Entry-wise `-` undoes entry-wise `+`. */
  lemma EntryDifferenceUndoesSum(a: seq<seq<real>>, b: seq<seq<real>>, n: nat, m: nat)
    requires Covers(a, n, m) && Covers(b, n, m)
    ensures Covers(EntrySum(a, b, n, m), n, m)
    ensures EntryDifference(EntrySum(a, b, n, m), b, n, m) == LeadingBlock(a, n, m)
  {
    SameEntries(EntryDifference(EntrySum(a, b, n, m), b, n, m), LeadingBlock(a, n, m), n, m);
  }

  /** Entry-wise `+` is commutative. */
  lemma EntrySumCommutes(a: seq<seq<real>>, b: seq<seq<real>>, n: nat, m: nat)
    requires Covers(a, n, m) && Covers(b, n, m)
    ensures EntrySum(a, b, n, m) == EntrySum(b, a, n, m)
  {
    SameEntries(EntrySum(a, b, n, m), EntrySum(b, a, n, m), n, m);
  }

  /** The write `C[k][i]` of the transpose loop lands inside the `m x n`
      result, and its read `A[i][k]` inside the `n x m` matrix. */
  ghost predicate TransposeStepInRange(n: nat, m: nat, k: nat, i: nat)
  {
    k < m && i < n
  }

  /** Every step of the transpose loop, with `k` below the row count `n`
      and `i` below the column count `m`, is in range. */
  ghost predicate TransposeLoopInRange(n: nat, m: nat)
  {
    forall k: nat, i: nat :: k < n && i < m ==> TransposeStepInRange(n, m, k, i)
  }

  /** The transpose loop stays in range exactly for square and empty
      matrices; a `1 x 2` row already writes `C[0][1]` into a `2 x 1`
      result. */
  lemma TransposeLoopInRangeIffSquare(n: nat, m: nat)
    ensures TransposeLoopInRange(n, m) <==> (n == m || n == 0 || m == 0)
    ensures !TransposeLoopInRange(1, 2)
  {
    if n < m && n > 0 {
      assert !TransposeStepInRange(n, m, 0, n);
    } else if m < n && m > 0 {
      assert !TransposeStepInRange(n, m, m, 0);
    }
    assert !TransposeStepInRange(1, 2, 0, 1);
  }

  /** Transposing twice gives back the leading block. */
  lemma TransposeInvolution(a: seq<seq<real>>, n: nat, m: nat)
    requires Covers(a, n, m)
    ensures Covers(Transposed(a, n, m), m, n)
    ensures Transposed(Transposed(a, n, m), m, n) == LeadingBlock(a, n, m)
  {
    var t := Transposed(a, n, m);
    var tt := Transposed(t, m, n);
    forall k | 0 <= k < n
      ensures tt[k] == LeadingBlock(a, n, m)[k]
    {
      assert forall i :: 0 <= i < m ==> tt[k][i] == t[i][k] == a[k][i];
    }
  }

  /** Column `c` of `a` is row `c` of the transpose. */
  lemma ColumnIsTransposedRow(a: seq<seq<real>>, n: nat, m: nat, c: nat)
    requires Covers(a, n, m) && c < m
    ensures Column(a, c, n) == Transposed(a, n, m)[c]
  {
  }

  /** The 2x2 matrix `[[1,2],[3,4]]`. */
  function SampleMatrix(): seq<seq<real>>
  {
    [[1.0, 2.0], [3.0, 4.0]]
  }

  /** With `A` the 2x2 identity and `B = [[1,2],[3,4]]` the loop leaves
      `[[4,0],[0,6]]`. */
  lemma LoopProductOnSample()
    ensures LoopInRange(Identity(2), SampleMatrix(), 2, 2, 2, 2)
    ensures LoopProduct(Identity(2), SampleMatrix(), 2, 2, 2, 2) == [[4.0, 0.0], [0.0, 6.0]]
  {
    var a, b := Identity(2), SampleMatrix();
    assert a[0] == [1.0, 0.0] && a[1] == [0.0, 1.0];
    LoopSumFactors(a, b, 0, 0, 2);
    LoopSumFactors(a, b, 0, 1, 2);
    LoopSumFactors(a, b, 1, 0, 2);
    LoopSumFactors(a, b, 1, 1, 2);
    SameEntries(LoopProduct(a, b, 2, 2, 2, 2), [[4.0, 0.0], [0.0, 6.0]], 2, 2);
  }

  /** The product of the 2x2 identity and `B = [[1,2],[3,4]]` is `B`. */
  lemma ProductOnSample()
    ensures Covers(Identity(2), 2, 2) && Covers(SampleMatrix(), 2, 2)
    ensures Product(Identity(2), SampleMatrix(), 2, 2, 2) == SampleMatrix()
  {
    var b := SampleMatrix();
    ProductLeftIdentity(b, 2, 2);
    SameEntries(LeadingBlock(b, 2, 2), b, 2, 2);
  }

  /** The loop does not compute the matrix product: on the identity and
      `B = [[1,2],[3,4]]` it leaves `[[4,0],[0,6]]`, while the product is
      `B`. */
  lemma LoopProductIsNotProduct()
    ensures LoopInRange(Identity(2), SampleMatrix(), 2, 2, 2, 2)
    ensures Covers(Identity(2), 2, 2) && Covers(SampleMatrix(), 2, 2)
    ensures LoopProduct(Identity(2), SampleMatrix(), 2, 2, 2, 2) != Product(Identity(2), SampleMatrix(), 2, 2, 2)
  {
    LoopProductOnSample();
    ProductOnSample();
    assert [[4.0, 0.0], [0.0, 6.0]][0][0] != SampleMatrix()[0][0];
  }

  /** Each entry of the loop's result is `A[k][i]` times the sum of column
      `k` of `B`: the loop scales `A` entry-wise instead of multiplying. */
  lemma {:induction false} LoopSumFactors(a: seq<seq<real>>, b: seq<seq<real>>, k: nat, i: nat, j: nat)
    requires k < |a| && i < |a[k]| && Covers(b, j, k + 1)
    ensures LoopSum(a, b, k, i, j) == a[k][i] * ColumnSum(b, k, j)
  {
    if j > 0 {
      LoopSumFactors(a, b, k, i, j - 1);
      assert a[k][i] * ColumnSum(b, k, j - 1) + a[k][i] * b[j - 1][k]
          == a[k][i] * (ColumnSum(b, k, j - 1) + b[j - 1][k]);
    }
  }

  /** `b[0][c] + ... + b[j-1][c]`. */
  function ColumnSum(b: seq<seq<real>>, c: nat, j: nat): real
    requires Covers(b, j, c + 1)
  {
    if j == 0 then 0.0 else ColumnSum(b, c, j - 1) + b[j - 1][c]
  }

  /** Only the `k`-th term of a row of the identity survives. */
  lemma {:induction false} IdentityRowTimesColumn(b: seq<seq<real>>, n: nat, k: nat, i: nat, j: nat)
    requires k < n && j <= n && Covers(b, n, i + 1)
    ensures RowTimesColumn(Identity(n), b, k, i, j) == if k < j then b[k][i] else 0.0
  {
    if j > 0 {
      IdentityRowTimesColumn(b, n, k, i, j - 1);
    }
  }

  /** The corrected product has the identity as a left unit. */
  lemma ProductLeftIdentity(b: seq<seq<real>>, n: nat, m: nat)
    requires Covers(b, n, m)
    ensures Product(Identity(n), b, n, n, m) == LeadingBlock(b, n, m)
  {
    forall k, i | 0 <= k < n && 0 <= i < m
      ensures Product(Identity(n), b, n, n, m)[k][i] == b[k][i]
    {
      IdentityRowTimesColumn(b, n, k, i, n);
    }
    SameEntries(Product(Identity(n), b, n, n, m), LeadingBlock(b, n, m), n, m);
  }

  /** Only the `i`-th term of a column of the identity survives. */
  lemma {:induction false} RowTimesIdentityColumn(a: seq<seq<real>>, n: nat, k: nat, i: nat, j: nat)
    requires k < |a| && i < n && j <= n && n <= |a[k]|
    ensures Covers(Identity(n), j, i + 1)
    ensures RowTimesColumn(a, Identity(n), k, i, j) == if i < j then a[k][i] else 0.0
  {
    if j > 0 {
      RowTimesIdentityColumn(a, n, k, i, j - 1);
    }
  }

  /** The corrected product has the identity as a right unit. */
  lemma ProductRightIdentity(a: seq<seq<real>>, n: nat, m: nat)
    requires Covers(a, n, m)
    ensures Product(a, Identity(m), n, m, m) == LeadingBlock(a, n, m)
  {
    forall k, i | 0 <= k < n && 0 <= i < m
      ensures Product(a, Identity(m), n, m, m)[k][i] == a[k][i]
    {
      RowTimesIdentityColumn(a, m, k, i, m);
    }
    SameEntries(Product(a, Identity(m), n, m, m), LeadingBlock(a, n, m), n, m);
  }

  /** Transposition reverses a product: `(AB)^T = B^T A^T`. */
  lemma {:induction false} RowTimesColumnTransposed(a: seq<seq<real>>, b: seq<seq<real>>, n: nat, p: nat, m: nat, k: nat, i: nat, j: nat)
    requires Covers(a, n, p) && Covers(b, p, m) && k < n && i < m && j <= p
    ensures Covers(Transposed(b, p, m), m, p) && Covers(Transposed(a, n, p), p, n)
    ensures RowTimesColumn(Transposed(b, p, m), Transposed(a, n, p), i, k, j) == RowTimesColumn(a, b, k, i, j)
  {
    if j > 0 {
      RowTimesColumnTransposed(a, b, n, p, m, k, i, j - 1);
      var bt, at := Transposed(b, p, m), Transposed(a, n, p);
      assert bt[i][j - 1] * at[j - 1][k] == a[k][j - 1] * b[j - 1][i];
    }
  }

  lemma ProductTransposed(a: seq<seq<real>>, b: seq<seq<real>>, n: nat, p: nat, m: nat)
    requires Covers(a, n, p) && Covers(b, p, m)
    ensures Covers(Product(a, b, n, p, m), n, m)
    ensures Covers(Transposed(b, p, m), m, p) && Covers(Transposed(a, n, p), p, n)
    ensures Transposed(Product(a, b, n, p, m), n, m) == Product(Transposed(b, p, m), Transposed(a, n, p), m, p, n)
  {
    forall i, k | 0 <= i < m && 0 <= k < n
      ensures Transposed(Product(a, b, n, p, m), n, m)[i][k]
           == Product(Transposed(b, p, m), Transposed(a, n, p), m, p, n)[i][k]
    {
      RowTimesColumnTransposed(a, b, n, p, m, k, i, p);
    }
    SameEntries(Transposed(Product(a, b, n, p, m), n, m),
                Product(Transposed(b, p, m), Transposed(a, n, p), m, p, n), m, n);
  }
}
