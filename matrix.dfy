/** The `MATRIX` class of src/matrix.cpp: row-major storage together with
    cached row and column counts. The arithmetic operators, the transpose
    and the column accessors loop over the cached counts, not over the
    storage, so the model keeps both and states every access the loops
    make as a precondition. */
module Matrices {
  import opened Results
  import opened Vectors
  import opened Grids

  class Matrix {
    /** `m_components`: the rows. */
    var components: seq<seq<real>>
    /** `row_count` and `column_count`: cached when constructed. */
    var rowCount: nat
    var columnCount: nat

    /** The cached counts describe the storage: `rowCount` rows of
        `columnCount` entries each. */
    ghost predicate Valid()
      reads this
      ensures Valid() ==> Covers(components, rowCount, columnCount)
    {
      rowCount == |components| && Rectangular(components, columnCount)
    }

    /** Both buffer constructors (copying and moving): the counts come
        from the buffer's length and the length of its first row. */
    constructor FromBuffer(buffer: seq<seq<real>>)
      ensures components == buffer
      ensures rowCount == |buffer| && columnCount == Width(buffer)
      ensures Valid() <==> Rectangular(buffer, Width(buffer))
    {
      components := buffer;
      rowCount := |buffer|;
      columnCount := Width(buffer);
    }

    /** The copy constructor: `other.rowCount` rows as wide as `other`'s
        first stored row, with `other`'s leading `rowCount x columnCount`
        block copied in and zeros elsewhere; the counts are taken from
        the new storage. */
    constructor Copy(other: Matrix)
      requires other.rowCount == 0 || |other.components| > 0
      requires Covers(other.components, other.rowCount, other.columnCount)
      ensures Valid()
      ensures rowCount == other.rowCount
      ensures columnCount == if other.rowCount == 0 then 0 else |other.components[0]|
      ensures forall i, j :: 0 <= i < rowCount && 0 <= j < columnCount ==>
        components[i][j] == if j < other.columnCount then other.components[i][j] else 0.0
      ensures other.Valid() ==> components == other.components
      ensures other.Valid() && other.rowCount > 0 ==> columnCount == other.columnCount
    {
      var n := other.rowCount;
      var width := if n == 0 then 0 else |other.components[0]|;
      var c := Zeros(n, width);
      var i := 0;
      while i < n
        invariant 0 <= i <= n
        invariant |c| == n && Rectangular(c, width)
        invariant forall r, j :: 0 <= r < n && 0 <= j < width ==>
          c[r][j] == if r < i && j < other.columnCount then other.components[r][j] else 0.0
      {
        var j := 0;
        while j < other.columnCount
          invariant 0 <= j <= other.columnCount
          invariant |c| == n && Rectangular(c, width)
          invariant forall r, j' :: 0 <= r < n && 0 <= j' < width ==>
            c[r][j'] == if (r < i || (r == i && j' < j)) && j' < other.columnCount then other.components[r][j'] else 0.0
        {
          c := c[i := c[i][j := other.components[i][j]]];
          j := j + 1;
        }
        i := i + 1;
      }
      components := c;
      rowCount := n;
      columnCount := width;
      new;
      if other.Valid() {
        SameEntries(components, other.components, n, width);
      }
    }

    /** Copy assignment: a no-op on self-assignment; otherwise the storage
        is resized to `other`'s row count and each row to the length of
        `other`'s first row, then filled from `other`. The cached counts
        are left as they were, so they describe the new storage only when
        the shape did not change. */
    method Assign(other: Matrix)
      requires this != other ==> forall r :: 0 <= r < |other.components| ==> Width(other.components) <= |other.components[r]|
      modifies this
      ensures rowCount == old(rowCount) && columnCount == old(columnCount)
      ensures this == other ==> components == old(components)
      ensures this != other ==> components == LeadingColumns(other.components, Width(other.components))
      ensures this != other && Rectangular(other.components, Width(other.components)) ==> components == other.components
      ensures this != other ==>
        (Valid() <==> rowCount == |other.components| && (rowCount > 0 ==> columnCount == Width(other.components)))
    {
      if this == other {
        return;
      }
      var n := |other.components|;
      var m := Width(other.components);
      var c := if n <= |components| then components[..n] else components + seq(n - |components|, _ => []);
      var i := 0;
      while i < n
        invariant 0 <= i <= n && |c| == n
        invariant forall r :: 0 <= r < i ==> c[r] == other.components[r][..m]
      {
        var row := Resized(c[i], m);
        var j := 0;
        while j < m
          invariant 0 <= j <= m && |row| == m
          invariant row[..j] == other.components[i][..j]
        {
          row := row[j := other.components[i][j]];
          j := j + 1;
        }
        c := c[i := row];
        i := i + 1;
      }
      components := c;
      if Rectangular(other.components, m) {
        assert forall r :: 0 <= r < n ==> other.components[r][..m] == other.components[r];
      }
    }

    /** `get_row` and `get_row_const`: a fresh vector holding a copy of
        the row at `rowIndex`, counted from the end when negative; the
        index must be smaller in magnitude than the number of stored
        rows. */
    method GetRow(rowIndex: int) returns (r: Result<Vector>)
      ensures r.Ok? <==> -|components| < rowIndex < |components|
      ensures r.Err? ==> r.error == MinusOne
      ensures r.Ok? ==> fresh(r.value) && r.value.components == components[Resolve(rowIndex, |components|)]
    {
      var n := |components|;
      if !(-n < rowIndex < n) {
        return Err(MinusOne);
      }
      var v := new Vector.FromBuffer(components[Resolve(rowIndex, n)]);
      return Ok(v);
    }

    /** `get_column`: a fresh vector of the `rowCount` entries of the
        column at `index`, counted from the end when negative; the index
        must be smaller in magnitude than `columnCount`. The rows are read
        without range checks. */
    method GetColumn(index: int) returns (r: Result<Vector>)
      requires -(columnCount as int) < index < columnCount ==> Covers(components, rowCount, Resolve(index, columnCount) + 1)
      ensures r.Ok? <==> -(columnCount as int) < index < columnCount
      ensures r.Err? ==> r.error == MinusOne
      ensures r.Ok? ==> fresh(r.value) && r.value.components == Column(components, Resolve(index, columnCount), rowCount)
    {
      var m, n := columnCount, rowCount;
      if !(-(m as int) < index < m) {
        return Err(MinusOne);
      }
      var col := Resolve(index, m);
      var result := seq(n, _ => 0.0);
      var i := 0;
      while i < n
        invariant 0 <= i <= n && |result| == n
        invariant forall r :: 0 <= r < i ==> result[r] == components[r][col]
      {
        result := result[i := components[i][col]];
        i := i + 1;
      }
      var v := new Vector.FromBuffer(result);
      return Ok(v);
    }

    /** `get_column_const`: as `get_column`, but the rows are read with
        range checks, so a short or missing row fails with `out_of_range`
        instead of being read out of bounds. */
    method GetColumnConst(index: int) returns (r: Result<Vector>)
      ensures !(-(columnCount as int) < index < columnCount) ==> r == Err(MinusOne)
      ensures -(columnCount as int) < index < columnCount ==>
        (r.Ok? <==> Covers(components, rowCount, Resolve(index, columnCount) + 1))
      ensures -(columnCount as int) < index < columnCount && r.Err? ==> r.error == OutOfRange
      ensures r.Ok? ==> fresh(r.value) && r.value.components == Column(components, Resolve(index, columnCount), rowCount)
    {
      var m, n := columnCount, rowCount;
      if !(-(m as int) < index < m) {
        return Err(MinusOne);
      }
      var col := Resolve(index, m);
      var result := seq(n, _ => 0.0);
      var i := 0;
      while i < n
        invariant 0 <= i <= n && |result| == n
        invariant i <= |components|
        invariant forall k :: 0 <= k < i ==> col < |components[k]| && result[k] == components[k][col]
      {
        if i >= |components| || col >= |components[i]| {
          return Err(OutOfRange);
        }
        result := result[i := components[i][col]];
        i := i + 1;
      }
      var v := new Vector.FromBuffer(result);
      return Ok(v);
    }

    /** `operator*(const MATRIX&)`: fails when the column count of this
        matrix differs from the row count of `other`; otherwise runs the
        triple loop as written, whose result is `LoopProduct` (not the
        matrix product, see `Grids.LoopProductIsNotProduct`). */
    method Multiply(other: Matrix) returns (r: Result<Matrix>)
      requires columnCount == other.rowCount ==>
        LoopInRange(components, other.components, rowCount, columnCount, other.rowCount, other.columnCount)
      ensures r.Err? <==> columnCount != other.rowCount
      ensures r.Err? ==> r.error == MinusOne
      ensures r.Ok? ==> fresh(r.value) && r.value.Valid()
      ensures r.Ok? ==> r.value.rowCount == rowCount && r.value.columnCount == (if rowCount == 0 then 0 else other.columnCount)
      ensures r.Ok? ==> r.value.components == LoopProduct(components, other.components, rowCount, columnCount, other.rowCount, other.columnCount)
    {
      var nA, mA, nB, mB := rowCount, columnCount, other.rowCount, other.columnCount;
      if mA != nB {
        return Err(MinusOne);
      }
      var c := Zeros(nA, mB);
      var k := 0;
      while k < nA
        invariant 0 <= k <= nA
        invariant |c| == nA && Rectangular(c, mB)
        invariant forall r, i :: 0 <= r < nA && 0 <= i < mB ==>
          c[r][i] == if r < k && i < mA && nB > 0 then LoopSum(components, other.components, r, i, nB) else 0.0
      {
        var i := 0;
        while i < mA
          invariant 0 <= i <= mA
          invariant |c| == nA && Rectangular(c, mB)
          invariant forall r, i' :: 0 <= r < nA && 0 <= i' < mB ==>
            c[r][i'] == if (r < k || (r == k && i' < i)) && i' < mA && nB > 0 then LoopSum(components, other.components, r, i', nB) else 0.0
        {
          var j := 0;
          while j < nB
            invariant 0 <= j <= nB
            invariant |c| == nA && Rectangular(c, mB)
            invariant c[k][i] == LoopSum(components, other.components, k, i, j)
            invariant forall r, i' :: 0 <= r < nA && 0 <= i' < mB && (r != k || i' != i) ==>
              c[r][i'] == if (r < k || (r == k && i' < i)) && i' < mA && nB > 0 then LoopSum(components, other.components, r, i', nB) else 0.0
          {
            c := c[k := c[k][i := c[k][i] + components[k][i] * other.components[j][k]]];
            j := j + 1;
          }
          i := i + 1;
        }
        k := k + 1;
      }
      SameEntries(c, LoopProduct(components, other.components, nA, mA, nB, mB), nA, mB);
      var product := new Matrix.FromBuffer(c);
      return Ok(product);
    }

    /** `operator*(double)`: every entry of the leading
        `rowCount x columnCount` block scaled; never fails. */
    method Times(scalar: real) returns (r: Matrix)
      requires Covers(components, rowCount, columnCount)
      ensures fresh(r) && r.Valid()
      ensures r.rowCount == rowCount && r.columnCount == (if rowCount == 0 then 0 else columnCount)
      ensures r.components == EntryScaled(components, scalar, rowCount, columnCount)
    {
      var nA, mA := rowCount, columnCount;
      var c := Zeros(nA, mA);
      var k := 0;
      while k < nA
        invariant 0 <= k <= nA
        invariant |c| == nA && Rectangular(c, mA)
        invariant forall r, i :: 0 <= r < k && 0 <= i < mA ==> c[r][i] == components[r][i] * scalar
      {
        var i := 0;
        while i < mA
          invariant 0 <= i <= mA
          invariant |c| == nA && Rectangular(c, mA)
          invariant forall r, i' :: 0 <= r < k && 0 <= i' < mA ==> c[r][i'] == components[r][i'] * scalar
          invariant forall i' :: 0 <= i' < i ==> c[k][i'] == components[k][i'] * scalar
        {
          c := c[k := c[k][i := components[k][i] * scalar]];
          i := i + 1;
        }
        k := k + 1;
      }
      SameEntries(c, EntryScaled(components, scalar, nA, mA), nA, mA);
      r := new Matrix.FromBuffer(c);
    }

    /** `operator+`: fails unless both cached shapes agree; otherwise the
        entry-wise sum of the leading blocks. */
    method Plus(other: Matrix) returns (r: Result<Matrix>)
      requires rowCount == other.rowCount && columnCount == other.columnCount ==>
        Covers(components, rowCount, columnCount) && Covers(other.components, rowCount, columnCount)
      ensures r.Err? <==> rowCount != other.rowCount || columnCount != other.columnCount
      ensures r.Err? ==> r.error == MinusOne
      ensures r.Ok? ==> fresh(r.value) && r.value.Valid()
      ensures r.Ok? ==> r.value.rowCount == rowCount && r.value.columnCount == (if rowCount == 0 then 0 else columnCount)
      ensures r.Ok? ==> r.value.components == EntrySum(components, other.components, rowCount, columnCount)
    {
      var nA, mA := rowCount, columnCount;
      if nA != other.rowCount || mA != other.columnCount {
        return Err(MinusOne);
      }
      var c := Zeros(nA, mA);
      var k := 0;
      while k < nA
        invariant 0 <= k <= nA
        invariant |c| == nA && Rectangular(c, mA)
        invariant forall r, i :: 0 <= r < k && 0 <= i < mA ==> c[r][i] == components[r][i] + other.components[r][i]
      {
        var i := 0;
        while i < mA
          invariant 0 <= i <= mA
          invariant |c| == nA && Rectangular(c, mA)
          invariant forall r, i' :: 0 <= r < k && 0 <= i' < mA ==> c[r][i'] == components[r][i'] + other.components[r][i']
          invariant forall i' :: 0 <= i' < i ==> c[k][i'] == components[k][i'] + other.components[k][i']
        {
          c := c[k := c[k][i := components[k][i] + other.components[k][i]]];
          i := i + 1;
        }
        k := k + 1;
      }
      SameEntries(c, EntrySum(components, other.components, nA, mA), nA, mA);
      var sum := new Matrix.FromBuffer(c);
      return Ok(sum);
    }

    /** `operator-`: fails exactly as `+` does; otherwise the entry-wise
        difference of the leading blocks. */
    method Minus(other: Matrix) returns (r: Result<Matrix>)
      requires rowCount == other.rowCount && columnCount == other.columnCount ==>
        Covers(components, rowCount, columnCount) && Covers(other.components, rowCount, columnCount)
      ensures r.Err? <==> rowCount != other.rowCount || columnCount != other.columnCount
      ensures r.Err? ==> r.error == MinusOne
      ensures r.Ok? ==> fresh(r.value) && r.value.Valid()
      ensures r.Ok? ==> r.value.rowCount == rowCount && r.value.columnCount == (if rowCount == 0 then 0 else columnCount)
      ensures r.Ok? ==> r.value.components == EntryDifference(components, other.components, rowCount, columnCount)
    {
      var nA, mA := rowCount, columnCount;
      if nA != other.rowCount || mA != other.columnCount {
        return Err(MinusOne);
      }
      var c := Zeros(nA, mA);
      var k := 0;
      while k < nA
        invariant 0 <= k <= nA
        invariant |c| == nA && Rectangular(c, mA)
        invariant forall r, i :: 0 <= r < k && 0 <= i < mA ==> c[r][i] == components[r][i] - other.components[r][i]
      {
        var i := 0;
        while i < mA
          invariant 0 <= i <= mA
          invariant |c| == nA && Rectangular(c, mA)
          invariant forall r, i' :: 0 <= r < k && 0 <= i' < mA ==> c[r][i'] == components[r][i'] - other.components[r][i']
          invariant forall i' :: 0 <= i' < i ==> c[k][i'] == components[k][i'] - other.components[k][i']
        {
          c := c[k := c[k][i := components[k][i] - other.components[k][i]]];
          i := i + 1;
        }
        k := k + 1;
      }
      SameEntries(c, EntryDifference(components, other.components, nA, mA), nA, mA);
      var difference := new Matrix.FromBuffer(c);
      return Ok(difference);
    }

    /** `transpose()`: the loop runs `k` over the rows and `i` over the
        columns but writes `C[k][i]` into the `columnCount x rowCount`
        result and reads `A[i][k]`; every access is in range only for a
        square or an empty matrix, where the result is the transpose. */
    method Transpose() returns (r: Matrix)
      requires Covers(components, rowCount, columnCount)
      requires rowCount == columnCount || rowCount == 0 || columnCount == 0
      ensures fresh(r) && r.Valid()
      ensures r.rowCount == columnCount && r.columnCount == (if columnCount == 0 then 0 else rowCount)
      ensures r.components == Transposed(components, rowCount, columnCount)
    {
      var nA, mA := rowCount, columnCount;
      var c := Zeros(mA, nA);
      var k := 0;
      while k < nA
        invariant 0 <= k <= nA
        invariant |c| == mA && Rectangular(c, nA)
        invariant forall r, i :: 0 <= r < k && 0 <= i < mA ==> c[r][i] == components[i][r]
      {
        var i := 0;
        while i < mA
          invariant 0 <= i <= mA
          invariant |c| == mA && Rectangular(c, nA)
          invariant forall r, i' :: 0 <= r < k && 0 <= i' < mA ==> c[r][i'] == components[i'][r]
          invariant forall i' :: 0 <= i' < i ==> c[k][i'] == components[i'][k]
        {
          c := c[k := c[k][i := components[i][k]]];
          i := i + 1;
        }
        k := k + 1;
      }
      SameEntries(c, Transposed(components, nA, mA), mA, nA);
      r := new Matrix.FromBuffer(c);
    }

    /** `getRowCount()`: the cached count, which is the number of stored
        rows whenever the counts are valid. */
    function RowCount(): (n: nat)
      reads this
      ensures Valid() ==> n == |components|
    {
      rowCount
    }

    /** `getColumnCount()`: the cached count, which is the length of every
        stored row whenever the counts are valid. */
    function ColumnCount(): (m: nat)
      reads this
      ensures Valid() ==> forall r :: 0 <= r < |components| ==> |components[r]| == m
    {
      columnCount
    }
  }
}
