/** The older `MATRIX` of the top-level matrix.cpp. It shares the layout
    and most loops of src/matrix.cpp; it differs in its copy constructor
    (the counts are never set), in `get_row` (a reference into the
    storage rather than a copy), in `+` and `-` (declared `noexcept`, so a
    shape mismatch terminates the program) and in the column accessors
    (sized by the column count, with negative indices resolved against
    the row count). */
module LegacyMatrices {
  import opened Results
  import opened Vectors
  import opened Grids

  /** The column `get_column` reads for `index`: `(index < 0) * n + index`,
      that is a negative index counted back from the ROW count `n`. */
  function LegacyColumnIndex(index: int, n: nat): (c: int)
    ensures index >= 0 ==> c == index
    ensures index < 0 ==> c == Resolve(index, n)
  {
    (if index < 0 then n else 0) + index
  }

  /** Each of the first `n` rows exists and has an entry at column `col`. */
  ghost predicate ColumnReadable(a: seq<seq<real>>, n: nat, col: int)
  {
    n <= |a| && (n == 0 || 0 <= col) && forall r :: 0 <= r < n ==> col < |a[r]|
  }

  /** For a matrix with 2 rows and 3 columns, column `-1` is read as
      column 1, not as the last column 2. */
  lemma LegacyColumnIndexMissesLastColumn()
    ensures LegacyColumnIndex(-1, 2) == 1
    ensures Resolve(-1, 3) == 2
  {
  }

  /** Whenever the row and column counts differ, some negative index
      that passes the range check addresses a different column than
      the one counted back from the column count. */
  lemma LegacyColumnIndexDiffers(n: nat, m: nat)
    requires 0 < m && n != m
    ensures LegacyColumnIndex(-1, n) != Resolve(-1, m)
  {
  }

  class LegacyMatrix {
    var components: seq<seq<real>>
    var rowCount: nat
    var columnCount: nat

    /** The cached counts describe the storage. */
    ghost predicate Valid()
      reads this
      ensures Valid() ==> Covers(components, rowCount, columnCount)
    {
      rowCount == |components| && Rectangular(components, columnCount)
    }

    /** Both buffer constructors. */
    constructor FromBuffer(buffer: seq<seq<real>>)
      ensures components == buffer
      ensures rowCount == |buffer| && columnCount == Width(buffer)
      ensures Valid() <==> Rectangular(buffer, Width(buffer))
    {
      components := buffer;
      rowCount := |buffer|;
      columnCount := Width(buffer);
    }

    /** The copy constructor: the storage is built and filled as in
        src/matrix.cpp, but `row_count` and `column_count` are never
        assigned, so nothing is known about the new counts. The row width
        comes from `other[0].size()`, an `operator[]` that no header of
        the library declares for `MATRIX`; it is read here as the length
        of stored row 0, which is what src/matrix.cpp reads there. */
    constructor Copy(other: LegacyMatrix)
      requires other.rowCount == 0 || |other.components| > 0
      requires Covers(other.components, other.rowCount, other.columnCount)
      ensures |components| == other.rowCount
      ensures Rectangular(components, if other.rowCount == 0 then 0 else |other.components[0]|)
      ensures forall i, j :: 0 <= i < other.rowCount && 0 <= j < |components[i]| ==>
        components[i][j] == if j < other.columnCount then other.components[i][j] else 0.0
      ensures other.Valid() ==> components == other.components
    {
      var n := other.rowCount;
      var width := if n == 0 then 0 else |other.components[0]|;
      var c := Zeros(n, width);
      var i := 0;
      while i < n
        invariant 0 <= i <= n
        invariant |c| == n && Rectangular(c, width)
        invariant forall r, j :: 0 <= r < n && 0 <= j < width ==>
          c[r][j] == if r < i && j < other.columnCount then other.components[r][j] else 0.0
      {
        var j := 0;
        while j < other.columnCount
          invariant 0 <= j <= other.columnCount
          invariant |c| == n && Rectangular(c, width)
          invariant forall r, j' :: 0 <= r < n && 0 <= j' < width ==>
            c[r][j'] == if (r < i || (r == i && j' < j)) && j' < other.columnCount then other.components[r][j'] else 0.0
        {
          c := c[i := c[i][j := other.components[i][j]]];
          j := j + 1;
        }
        i := i + 1;
      }
      components := c;
      new;
      if other.Valid() {
        SameEntries(components, other.components, n, width);
      }
    }

    /** Copy assignment, as in src/matrix.cpp: the storage becomes `other`'s
        rows cut to the length of its first row; the counts are kept. */
    method Assign(other: LegacyMatrix)
      requires this != other ==> forall r :: 0 <= r < |other.components| ==> Width(other.components) <= |other.components[r]|
      modifies this
      ensures rowCount == old(rowCount) && columnCount == old(columnCount)
      ensures this == other ==> components == old(components)
      ensures this != other ==> components == LeadingColumns(other.components, Width(other.components))
      ensures this != other && Rectangular(other.components, Width(other.components)) ==> components == other.components
    {
      if this == other {
        return;
      }
      var n := |other.components|;
      var m := Width(other.components);
      var c := if n <= |components| then components[..n] else components + seq(n - |components|, _ => []);
      var i := 0;
      while i < n
        invariant 0 <= i <= n && |c| == n
        invariant forall r :: 0 <= r < i ==> c[r] == other.components[r][..m]
      {
        var row := Resized(c[i], m);
        var j := 0;
        while j < m
          invariant 0 <= j <= m && |row| == m
          invariant row[..j] == other.components[i][..j]
        {
          row := row[j := other.components[i][j]];
          j := j + 1;
        }
        c := c[i := row];
        i := i + 1;
      }
      components := c;
      if Rectangular(other.components, m) {
        assert forall r :: 0 <= r < n ==> other.components[r][..m] == other.components[r];
      }
    }

    /** `get_row`: a reference to the stored row at `rowIndex` (counted
        from the end when negative). The reference is modelled by the
        index of the row it denotes; writes through it are `SetRow`. */
    method GetRow(rowIndex: int) returns (r: Result<nat>)
      ensures r.Ok? <==> -|components| < rowIndex < |components|
      ensures r.Err? ==> r.error == MinusOne
      ensures r.Ok? ==> r.value < |components| && r.value == Resolve(rowIndex, |components|)
    {
      var n := |components|;
      if !(-n < rowIndex < n) {
        return Err(MinusOne);
      }
      return Ok(Resolve(rowIndex, n));
    }

    /** Assigning `values` through the reference `get_row` returned for
        stored row `row`: that row changes and no other. */
    method SetRow(row: nat, values: seq<real>)
      requires row < |components|
      modifies this
      ensures components == old(components)[row := values]
      ensures rowCount == old(rowCount) && columnCount == old(columnCount)
    {
      components := components[row := values];
    }

    /** `get_row_const`: the stored row at `rowIndex`, read through
        `std::vector::at` after the same range check. */
    method GetRowConst(rowIndex: int) returns (r: Result<seq<real>>)
      ensures r.Ok? <==> -|components| < rowIndex < |components|
      ensures r.Err? ==> r.error == MinusOne
      ensures r.Ok? ==> r.value == components[Resolve(rowIndex, |components|)]
    {
      var n := |components|;
      if !(-n < rowIndex < n) {
        return Err(MinusOne);
      }
      return Ok(components[Resolve(rowIndex, n)]);
    }

    /** `operator*(const MATRIX&)`: the same triple loop as in
        src/matrix.cpp. */
    method Multiply(other: LegacyMatrix) returns (r: Result<LegacyMatrix>)
      requires columnCount == other.rowCount ==>
        LoopInRange(components, other.components, rowCount, columnCount, other.rowCount, other.columnCount)
      ensures r.Err? <==> columnCount != other.rowCount
      ensures r.Err? ==> r.error == MinusOne
      ensures r.Ok? ==> fresh(r.value) && r.value.Valid()
      ensures r.Ok? ==> r.value.rowCount == rowCount && r.value.columnCount == (if rowCount == 0 then 0 else other.columnCount)
      ensures r.Ok? ==> r.value.components == LoopProduct(components, other.components, rowCount, columnCount, other.rowCount, other.columnCount)
    {
      var nA, mA, nB, mB := rowCount, columnCount, other.rowCount, other.columnCount;
      if mA != nB {
        return Err(MinusOne);
      }
      var c := Zeros(nA, mB);
      var k := 0;
      while k < nA
        invariant 0 <= k <= nA
        invariant |c| == nA && Rectangular(c, mB)
        invariant forall r, i :: 0 <= r < nA && 0 <= i < mB ==>
          c[r][i] == if r < k && i < mA && nB > 0 then LoopSum(components, other.components, r, i, nB) else 0.0
      {
        var i := 0;
        while i < mA
          invariant 0 <= i <= mA
          invariant |c| == nA && Rectangular(c, mB)
          invariant forall r, i' :: 0 <= r < nA && 0 <= i' < mB ==>
            c[r][i'] == if (r < k || (r == k && i' < i)) && i' < mA && nB > 0 then LoopSum(components, other.components, r, i', nB) else 0.0
        {
          var j := 0;
          while j < nB
            invariant 0 <= j <= nB
            invariant |c| == nA && Rectangular(c, mB)
            invariant c[k][i] == LoopSum(components, other.components, k, i, j)
            invariant forall r, i' :: 0 <= r < nA && 0 <= i' < mB && (r != k || i' != i) ==>
              c[r][i'] == if (r < k || (r == k && i' < i)) && i' < mA && nB > 0 then LoopSum(components, other.components, r, i', nB) else 0.0
          {
            c := c[k := c[k][i := c[k][i] + components[k][i] * other.components[j][k]]];
            j := j + 1;
          }
          i := i + 1;
        }
        k := k + 1;
      }
      SameEntries(c, LoopProduct(components, other.components, nA, mA, nB, mB), nA, mB);
      var product := new LegacyMatrix.FromBuffer(c);
      return Ok(product);
    }

    /** `operator*(double)`: every entry of the leading block scaled. */
    method Times(scalar: real) returns (r: LegacyMatrix)
      requires Covers(components, rowCount, columnCount)
      ensures fresh(r) && r.Valid()
      ensures r.rowCount == rowCount && r.columnCount == (if rowCount == 0 then 0 else columnCount)
      ensures r.components == EntryScaled(components, scalar, rowCount, columnCount)
    {
      var nA, mA := rowCount, columnCount;
      var c := Zeros(nA, mA);
      var k := 0;
      while k < nA
        invariant 0 <= k <= nA
        invariant |c| == nA && Rectangular(c, mA)
        invariant forall r, i :: 0 <= r < k && 0 <= i < mA ==> c[r][i] == components[r][i] * scalar
      {
        var i := 0;
        while i < mA
          invariant 0 <= i <= mA
          invariant |c| == nA && Rectangular(c, mA)
          invariant forall r, i' :: 0 <= r < k && 0 <= i' < mA ==> c[r][i'] == components[r][i'] * scalar
          invariant forall i' :: 0 <= i' < i ==> c[k][i'] == components[k][i'] * scalar
        {
          c := c[k := c[k][i := components[k][i] * scalar]];
          i := i + 1;
        }
        k := k + 1;
      }
      SameEntries(c, EntryScaled(components, scalar, nA, mA), nA, mA);
      r := new LegacyMatrix.FromBuffer(c);
    }

    /** `operator+`: declared `noexcept`, so its `throw` on a shape mismatch
        terminates the program; callers must pass matching shapes. */
    method Plus(other: LegacyMatrix) returns (r: LegacyMatrix)
      requires rowCount == other.rowCount && columnCount == other.columnCount
      requires Covers(components, rowCount, columnCount) && Covers(other.components, rowCount, columnCount)
      ensures fresh(r) && r.Valid()
      ensures r.rowCount == rowCount && r.columnCount == (if rowCount == 0 then 0 else columnCount)
      ensures r.components == EntrySum(components, other.components, rowCount, columnCount)
    {
      var nA, mA := rowCount, columnCount;
      var c := Zeros(nA, mA);
      var k := 0;
      while k < nA
        invariant 0 <= k <= nA
        invariant |c| == nA && Rectangular(c, mA)
        invariant forall r, i :: 0 <= r < k && 0 <= i < mA ==> c[r][i] == components[r][i] + other.components[r][i]
      {
        var i := 0;
        while i < mA
          invariant 0 <= i <= mA
          invariant |c| == nA && Rectangular(c, mA)
          invariant forall r, i' :: 0 <= r < k && 0 <= i' < mA ==> c[r][i'] == components[r][i'] + other.components[r][i']
          invariant forall i' :: 0 <= i' < i ==> c[k][i'] == components[k][i'] + other.components[k][i']
        {
          c := c[k := c[k][i := components[k][i] + other.components[k][i]]];
          i := i + 1;
        }
        k := k + 1;
      }
      SameEntries(c, EntrySum(components, other.components, nA, mA), nA, mA);
      r := new LegacyMatrix.FromBuffer(c);
    }

    /** `operator-`: as `+`, with the entry-wise difference. */
    method Minus(other: LegacyMatrix) returns (r: LegacyMatrix)
      requires rowCount == other.rowCount && columnCount == other.columnCount
      requires Covers(components, rowCount, columnCount) && Covers(other.components, rowCount, columnCount)
      ensures fresh(r) && r.Valid()
      ensures r.rowCount == rowCount && r.columnCount == (if rowCount == 0 then 0 else columnCount)
      ensures r.components == EntryDifference(components, other.components, rowCount, columnCount)
    {
      var nA, mA := rowCount, columnCount;
      var c := Zeros(nA, mA);
      var k := 0;
      while k < nA
        invariant 0 <= k <= nA
        invariant |c| == nA && Rectangular(c, mA)
        invariant forall r, i :: 0 <= r < k && 0 <= i < mA ==> c[r][i] == components[r][i] - other.components[r][i]
      {
        var i := 0;
        while i < mA
          invariant 0 <= i <= mA
          invariant |c| == nA && Rectangular(c, mA)
          invariant forall r, i' :: 0 <= r < k && 0 <= i' < mA ==> c[r][i'] == components[r][i'] - other.components[r][i']
          invariant forall i' :: 0 <= i' < i ==> c[k][i'] == components[k][i'] - other.components[k][i']
        {
          c := c[k := c[k][i := components[k][i] - other.components[k][i]]];
          i := i + 1;
        }
        k := k + 1;
      }
      SameEntries(c, EntryDifference(components, other.components, nA, mA), nA, mA);
      r := new LegacyMatrix.FromBuffer(c);
    }

    /** `transpose()`: the same loop as in src/matrix.cpp, in range only
        for a square or an empty matrix. */
    method Transpose() returns (r: LegacyMatrix)
      requires Covers(components, rowCount, columnCount)
      requires rowCount == columnCount || rowCount == 0 || columnCount == 0
      ensures fresh(r) && r.Valid()
      ensures r.rowCount == columnCount && r.columnCount == (if columnCount == 0 then 0 else rowCount)
      ensures r.components == Transposed(components, rowCount, columnCount)
    {
      var nA, mA := rowCount, columnCount;
      var c := Zeros(mA, nA);
      var k := 0;
      while k < nA
        invariant 0 <= k <= nA
        invariant |c| == mA && Rectangular(c, nA)
        invariant forall r, i :: 0 <= r < k && 0 <= i < mA ==> c[r][i] == components[i][r]
      {
        var i := 0;
        while i < mA
          invariant 0 <= i <= mA
          invariant |c| == mA && Rectangular(c, nA)
          invariant forall r, i' :: 0 <= r < k && 0 <= i' < mA ==> c[r][i'] == components[i'][r]
          invariant forall i' :: 0 <= i' < i ==> c[k][i'] == components[i'][k]
        {
          c := c[k := c[k][i := components[i][k]]];
          i := i + 1;
        }
        k := k + 1;
      }
      SameEntries(c, Transposed(components, nA, mA), mA, nA);
      r := new LegacyMatrix.FromBuffer(c);
    }

    /** `get_column`: after the range check against `columnCount`, a new
        buffer of `columnCount` zeros whose first `rowCount` entries are
        read, without range checks, from column
        `LegacyColumnIndex(index, rowCount)`. The buffer writes are in
        range only when `rowCount <= columnCount`. */
    method GetColumn(index: int) returns (r: Result<seq<real>>)
      requires -(columnCount as int) < index < columnCount ==>
        rowCount <= columnCount && ColumnReadable(components, rowCount, LegacyColumnIndex(index, rowCount))
      ensures r.Ok? <==> -(columnCount as int) < index < columnCount
      ensures r.Err? ==> r.error == MinusOne
      ensures r.Ok? ==> |r.value| == columnCount
      ensures r.Ok? ==> forall i :: 0 <= i < rowCount ==> r.value[i] == components[i][LegacyColumnIndex(index, rowCount)]
      ensures r.Ok? ==> forall i :: rowCount <= i < columnCount ==> r.value[i] == 0.0
    {
      var m, n := columnCount, rowCount;
      if !(-(m as int) < index < m) {
        return Err(MinusOne);
      }
      var col := LegacyColumnIndex(index, n);
      var result := seq(m, _ => 0.0);
      var i := 0;
      while i < n
        invariant 0 <= i <= n && |result| == m
        invariant forall r :: 0 <= r < i ==> result[r] == components[r][col]
        invariant forall r :: n <= r < m ==> result[r] == 0.0
      {
        result := result[i := components[i][col]];
        i := i + 1;
      }
      return Ok(result);
    }

    /** `get_column_const`: as `get_column`, but reading through
        `std::vector::at`, so a missing row, a short row or a negative
        resolved column (huge once converted to `size_t`) fails with
        `out_of_range`. Each read comes before its write into the buffer
        of `columnCount` entries, so with more rows than columns the
        write past the buffer is reached only when the reads of rows `0`
        to `columnCount` all succeed. */
    method GetColumnConst(index: int) returns (r: Result<seq<real>>)
      requires -(columnCount as int) < index < columnCount ==>
        rowCount <= columnCount || !ColumnReadable(components, columnCount + 1, LegacyColumnIndex(index, rowCount))
      ensures !(-(columnCount as int) < index < columnCount) ==> r == Err(MinusOne)
      ensures -(columnCount as int) < index < columnCount ==>
        (r.Ok? <==> ColumnReadable(components, rowCount, LegacyColumnIndex(index, rowCount)))
      ensures -(columnCount as int) < index < columnCount && r.Err? ==> r.error == OutOfRange
      ensures r.Ok? ==> |r.value| == columnCount
      ensures r.Ok? ==> forall i :: 0 <= i < rowCount ==>
        r.value[i] == components[i][LegacyColumnIndex(index, rowCount)]
      ensures r.Ok? ==> forall i :: rowCount <= i < columnCount ==> r.value[i] == 0.0
    {
      var m, n := columnCount, rowCount;
      if !(-(m as int) < index < m) {
        return Err(MinusOne);
      }
      var col := LegacyColumnIndex(index, n);
      var result := seq(m, _ => 0.0);
      var i := 0;
      while i < n
        invariant 0 <= i <= n && |result| == m
        invariant ColumnReadable(components, i, col)
        invariant n > m ==> i <= m
        invariant forall k :: 0 <= k < i ==> result[k] == components[k][col]
        invariant forall k :: n <= k < m ==> result[k] == 0.0
      {
        if i >= |components| || col < 0 || col >= |components[i]| {
          return Err(OutOfRange);
        }
        assert ColumnReadable(components, i + 1, col);
        result := result[i := components[i][col]];
        i := i + 1;
      }
      return Ok(result);
    }

    /** `getRowCount()`. */
    function RowCount(): (n: nat)
      reads this
      ensures Valid() ==> n == |components|
    {
      rowCount
    }

    /** `getColumnCount()`. */
    function ColumnCount(): (m: nat)
      reads this
      ensures Valid() ==> forall r :: 0 <= r < |components| ==> |components[r]| == m
    {
      columnCount
    }
  }
}
