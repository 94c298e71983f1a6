# tsmath in Dafny

A model of the core of tsmath, a small C++ linear-algebra library:

- `Vector` (`src/vector.cpp`), a dense vector of doubles with arithmetic,
  element access and push/pop at both ends;
- `MATRIX` (`src/matrix.cpp`), a dense row-major matrix that caches its
  row and column counts;
- the older `MATRIX` (`matrix.cpp` at the repository root), whose
  `get_row` hands out the stored row by reference rather than a copy and
  whose `get_column` indexes differently;
- the polynomial helpers of `src/lin_alg.cpp`: `findHighestDegree`,
  `constructT`, `TSA::convolution` and `TSA::polynomial_division`.
  Polynomials are coefficient vectors, highest power first.

Modules:

| module | file | models |
|---|---|---|
| `Results` | `results.dfy` | how the library fails: `throw -1` is `Err(MinusOne)`, `std::out_of_range` from `at` is `Err(OutOfRange)`, `std::length_error` from a vector constructor is `Err(LengthError)` |
| `Vectors` | `vector.dfy` | `class Vector` over a `seq<real>` field, with specification functions (`Sum`, `Difference`, `Scaled`, `Divided`, `Dot`, `SquaredSum`) and their properties |
| `Grids` | `grids.dfy` | specification functions on `seq<seq<real>>` shared by both matrix classes: index resolution, entry-wise operations, the transpose, the matrix product and what the product loop actually computes |
| `Matrices` | `matrix.dfy` | `class Matrix` (`src/matrix.cpp`) |
| `LegacyMatrices` | `matrix_legacy.dfy` | `class LegacyMatrix` (root `matrix.cpp`) |
| `Polynomials` | `polynomial.dfy` | degrees, the polynomial product, `ConstructT`, `Convolution`, `PolynomialDivision` |

Modelling conventions:

- Doubles are `real`s, and `std::vector<double>` is `seq<real>`.
- A class whose methods update their fields in place is a Dafny `class`:
  its methods carry `modifies` and state the whole new state.
- The matrix classes keep `rowCount` and `columnCount` as fields, as the
  source does. `Valid()` says the counts describe the storage. Operations
  that do not keep them in step, such as `Assign` and the root copy
  constructor, say so in their contracts.
- Every read or write the source makes without a range check is a
  `requires`, because breaking it is undefined behaviour. This covers
  `operator[]`, the `m_components[i][j]` accesses, and popping an empty
  vector. A `throw` inside a `noexcept` function (root `operator+` and
  `operator-`) is a `requires` too, because it ends the program. The one
  exception is the `size_t` wrap-around in `polynomial_division` with a
  constant divisor: the model ends the loop as intended instead (see
  "Left out" and "Findings").
- Checked failures are modelled as `Result` values.

## Model

| member | source | states |
|---|---|---|
| `Vectors.Vector.FromBuffer` | src/vector.cpp:3-5 | the components are the given buffer |
| `Vectors.Vector.Copy` | src/vector.cpp:7 | a copy has the same components |
| `Vectors.Vector.Filled` | src/vector.cpp:28 | `dimension` copies of `default_value` |
| `Vectors.Vector.Assign` | src/vector.cpp:9-27 | after assignment the components equal the source's previous components; self-assignment changes nothing |
| `Vectors.Resized` | src/vector.cpp:18-24 | resizing keeps the common prefix and pads with zeros |
| `Vectors.Vector.Plus` | src/vector.cpp:49-62 | fails with `-1` exactly when the dimensions differ or are zero; otherwise the entry-wise sum |
| `Vectors.Vector.Minus` | src/vector.cpp:64-77 | fails with `-1` exactly when the dimensions differ or are zero; otherwise the entry-wise difference |
| `Vectors.DifferenceUndoesSum` | src/vector.cpp:49-77 | subtracting `b` undoes adding `b`, and the reverse |
| `Vectors.Vector.Times` | src/vector.cpp:79-88 | every entry multiplied by the scalar, same dimension |
| `Vectors.Vector.DotProduct` | src/vector.cpp:90-103 | fails with `-1` exactly when the dimensions differ or are zero; otherwise the dot product |
| `Vectors.DotUpToSymmetric` | src/vector.cpp:94-101 | every partial dot product is symmetric |
| `Vectors.DotSymmetric` | src/vector.cpp:90-103 | the dot product is symmetric |
| `Vectors.Vector.SquaredMagnitude` | src/vector.cpp:104-112 | the accumulation loop of `magnitude()` yields the sum of squares, which is zero for the zero vector |
| `Vectors.ZeroVectorSquaredSumUpTo` | src/vector.cpp:108-111 | every partial sum of squares of a zero vector is zero |
| `Vectors.ZeroVectorHasSmallMagnitude` | src/vector.cpp:34-47 | a zero vector's magnitude is below `1e-7`, so `unitVector` takes its zero branch |
| `Vectors.SquaredSumUpToScaled` | src/vector.cpp:79-88 | every partial sum of squares scales by the square of the factor |
| `Vectors.SquaredSumScaled` | src/vector.cpp:79-88 | scaling by `c` multiplies the squared magnitude by `c * c` |
| `Vectors.SmallMagnitudeIffSmallSquaredSum` | src/vector.cpp:39 | the magnitude is below `1e-7` exactly when the squared sum is below `1e-14` |
| `Vectors.DividedIsScaled` | src/vector.cpp:41-44 | dividing every entry by `m` is scaling by `1 / m` |
| `Vectors.UnitVectorHasUnitLength` | src/vector.cpp:34-47 | dividing by a positive magnitude gives squared magnitude 1 |
| `Vectors.Vector.UnitVector` | src/vector.cpp:34-47 | zeros when the magnitude is below `1e-7`; otherwise every entry divided by the magnitude, with unit squared magnitude |
| `Vectors.Vector.Element` | src/vector.cpp:114-124 | the unchecked read returns the entry at an in-range index |
| `Vectors.Vector.SetElement` | src/vector.cpp:114-124 | a write through the returned reference changes that one entry and nothing else |
| `Vectors.Vector.At` | src/vector.cpp:125-135 | the checked read succeeds exactly for an in-range index and fails with `out_of_range` otherwise |
| `Vectors.Vector.Dimension` | src/vector.cpp:136-139 | the number of components, zero exactly for the empty vector |
| `Vectors.Vector.PushFront` | src/vector.cpp:141-144 | the value is prepended and the old components follow |
| `Vectors.Vector.PushBack` | src/vector.cpp:145-148 | the value is appended after the old components |
| `Vectors.Vector.PopBack` | src/vector.cpp:149-152 | the last component is removed |
| `Vectors.Vector.PopFront` | src/vector.cpp:166-168 | the first component is removed |
| `Grids.Resolve` | src/matrix.cpp:70-98 | a negative index counts from the end; every index of magnitude below `n` lands in `0 .. n-1` |
| `Grids.ResolveWrapsAround` | src/matrix.cpp:70-98 | for `0 <= i < n`, index `i - n` resolves to the same row as `i` |
| `Grids.EntryDifferenceUndoesSum` | src/matrix.cpp:146-192 | entry-wise subtraction undoes entry-wise addition on the leading block |
| `Grids.EntrySumCommutes` | src/matrix.cpp:146-168 | entry-wise addition is commutative |
| `Grids.TransposeLoopInRangeIffSquare` | src/matrix.cpp:194-211 | every access of the transpose loop is in range exactly for square or empty matrices; a 1x2 matrix already writes out of range |
| `Grids.TransposeInvolution` | src/matrix.cpp:194-211 | transposing twice gives back the leading block |
| `Grids.ColumnIsTransposedRow` | src/matrix.cpp:213-239 | column `c` is row `c` of the transpose |
| `Grids.LoopProductOnSample` | src/matrix.cpp:100-126 | on the identity and `[[1,2],[3,4]]` the product loop leaves `[[4,0],[0,6]]` |
| `Grids.ProductOnSample` | src/matrix.cpp:100-126 | the product of the identity and `[[1,2],[3,4]]` is `[[1,2],[3,4]]` |
| `Grids.LoopProductIsNotProduct` | src/matrix.cpp:100-126 | the loop's result differs from the matrix product on that pair |
| `Grids.LoopSumFactors` | src/matrix.cpp:114-124 | each entry of the loop's result is `A[k][i]` times the sum of column `k` of `B` |
| `Grids.ProductLeftIdentity` | include/matrix.h:30-31 | the identity is a left unit of the matrix product that `operator*` is declared to compute (no source function computes it; see Findings) |
| `Grids.ProductRightIdentity` | include/matrix.h:30-31 | the identity is a right unit of that declared product |
| `Grids.ProductTransposed` | include/matrix.h:30-31 | `(A B)^T = B^T A^T` for that declared product |
| `Matrices.Matrix.FromBuffer` | src/matrix.cpp:3-17 | the storage is the buffer; the row count is its length and the column count the length of its first row (0 when empty); the matrix is valid exactly when every row has that length |
| `Matrices.Matrix.Copy` | src/matrix.cpp:19-37 | the copy is valid and sized by `other`'s row count and first row; `other`'s leading block is copied and the rest is zero; a valid `other` is copied exactly |
| `Matrices.Matrix.Assign` | src/matrix.cpp:39-63 | self-assignment changes nothing; otherwise the storage is `other`'s rows cut to the width of its first row; the cached counts stay, so the result is valid exactly when the shape is unchanged |
| `Matrices.Matrix.GetRow` | src/matrix.cpp:70-98 | fails with `-1` exactly when the index's magnitude is not below the number of rows; otherwise a fresh copy of the resolved row |
| `Matrices.Matrix.GetColumn` | src/matrix.cpp:213-239 | fails with `-1` exactly when the index's magnitude is not below the column count; otherwise a fresh vector holding the resolved column of every row |
| `Matrices.Matrix.GetColumnConst` | src/matrix.cpp:241-264 | as `GetColumn`, and the checked reads fail with `out_of_range` exactly when a row is missing or too short |
| `Matrices.Matrix.Multiply` | src/matrix.cpp:100-126 | fails with `-1` exactly when the inner dimensions differ; otherwise a valid `nA x mB` matrix holding what the loop computes (`LoopProduct`) |
| `Matrices.Matrix.Times` | src/matrix.cpp:128-144 | a valid matrix of the same shape with every entry scaled |
| `Matrices.Matrix.Plus` | src/matrix.cpp:146-168 | fails with `-1` exactly when the shapes differ; otherwise the valid entry-wise sum |
| `Matrices.Matrix.Minus` | src/matrix.cpp:170-192 | fails with `-1` exactly when the shapes differ; otherwise the valid entry-wise difference |
| `Matrices.Matrix.Transpose` | src/matrix.cpp:194-211 | for a square or empty matrix, a valid matrix holding the transpose |
| `Matrices.Matrix.ColumnCount` | src/matrix.cpp:266-269 | in a valid matrix every row has `getColumnCount()` entries |
| `Matrices.Matrix.RowCount` | src/matrix.cpp:271-274 | in a valid matrix `getRowCount()` is the number of rows |
| `LegacyMatrices.LegacyColumnIndex` | matrix.cpp:207-243 | a non-negative index is used as is; a negative one is resolved against the row count instead of the column count |
| `LegacyMatrices.LegacyColumnIndexMissesLastColumn` | matrix.cpp:207-224 | in a 2x3 matrix, index `-1` reads column 1 instead of the last column, 2 |
| `LegacyMatrices.LegacyColumnIndexDiffers` | matrix.cpp:207-224 | whenever the row and column counts differ, index `-1` misses the last column |
| `LegacyMatrices.LegacyMatrix.FromBuffer` | matrix.cpp:3-17 | as `Matrix.FromBuffer` |
| `LegacyMatrices.LegacyMatrix.Copy` | matrix.cpp:19-33 | storage sized by `other`'s row count and first row, with `other`'s leading block copied; a valid `other` is copied exactly; the counts are left unset |
| `LegacyMatrices.LegacyMatrix.Assign` | matrix.cpp:36-60 | as `Matrix.Assign` |
| `LegacyMatrices.LegacyMatrix.GetRow` | matrix.cpp:69-80 | fails with `-1` exactly when the index's magnitude is not below the number of rows; otherwise a handle on the resolved row, which is stored in place |
| `LegacyMatrices.LegacyMatrix.SetRow` | matrix.cpp:69-80 | a write through the returned row reference replaces that row and nothing else |
| `LegacyMatrices.LegacyMatrix.GetRowConst` | matrix.cpp:82-93 | fails with `-1` exactly when the index's magnitude is not below the number of rows; otherwise the resolved row |
| `LegacyMatrices.LegacyMatrix.Multiply` | matrix.cpp:95-121 | as `Matrix.Multiply` |
| `LegacyMatrices.LegacyMatrix.Times` | matrix.cpp:123-139 | as `Matrix.Times` |
| `LegacyMatrices.LegacyMatrix.Plus` | matrix.cpp:141-163 | for equal shapes, the valid entry-wise sum |
| `LegacyMatrices.LegacyMatrix.Minus` | matrix.cpp:165-187 | for equal shapes, the valid entry-wise difference |
| `LegacyMatrices.LegacyMatrix.Transpose` | matrix.cpp:189-205 | as `Matrix.Transpose` |
| `LegacyMatrices.LegacyMatrix.GetColumn` | matrix.cpp:207-224 | fails with `-1` exactly when the index's magnitude is not below the column count; otherwise `columnCount` entries, the first `rowCount` read from column `LegacyColumnIndex` and the rest zero |
| `LegacyMatrices.LegacyMatrix.GetColumnConst` | matrix.cpp:226-243 | as `GetColumn`, and the checked reads fail with `out_of_range` exactly when a row is missing or has no such column; with more rows than columns only the write past the buffer, reached when rows `0` to `columnCount` are all readable, is excluded |
| `LegacyMatrices.LegacyMatrix.ColumnCount` | matrix.cpp:245-248 | in a valid matrix every row has `getColumnCount()` entries |
| `LegacyMatrices.LegacyMatrix.RowCount` | matrix.cpp:250-253 | in a valid matrix `getRowCount()` is the number of rows |
| `Polynomials.FirstSignificant` | src/lin_alg.cpp:14-20 | the first coefficient above the tolerance; every coefficient before it is negligible |
| `Polynomials.Degree` | src/lin_alg.cpp:12-23 | between `-1` and `length - 1`, and `-1` exactly when every coefficient is negligible |
| `Polynomials.FindHighestDegree` | src/lin_alg.cpp:12-23 | the scan returns the degree: the coefficient at that power is significant and all higher powers are negligible |
| `Polynomials.ConstructT` | src/lin_alg.cpp:57-77 | the nested loops compute the product of the two polynomials |
| `Polynomials.PolyProductByOne` | src/lin_alg.cpp:57-77 | multiplying by the constant 1 changes nothing |
| `Polynomials.PolyProductLeading` | src/lin_alg.cpp:57-77 | the leading coefficient of a product is the product of the leading coefficients |
| `Polynomials.PolyProductExample` | src/lin_alg.cpp:57-77 | `(x + 2)(x + 1) = x^2 + 3x + 2` |
| `Polynomials.CoeffOfMonomial` | src/lin_alg.cpp:105-110 | multiplying by a single term `c x^k` scales the divisor by `c` |
| `Polynomials.Monomial` | src/lin_alg.cpp:105-106 | the one-term `temp`: the quotient coefficient first, then zeros, one entry per remaining quotient degree |
| `Polynomials.MonomialProduct` | src/lin_alg.cpp:105-110 | the `t` built from the one-term `temp` is the divisor scaled by the new quotient coefficient, padded with zeros |
| `Polynomials.AccumulatedIsProductAndZero` | src/lin_alg.cpp:26-39 | the convolution accumulator holds the product followed by one zero |
| `Polynomials.DropLeadingSmallIsSuffix` | src/lin_alg.cpp:41-46 | the trimming loop leaves a suffix whose dropped coefficients are all negligible and whose first coefficient is not |
| `Polynomials.DropLeadingSmallAppend` | src/lin_alg.cpp:41-49 | trimming commutes with appending a trailing coefficient |
| `Polynomials.TrimmedAccumulated` | src/lin_alg.cpp:26-54 | the trimmed accumulator is the trimmed product followed by the zero that `popBack` removes |
| `Polynomials.Convolution` | src/lin_alg.cpp:26-54 | the result is the product of `u` and `v` with its negligible leading coefficients dropped |
| `Polynomials.DivisionStep` | src/lin_alg.cpp:96-117 | one round of long division keeps `dividend = quotient-so-far * divisor + remainder` |
| `Polynomials.DividedCompletely` | src/lin_alg.cpp:80-124 | once all quotient coefficients are set, the original dividend is `quotient * divisor` plus the remainder in its last places |
| `Polynomials.DivisionRound` | src/lin_alg.cpp:96-117 | writes the dividend's coefficient at the current degree over the divisor's leading coefficient into the quotient slot for the current degree; fails, leaving the dividend unchanged, exactly when `dividend - t` has mismatched lengths; otherwise the new dividend is `dividend - coefficient * X^k * divisor` without its first coefficient, and the round keeps the division identity |
| `Polynomials.PolynomialDivision` | src/lin_alg.cpp:80-124 | `length_error` when the quotient size is negative; zeros when the loop does not run (a negligible divisor under a dividend with a degree, or a dividend one degree short); `-1` exactly when the two polynomials have different numbers of negligible leading coefficients; otherwise the quotient has `deg - deg + 1` coefficients, `|divisor| - 1` remain, and `dividend = quotient * divisor + remainder` |
| `Polynomials.ConstantDivisorOverrunsDividend` | src/lin_alg.cpp:84-123 | with a constant divisor, `degreeDividend--` from 0 wraps to the largest `size_t`, the loop goes on with a degree at least the dividend's length, and its next read index equals that length |

## Left out

- `Vector::magnitude`'s `std::sqrt`: the model has no square root. `Vectors.Vector.SquaredMagnitude` models the accumulation loop. `Vectors.Vector.UnitVector` receives the magnitude as a parameter, constrained by `m >= 0` and `m * m == squared sum`.
- Floating point: doubles are reals, so rounding, infinities and NaN are not modelled.
- Division by zero is not modelled. `PolynomialDivision` requires a non-negative tolerance, so the divisor's leading coefficient is non-zero.
- Output is not modelled: `print`, `print_matrix`, the `DEBUG` blocks of `polynomial_division`, and the console output in `get_column`.
- Memory is not modelled: heap leaks from `new`, and returning references to heap objects (`get_row`, `get_row_const`, `get_column`). Each returned object is a fresh `Vector`, or a sequence value for root `get_row_const`/`get_column`.
- `std::abs(INT_MIN)`: the index checks are modelled on unbounded integers.
- Move semantics: move constructors are modelled as the copying constructors (`FromBuffer`).
- Functions declared in the headers but not defined in the core files are not modelled.
- `Polynomials.PolynomialDivision`: the division identity is stated only when the divisor has no negligible leading coefficients. Otherwise the remainder still carries those coefficients.
- `Polynomials.PolynomialDivision`: with a constant divisor and a dividend that has a degree, the model ends the loop after the step at degree 0, as intended. It does not model the library's wrap-around of `degreeDividend` and its read of `dividend[dividend.dimension()]` past the end; `Polynomials.ConstantDivisorOverrunsDividend` shows that index.
- `Polynomials.PolynomialDivision`: a negligible dividend divided by a constant or by a negligible divisor is excluded by `requires`, because the loop then reads past the end. A `length_error` is assumed whenever the quotient size is negative. Both polynomials are assumed far shorter than `max_size()`.
- `Polynomials.Convolution`: requires a coefficient that is not below the tolerance. Otherwise the trimming loop empties `result` and reads `result[0]` of an empty vector.
- lin_alg's `const Vector&` inputs and its local vectors are sequence values. Only the `dividend` of `polynomial_division`, which is changed in place, is a `Vector` object.
- `LegacyMatrices.LegacyMatrix.Copy`: the root copy constructor leaves `row_count` and `column_count` uninitialised, so the contract says nothing about them.
- `LegacyMatrices.LegacyMatrix.GetRow`: the returned `std::vector<double>&` aliases the stored row. It is modelled as an index plus `SetRow` for writes through it, not as a shared reference.

## Findings

| source | as written | input that shows it | evidently intended | confidence | as-written member | corrected member |
|---|---|---|---|---|---|---|
| src/matrix.cpp:114-124 (same loop at matrix.cpp:110-120) | `C[k][i] += A[k][i] * B[j][k]`, with `i` bounded by `mA` | `A` the 2x2 identity, `B = [[1,2],[3,4]]`: result `[[4,0],[0,6]]` | `C[k][i] += A[k][j] * B[j][i]`, with `i < mB` and `j < mA` (the matrix product) | high, not executed | `Grids.LoopProductIsNotProduct` | `Grids.ProductLeftIdentity` |
| src/matrix.cpp:203-209 (same loop at matrix.cpp:197-203) | the loop runs `k < nA` and `i < mA`, writing `C[k][i]` into the `mA x nA` result | a 1x2 matrix: the write to `C[0][1]` is out of range in the 2x1 result | `C[i][k] = A[k][i]` for `k < nA`, `i < mA` | high, not executed | `Grids.TransposeLoopInRangeIffSquare` | `Grids.TransposeInvolution` |
| matrix.cpp:219-222 | a negative column index is resolved as `n + index`, with `n` the row count | a 2x3 matrix, `index = -1`: column 1 is read instead of column 2 | `m + index`, with `m` the column count (as `src/matrix.cpp` does) | high, not executed | `LegacyMatrices.LegacyColumnIndexMissesLastColumn` | `Matrices.Matrix.GetColumn` |
| src/lin_alg.cpp:94-122 | the `size_t` loop test `degreeDividend >= degreeDivisor` with `degreeDividend--` | a constant divisor such as `[2]`: after the step at degree 0 the degree wraps to the largest `size_t` and the next read is `dividend[dividend.dimension()]` | the loop ends after the step at the divisor's degree | high, not executed | `Polynomials.ConstantDivisorOverrunsDividend` | `Polynomials.PolynomialDivision` |
