/** The polynomial routines of src/lin_alg.cpp. A polynomial is the
    sequence of its coefficients, highest power first: `p[0]` multiplies
    `x^(|p|-1)` and `p[|p|-1]` is the constant term. Coefficients whose
    absolute value is at most (or below) a tolerance count as zero. */
module Polynomials {
  import opened Results
  import opened Vectors

  function Abs(x: real): real
  {
    if x < 0.0 then -x else x
  }

  // ---------------------------------------------------------------------
  // Degrees
  // ---------------------------------------------------------------------

  /** The index of the first coefficient whose absolute value exceeds
      `tolerance`, or `|p|` when there is none. */
  function FirstSignificant(p: seq<real>, tolerance: real): (i: nat)
    ensures i <= |p|
    ensures forall j :: 0 <= j < i ==> Abs(p[j]) <= tolerance
    ensures i < |p| ==> Abs(p[i]) > tolerance
  {
    if |p| == 0 then 0
    else if Abs(p[0]) > tolerance then 0
    else 1 + FirstSignificant(p[1..], tolerance)
  }

  /** The degree of `p`: the power multiplied by its first significant
      coefficient, or `-1` when every coefficient is negligible. */
  function Degree(p: seq<real>, tolerance: real): (d: int)
    ensures -1 <= d < |p|
    ensures d == -1 <==> forall j :: 0 <= j < |p| ==> Abs(p[j]) <= tolerance
  {
    |p| - FirstSignificant(p, tolerance) - 1
  }

  /** `findHighestDegree`: scans for the first coefficient above the
      tolerance and returns its power; `-1` (all bits set, as a `size_t`)
      when there is none. */
  method FindHighestDegree(p: seq<real>, tolerance: real) returns (d: int)
    ensures d == Degree(p, tolerance)
    ensures d >= 0 ==> Abs(p[|p| - d - 1]) > tolerance
    ensures d >= 0 ==> forall j :: 0 <= j < |p| - d - 1 ==> Abs(p[j]) <= tolerance
  {
    var i := 0;
    while i < |p|
      invariant 0 <= i <= |p|
      invariant forall j :: 0 <= j < i ==> Abs(p[j]) <= tolerance
    {
      if Abs(p[i]) > tolerance {
        return |p| - i - 1;
      }
      i := i + 1;
    }
    return -1;
  }

  // ---------------------------------------------------------------------
  // Products of coefficient sequences
  // ---------------------------------------------------------------------

  /** The contribution of `q[a]` to coefficient `x` of the product with
      `d`: `q[a] * d[x - a]` when that entry of `d` exists. */
  function Term(q: seq<real>, d: seq<real>, x: nat, a: nat): real
    requires a < |q|
  {
    if a <= x && x - a < |d| then q[a] * d[x - a] else 0.0
  }

  /** The contributions of `q[lo] .. q[hi-1]` to coefficient `x`. */
  function Coeff(q: seq<real>, d: seq<real>, x: nat, lo: nat, hi: nat): real
    requires hi <= |q|
    decreases hi
  {
    if hi <= lo then 0.0 else Coeff(q, d, x, lo, hi - 1) + Term(q, d, x, hi - 1)
  }

  /** The product of two polynomials: `|q| + |d| - 1` coefficients. */
  function PolyProduct(q: seq<real>, d: seq<real>): seq<real>
    requires |q| + |d| >= 1
  {
    seq(|q| + |d| - 1, x requires 0 <= x < |q| + |d| - 1 => Coeff(q, d, x, 0, |q|))
  }

  /** The accumulator `convolution` fills: one more coefficient than the
      product, the last one always zero. */
  function Accumulated(u: seq<real>, v: seq<real>): seq<real>
  {
    seq(|u| + |v|, x requires 0 <= x < |u| + |v| => Coeff(u, v, x, 0, |u|))
  }

  /** `p` without its leading coefficients whose absolute value is below
      `tolerance`. */
  function DropLeadingSmall(p: seq<real>, tolerance: real): seq<real>
  {
    if |p| == 0 then p
    else if Abs(p[0]) < tolerance then DropLeadingSmall(p[1..], tolerance)
    else p
  }

  /** Trimming removes exactly the longest prefix of negligible
      coefficients: what is left is a suffix, everything removed is below
      the tolerance, and what is left starts with a coefficient that is
      not. */
  lemma {:induction false} DropLeadingSmallIsSuffix(p: seq<real>, tolerance: real)
    ensures var r := DropLeadingSmall(p, tolerance);
      |r| <= |p| && r == p[|p| - |r|..] &&
      (forall j :: 0 <= j < |p| - |r| ==> Abs(p[j]) < tolerance) &&
      (|r| > 0 ==> !(Abs(r[0]) < tolerance))
  {
    if |p| > 0 && Abs(p[0]) < tolerance {
      DropLeadingSmallIsSuffix(p[1..], tolerance);
      var r := DropLeadingSmall(p[1..], tolerance);
      forall j | 0 <= j < |p| - |r|
        ensures Abs(p[j]) < tolerance
      {
        if j > 0 {
          assert p[j] == p[1..][j - 1];
        }
      }
    }
  }

  /** Some coefficient of `p` is not below `tolerance`. */
  ghost predicate HasSignificant(p: seq<real>, tolerance: real)
  {
    exists j :: 0 <= j < |p| && !(Abs(p[j]) < tolerance)
  }

  // ---------------------------------------------------------------------
  // Properties of the specification functions
  // ---------------------------------------------------------------------

  /** The sum can be peeled from the low end as well as the high end. */
  lemma {:induction false} CoeffStepLow(q: seq<real>, d: seq<real>, x: nat, lo: nat, hi: nat)
    requires lo < hi <= |q|
    ensures Coeff(q, d, x, lo, hi) == Term(q, d, x, lo) + Coeff(q, d, x, lo + 1, hi)
    decreases hi
  {
    if lo + 1 < hi {
      CoeffStepLow(q, d, x, lo, hi - 1);
    }
  }

  /** `Coeff` only reads `q[lo .. hi-1]`. */
  lemma {:induction false} CoeffSameRange(q1: seq<real>, q2: seq<real>, d: seq<real>, x: nat, lo: nat, hi: nat)
    requires hi <= |q1| && hi <= |q2|
    requires forall a :: lo <= a < hi ==> q1[a] == q2[a]
    ensures Coeff(q1, d, x, lo, hi) == Coeff(q2, d, x, lo, hi)
    decreases hi
  {
    if lo < hi {
      CoeffSameRange(q1, q2, d, x, lo, hi - 1);
    }
  }

  /** No pair of coefficients reaches beyond the last power of the product. */
  lemma {:induction false} CoeffBeyondProduct(q: seq<real>, d: seq<real>, x: nat, lo: nat, hi: nat)
    requires hi <= |q| && x >= |q| + |d| - 1
    ensures Coeff(q, d, x, lo, hi) == 0.0
    decreases hi
  {
    if lo < hi {
      CoeffBeyondProduct(q, d, x, lo, hi - 1);
    }
  }

  /** When only `q[0]` is nonzero, coefficient `x` of the product is
      `q[0] * d[x]`. */
  lemma {:induction false} CoeffOfMonomial(q: seq<real>, d: seq<real>, x: nat, hi: nat)
    requires 1 <= hi <= |q| && forall a :: 1 <= a < |q| ==> q[a] == 0.0
    ensures Coeff(q, d, x, 0, hi) == if x < |d| then q[0] * d[x] else 0.0
    decreases hi
  {
    if hi > 1 {
      CoeffOfMonomial(q, d, x, hi - 1);
    }
  }

  /** The accumulator is the product followed by a zero. */
  lemma AccumulatedIsProductAndZero(u: seq<real>, v: seq<real>)
    requires |u| >= 1 && |v| >= 1
    ensures Accumulated(u, v) == PolyProduct(u, v) + [0.0]
  {
    CoeffBeyondProduct(u, v, |u| + |v| - 1, 0, |u|);
  }

  /** Multiplying by the constant polynomial `1` changes nothing. */
  lemma {:induction false} CoeffTimesOne(q: seq<real>, x: nat, hi: nat)
    requires hi <= |q| && x < |q|
    ensures Coeff(q, [1.0], x, 0, hi) == if x < hi then q[x] else 0.0
    decreases hi
  {
    if hi > 0 {
      CoeffTimesOne(q, x, hi - 1);
    }
  }

  lemma PolyProductByOne(q: seq<real>)
    requires |q| >= 1
    ensures PolyProduct(q, [1.0]) == q
  {
    forall x | 0 <= x < |q|
      ensures PolyProduct(q, [1.0])[x] == q[x]
    {
      CoeffTimesOne(q, x, |q|);
    }
  }

  /** The leading coefficient of a product is the product of the leading
      coefficients. */
  lemma {:induction false} CoeffAtZero(q: seq<real>, d: seq<real>, hi: nat)
    requires 1 <= hi <= |q| && |d| >= 1
    ensures Coeff(q, d, 0, 0, hi) == q[0] * d[0]
    decreases hi
  {
    if hi > 1 {
      CoeffAtZero(q, d, hi - 1);
    }
  }

  lemma PolyProductLeading(q: seq<real>, d: seq<real>)
    requires |q| >= 1 && |d| >= 1
    ensures PolyProduct(q, d)[0] == q[0] * d[0]
  {
    CoeffAtZero(q, d, |q|);
  }

  /** `(x + 2)(x + 1) = x^2 + 3x + 2`. */
  lemma PolyProductExample()
    ensures PolyProduct([1.0, 2.0], [1.0, 1.0]) == [1.0, 3.0, 2.0]
  {
    var p := PolyProduct([1.0, 2.0], [1.0, 1.0]);
    assert p[0] == Coeff([1.0, 2.0], [1.0, 1.0], 0, 0, 2) == 1.0;
    assert p[1] == Coeff([1.0, 2.0], [1.0, 1.0], 1, 0, 2) == 3.0;
    assert p[2] == Coeff([1.0, 2.0], [1.0, 1.0], 2, 0, 2) == 2.0;
  }

  /** Trimming sees past a trailing zero when something significant
      comes before it. */
  lemma {:induction false} DropLeadingSmallAppend(p: seq<real>, z: real, tolerance: real)
    requires HasSignificant(p, tolerance)
    ensures DropLeadingSmall(p + [z], tolerance) == DropLeadingSmall(p, tolerance) + [z]
    decreases |p|
  {
    if Abs(p[0]) < tolerance {
      assert (p + [z])[1..] == p[1..] + [z];
      var j :| 0 <= j < |p| && !(Abs(p[j]) < tolerance);
      assert p[1..][j - 1] == p[j];
      DropLeadingSmallAppend(p[1..], z, tolerance);
    }
  }

  // ---------------------------------------------------------------------
  // constructT and convolution
  // ---------------------------------------------------------------------

  /** `constructT`: accumulates `quotient[k-i-1] * divisor[l-j-1]` into
      entry `n - (i+j+1)` of `n = k + l - 1` zeros, which is the product
      of the two polynomials. */
  method ConstructT(quotient: seq<real>, divisor: seq<real>) returns (t: seq<real>)
    requires |quotient| + |divisor| >= 1
    ensures t == PolyProduct(quotient, divisor)
  {
    var k, l := |quotient|, |divisor|;
    var n := k + l - 1;
    t := seq(n, _ => 0.0);
    var i := 0;
    while i < k
      invariant 0 <= i <= k && |t| == n
      invariant forall x :: 0 <= x < n ==> t[x] == Coeff(quotient, divisor, x, k - i, k)
    {
      var a := k - i - 1;
      var j := 0;
      while j < l
        invariant 0 <= j <= l && |t| == n
        invariant forall x :: 0 <= x < n ==>
          t[x] == Coeff(quotient, divisor, x, a + 1, k) + (if a <= x && l - j <= x - a < l then quotient[a] * divisor[x - a] else 0.0)
      {
        var idx := n - (i + j + 1);
        t := t[idx := t[idx] + quotient[k - i - 1] * divisor[l - j - 1]];
        j := j + 1;
      }
      forall x | 0 <= x < n
        ensures t[x] == Coeff(quotient, divisor, x, a, k)
      {
        CoeffStepLow(quotient, divisor, x, a, k);
      }
      i := i + 1;
    }
  }

  /** `TSA::convolution`: accumulates `u[i] * v[k]` into entry `i + k` of
      `n + m` zeros, pops leading coefficients below the tolerance, then
      pops the last one. The trimming loop reads entry 0 before testing
      for emptiness, so some coefficient must survive it. The result is
      the product with its negligible leading coefficients removed. */
  method Convolution(u: seq<real>, v: seq<real>, tolerance: real) returns (r: seq<real>)
    requires HasSignificant(Accumulated(u, v), tolerance)
    ensures |r| + 1 == |DropLeadingSmall(Accumulated(u, v), tolerance)|
    ensures r + [0.0] == DropLeadingSmall(Accumulated(u, v), tolerance)
    ensures |u| >= 1 && |v| >= 1 ==> r == DropLeadingSmall(PolyProduct(u, v), tolerance)
  {
    var n, m := |u|, |v|;
    var result := seq(n + m, _ => 0.0);
    var i := 0;
    while i < n
      invariant 0 <= i <= n && PartialSums(result, u, v, i, 0)
    {
      var k := 0;
      while k < m
        invariant 0 <= k <= m && PartialSums(result, u, v, i, k)
      {
        PartialSumsStep(result, u, v, i, k);
        result := result[i + k := result[i + k] + u[i] * v[k]];
        k := k + 1;
      }
      PartialSumsNextRow(result, u, v, i);
      i := i + 1;
    }
    PartialSumsComplete(result, u, v);
    CoeffBeyondProduct(u, v, n + m - 1, 0, n);
    ghost var acc := result;
    while Abs(result[0]) < tolerance && 0 < |result|
      invariant HasSignificant(result, tolerance)
      invariant DropLeadingSmall(result, tolerance) == DropLeadingSmall(acc, tolerance)
      invariant |result| >= 1 && result[|result| - 1] == 0.0
      decreases |result|
    {
      DropSmallFirst(result, tolerance);
      result := result[1..];
    }
    r := result[..|result| - 1];
    assert r + [0.0] == result;
    if n >= 1 && m >= 1 {
      TrimmedAccumulated(u, v, tolerance);
      assert r == (r + [0.0])[..|r|];
    }
  }

  /** The accumulator of `convolution` after the first `i` rows of the
      double loop and `k` columns of row `i`. */
  ghost predicate PartialSums(result: seq<real>, u: seq<real>, v: seq<real>, i: nat, k: nat)
  {
    |result| == |u| + |v| && i <= |u| && k <= |v| &&
    forall x :: 0 <= x < |result| ==>
      result[x] == Coeff(u, v, x, 0, i) + (if i < |u| && i <= x && x - i < k then u[i] * v[x - i] else 0.0)
  }

  /** Adding `u[i] * v[k]` at `i + k` takes in one more column. */
  lemma PartialSumsStep(result: seq<real>, u: seq<real>, v: seq<real>, i: nat, k: nat)
    requires PartialSums(result, u, v, i, k) && i < |u| && k < |v|
    ensures PartialSums(result[i + k := result[i + k] + u[i] * v[k]], u, v, i, k + 1)
  {
  }

  /** A finished row `i` is the contribution of `u[i]`. */
  lemma PartialSumsNextRow(result: seq<real>, u: seq<real>, v: seq<real>, i: nat)
    requires PartialSums(result, u, v, i, |v|) && i < |u|
    ensures PartialSums(result, u, v, i + 1, 0)
  {
  }

  /** After every row the accumulator holds the full convolution. */
  lemma PartialSumsComplete(result: seq<real>, u: seq<real>, v: seq<real>)
    requires PartialSums(result, u, v, |u|, 0)
    ensures result == Accumulated(u, v)
  {
  }

  /** Popping a negligible first coefficient keeps a significant one and
      does not change what trimming leaves. */
  lemma DropSmallFirst(p: seq<real>, tolerance: real)
    requires |p| >= 1 && Abs(p[0]) < tolerance && HasSignificant(p, tolerance)
    ensures HasSignificant(p[1..], tolerance)
    ensures DropLeadingSmall(p[1..], tolerance) == DropLeadingSmall(p, tolerance)
  {
    var j :| 0 <= j < |p| && !(Abs(p[j]) < tolerance);
    assert p[1..][j - 1] == p[j];
  }

  /** Trimming the accumulator leaves the trimmed product and the zero. */
  lemma TrimmedAccumulated(u: seq<real>, v: seq<real>, tolerance: real)
    requires |u| >= 1 && |v| >= 1 && HasSignificant(Accumulated(u, v), tolerance)
    ensures DropLeadingSmall(Accumulated(u, v), tolerance) == DropLeadingSmall(PolyProduct(u, v), tolerance) + [0.0]
  {
    AccumulatedIsProductAndZero(u, v);
    var p, acc := PolyProduct(u, v), Accumulated(u, v);
    var j :| 0 <= j < |acc| && !(Abs(acc[j]) < tolerance);
    if j < |p| {
      assert p[j] == acc[j];
    } else {
      assert !(Abs(p[0]) < tolerance);
    }
    DropLeadingSmallAppend(p, 0.0, tolerance);
  }

  // ---------------------------------------------------------------------
  // polynomial_division
  // ---------------------------------------------------------------------

  /** After `s` steps of the division the original dividend is
      `q[..s] * d` plus what is left of the dividend, shifted past the `s`
      computed quotient coefficients. */
  ghost predicate DividedSoFar(original: seq<real>, q: seq<real>, d: seq<real>, s: nat, rest: seq<real>)
  {
    s <= |q| && |original| == s + |rest| &&
    forall k :: 0 <= k < |original| ==>
      original[k] == Coeff(q, d, k, 0, s) + (if k >= s then rest[k - s] else 0.0)
  }

  /** One step of the division keeps `DividedSoFar`: it sets
      `Q[s] = D_s[0] / d[0]`, subtracts `Q[s] * d` (the product of `d`
      with the monomial `temp`) from the front of `D_s` and drops the first
      coefficient, which that subtraction made zero. */
  lemma DivisionStep(original: seq<real>, q: seq<real>, q': seq<real>, d: seq<real>, s: nat,
                     rest: seq<real>, temp: seq<real>, t: seq<real>, rest': seq<real>)
    requires DividedSoFar(original, q, d, s, rest)
    requires |d| >= 1 && d[0] != 0.0 && s < |q| && |q'| == |q|
    requires forall a :: 0 <= a < s ==> q'[a] == q[a]
    requires |rest| >= 1 && q'[s] == rest[0] / d[0]
    requires |temp| >= 1 && temp[0] == q'[s] && forall a :: 1 <= a < |temp| ==> temp[a] == 0.0
    requires t == PolyProduct(temp, d) && |t| == |rest|
    requires rest' == Difference(rest, t)[1..]
    ensures DividedSoFar(original, q', d, s + 1, rest')
  {
    MonomialProduct(temp, d);
    assert forall j :: 0 <= j < |rest'| ==> rest'[j] == rest[j + 1] - t[j + 1];
    DivisionStepPointwise(original, q, q', d, s, rest, t, rest');
  }

  /** The product of `d` with a monomial `c * X^0` (all other
      coefficients zero) is `d` scaled by `c`, padded with zeros. */
  lemma MonomialProduct(temp: seq<real>, d: seq<real>)
    requires |temp| >= 1 && forall a :: 1 <= a < |temp| ==> temp[a] == 0.0
    ensures forall x :: 0 <= x < |PolyProduct(temp, d)| ==>
      PolyProduct(temp, d)[x] == if x < |d| then temp[0] * d[x] else 0.0
  {
    forall x | 0 <= x < |PolyProduct(temp, d)|
      ensures PolyProduct(temp, d)[x] == if x < |d| then temp[0] * d[x] else 0.0
    {
      CoeffOfMonomial(temp, d, x, |temp|);
    }
  }

  /** `DivisionStep` with the subtracted product and the new remainder
      given coefficient by coefficient. */
  lemma DivisionStepPointwise(original: seq<real>, q: seq<real>, q': seq<real>, d: seq<real>, s: nat,
                              rest: seq<real>, t: seq<real>, rest': seq<real>)
    requires DividedSoFar(original, q, d, s, rest)
    requires |d| >= 1 && d[0] != 0.0 && s < |q| && |q'| == |q|
    requires forall a :: 0 <= a < s ==> q'[a] == q[a]
    requires |rest| >= 1 && q'[s] == rest[0] / d[0]
    requires |t| == |rest| && forall x :: 0 <= x < |t| ==> t[x] == if x < |d| then q'[s] * d[x] else 0.0
    requires |rest'| + 1 == |rest| && forall j :: 0 <= j < |rest'| ==> rest'[j] == rest[j + 1] - t[j + 1]
    ensures DividedSoFar(original, q', d, s + 1, rest')
  {
    forall k | 0 <= k < |original|
      ensures original[k] == Coeff(q', d, k, 0, s + 1) + (if k >= s + 1 then rest'[k - s - 1] else 0.0)
    {
      var before := Coeff(q, d, k, 0, s);
      assert original[k] == before + (if k >= s then rest[k - s] else 0.0);
      CoeffSameRange(q, q', d, k, 0, s);
      assert Coeff(q', d, k, 0, s + 1) == before + Term(q', d, k, s);
      if k == s {
        assert q'[s] * d[0] == rest[0];
      } else if k > s {
        assert rest'[k - s - 1] == rest[k - s] - t[k - s];
      }
    }
  }

  /** Once every quotient coefficient is computed, the original dividend
      is the product of quotient and divisor plus the remainder aligned
      with its last coefficients. */
  lemma DividedCompletely(original: seq<real>, q: seq<real>, d: seq<real>, rest: seq<real>)
    requires |q| + |d| >= 1 && |q| + |d| - 1 == |original|
    requires DividedSoFar(original, q, d, |q|, rest)
    ensures original == Sum(PolyProduct(q, d), seq(|q|, _ => 0.0) + rest)
  {
    var product := PolyProduct(q, d);
    assert |product| == |original|;
  }

  /** The size_t arithmetic of the degrees in `polynomial_division`. */
  const SizeModulus: int := 0x1_0000_0000_0000_0000

  /** `degreeDividend--` on a `size_t`. */
  function UnsignedDecrement(x: nat): (y: nat)
    requires x < SizeModulus
    ensures y < SizeModulus
  {
    (x - 1) % SizeModulus
  }

  /** The index `dividend.dimension() - degreeDividend - 1`, as a `size_t`. */
  function UnsignedCoefficientIndex(length: nat, degree: nat): (i: nat)
    requires length < SizeModulus && degree < SizeModulus
    ensures i < SizeModulus
  {
    (length - degree - 1) % SizeModulus
  }

  /** With a divisor of degree 0 the loop guard `degreeDividend >=
      degreeDivisor` compares against 0, which every `size_t` passes: after
      the step at degree 0 the degree wraps to the largest `size_t`, the
      loop goes on with a degree no shorter than the dividend (so the
      bound `degreeDividend < |dividend.components|` that `DivisionRound`
      demands fails), and the coefficient it then reads is at index
      `dividend.dimension()`, one past the end. */
  lemma ConstantDivisorOverrunsDividend(length: nat)
    requires length < SizeModulus
    ensures UnsignedDecrement(0) == SizeModulus - 1
    ensures UnsignedDecrement(0) >= length
    ensures UnsignedCoefficientIndex(length, UnsignedDecrement(0)) == length
  {
  }

  /** `TSA::polynomial_division`: long division of `dividend` by
      `divisor`, highest power first. The quotient gets one coefficient
      per step; each step subtracts the matching multiple of the divisor
      from the front of `dividend` and drops its first coefficient, so
      `dividend` is left holding the remainder (`|divisor| - 1`
      coefficients). `dividend - t` throws when the two lengths differ,
      which happens exactly when the dividend and the divisor have a
      different number of negligible leading coefficients.

      The degrees are `size_t` in the library, with `-1` standing for the
      largest value. A quotient size `Degree(dividend) - Degree(divisor) + 1`
      below zero wraps to a size beyond `max_size()`, so the quotient's
      constructor throws `length_error`. A negligible divisor (degree `-1`,
      the largest `size_t`) under a dividend that has a degree never enters
      the loop and yields zeros, as does a dividend one degree short of the
      divisor (an empty quotient). A negligible dividend divided by a
      constant or by a negligible divisor would enter the loop (its test is
      `0 >= 0` or `SIZE_MAX >= SIZE_MAX`) and read `dividend[dimension()]`,
      past the end; both are excluded. The loop here ends after the
      step at degree `Degree(divisor)` also when that degree is 0, where
      the library's decrement wraps (`ConstantDivisorOverrunsDividend`).
      When neither polynomial has negligible leading coefficients,
      `dividend = quotient * divisor + remainder`. */
  method PolynomialDivision(dividend: Vector, divisor: seq<real>, tolerance: real) returns (r: Result<seq<real>>)
    requires tolerance >= 0.0
    requires Degree(dividend.components, tolerance) == -1 ==> Degree(divisor, tolerance) > 0
    modifies dividend
    ensures Degree(old(dividend.components), tolerance) + 1 < Degree(divisor, tolerance) ==> r == Err(LengthError)
    ensures DegreesDivide(old(dividend.components), divisor, tolerance) ==>
      (r.Err? <==> FirstSignificant(old(dividend.components), tolerance) != FirstSignificant(divisor, tolerance))
    ensures DegreesDivide(old(dividend.components), divisor, tolerance) && r.Err? ==> r.error == MinusOne
    ensures r.Err? ==> dividend.components == old(dividend.components)
    ensures r.Ok? ==> |r.value| == Degree(old(dividend.components), tolerance) - Degree(divisor, tolerance) + 1
    ensures !DegreesDivide(old(dividend.components), divisor, tolerance) &&
            Degree(divisor, tolerance) <= Degree(old(dividend.components), tolerance) + 1 ==>
      r.Ok? && dividend.components == old(dividend.components) && forall a :: 0 <= a < |r.value| ==> r.value[a] == 0.0
    ensures r.Ok? && DegreesDivide(old(dividend.components), divisor, tolerance) ==>
      |dividend.components| == |divisor| - 1
    ensures r.Ok? && DegreesDivide(old(dividend.components), divisor, tolerance) && FirstSignificant(divisor, tolerance) == 0 ==>
      |PolyProduct(r.value, divisor)| == |old(dividend.components)| &&
      old(dividend.components) == Sum(PolyProduct(r.value, divisor), seq(|r.value|, _ => 0.0) + dividend.components)
  {
    ghost var original := dividend.components;
    var degreeDividend := FindHighestDegree(dividend.components, tolerance);
    var degreeDivisor := FindHighestDegree(divisor, tolerance);
    var degreeQuotient := degreeDividend - degreeDivisor;
    if degreeQuotient + 1 < 0 {
      return Err(LengthError);
    }
    var quotient := seq(degreeQuotient + 1, _ => 0.0);
    if (degreeDivisor < 0 && degreeDividend >= 0) || 0 <= degreeDividend < degreeDivisor {
      // The loop's first test fails: a negligible divisor has degree `-1`,
      // the largest `size_t`, which no dividend degree reaches.
      return Ok(quotient);
    }
    ghost var lead := FirstSignificant(divisor, tolerance);
    ghost var first := FirstSignificant(original, tolerance);
    ghost var top := Degree(original, tolerance);
    ghost var s: nat := 0;
    while degreeDividend >= degreeDivisor
      invariant degreeDividend == top - s && top == |original| - first - 1
      invariant degreeDivisor == |divisor| - 1 - lead
      invariant s <= top - degreeDivisor + 1
      invariant degreeQuotient == degreeDividend - degreeDivisor
      invariant |quotient| == top - degreeDivisor + 1
      invariant |dividend.components| == |original| - s
      invariant s > 0 ==> first == lead
      invariant s == 0 ==> dividend.components == original
      invariant lead == 0 ==> DividedSoFar(original, quotient, divisor, s, dividend.components)
      decreases degreeDividend - degreeDivisor + 1
    {
      var ok;
      quotient, ok := DivisionRound(dividend, divisor, quotient, degreeDividend, degreeDivisor, original, s);
      if !ok {
        return Err(MinusOne);
      }
      degreeDividend := degreeDividend - 1;
      degreeQuotient := degreeQuotient - 1;
      s := s + 1;
    }
    if lead == 0 {
      DividedCompletely(original, quotient, divisor, dividend.components);
    }
    return Ok(quotient);
  }

  /** The divisor has a degree and it is at most the dividend's: the
      division loop runs at least once. */
  predicate DegreesDivide(dividend: seq<real>, divisor: seq<real>, tolerance: real)
  {
    0 <= Degree(divisor, tolerance) <= Degree(dividend, tolerance)
  }

  /** The coefficients of `c * X^n`, highest power first. */
  function Monomial(c: real, n: nat): (m: seq<real>)
    ensures |m| == n + 1 && m[0] == c
    ensures forall a :: 1 <= a < |m| ==> m[a] == 0.0
  {
    [c] + seq(n, _ => 0.0)
  }

  /** One round of the division loop: the next quotient coefficient is
      the leading coefficient of the dividend over that of the divisor;
      the divisor times that coefficient is subtracted from the dividend
      (which fails, leaving it unchanged, when the two lengths differ)
      and the dividend's first coefficient is dropped. A round keeps
      `DividedSoFar` when the divisor's first coefficient is its leading
      one. */
  method DivisionRound(dividend: Vector, divisor: seq<real>, quotient: seq<real>,
                       degreeDividend: nat, degreeDivisor: nat, ghost original: seq<real>, ghost s: nat)
    returns (quotient': seq<real>, ok: bool)
    requires degreeDivisor <= degreeDividend < |dividend.components| && degreeDivisor < |divisor|
    requires divisor[|divisor| - 1 - degreeDivisor] != 0.0
    requires |quotient| - 1 - (degreeDividend - degreeDivisor) == s
    modifies dividend
    ensures ok <==> |old(dividend.components)| - degreeDividend == |divisor| - degreeDivisor
    ensures !ok ==> dividend.components == old(dividend.components)
    ensures ok ==> |dividend.components| == |old(dividend.components)| - 1
    ensures quotient' == quotient[|quotient| - 1 - (degreeDividend - degreeDivisor) :=
      old(dividend.components)[|old(dividend.components)| - degreeDividend - 1] / divisor[|divisor| - 1 - degreeDivisor]]
    ensures ok ==>
      dividend.components == Difference(old(dividend.components), PolyProduct(Monomial(quotient'[s], degreeDividend - degreeDivisor), divisor))[1..]
    ensures ok && degreeDivisor == |divisor| - 1 && DividedSoFar(original, quotient, divisor, s, old(dividend.components)) ==>
      DividedSoFar(original, quotient', divisor, s + 1, dividend.components)
  {
    var degreeQuotient := degreeDividend - degreeDivisor;
    var coefficient := dividend.components[dividend.Dimension() - degreeDividend - 1] /
                       divisor[|divisor| - 1 - degreeDivisor];
    quotient' := quotient[|quotient| - 1 - degreeQuotient := coefficient];
    var temp := seq(degreeQuotient + 1, _ => 0.0);
    temp := temp[|temp| - degreeDividend + degreeDivisor - 1 := coefficient];
    assert temp == Monomial(coefficient, degreeQuotient);
    var t := ConstructT(temp, divisor);
    var tv := new Vector.FromBuffer(t);
    var difference := dividend.Minus(tv);
    if difference.Err? {
      return quotient', false;
    }
    ghost var rest := dividend.components;
    dividend.Assign(difference.value);
    dividend.PopFront();
    if degreeDivisor == |divisor| - 1 && DividedSoFar(original, quotient, divisor, s, rest) {
      DivisionStep(original, quotient, quotient', divisor, s, rest, temp, t, dividend.components);
    }
    return quotient', true;
  }
}
