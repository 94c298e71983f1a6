/** The `Vector` value type of src/vector.cpp: a growable sequence of
    doubles (modelled as reals) with element-wise arithmetic, a dot
    product, a unit vector and insertion/removal at both ends. */
module Vectors {
  import opened Results

  /** The threshold below which `unitVector` treats a magnitude as zero
      (`1e-7`). */
  const Tolerance: real := 0.0000001

  // ---------------------------------------------------------------------
  // Specification functions on component sequences
  // ---------------------------------------------------------------------

  /** Element-wise sum of two sequences of equal length. */
  function Sum(a: seq<real>, b: seq<real>): seq<real>
    requires |a| == |b|
  {
    seq(|a|, i requires 0 <= i < |a| => a[i] + b[i])
  }

  /** Element-wise difference of two sequences of equal length. */
  function Difference(a: seq<real>, b: seq<real>): seq<real>
    requires |a| == |b|
  {
    seq(|a|, i requires 0 <= i < |a| => a[i] - b[i])
  }

  /** Every element divided by `d`. */
  function Divided(a: seq<real>, d: real): seq<real>
    requires d != 0.0
  {
    seq(|a|, i requires 0 <= i < |a| => a[i] / d)
  }

  /** Every element multiplied by `s`. */
  function Scaled(a: seq<real>, s: real): seq<real>
  {
    seq(|a|, i requires 0 <= i < |a| => a[i] * s)
  }

  /** `a[0]*b[0] + ... + a[k-1]*b[k-1]`, accumulated in index order. */
  function DotUpTo(a: seq<real>, b: seq<real>, k: nat): real
    requires k <= |a| && k <= |b|
  {
    if k == 0 then 0.0 else DotUpTo(a, b, k - 1) + a[k - 1] * b[k - 1]
  }

  /** The dot product of two sequences of equal length. */
  function Dot(a: seq<real>, b: seq<real>): real
    requires |a| == |b|
  {
    DotUpTo(a, b, |a|)
  }

  /** The sum of squares of the elements: the square of the magnitude. */
  function SquaredSum(a: seq<real>): real
  {
    Dot(a, a)
  }

  /** `s` with its length changed to `n`, as `std::vector::resize` does:
      truncated, or padded with zeros. */
  function Resized(s: seq<real>, n: nat): (r: seq<real>)
    ensures |r| == n
    ensures forall i :: 0 <= i < n && i < |s| ==> r[i] == s[i]
    ensures forall i :: |s| <= i < n ==> r[i] == 0.0
  {
    if n <= |s| then s[..n] else s + seq(n - |s|, _ => 0.0)
  }

  // ---------------------------------------------------------------------
  // Properties of the specification functions
  // ---------------------------------------------------------------------

  /** Subtracting `b` undoes adding `b`: `-` is the inverse of `+`. */
  lemma DifferenceUndoesSum(a: seq<real>, b: seq<real>)
    requires |a| == |b|
    ensures Difference(Sum(a, b), b) == a
    ensures Sum(Difference(a, b), b) == a
  {
  }

  /** Over the reals the dot product is symmetric. */
  lemma {:induction false} DotUpToSymmetric(a: seq<real>, b: seq<real>, k: nat)
    requires k <= |a| && k <= |b|
    ensures DotUpTo(a, b, k) == DotUpTo(b, a, k)
  {
    if k > 0 {
      DotUpToSymmetric(a, b, k - 1);
    }
  }

  lemma DotSymmetric(a: seq<real>, b: seq<real>)
    requires |a| == |b|
    ensures Dot(a, b) == Dot(b, a)
  {
    DotUpToSymmetric(a, b, |a|);
  }

  /** The zero vector has squared magnitude 0. */
  lemma {:induction false} ZeroVectorSquaredSumUpTo(a: seq<real>, k: nat)
    requires k <= |a|
    requires forall i :: 0 <= i < |a| ==> a[i] == 0.0
    ensures DotUpTo(a, a, k) == 0.0
  {
    if k > 0 {
      ZeroVectorSquaredSumUpTo(a, k - 1);
    }
  }

  /** Since a magnitude is the non-negative root of the squared sum, the
      zero vector's magnitude is below the tolerance. */
  lemma ZeroVectorHasSmallMagnitude(a: seq<real>, m: real)
    requires forall i :: 0 <= i < |a| ==> a[i] == 0.0
    requires m >= 0.0 && m * m == SquaredSum(a)
    ensures SquaredSum(a) == 0.0
    ensures m < Tolerance
  {
    ZeroVectorSquaredSumUpTo(a, |a|);
    SmallMagnitudeIffSmallSquaredSum(m, SquaredSum(a));
  }

  /** Scaling by `c` scales the squared magnitude by `c*c`. */
  lemma {:induction false} SquaredSumUpToScaled(a: seq<real>, c: real, k: nat)
    requires k <= |a|
    ensures DotUpTo(Scaled(a, c), Scaled(a, c), k) == c * c * DotUpTo(a, a, k)
  {
    if k > 0 {
      SquaredSumUpToScaled(a, c, k - 1);
      var s := Scaled(a, c);
      assert s[k - 1] * s[k - 1] == c * c * (a[k - 1] * a[k - 1]);
    }
  }

  lemma SquaredSumScaled(a: seq<real>, c: real)
    ensures SquaredSum(Scaled(a, c)) == c * c * SquaredSum(a)
  {
    SquaredSumUpToScaled(a, c, |a|);
  }

  /** A magnitude `m` (the non-negative square root of the squared sum `ss`)
      is below the tolerance exactly when `ss` is below its square. */
  lemma SmallMagnitudeIffSmallSquaredSum(m: real, ss: real)
    requires m >= 0.0 && m * m == ss
    ensures m < Tolerance <==> ss < Tolerance * Tolerance
  {
    if m < Tolerance {
      assert m * m <= m * Tolerance;
      assert m * Tolerance < Tolerance * Tolerance;
    } else {
      assert m * m >= m * Tolerance;
      assert m * Tolerance >= Tolerance * Tolerance;
    }
  }

  /** Dividing by `d` is scaling by `1/d`. */
  lemma DividedIsScaled(a: seq<real>, d: real)
    requires d != 0.0
    ensures Divided(a, d) == Scaled(a, 1.0 / d)
  {
    forall i | 0 <= i < |a|
      ensures Divided(a, d)[i] == Scaled(a, 1.0 / d)[i]
    {
      assert a[i] / d == a[i] * (1.0 / d);
    }
  }

  /** Dividing every element by the magnitude yields squared magnitude 1,
      that is, a vector of magnitude 1. */
  lemma UnitVectorHasUnitLength(a: seq<real>, m: real)
    requires m > 0.0 && m * m == SquaredSum(a)
    ensures SquaredSum(Divided(a, m)) == 1.0
  {
    DividedIsScaled(a, m);
    SquaredSumScaled(a, 1.0 / m);
    assert (1.0 / m) * (1.0 / m) * (m * m) == 1.0;
  }

  // ---------------------------------------------------------------------
  // The class
  // ---------------------------------------------------------------------

  class Vector {
    /** The owned buffer (`std::vector<double> components`). */
    var components: seq<real>

    /** `dimension()`: the number of components. */
    function Dimension(): (d: nat)
      reads this
      ensures d == |components|
      ensures d == 0 <==> components == []
    {
      |components|
    }

    /** Construction from a buffer, by copy or by move. */
    constructor FromBuffer(buffer: seq<real>)
      ensures components == buffer
    {
      components := buffer;
    }

    /** The copy constructor: a deep copy of `other`'s buffer. */
    constructor Copy(other: Vector)
      ensures components == other.components
    {
      components := other.components;
    }

    /** `Vector(dimension, default_value)`. */
    constructor Filled(dimension: nat, value: real)
      ensures |components| == dimension
      ensures forall i :: 0 <= i < dimension ==> components[i] == value
    {
      components := seq(dimension, _ => value);
    }

    /** Copy assignment: a no-op on self-assignment; otherwise resize to
        `other`'s length, then copy element by element. */
    method Assign(other: Vector)
      modifies this
      ensures components == old(other.components)
    {
      if this == other {
        return;
      }
      var n := |other.components|;
      components := Resized(components, n);
      var i := 0;
      while i < n
        invariant 0 <= i <= n
        invariant |components| == n
        invariant other.components == old(other.components)
        invariant components[..i] == other.components[..i]
      {
        components := components[i := other.components[i]];
        i := i + 1;
      }
      assert components == components[..n];
    }

    /** `operator+`: element-wise sum. The length used is
        `(equal lengths) * dimension`, and a length of 0 throws, so two
        empty vectors fail as well as two of different lengths. */
    method Plus(other: Vector) returns (r: Result<Vector>)
      ensures r.Err? <==> |other.components| != |components| || |components| == 0
      ensures r.Err? ==> r.error == MinusOne
      ensures r.Ok? ==> fresh(r.value) && |r.value.components| == |components|
      ensures r.Ok? ==> r.value.components == Sum(components, other.components)
    {
      var n := if |other.components| == |components| then |components| else 0;
      var result := seq(n, _ => 0.0);
      if n == 0 {
        return Err(MinusOne);
      }
      var i := 0;
      while i < n
        invariant 0 <= i <= n && |result| == n
        invariant forall j :: 0 <= j < i ==> result[j] == components[j] + other.components[j]
      {
        result := result[i := components[i] + other.components[i]];
        i := i + 1;
      }
      var v := new Vector.FromBuffer(result);
      return Ok(v);
    }

    /** `operator-`: element-wise difference, failing exactly as `+` does. */
    method Minus(other: Vector) returns (r: Result<Vector>)
      ensures r.Err? <==> |other.components| != |components| || |components| == 0
      ensures r.Err? ==> r.error == MinusOne
      ensures r.Ok? ==> fresh(r.value) && |r.value.components| == |components|
      ensures r.Ok? ==> r.value.components == Difference(components, other.components)
    {
      var n := if |other.components| == |components| then |components| else 0;
      var result := seq(n, _ => 0.0);
      if n == 0 {
        return Err(MinusOne);
      }
      var i := 0;
      while i < n
        invariant 0 <= i <= n && |result| == n
        invariant forall j :: 0 <= j < i ==> result[j] == components[j] - other.components[j]
      {
        result := result[i := components[i] - other.components[i]];
        i := i + 1;
      }
      var v := new Vector.FromBuffer(result);
      return Ok(v);
    }

    /** `operator*(double)`: scales every element; never fails. */
    method Times(scalar: real) returns (v: Vector)
      ensures fresh(v) && |v.components| == |components|
      ensures forall i :: 0 <= i < |components| ==> v.components[i] == components[i] * scalar
    {
      var n := |components|;
      var result := seq(n, _ => 0.0);
      var i := 0;
      while i < n
        invariant 0 <= i <= n && |result| == n
        invariant forall j :: 0 <= j < i ==> result[j] == components[j] * scalar
      {
        result := result[i := components[i] * scalar];
        i := i + 1;
      }
      v := new Vector.FromBuffer(result);
    }

    /** `operator*(const Vector&)`: the dot product, failing exactly as
        `+` does. */
    method DotProduct(other: Vector) returns (r: Result<real>)
      ensures r.Err? <==> |other.components| != |components| || |components| == 0
      ensures r.Err? ==> r.error == MinusOne
      ensures r.Ok? ==> r.value == Dot(components, other.components)
    {
      var n := if |other.components| == |components| then |components| else 0;
      var result := 0.0;
      if n == 0 {
        return Err(MinusOne);
      }
      var i := 0;
      while i < n
        invariant 0 <= i <= n
        invariant result == DotUpTo(components, other.components, i)
      {
        result := result + components[i] * other.components[i];
        i := i + 1;
      }
      return Ok(result);
    }

    /** The accumulation loop of `magnitude()`: the sum of squares, whose
        square root `magnitude()` returns. */
    method SquaredMagnitude() returns (squaredSum: real)
      ensures squaredSum == SquaredSum(components)
      ensures (forall i :: 0 <= i < |components| ==> components[i] == 0.0) ==> squaredSum == 0.0
    {
      var n := |components|;
      squaredSum := 0.0;
      var i := 0;
      while i < n
        invariant 0 <= i <= n
        invariant squaredSum == DotUpTo(components, components, i)
      {
        squaredSum := squaredSum + components[i] * components[i];
        i := i + 1;
      }
      if forall i :: 0 <= i < |components| ==> components[i] == 0.0 {
        ZeroVectorSquaredSumUpTo(components, n);
      }
    }

    /** `unitVector()`, given the `magnitude()` of this vector: the zero
        vector of the same length when the magnitude is below `1e-7`,
        otherwise every element divided by the magnitude (a vector of
        magnitude 1). */
    method UnitVector(magnitude: real) returns (u: Vector)
      requires magnitude >= 0.0 && magnitude * magnitude == SquaredSum(components)
      ensures fresh(u) && |u.components| == |components|
      ensures magnitude < Tolerance ==> forall i :: 0 <= i < |components| ==> u.components[i] == 0.0
      ensures magnitude >= Tolerance ==> u.components == Divided(components, magnitude)
      ensures magnitude >= Tolerance ==> SquaredSum(u.components) == 1.0
    {
      var n := |components|;
      var result := seq(n, _ => 0.0);
      if magnitude >= Tolerance {
        var i := 0;
        while i < n
          invariant 0 <= i <= n && |result| == n
          invariant forall j :: 0 <= j < i ==> result[j] == components[j] / magnitude
        {
          result := result[i := components[i] / magnitude];
          i := i + 1;
        }
        UnitVectorHasUnitLength(components, magnitude);
      }
      u := new Vector.FromBuffer(result);
    }

    /** The const `operator[]`, which reads through `std::vector::at`. */
    method At(index: nat) returns (r: Result<real>)
      ensures r.Ok? <==> index < |components|
      ensures r.Ok? ==> r.value == components[index]
      ensures r.Err? ==> r.error == OutOfRange
    {
      if index < |components| {
        r := Ok(components[index]);
      } else {
        r := Err(OutOfRange);
      }
    }

    /** Reading through the reference the mutable `operator[]` returns;
        its range check is commented out, so the index must be in range. */
    method Element(index: nat) returns (x: real)
      requires index < |components|
      ensures x == components[index]
    {
      x := components[index];
    }

    /** Writing through the reference the mutable `operator[]` returns. */
    method SetElement(index: nat, value: real)
      requires index < |components|
      modifies this
      ensures components == old(components)[index := value]
    {
      components := components[index := value];
    }

    /** `pushFront`: `value` becomes element 0; the old elements follow. */
    method PushFront(value: real)
      modifies this
      ensures |components| == |old(components)| + 1
      ensures components[0] == value && components[1..] == old(components)
    {
      components := [value] + components;
    }

    /** `pushBack`: `value` is appended; the prefix is unchanged. */
    method PushBack(value: real)
      modifies this
      ensures |components| == |old(components)| + 1
      ensures components[|components| - 1] == value
      ensures components[..|components| - 1] == old(components)
    {
      components := components + [value];
    }

    /** `popBack`: removes the last element (undefined on an empty vector). */
    method PopBack()
      requires |components| > 0
      modifies this
      ensures components == old(components)[..|old(components)| - 1]
    {
      components := components[..|components| - 1];
    }

    /** `popFront`: removes the first element (undefined on an empty vector). */
    method PopFront()
      requires |components| > 0
      modifies this
      ensures components == old(components)[1..]
    {
      components := components[1..];
    }
  }
}
