/** Free vector functions: magnitude, dot product, absolute value and
    normalisation.

    `std::sqrtf` is a library call whose body is not part of the model: the
    functions that need it take it as a parameter `sqrt`, of which they only
    assume that it gives the non-negative square root of a non-negative
    argument. */
module VectorMaths {
  import opened Vectors
  import opened Reals

  /** `sqrt` returns the non-negative square root of every non-negative real. */
  ghost predicate IsSqrt(sqrt: real -> real)
  {
    forall a :: 0.0 <= a ==> 0.0 <= sqrt(a) && sqrt(a) * sqrt(a) == a
  }

  /** The non-negative square root is unique: any `s >= 0` with `s * s == a` is `sqrt(a)`. */
  lemma SqrtUnique(sqrt: real -> real, a: real, s: real)
    requires IsSqrt(sqrt)
    requires 0.0 <= s && s * s == a
    ensures sqrt(a) == s
  {
    var t := sqrt(a);
    assert 0.0 <= t && t * t == a;
    SquareInjective(t, s, a, a);
  }

  /** The square root is strictly increasing, so comparing roots is comparing
      the numbers under them. */
  lemma SqrtMonotone(sqrt: real -> real, a: real, b: real)
    requires IsSqrt(sqrt)
    requires 0.0 <= a && 0.0 <= b
    ensures sqrt(a) < sqrt(b) <==> a < b
  {
    var s, t := sqrt(a), sqrt(b);
    assert 0.0 <= s && s * s == a;
    assert 0.0 <= t && t * t == b;
    SquareLess(s, t, a, b);
  }

  /** `vec_magnitude_squared` */
  function MagnitudeSquared(v: Vec): real
  {
    v.x * v.x + v.y * v.y
  }

  /** The squared magnitude is never negative and is zero exactly for the null vector. */
  lemma MagnitudeSquaredSign(v: Vec)
    ensures 0.0 <= MagnitudeSquared(v)
    ensures MagnitudeSquared(v) == 0.0 <==> v == Null
  {
    SumOfSquaresSign(v.x, v.y, MagnitudeSquared(v));
  }

  /** The difference of a point and itself has squared magnitude zero. */
  lemma MagnitudeSquaredOfSelfDifference(p: Vec)
    ensures MagnitudeSquared(Sub(p, p)) == 0.0
  {
    assert Sub(p, p) == Null;
    MagnitudeSquaredSign(Null);
  }

  /** The difference of a point and itself is below exactly the positive bounds. */
  lemma SelfDifferenceBelow(p: Vec, bound: real)
    ensures MagnitudeSquared(Sub(p, p)) < bound <==> 0.0 < bound
  {
    SelfDifferencesBelow(p.x, p.y, MagnitudeSquared(Sub(p, p)), bound);
  }

  /** A vector and its negation have the same squared magnitude. */
  lemma MagnitudeSquaredOfNeg(v: Vec)
    ensures MagnitudeSquared(Neg(v)) == MagnitudeSquared(v)
  {
    SquareOfNeg(v.x, v.x * v.x, (-v.x) * (-v.x));
    SquareOfNeg(v.y, v.y * v.y, (-v.y) * (-v.y));
  }

  /** `vec_magnitude`: the non-negative length whose square is the squared magnitude. */
  function Magnitude(sqrt: real -> real, v: Vec): (r: real)
    requires IsSqrt(sqrt)
    ensures 0.0 <= r && r * r == MagnitudeSquared(v)
  {
    MagnitudeSquaredSign(v);
    sqrt(MagnitudeSquared(v))
  }

  /** Only the null vector has length zero. */
  lemma MagnitudeZero(sqrt: real -> real, v: Vec)
    requires IsSqrt(sqrt)
    ensures Magnitude(sqrt, v) == 0.0 <==> v == Null
  {
    var m := Magnitude(sqrt, v);
    MagnitudeSquaredSign(v);
    SquareSign(m, MagnitudeSquared(v));
  }

  /** `vec_dot_product` */
  function Dot(a: Vec, b: Vec): real
  {
    a.x * b.x + a.y * b.y
  }

  /** The dot product is symmetric, and a vector's dot product with itself is
      its squared magnitude. */
  lemma DotProperties(a: Vec, b: Vec)
    ensures Dot(a, b) == Dot(b, a)
    ensures Dot(a, a) == MagnitudeSquared(a)
  {
  }

  /** `std::abs` on one coordinate. */
  function AbsReal(a: real): (r: real)
    ensures 0.0 <= r
    ensures r == a || r == -a
  {
    if a < 0.0 then -a else a
  }

  /** `vec_abs`: both components made non-negative, each keeping its size. */
  function Abs(v: Vec): (r: Vec)
    ensures 0.0 <= r.x && 0.0 <= r.y
    ensures r.x == v.x || r.x == -v.x
    ensures r.y == v.y || r.y == -v.y
  {
    Vec(AbsReal(v.x), AbsReal(v.y))
  }

  /** Taking the absolute value twice changes nothing, and a vector and its
      negation have the same absolute value. */
  lemma AbsProperties(v: Vec)
    ensures Abs(Abs(v)) == Abs(v)
    ensures Abs(Neg(v)) == Abs(v)
  {
  }

  /** `vec_normalize`: the null vector stays null; any other vector becomes
      the vector that, scaled by the original length, gives it back. */
  function Normalize(sqrt: real -> real, v: Vec): (r: Vec)
    requires IsSqrt(sqrt)
    ensures v == Null ==> r == Null
    ensures v != Null ==> Scale(r, Magnitude(sqrt, v)) == v
  {
    if v.x == 0.0 && v.y == 0.0 then
      Null
    else
      MagnitudeZero(sqrt, v);
      Div(v, Magnitude(sqrt, v)).value
  }

  /** The null-vector guard of `vec_normalize` is exactly what keeps its
      division away from the divide-by-zero error. */
  lemma NormalizeNeverDividesByZero(sqrt: real -> real, v: Vec)
    requires IsSqrt(sqrt)
    ensures Div(v, Magnitude(sqrt, v)).Err? <==> v == Null
  {
    MagnitudeZero(sqrt, v);
  }

  /** A normalised non-null vector has length one. */
  lemma NormalizeHasUnitLength(sqrt: real -> real, v: Vec)
    requires IsSqrt(sqrt)
    requires v != Null
    ensures MagnitudeSquared(Normalize(sqrt, v)) == 1.0
    ensures Magnitude(sqrt, Normalize(sqrt, v)) == 1.0
  {
    var m := Magnitude(sqrt, v);
    var r := Normalize(sqrt, v);
    MagnitudeZero(sqrt, v);
    UnitAfterDivision(r.x, r.y, m, v.x, v.y);
    SqrtUnique(sqrt, MagnitudeSquared(r), 1.0);
  }

  /** Normalising a unit vector gives it back. */
  lemma NormalizeIdempotent(sqrt: real -> real, v: Vec)
    requires IsSqrt(sqrt)
    ensures Normalize(sqrt, Normalize(sqrt, v)) == Normalize(sqrt, v)
  {
    if v != Null {
      var r := Normalize(sqrt, v);
      NormalizeHasUnitLength(sqrt, v);
      MagnitudeZero(sqrt, r);
    }
  }

  /** (3, 4) normalises to (0.6, 0.8). */
  lemma NormalizeExample(sqrt: real -> real)
    requires IsSqrt(sqrt)
    ensures Normalize(sqrt, Vec(3.0, 4.0)) == Vec(0.6, 0.8)
  {
    SqrtUnique(sqrt, 25.0, 5.0);
    assert Magnitude(sqrt, Vec(3.0, 4.0)) == 5.0;
  }
}
