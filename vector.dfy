/** Two-dimensional vectors (`Vector`, aliased `vec_t`).

    The free operators `+ - * / == !=` are functions on vector values; the
    compound assignments `+= -= *= /=` and `=` change a `Vector` object in
    place. Coordinates are reals, so float rounding is not modelled. */
module Vectors {

  /** A vector value. */
  datatype Vec = Vec(x: real, y: real)

  /** NULL_VEC */
  const Null := Vec(0.0, 0.0)

  /** LEFT_VEC, RIGHT_VEC, UP_VEC and DOWN_VEC as the library's constants define them. */
  const LeftVec := Vec(-1.0, 0.0)
  const RightVec := Vec(1.0, 0.0)
  const UpVec := Vec(0.0, 1.0)
  const DownVec := Vec(0.0, -1.0)

  /** The only error of the vector type: dividing by zero throws `std::invalid_argument`. */
  datatype MathError = DivisionByZero

  datatype Result<T> = Ok(value: T) | Err(error: MathError)

  function Add(left: Vec, right: Vec): Vec
  {
    Vec(left.x + right.x, left.y + right.y)
  }

  function Sub(left: Vec, right: Vec): Vec
  {
    Vec(left.x - right.x, left.y - right.y)
  }

  /** Unary minus. */
  function Neg(v: Vec): Vec
  {
    Vec(-v.x, -v.y)
  }

  /** `base * scalar` */
  function Scale(base: Vec, scalar: real): Vec
  {
    Vec(base.x * scalar, base.y * scalar)
  }

  /** `scalar * base`, which the library defines as `base * scalar`. */
  function ScaleLeft(scalar: real, base: Vec): Vec
  {
    Scale(base, scalar)
  }

  /** `base / divisor`: fails exactly when the divisor is zero, and otherwise
      gives the vector that multiplied by the divisor is `base` again. */
  function Div(base: Vec, divisor: real): (r: Result<Vec>)
    ensures r.Err? <==> divisor == 0.0
    ensures r.Ok? ==> Scale(r.value, divisor) == base
  {
    if divisor == 0.0 then Err(DivisionByZero)
    else Ok(Vec(base.x / divisor, base.y / divisor))
  }

  /** `v / 2.f`: the division by the constant two, which cannot fail. */
  function Half(v: Vec): Vec
  {
    Vec(v.x / 2.0, v.y / 2.0)
  }

  /** Halving is the division by two, and two halves add up to the whole. */
  lemma HalfIsDivision(v: Vec)
    ensures Div(v, 2.0) == Ok(Half(v))
    ensures Add(Half(v), Half(v)) == v
  {
  }

  /** Exact equality on both components, no tolerance. */
  predicate Equal(left: Vec, right: Vec)
  {
    left.x == right.x && left.y == right.y
  }

  predicate NotEqual(left: Vec, right: Vec)
  {
    !Equal(left, right)
  }

  lemma AddThenSub(a: Vec, b: Vec)
    ensures Sub(Add(a, b), b) == a
    ensures Add(Sub(a, b), b) == a
    ensures Add(a, b) == Add(b, a)
  {
  }

  /** `-=` is implemented as `+=` of the negation; both give the same vector. */
  lemma SubIsAddNeg(a: Vec, b: Vec)
    ensures Sub(a, b) == Add(a, Neg(b))
    ensures Neg(Neg(b)) == b
  {
  }

  lemma ScaleCommutes(v: Vec, s: real)
    ensures ScaleLeft(s, v) == Scale(v, s)
    ensures Scale(v, -1.0) == Neg(v)
  {
  }

  lemma DivByZeroFails(v: Vec)
    ensures Div(v, 0.0) == Err(DivisionByZero)
  {
  }

  /** `==` holds exactly for identical vectors, and `!=` is its negation. */
  lemma EqualIsIdentity(a: Vec, b: Vec)
    ensures Equal(a, b) <==> a == b
    ensures NotEqual(a, b) <==> a != b
  {
  }

  /** A vector object whose components the compound operators update in place. */
  class Vector {
    var x: real
    var y: real

    constructor (x0: real, y0: real)
      ensures Value() == Vec(x0, y0)
    {
      x, y := x0, y0;
    }

    function Value(): Vec
      reads this
    {
      Vec(x, y)
    }

    /** `+=` adds component-wise and returns the receiver. */
    method AddAssign(add: Vec) returns (self: Vector)
      modifies this
      ensures Value() == Add(old(Value()), add)
      ensures self == this
    {
      x := x + add.x;
      y := y + add.y;
      self := this;
    }

    /** `-=` is `+=` of the negated operand. */
    method SubAssign(sub: Vec) returns (self: Vector)
      modifies this
      ensures Value() == Sub(old(Value()), sub)
      ensures self == this
    {
      self := AddAssign(Neg(sub));
    }

    /** `*=` multiplies both components by the scalar. */
    method MulAssign(scalar: real) returns (self: Vector)
      modifies this
      ensures Value() == Scale(old(Value()), scalar)
      ensures self == this
    {
      x := x * scalar;
      y := y * scalar;
      self := this;
    }

    /** `/=` throws before writing anything when the divisor is zero. */
    method DivAssign(divisor: real) returns (r: Result<Vector>)
      modifies this
      ensures r.Err? <==> divisor == 0.0
      ensures r.Err? ==> Value() == old(Value())
      ensures r.Ok? ==> r.value == this && Scale(Value(), divisor) == old(Value())
    {
      if divisor == 0.0 {
        return Err(DivisionByZero);
      }
      x := x / divisor;
      y := y / divisor;
      r := Ok(this);
    }

    /** `operator=` copies both components. */
    method Assign(other: Vec)
      modifies this
      ensures Value() == other
    {
      x := other.x;
      y := other.y;
    }
  }
}
