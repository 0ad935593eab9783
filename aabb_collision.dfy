/** The result of a collision between two boxes: a normal, one of the four
    axis directions or none, and the overlap `delta`.

    The library returns the normal as one of its direction constants; here it
    is the symbolic `Direction`, and `DirectionVector` gives the constant's
    value where a vector is needed. */
module AabbCollisions {
  import opened Vectors
  import opened VectorMaths

  /** NULL_VEC, LEFT_VEC, RIGHT_VEC, UP_VEC and DOWN_VEC as collision normals. */
  datatype Direction = NullDirection | Left | Right | Up | Down

  /** The value of the direction constant. */
  function DirectionVector(d: Direction): (r: Vec)
    ensures d == NullDirection <==> r == Null
  {
    match d
    case NullDirection => Null
    case Left => LeftVec
    case Right => RightVec
    case Up => UpVec
    case Down => DownVec
  }

  /** The direction pointing the other way. */
  function Opposite(d: Direction): (r: Direction)
    ensures DirectionVector(r) == Neg(DirectionVector(d))
  {
    match d
    case NullDirection => NullDirection
    case Left => Right
    case Right => Left
    case Up => Down
    case Down => Up
  }

  /** `AABBCollision`: the normal and the overlap. */
  datatype AabbCollision = AabbCollision(normal: Direction, delta: Vec)

  /** `absolutePenetrationDepthAlongNormal`: the absolute value of the dot
      product of the normal and the delta. */
  function AbsolutePenetrationDepth(c: AabbCollision): real
  {
    AbsReal(Dot(DirectionVector(c.normal), c.delta))
  }

  /** The depth is never negative; along a horizontal normal it is the size
      of the delta's x, along a vertical one the size of its y, and with no
      normal it is zero; turning the normal around does not change it. */
  lemma PenetrationDepthAlongAxes(normal: Direction, delta: Vec)
    ensures 0.0 <= AbsolutePenetrationDepth(AabbCollision(normal, delta))
    ensures normal == Left || normal == Right ==> AbsolutePenetrationDepth(AabbCollision(normal, delta)) == AbsReal(delta.x)
    ensures normal == Up || normal == Down ==> AbsolutePenetrationDepth(AabbCollision(normal, delta)) == AbsReal(delta.y)
    ensures normal == NullDirection ==> AbsolutePenetrationDepth(AabbCollision(normal, delta)) == 0.0
    ensures AbsolutePenetrationDepth(AabbCollision(Opposite(normal), delta)) == AbsolutePenetrationDepth(AabbCollision(normal, delta))
  {
  }

  /** The delta (-140, 20) is 140 deep along LEFT and RIGHT and 20 deep along UP and DOWN. */
  lemma PenetrationDepthExample()
    ensures AbsolutePenetrationDepth(AabbCollision(Left, Vec(-140.0, 20.0))) == 140.0
    ensures AbsolutePenetrationDepth(AabbCollision(Right, Vec(-140.0, 20.0))) == 140.0
    ensures AbsolutePenetrationDepth(AabbCollision(Up, Vec(-140.0, 20.0))) == 20.0
    ensures AbsolutePenetrationDepth(AabbCollision(Down, Vec(-140.0, 20.0))) == 20.0
  {
  }
}
