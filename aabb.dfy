/** Axis-aligned bounding boxes as values: a position (the TopLeft corner)
    and a size, which may be negative. The in-place `move` and
    `scaleRelativeToCenter` live on the `Box` class of module AabbObjects;
    the functions here are the box's read-only queries. */
module Aabbs {
  import opened Vectors
  import opened Corners

  datatype AABB = AABB(pos: Vec, size: Vec)

  /** `AABB::center`: `pos + size / 2`. */
  function Center(b: AABB): Vec
  {
    Add(b.pos, Half(b.size))
  }

  /** The centre's coordinates: halfway along each side from the position. */
  lemma CenterCoordinates(b: AABB)
    ensures Center(b) == Vec(b.pos.x + b.size.x / 2.0, b.pos.y + b.size.y / 2.0)
  {
  }

  /** `AABB::corner`. */
  function CornerPoint(b: AABB, c: Corner): Vec
  {
    match c
    case TopLeft => b.pos
    case TopRight => Vec(b.pos.x + b.size.x, b.pos.y)
    case BottomLeft => Vec(b.pos.x, b.pos.y + b.size.y)
    case BottomRight => Add(b.pos, b.size)
  }

  /** A corner's x is the left edge or the right edge as the corner is a Left
      corner or not, and likewise its y for Top corners. */
  lemma CornerCoordinates(b: AABB, c: Corner)
    ensures CornerPoint(b, c).x == if IsLeft(c) then b.pos.x else b.pos.x + b.size.x
    ensures CornerPoint(b, c).y == if IsTop(c) then b.pos.y else b.pos.y + b.size.y
  {
  }

  /** `AABB::corners`: the four corners in enum order. */
  function CornerPoints(b: AABB): (r: seq<Vec>)
    ensures |r| == CornerCount
    ensures forall c: Corner :: r[Index(c)] == CornerPoint(b, c)
  {
    [CornerPoint(b, TopLeft), CornerPoint(b, TopRight), CornerPoint(b, BottomLeft), CornerPoint(b, BottomRight)]
  }

  /** The centre is the midpoint of every pair of diagonally opposed corners,
      in particular of TopLeft and BottomRight. */
  lemma CenterIsMidpoint(b: AABB, c: Corner)
    ensures Add(CornerPoint(b, c), CornerPoint(b, DiagonallyOpposed(c))) == Scale(Center(b), 2.0)
  {
  }

  /** `AABB::perimeter` */
  function Perimeter(b: AABB): real
  {
    2.0 * (b.size.x + b.size.y)
  }

  /** `AABB::area` */
  function Area(b: AABB): real
  {
    b.size.x * b.size.y
  }

  /** `operator==`: exact equality of position and size. */
  predicate Equal(left: AABB, right: AABB)
  {
    Vectors.Equal(left.pos, right.pos) && Vectors.Equal(left.size, right.size)
  }

  lemma EqualIsIdentity(left: AABB, right: AABB)
    ensures Equal(left, right) <==> left == right
    ensures !Equal(left, right) <==> left != right
  {
  }

  /** `aabb_contains(aabb, point)` and `AABB::contains`: inclusive on all four edges. */
  predicate Contains(b: AABB, point: Vec)
  {
    point.x >= b.pos.x &&
    point.y >= b.pos.y &&
    point.x <= b.pos.x + b.size.x &&
    point.y <= b.pos.y + b.size.y
  }

  /** A box with a non-negative size contains its four corners (edges
      included) and its centre. */
  lemma ContainsCornersAndCenter(b: AABB, c: Corner)
    requires 0.0 <= b.size.x && 0.0 <= b.size.y
    ensures Contains(b, CornerPoint(b, c))
    ensures Contains(b, Center(b))
  {
  }

  /** The box after `move(movement)`. */
  function Moved(b: AABB, movement: Vec): AABB
  {
    AABB(Add(b.pos, movement), b.size)
  }

  /** Moving shifts the centre and every corner by the movement and keeps the
      size, area and perimeter. */
  lemma MovedShiftsEverything(b: AABB, movement: Vec, c: Corner)
    ensures Center(Moved(b, movement)) == Add(Center(b), movement)
    ensures CornerPoint(Moved(b, movement), c) == Add(CornerPoint(b, c), movement)
    ensures Area(Moved(b, movement)) == Area(b) && Perimeter(Moved(b, movement)) == Perimeter(b)
  {
  }

  /** The box after `scaleRelativeToCenter(factor)`: the centre taken before
      the size changes, minus half the new size. */
  function ScaledRelativeToCenter(b: AABB, factor: real): AABB
  {
    var size := Scale(b.size, factor);
    AABB(Sub(Center(b), Half(size)), size)
  }

  /** Scaling relative to the centre multiplies the size and the perimeter by
      the factor and leaves the centre where it was. */
  lemma ScaledKeepsCenter(b: AABB, factor: real)
    ensures ScaledRelativeToCenter(b, factor).size == Scale(b.size, factor)
    ensures Center(ScaledRelativeToCenter(b, factor)) == Center(b)
    ensures Perimeter(ScaledRelativeToCenter(b, factor)) == factor * Perimeter(b)
  {
  }

  /** Scaling by one gives the same box back. */
  lemma ScaledByOne(b: AABB)
    ensures ScaledRelativeToCenter(b, 1.0) == b
  {
  }
}
