/** Circles: a centre and a radius. Containment of a point is strict: a
    point at exactly the radius is outside. */
module Circles {
  import opened Vectors
  import opened VectorMaths
  import opened Reals
  import opened Aabbs

  datatype Circle = Circle(pos: Vec, radius: real)

  /** `Circle::diameter` */
  function Diameter(c: Circle): real
  {
    2.0 * c.radius
  }

  /** `Circle::enclosingAABB` and `enclosingAABB(circle)`: the square of side
      `2 * radius` around the centre. */
  function EnclosingAabb(c: Circle): AABB
  {
    AABB(Vec(c.pos.x - c.radius, c.pos.y - c.radius), Vec(c.radius * 2.0, c.radius * 2.0))
  }

  /** The enclosing box is centred on the circle, its sides are the diameter,
      and for a non-negative radius it holds the four points of the circle
      that lie furthest left, right, up and down. */
  lemma EnclosingAabbFits(c: Circle)
    ensures Center(EnclosingAabb(c)) == c.pos
    ensures EnclosingAabb(c).size == Vec(Diameter(c), Diameter(c))
    ensures 0.0 <= c.radius ==>
      Contains(EnclosingAabb(c), Add(c.pos, Scale(LeftVec, c.radius))) &&
      Contains(EnclosingAabb(c), Add(c.pos, Scale(RightVec, c.radius))) &&
      Contains(EnclosingAabb(c), Add(c.pos, Scale(UpVec, c.radius))) &&
      Contains(EnclosingAabb(c), Add(c.pos, Scale(DownVec, c.radius)))
  {
  }

  /** `Circle::contains` and `circle_contains(circle, point)`. */
  predicate ContainsPoint(c: Circle, point: Vec)
  {
    MagnitudeSquared(Sub(c.pos, point)) < c.radius * c.radius
  }

  /** Containment is strict: a point at exactly the radius is not contained. */
  lemma ContainsPointIsStrict(c: Circle, point: Vec)
    ensures MagnitudeSquared(Sub(c.pos, point)) == c.radius * c.radius ==> !ContainsPoint(c, point)
  {
  }

  /** The centre is contained exactly when the radius is not zero. */
  lemma ContainsCentre(c: Circle)
    ensures ContainsPoint(c, c.pos) <==> c.radius != 0.0
  {
    SelfDifferenceBelow(c.pos, c.radius * c.radius);
    ZeroBelowSquare(c.radius, c.radius * c.radius);
  }

  /** `Circle::intersects` and `circle_intersects(circle, circle)`: the centres
      are closer than the sum of the radii. */
  predicate Intersects(a: Circle, b: Circle)
  {
    MagnitudeSquared(Sub(a.pos, b.pos)) < (a.radius + b.radius) * (a.radius + b.radius)
  }

  /** Intersection does not depend on the order of the circles. */
  lemma IntersectsSymmetric(a: Circle, b: Circle)
    ensures Intersects(a, b) <==> Intersects(b, a)
  {
    MagnitudeSquaredOfNeg(Sub(a.pos, b.pos));
    assert Sub(b.pos, a.pos) == Neg(Sub(a.pos, b.pos));
  }

  /** A circle with a non-zero radius intersects itself. */
  lemma IntersectsReflexive(c: Circle)
    requires c.radius != 0.0
    ensures Intersects(c, c)
  {
    SelfDifferenceBelow(c.pos, (c.radius + c.radius) * (c.radius + c.radius));
    SquarePositive(c.radius + c.radius, (c.radius + c.radius) * (c.radius + c.radius));
  }

  /** `Circle::strictlyContains` and `circle_contains(circle, circle)`: the
      other circle is no larger, and its centre is no further away than the
      difference of the radii (so touching from inside counts). */
  predicate StrictlyContains(c: Circle, other: Circle)
  {
    if other.radius <= c.radius then
      MagnitudeSquared(Sub(c.pos, other.pos)) <= (c.radius - other.radius) * (c.radius - other.radius)
    else
      false
  }

  /** A larger circle is never contained, and every circle contains itself. */
  lemma StrictlyContainsBounds(c: Circle, other: Circle)
    ensures other.radius > c.radius ==> !StrictlyContains(c, other)
    ensures StrictlyContains(c, c)
  {
    MagnitudeSquaredOfSelfDifference(c.pos);
  }

  /** A contained circle of positive radius intersects its container. */
  lemma StrictlyContainsImpliesIntersects(c: Circle, other: Circle)
    requires 0.0 < other.radius
    requires StrictlyContains(c, other)
    ensures Intersects(c, other)
  {
    var inner, outer := c.radius - other.radius, c.radius + other.radius;
    SquareLess(inner, outer, inner * inner, outer * outer);
  }

  /** `operator==`: exact equality of radius and centre. */
  predicate Equal(left: Circle, right: Circle)
  {
    left.radius == right.radius && Vectors.Equal(left.pos, right.pos)
  }

  lemma EqualIsIdentity(left: Circle, right: Circle)
    ensures Equal(left, right) <==> left == right
    ensures !Equal(left, right) <==> left != right
  {
  }
}
