/** The free collision predicates: containment and intersection between
    boxes, circles and points, the shapes derived from one another, and the
    distance between circles.

    `aabb_contains(first, other)` and `aabb_intersects(a, b)` work on a local
    copy of a box that they change in place; they are methods here, each
    proved equal to a predicate on the two boxes (`Spans`, `Overlaps`), and
    the functions that call them in the library use those predicates. */
module Collision {
  import opened Vectors
  import opened VectorMaths
  import opened Reals
  import opened Corners
  import opened Aabbs
  import opened Circles

  /** `std::min` on two floats: the first unless the second is smaller. */
  function Min(a: real, b: real): (r: real)
    ensures r <= a && r <= b
    ensures r == a || r == b
  {
    if b < a then b else a
  }

  /** `inscribedCircle`: centred on the box, with the shorter side as its diameter. */
  function InscribedCircle(b: AABB): Circle
  {
    Circle(Center(b), Min(b.size.x, b.size.y) / 2.0)
  }

  /** The inscribed circle shares the box's centre, its diameter is the
      shorter side, and for a box of non-negative size its enclosing square
      lies within the box. */
  lemma InscribedCircleFits(b: AABB)
    ensures InscribedCircle(b).pos == Center(b)
    ensures Diameter(InscribedCircle(b)) == Min(b.size.x, b.size.y)
    ensures 0.0 <= b.size.x && 0.0 <= b.size.y ==> Spans(b, Circles.EnclosingAabb(InscribedCircle(b)))
  {
  }

  /** The edges of `other` lie within those of `first`: its left and top
      edges no further out than `first`'s, its right and bottom edges no
      further out either. */
  predicate Spans(first: AABB, other: AABB)
  {
    first.pos.x <= other.pos.x && other.pos.x + other.size.x <= first.pos.x + first.size.x &&
    first.pos.y <= other.pos.y && other.pos.y + other.size.y <= first.pos.y + first.size.y
  }

  /** For a box of non-negative size, spanning is containing all four corners. */
  lemma SpansIsCornersInside(first: AABB, other: AABB)
    requires 0.0 <= other.size.x && 0.0 <= other.size.y
    ensures Spans(first, other) <==> forall c: Corner :: Contains(first, CornerPoint(other, c))
  {
    if forall c: Corner :: Contains(first, CornerPoint(other, c)) {
      assert Contains(first, CornerPoint(other, TopLeft));
      assert Contains(first, CornerPoint(other, BottomRight));
    }
  }

  /** `aabb_contains(first, other)`: when `first` has at least the area of
      `other`, shrink a copy of `first` by `other`'s size and test `other`'s
      position against it. */
  method AabbContainsAabb(first: AABB, other: AABB) returns (r: bool)
    ensures r <==> Area(first) >= Area(other) && Spans(first, other)
  {
    if Area(first) >= Area(other) {
      var zone := first;
      zone := zone.(size := Sub(zone.size, other.size));
      return Contains(zone, other.pos);
    }
    return false;
  }

  /** A box of smaller area is never contained; every box contains itself;
      and for non-negative sizes the area test never rejects a box whose
      edges fit. */
  lemma AabbContainsAabbProperties(first: AABB, other: AABB)
    ensures Area(first) < Area(other) ==> !(Area(first) >= Area(other) && Spans(first, other))
    ensures Area(first) >= Area(first) && Spans(first, first)
    ensures 0.0 <= other.size.x && 0.0 <= other.size.y && Spans(first, other) ==> Area(first) >= Area(other)
  {
    if 0.0 <= other.size.x && 0.0 <= other.size.y && Spans(first, other) {
      ProductMonotone(first.size.x, first.size.y, other.size.x, other.size.y, Area(first), Area(other));
    }
  }

  /** `aabb_contains(aabb, circle)`: the box contains the circle's enclosing box. */
  method AabbContainsCircle(aabb: AABB, circle: Circle) returns (r: bool)
    ensures r <==> Area(aabb) >= Area(Circles.EnclosingAabb(circle)) && Spans(aabb, Circles.EnclosingAabb(circle))
  {
    r := AabbContainsAabb(aabb, Circles.EnclosingAabb(circle));
  }

  /** A point strictly inside a circle of non-negative radius lies in the
      circle's enclosing box. */
  lemma EnclosingAabbHoldsCircle(circle: Circle, p: Vec)
    requires 0.0 <= circle.radius
    requires ContainsPoint(circle, p)
    ensures Contains(Circles.EnclosingAabb(circle), p)
  {
    var d := Sub(circle.pos, p);
    var rr := circle.radius * circle.radius;
    SquareSign(d.y, d.y * d.y);
    SquareBelowBound(d.x, circle.radius, d.x * d.x, rr);
    SquareSign(d.x, d.x * d.x);
    SquareBelowBound(d.y, circle.radius, d.y * d.y, rr);
  }

  /** When the box contains a circle of non-negative radius, it contains
      every point of the circle. */
  lemma AabbContainsCircleHoldsItsPoints(aabb: AABB, circle: Circle, p: Vec)
    requires 0.0 <= circle.radius
    requires Spans(aabb, Circles.EnclosingAabb(circle))
    requires ContainsPoint(circle, p)
    ensures Contains(aabb, p)
  {
    EnclosingAabbHoldsCircle(circle, p);
  }

  /** `circle_contains(circle, aabb)`: all four corners lie strictly inside the circle. */
  function CircleContainsAabb(circle: Circle, aabb: AABB): (r: bool)
    ensures r <==> forall c: Corner :: ContainsPoint(circle, CornerPoint(aabb, c))
  {
    ContainsPoint(circle, CornerPoint(aabb, TopLeft)) &&
    ContainsPoint(circle, CornerPoint(aabb, TopRight)) &&
    ContainsPoint(circle, CornerPoint(aabb, BottomLeft)) &&
    ContainsPoint(circle, CornerPoint(aabb, BottomRight))
  }

  /** Of the two ends of the range `[lo, hi]`, the one farther from `c`. */
  function FartherEnd(c: real, lo: real, hi: real): real
  {
    if (c - lo) * (c - lo) >= (c - hi) * (c - hi) then lo else hi
  }

  /** Every value of a range is at most as far from `c` as its farther end. */
  lemma NearerThanFartherEnd(c: real, lo: real, hi: real, p: real)
    requires lo <= p <= hi
    ensures (c - p) * (c - p) <= (c - FartherEnd(c, lo, hi)) * (c - FartherEnd(c, lo, hi))
  {
    var d, a, b := c - p, c - lo, c - hi;
    if d >= 0.0 {
      SquareOfSmaller(d, a, d * d, a * a);
    } else {
      SquareOfSmaller(d, b, d * d, b * b);
    }
  }

  /** The corner of the box farthest from `point`: on each axis, the edge
      farther away. */
  function FarthestCorner(b: AABB, point: Vec): Corner
  {
    var left := FartherEnd(point.x, b.pos.x, b.pos.x + b.size.x) == b.pos.x;
    var top := FartherEnd(point.y, b.pos.y, b.pos.y + b.size.y) == b.pos.y;
    if left then (if top then TopLeft else BottomLeft)
    else (if top then TopRight else BottomRight)
  }

  /** No point of the box is farther from `point` than the farthest corner. */
  lemma FarthestCornerIsFarthest(b: AABB, point: Vec, p: Vec)
    requires Contains(b, p)
    ensures MagnitudeSquared(Sub(point, p)) <= MagnitudeSquared(Sub(point, CornerPoint(b, FarthestCorner(b, point))))
  {
    var c := FarthestCorner(b, point);
    CornerCoordinates(b, c);
    NearerThanFartherEnd(point.x, b.pos.x, b.pos.x + b.size.x, p.x);
    NearerThanFartherEnd(point.y, b.pos.y, b.pos.y + b.size.y, p.y);
  }

  /** For a box of non-negative size, the four-corner test means exactly that
      every point of the box lies strictly inside the circle. */
  lemma CircleContainsAabbHoldsItsPoints(circle: Circle, aabb: AABB)
    requires 0.0 <= aabb.size.x && 0.0 <= aabb.size.y
    ensures CircleContainsAabb(circle, aabb) <==> forall p :: Contains(aabb, p) ==> ContainsPoint(circle, p)
  {
    if CircleContainsAabb(circle, aabb) {
      forall p | Contains(aabb, p)
        ensures ContainsPoint(circle, p)
      {
        FarthestCornerIsFarthest(aabb, circle.pos, p);
      }
    }
    if forall p :: Contains(aabb, p) ==> ContainsPoint(circle, p) {
      forall c: Corner
        ensures ContainsPoint(circle, CornerPoint(aabb, c))
      {
        ContainsCornersAndCenter(aabb, c);
      }
    }
  }

  /** The closed ranges of the two boxes meet on both axes. */
  predicate Overlaps(a: AABB, b: AABB)
  {
    a.pos.x <= b.pos.x + b.size.x && b.pos.x <= a.pos.x + a.size.x &&
    a.pos.y <= b.pos.y + b.size.y && b.pos.y <= a.pos.y + a.size.y
  }

  /** `aabb_intersects(a, b)`: grow a copy of `b` by `a`'s size up and to the
      left, and test `a`'s position against it. */
  method AabbIntersects(a: AABB, b: AABB) returns (r: bool)
    ensures r <==> Overlaps(a, b)
  {
    var extended := b;
    extended := extended.(size := Add(extended.size, a.size));
    extended := extended.(pos := Sub(extended.pos, a.size));
    return Contains(extended, a.pos);
  }

  /** Overlap does not depend on the order of the boxes, a box of
      non-negative size overlaps itself, and for non-negative sizes two boxes
      overlap exactly when some point lies in both. */
  lemma OverlapsProperties(a: AABB, b: AABB)
    ensures Overlaps(a, b) <==> Overlaps(b, a)
    ensures 0.0 <= a.size.x && 0.0 <= a.size.y ==> Overlaps(a, a)
    ensures 0.0 <= a.size.x && 0.0 <= a.size.y && 0.0 <= b.size.x && 0.0 <= b.size.y ==>
      (Overlaps(a, b) <==> exists p :: Contains(a, p) && Contains(b, p))
  {
    if 0.0 <= a.size.x && 0.0 <= a.size.y && 0.0 <= b.size.x && 0.0 <= b.size.y && Overlaps(a, b) {
      var p := Vec(if a.pos.x < b.pos.x then b.pos.x else a.pos.x, if a.pos.y < b.pos.y then b.pos.y else a.pos.y);
      assert Contains(a, p) && Contains(b, p);
    }
  }

  /** `aabb_intersects(aabb, circle)`, three checks in turn: the circle's
      enclosing box must overlap the box; then any box corner inside the
      circle, or else any of the circle's four extreme points inside the box,
      means an intersection. */
  predicate AabbIntersectsCircle(aabb: AABB, circle: Circle)
  {
    if !Overlaps(aabb, Circles.EnclosingAabb(circle)) then
      false
    else if ContainsPoint(circle, CornerPoint(aabb, TopLeft)) ||
            ContainsPoint(circle, CornerPoint(aabb, TopRight)) ||
            ContainsPoint(circle, CornerPoint(aabb, BottomLeft)) ||
            ContainsPoint(circle, CornerPoint(aabb, BottomRight)) then
      true
    else if Contains(aabb, Add(circle.pos, Scale(LeftVec, circle.radius))) ||
            Contains(aabb, Add(circle.pos, Scale(RightVec, circle.radius))) ||
            Contains(aabb, Add(circle.pos, Scale(UpVec, circle.radius))) ||
            Contains(aabb, Add(circle.pos, Scale(DownVec, circle.radius))) then
      true
    else
      false
  }

  /** `circle_intersects(circle, aabb)` is `aabb_intersects(aabb, circle)`. */
  predicate CircleIntersectsAabb(circle: Circle, aabb: AABB)
  {
    AabbIntersectsCircle(aabb, circle)
  }

  /** An extreme point of a circle lies at exactly the radius from its centre. */
  lemma ExtremePointOnCircle(circle: Circle, dir: Vec)
    requires dir == LeftVec || dir == RightVec || dir == UpVec || dir == DownVec
    ensures MagnitudeSquared(Sub(circle.pos, Add(circle.pos, Scale(dir, circle.radius)))) == circle.radius * circle.radius
  {
  }

  /** Some point of the box lies no further from the circle's centre than its radius. */
  ghost predicate ReachesBox(aabb: AABB, circle: Circle)
  {
    exists p :: Contains(aabb, p) && MagnitudeSquared(Sub(circle.pos, p)) <= circle.radius * circle.radius
  }

  lemma CornerReachesBox(aabb: AABB, circle: Circle, c: Corner)
    requires 0.0 <= aabb.size.x && 0.0 <= aabb.size.y
    requires ContainsPoint(circle, CornerPoint(aabb, c))
    ensures ReachesBox(aabb, circle)
  {
    ContainsCornersAndCenter(aabb, c);
    assert Contains(aabb, CornerPoint(aabb, c));
  }

  lemma ExtremePointReachesBox(aabb: AABB, circle: Circle, dir: Vec)
    requires dir == LeftVec || dir == RightVec || dir == UpVec || dir == DownVec
    requires Contains(aabb, Add(circle.pos, Scale(dir, circle.radius)))
    ensures ReachesBox(aabb, circle)
  {
    ExtremePointOnCircle(circle, dir);
    assert Contains(aabb, Add(circle.pos, Scale(dir, circle.radius)));
  }

  /** The three checks answer false whenever the enclosing boxes do not
      overlap; an answer of true, for a box of non-negative size, is always
      backed by a point of the box no further from the centre than the
      radius. */
  lemma AabbIntersectsCircleSound(aabb: AABB, circle: Circle)
    ensures !Overlaps(aabb, Circles.EnclosingAabb(circle)) ==> !AabbIntersectsCircle(aabb, circle)
    ensures 0.0 <= aabb.size.x && 0.0 <= aabb.size.y && AabbIntersectsCircle(aabb, circle) ==> ReachesBox(aabb, circle)
    ensures CircleIntersectsAabb(circle, aabb) == AabbIntersectsCircle(aabb, circle)
  {
    if 0.0 <= aabb.size.x && 0.0 <= aabb.size.y && AabbIntersectsCircle(aabb, circle) {
      if ContainsPoint(circle, CornerPoint(aabb, TopLeft)) {
        CornerReachesBox(aabb, circle, TopLeft);
      } else if ContainsPoint(circle, CornerPoint(aabb, TopRight)) {
        CornerReachesBox(aabb, circle, TopRight);
      } else if ContainsPoint(circle, CornerPoint(aabb, BottomLeft)) {
        CornerReachesBox(aabb, circle, BottomLeft);
      } else if ContainsPoint(circle, CornerPoint(aabb, BottomRight)) {
        CornerReachesBox(aabb, circle, BottomRight);
      } else if Contains(aabb, Add(circle.pos, Scale(LeftVec, circle.radius))) {
        ExtremePointReachesBox(aabb, circle, LeftVec);
      } else if Contains(aabb, Add(circle.pos, Scale(RightVec, circle.radius))) {
        ExtremePointReachesBox(aabb, circle, RightVec);
      } else if Contains(aabb, Add(circle.pos, Scale(UpVec, circle.radius))) {
        ExtremePointReachesBox(aabb, circle, UpVec);
      } else {
        ExtremePointReachesBox(aabb, circle, DownVec);
      }
    }
  }

  /** The nearest point of the box to `p`: each coordinate clamped to the
      box's range. */
  function ClampReal(v: real, lo: real, hi: real): (r: real)
    ensures lo <= hi ==> lo <= r <= hi
    ensures lo <= v <= hi ==> r == v
  {
    if v < lo then lo else if v > hi then hi else v
  }

  function NearestPoint(b: AABB, p: Vec): (r: Vec)
    ensures 0.0 <= b.size.x && 0.0 <= b.size.y ==> Contains(b, r)
    ensures Contains(b, p) ==> r == p
  {
    Vec(ClampReal(p.x, b.pos.x, b.pos.x + b.size.x), ClampReal(p.y, b.pos.y, b.pos.y + b.size.y))
  }

  /** No point of a box of non-negative size is closer to `p` than the clamped point. */
  lemma NearestPointIsNearest(b: AABB, p: Vec, q: Vec)
    requires 0.0 <= b.size.x && 0.0 <= b.size.y
    requires Contains(b, q)
    ensures MagnitudeSquared(Sub(p, NearestPoint(b, p))) <= MagnitudeSquared(Sub(p, q))
  {
    var n := NearestPoint(b, p);
    var nx, ny, qx, qy := p.x - n.x, p.y - n.y, p.x - q.x, p.y - q.y;
    SquareOfSmaller(nx, qx, nx * nx, qx * qx);
    SquareOfSmaller(ny, qy, ny * ny, qy * qy);
  }

  /** The box and the circle intersect: the point of the box nearest the
      centre lies strictly inside the circle. */
  predicate AabbIntersectsCircleExact(aabb: AABB, circle: Circle)
  {
    ContainsPoint(circle, NearestPoint(aabb, circle.pos))
  }

  /** For a box of non-negative size, the exact test holds exactly when some
      point lies both in the box and strictly inside the circle. */
  lemma AabbIntersectsCircleExactIsIntersection(aabb: AABB, circle: Circle)
    requires 0.0 <= aabb.size.x && 0.0 <= aabb.size.y
    ensures AabbIntersectsCircleExact(aabb, circle) <==> exists p :: Contains(aabb, p) && ContainsPoint(circle, p)
  {
    if p :| Contains(aabb, p) && ContainsPoint(circle, p) {
      NearestPointIsNearest(aabb, circle.pos, p);
    }
  }

  /** The three checks miss a circle of radius 10 centred in the box from
      (-9,-9) to (9,9): no corner is within 10 of the centre and every extreme
      point leaves the box, yet the centre itself lies in both shapes. */
  lemma AabbIntersectsCircleMissesCentredCircle()
    ensures var aabb, circle := AABB(Vec(-9.0, -9.0), Vec(18.0, 18.0)), Circle(Vec(0.0, 0.0), 10.0);
      !AabbIntersectsCircle(aabb, circle) &&
      Contains(aabb, circle.pos) && ContainsPoint(circle, circle.pos) &&
      AabbIntersectsCircleExact(aabb, circle)
  {
  }

  /** `circles_distance`: the distance between the centres minus both radii. */
  function CirclesDistance(sqrt: real -> real, a: Circle, b: Circle): real
    requires IsSqrt(sqrt)
  {
    Magnitude(sqrt, Sub(a.pos, b.pos)) - a.radius - b.radius
  }

  /** The distance does not depend on the order of the circles; when the
      radii add up to a non-negative number it is negative exactly when the
      circles intersect. */
  lemma CirclesDistanceProperties(sqrt: real -> real, a: Circle, b: Circle)
    requires IsSqrt(sqrt)
    ensures CirclesDistance(sqrt, a, b) == CirclesDistance(sqrt, b, a)
    ensures 0.0 <= a.radius + b.radius ==> (CirclesDistance(sqrt, a, b) < 0.0 <==> Intersects(a, b))
  {
    MagnitudeSquaredOfNeg(Sub(a.pos, b.pos));
    assert Sub(b.pos, a.pos) == Neg(Sub(a.pos, b.pos));
    if 0.0 <= a.radius + b.radius {
      var m, s := Magnitude(sqrt, Sub(a.pos, b.pos)), a.radius + b.radius;
      SquareLess(m, s, m * m, s * s);
    }
  }

  /** Circles at (0,0) of radius 5 and at (-10,0) of radius 3 are 2 apart. */
  lemma CirclesDistanceExample(sqrt: real -> real)
    requires IsSqrt(sqrt)
    ensures CirclesDistance(sqrt, Circle(Vec(0.0, 0.0), 5.0), Circle(Vec(-10.0, 0.0), 3.0)) == 2.0
  {
    SqrtUnique(sqrt, 100.0, 10.0);
  }

  /** A point on the box's left edge is contained and one left of it is
      not; a box sticking out is not contained, a smaller one inside is. */
  lemma AabbContainsExamples()
    ensures Contains(AABB(Vec(6.0, 7.0), Vec(10.0, 20.0)), Vec(6.0, 26.0))
    ensures !Contains(AABB(Vec(6.0, 7.0), Vec(10.0, 20.0)), Vec(5.0, 14.0))
    ensures !Spans(AABB(Vec(6.0, 4.0), Vec(10.0, 30.0)), AABB(Vec(5.0, 6.0), Vec(4.0, 3.0)))
    ensures var container, contained := AABB(Vec(2.0, 3.0), Vec(50.0, 20.0)), AABB(Vec(10.0, 10.0), Vec(5.0, 5.0));
      Area(container) >= Area(contained) && Spans(container, contained) &&
      Area(contained) < Area(container)
  {
  }

  /** The circle at (28,16) of radius 10 sticks out of the box at (16,8) of
      size (24,20) and fits in the box at (16,6) of size (24,25). */
  lemma AabbContainsCircleExamples()
    ensures !Spans(AABB(Vec(16.0, 8.0), Vec(24.0, 20.0)), Circles.EnclosingAabb(Circle(Vec(28.0, 16.0), 10.0)))
    ensures var container := AABB(Vec(16.0, 6.0), Vec(24.0, 25.0));
      var enclosing := Circles.EnclosingAabb(Circle(Vec(28.0, 16.0), 10.0));
      Area(container) >= Area(enclosing) && Spans(container, enclosing)
  {
  }

  /** The circle at (5,3) of radius 3 contains the box at (3,1) of size
      (4,4), whose area is too small to contain the circle. */
  lemma CircleContainsAabbExample()
    ensures CircleContainsAabb(Circle(Vec(5.0, 3.0), 3.0), AABB(Vec(3.0, 1.0), Vec(4.0, 4.0)))
    ensures Area(AABB(Vec(3.0, 1.0), Vec(4.0, 4.0))) < Area(Circles.EnclosingAabb(Circle(Vec(5.0, 3.0), 3.0)))
  {
    var circle, aabb := Circle(Vec(5.0, 3.0), 3.0), AABB(Vec(3.0, 1.0), Vec(4.0, 4.0));
    assert CornerPoint(aabb, TopLeft) == Vec(3.0, 1.0) && CornerPoint(aabb, TopRight) == Vec(7.0, 1.0);
    assert CornerPoint(aabb, BottomLeft) == Vec(3.0, 5.0) && CornerPoint(aabb, BottomRight) == Vec(7.0, 5.0);
    assert Circles.EnclosingAabb(circle) == AABB(Vec(2.0, 0.0), Vec(6.0, 6.0));
  }

  /** Separate boxes, a box inside another and two crossing boxes. */
  lemma OverlapsExamples()
    ensures !Overlaps(AABB(Vec(6.0, 7.0), Vec(10.0, 20.0)), AABB(Vec(18.0, 10.0), Vec(30.0, 40.0)))
    ensures Overlaps(AABB(Vec(6.0, 4.0), Vec(10.0, 5.0)), AABB(Vec(7.0, 5.0), Vec(5.0, 2.0)))
    ensures Overlaps(AABB(Vec(6.0, 4.0), Vec(10.0, 30.0)), AABB(Vec(1.0, 10.0), Vec(30.0, 10.0)))
  {
  }

  /** Circles reaching a corner of the box, one of them centred in its x
      range, intersect it. */
  lemma AabbIntersectsCircleExamples()
    ensures AabbIntersectsCircle(AABB(Vec(4.0, 3.0), Vec(5.0, 2.0)), Circle(Vec(2.0, 4.0), 3.0))
    ensures AabbIntersectsCircle(AABB(Vec(4.0, 3.0), Vec(5.0, 2.0)), Circle(Vec(5.0, 5.0), 3.0))
  {
  }

  /** The circle at (6,3) of radius 2 intersects the box at (3,1) of size
      (4,3) without containing it. */
  lemma CircleIntersectsAabbExample()
    ensures CircleIntersectsAabb(Circle(Vec(6.0, 3.0), 2.0), AABB(Vec(3.0, 1.0), Vec(4.0, 3.0)))
    ensures !CircleContainsAabb(Circle(Vec(6.0, 3.0), 2.0), AABB(Vec(3.0, 1.0), Vec(4.0, 3.0)))
  {
  }
}
