/** The collision-information engine: normal and overlap between two boxes,
    normal and depth between two circles, and between a box and a circle.

    The box searches scan the corners in their declaration order, TopLeft,
    TopRight, BottomLeft, BottomRight, and keep the first corner that wins. */
module CollisionInfo {
  import opened Vectors
  import opened VectorMaths
  import opened Reals
  import opened Corners
  import opened Aabbs
  import opened Circles
  import opened Collision
  import opened AabbCollisions

  /** The index of the first smallest number in a non-empty sequence, found
      by scanning from the left and moving on only for a strictly smaller
      number. */
  function FirstMinimum(ds: seq<real>): (i: nat)
    requires |ds| > 0
    ensures i < |ds|
    ensures forall j :: 0 <= j < |ds| ==> ds[i] <= ds[j]
    ensures forall j :: 0 <= j < i ==> ds[i] < ds[j]
    decreases |ds|
  {
    if |ds| == 1 then
      0
    else
      var k := FirstMinimum(ds[..|ds| - 1]);
      if ds[|ds| - 1] < ds[k] then |ds| - 1 else k
  }

  /** The first smallest number is the only index whose number is no larger
      than any other and strictly smaller than every one before it. */
  lemma FirstMinimumIs(ds: seq<real>, i: nat)
    requires i < |ds|
    requires forall j :: 0 <= j < |ds| ==> ds[i] <= ds[j]
    requires forall j :: 0 <= j < i ==> ds[i] < ds[j]
    ensures FirstMinimum(ds) == i
  {
    var k := FirstMinimum(ds);
    assert ds[k] <= ds[i] && ds[i] <= ds[k];
  }

  /** The squared distance from a corner of `first` to the centre of `other`. */
  function CornerDistance(first: AABB, other: AABB, c: Corner): real
  {
    MagnitudeSquared(Sub(CornerPoint(first, c), Center(other)))
  }

  /** The squared distances from the four corners of `first`, in corner
      order, to the centre of `other`. */
  function CornerDistances(first: AABB, other: AABB): (r: seq<real>)
    ensures |r| == CornerCount
    ensures forall c: Corner :: r[Index(c)] == MagnitudeSquared(Sub(CornerPoint(first, c), Center(other)))
  {
    var corners := CornerPoints(first);
    seq(CornerCount, i requires 0 <= i < CornerCount => MagnitudeSquared(Sub(corners[i], Center(other))))
  }

  /** The corner of `first` nearest the centre of `other`, the first one in
      corner order among equally near ones. */
  function ClosestCorner(first: AABB, other: AABB): Corner
  {
    FromIndex(FirstMinimum(CornerDistances(first, other)))
  }

  /** The normal chosen from the closest corner and the delta: a vertical
      normal when the overlap is wider than it is tall, otherwise a
      horizontal one, each pointing to the side of the closest corner. */
  function NormalFor(closest: Corner, delta: Vec): Direction
  {
    if delta.x > delta.y then
      if closest == TopLeft || closest == TopRight then Up else Down
    else
      if closest == TopLeft || closest == BottomLeft then Left else Right
  }

  /** What `aabb_collision_info` returns. */
  function AabbCollisionOf(first: AABB, other: AABB): AabbCollision
  {
    if !Overlaps(first, other) then
      AabbCollision(NullDirection, Null)
    else
      var closest := ClosestCorner(first, other);
      var delta := Abs(Sub(CornerPoint(first, closest), CornerPoint(other, DiagonallyOpposed(closest))));
      AabbCollision(NormalFor(closest, delta), delta)
  }

  /** The closest corner is the one no further than any other and strictly
      nearer than every corner before it in corner order. */
  lemma ClosestCornerIs(first: AABB, other: AABB, k: Corner)
    requires forall c: Corner :: CornerDistance(first, other, k) <= CornerDistance(first, other, c)
    requires forall c: Corner :: Index(c) < Index(k) ==> CornerDistance(first, other, k) < CornerDistance(first, other, c)
    ensures ClosestCorner(first, other) == k
  {
    var ds := CornerDistances(first, other);
    forall j | 0 <= j < |ds|
      ensures ds[Index(k)] <= ds[j]
    {
      assert ds[j] == CornerDistance(first, other, FromIndex(j));
    }
    forall j | 0 <= j < Index(k)
      ensures ds[Index(k)] < ds[j]
    {
      assert ds[j] == CornerDistance(first, other, FromIndex(j));
    }
    FirstMinimumIs(ds, Index(k));
  }

  /** Overlapping boxes collide at the closest corner: the delta is taken
      against the diagonally opposed corner of `other`. */
  lemma CollisionAtClosest(first: AABB, other: AABB, k: Corner)
    requires Overlaps(first, other) && ClosestCorner(first, other) == k
    ensures var delta := Abs(Sub(CornerPoint(first, k), CornerPoint(other, DiagonallyOpposed(k))));
      AabbCollisionOf(first, other) == AabbCollision(NormalFor(k, delta), delta)
  {
  }

  /** The best distance found so far by the corner scan; it starts at infinity. */
  datatype BestDistance = Unbounded | Bounded(value: real)

  /** A distance improves on the best so far when it is strictly smaller;
      every distance is smaller than infinity. */
  predicate Improves(d: real, best: BestDistance)
  {
    best == Unbounded || d < best.value
  }

  /** `aabb_collision_info` and `AABB::detectCollision`. Boxes that do not
      intersect give null normal and delta. Otherwise the loop finds the
      corner of `first` nearest the centre of `other`, comparing distances
      with a strict `<` so that the first nearest corner stays; the delta is
      the absolute difference between that corner and the diagonally opposed
      corner of `other`. */
  method AabbCollisionInfo(sqrt: real -> real, first: AABB, other: AABB) returns (r: AabbCollision)
    requires IsSqrt(sqrt)
    ensures r == AabbCollisionOf(first, other)
  {
    var intersects := AabbIntersects(first, other);
    if !intersects {
      return AabbCollision(NullDirection, Null);
    }

    var currentCorners := CornerPoints(first);
    var otherCorners := CornerPoints(other);
    var otherCenter := Center(other);
    ghost var ds := CornerDistances(first, other);

    var closestDistance := Unbounded;
    var closest: nat := CornerCount;

    for i := 0 to CornerCount
      invariant i == 0 ==> closestDistance == Unbounded
      invariant 0 < i ==> closest == FirstMinimum(ds[..i])
      invariant 0 < i ==> closestDistance == Bounded(Magnitude(sqrt, Sub(currentCorners[closest], otherCenter)))
    {
      var distance := Magnitude(sqrt, Sub(currentCorners[i], otherCenter));
      if 0 < i {
        ScanStep(sqrt, first, other, ds, i, closest);
      }
      if Improves(distance, closestDistance) {
        closestDistance := Bounded(distance);
        closest := i;
      }
      assert ds[..i + 1][..i] == ds[..i];
    }
    assert ds[..CornerCount] == ds;

    var closestCorner := FromIndex(closest);
    var oppositeCorner := DiagonallyOpposed(closestCorner);

    var c1 := currentCorners[Index(closestCorner)];
    var c2 := otherCorners[Index(oppositeCorner)];
    var delta := Sub(c1, c2);
    delta := Abs(delta);

    var normal;
    if delta.x > delta.y {
      if closestCorner == TopLeft || closestCorner == TopRight {
        normal := Up;
      } else {
        normal := Down;
      }
    } else {
      if closestCorner == TopLeft || closestCorner == BottomLeft {
        normal := Left;
      } else {
        normal := Right;
      }
    }
    r := AabbCollision(normal, delta);
  }

  /** Comparing the distances themselves, as the loop does, picks the same
      corner as comparing their squares. */
  lemma ScanStep(sqrt: real -> real, first: AABB, other: AABB, ds: seq<real>, i: nat, closest: nat)
    requires IsSqrt(sqrt)
    requires ds == CornerDistances(first, other)
    requires 0 < i < CornerCount && closest < CornerCount
    ensures Magnitude(sqrt, Sub(CornerPoints(first)[i], Center(other))) < Magnitude(sqrt, Sub(CornerPoints(first)[closest], Center(other)))
        <==> ds[i] < ds[closest]
  {
    var corners := CornerPoints(first);
    var a, b := Sub(corners[i], Center(other)), Sub(corners[closest], Center(other));
    MagnitudeSquaredSign(a);
    MagnitudeSquaredSign(b);
    SqrtMonotone(sqrt, MagnitudeSquared(a), MagnitudeSquared(b));
  }

  /** When the boxes do not overlap, normal and delta are null. Otherwise the
      closest corner is no further from the other box's centre than any
      corner and strictly nearer than every corner before it; the delta has
      non-negative components; and the normal is vertical exactly when the
      delta is wider than tall, Up or Left for a corner on that side, Down or
      Right otherwise, so that a tie goes to the horizontal normals. */
  lemma AabbCollisionOutcome(first: AABB, other: AABB)
    ensures !Overlaps(first, other) ==> AabbCollisionOf(first, other) == AabbCollision(NullDirection, Null)
    ensures Overlaps(first, other) ==>
      var r, closest := AabbCollisionOf(first, other), ClosestCorner(first, other);
      var ds := CornerDistances(first, other);
      (forall c: Corner :: ds[Index(closest)] <= ds[Index(c)]) &&
      (forall c: Corner :: Index(c) < Index(closest) ==> ds[Index(closest)] < ds[Index(c)]) &&
      r.delta == Abs(Sub(CornerPoint(first, closest), CornerPoint(other, DiagonallyOpposed(closest)))) &&
      0.0 <= r.delta.x && 0.0 <= r.delta.y &&
      ((r.normal == Up || r.normal == Down) <==> r.delta.x > r.delta.y) &&
      (r.normal == Up <==> r.delta.x > r.delta.y && IsTop(closest)) &&
      (r.normal == Left <==> r.delta.x <= r.delta.y && IsLeft(closest)) &&
      r.normal != NullDirection
  {
  }

  /** The library's case of boxes apart: (0,0,10,10) against (50,50,30,30)
      gives no collision. */
  lemma AabbCollisionApart()
    ensures AabbCollisionOf(AABB(Vec(0.0, 0.0), Vec(10.0, 10.0)), AABB(Vec(50.0, 50.0), Vec(30.0, 30.0))) == AabbCollision(NullDirection, Null)
  {
  }

  /** (0,0,10,10) against (-1,1,3,3) collides LEFT. */
  lemma AabbCollisionLeft()
    ensures AabbCollisionOf(AABB(Vec(0.0, 0.0), Vec(10.0, 10.0)), AABB(Vec(-1.0, 1.0), Vec(3.0, 3.0))).normal == Left
  {
    var first, other := AABB(Vec(0.0, 0.0), Vec(10.0, 10.0)), AABB(Vec(-1.0, 1.0), Vec(3.0, 3.0));
    ClosestCornerIs(first, other, TopLeft);
    CollisionAtClosest(first, other, TopLeft);
  }

  /** (0,0,10,10) against (8,5,40,40) collides RIGHT. */
  lemma AabbCollisionRight()
    ensures AabbCollisionOf(AABB(Vec(0.0, 0.0), Vec(10.0, 10.0)), AABB(Vec(8.0, 5.0), Vec(40.0, 40.0))).normal == Right
  {
    var first, other := AABB(Vec(0.0, 0.0), Vec(10.0, 10.0)), AABB(Vec(8.0, 5.0), Vec(40.0, 40.0));
    ClosestCornerIs(first, other, BottomRight);
    CollisionAtClosest(first, other, BottomRight);
  }

  /** (0,0,10,10) against (5,9,10,10) collides DOWN. */
  lemma AabbCollisionDown()
    ensures AabbCollisionOf(AABB(Vec(0.0, 0.0), Vec(10.0, 10.0)), AABB(Vec(5.0, 9.0), Vec(10.0, 10.0))).normal == Down
  {
    var first, other := AABB(Vec(0.0, 0.0), Vec(10.0, 10.0)), AABB(Vec(5.0, 9.0), Vec(10.0, 10.0));
    ClosestCornerIs(first, other, BottomRight);
    CollisionAtClosest(first, other, BottomRight);
  }

  /** (10,10,4,4) against (9,9,4,2) collides UP. */
  lemma AabbCollisionUp()
    ensures AabbCollisionOf(AABB(Vec(10.0, 10.0), Vec(4.0, 4.0)), AABB(Vec(9.0, 9.0), Vec(4.0, 2.0))).normal == Up
  {
    var first, other := AABB(Vec(10.0, 10.0), Vec(4.0, 4.0)), AABB(Vec(9.0, 9.0), Vec(4.0, 2.0));
    ClosestCornerIs(first, other, TopLeft);
    CollisionAtClosest(first, other, TopLeft);
  }

  /** `CirclesCollision`: the normal and the depth. */
  datatype CirclesCollision = CirclesCollision(normal: Vec, depth: real)

  /** `circles_collision_info`: null normal and zero depth when the circles do
      not intersect; otherwise the direction from the first centre to the
      other, normalised, and the size of the circles' distance. */
  function CirclesCollisionInfo(sqrt: real -> real, first: Circle, other: Circle): (r: CirclesCollision)
    requires IsSqrt(sqrt)
    ensures 0.0 <= r.depth
    ensures !Intersects(first, other) ==> r == CirclesCollision(Null, 0.0)
  {
    if !Intersects(first, other) then
      CirclesCollision(Null, 0.0)
    else
      CirclesCollision(Normalize(sqrt, Sub(other.pos, first.pos)), AbsReal(CirclesDistance(sqrt, first, other)))
  }

  /** For intersecting circles whose radii add up to a non-negative number,
      the depth is the sum of the radii less the distance between the
      centres, and it is positive; the depth is the same from either circle;
      and when the centres differ the normal has unit length and, scaled by
      the distance, leads from the first centre to the other. */
  lemma CirclesCollisionOutcome(sqrt: real -> real, first: Circle, other: Circle)
    requires IsSqrt(sqrt)
    ensures CirclesCollisionInfo(sqrt, other, first).depth == CirclesCollisionInfo(sqrt, first, other).depth
    ensures Intersects(first, other) && 0.0 <= first.radius + other.radius ==>
      var r := CirclesCollisionInfo(sqrt, first, other);
      r.depth == first.radius + other.radius - Magnitude(sqrt, Sub(other.pos, first.pos)) && 0.0 < r.depth
    ensures Intersects(first, other) && first.pos != other.pos ==>
      var r := CirclesCollisionInfo(sqrt, first, other);
      MagnitudeSquared(r.normal) == 1.0 &&
      Scale(r.normal, Magnitude(sqrt, Sub(other.pos, first.pos))) == Sub(other.pos, first.pos)
  {
    CirclesDepthSymmetric(sqrt, first, other);
    if Intersects(first, other) && 0.0 <= first.radius + other.radius {
      CirclesDepth(sqrt, first, other);
    }
    if Intersects(first, other) && first.pos != other.pos {
      CirclesNormal(sqrt, first, other);
    }
  }

  /** The depth is the same from either circle. */
  lemma CirclesDepthSymmetric(sqrt: real -> real, first: Circle, other: Circle)
    requires IsSqrt(sqrt)
    ensures CirclesCollisionInfo(sqrt, other, first).depth == CirclesCollisionInfo(sqrt, first, other).depth
  {
    IntersectsSymmetric(first, other);
    CirclesDistanceProperties(sqrt, first, other);
  }

  /** Between intersecting circles whose radii add up to a non-negative
      number, the depth is the sum of the radii less the distance between
      the centres, and it is positive. */
  lemma CirclesDepth(sqrt: real -> real, first: Circle, other: Circle)
    requires IsSqrt(sqrt)
    requires Intersects(first, other) && 0.0 <= first.radius + other.radius
    ensures var r := CirclesCollisionInfo(sqrt, first, other);
      r.depth == first.radius + other.radius - Magnitude(sqrt, Sub(other.pos, first.pos)) && 0.0 < r.depth
  {
    CirclesDistanceProperties(sqrt, first, other);
    var d := Sub(other.pos, first.pos);
    MagnitudeSquaredOfNeg(d);
    assert Sub(first.pos, other.pos) == Neg(d);
  }

  /** Between intersecting circles with distinct centres the normal has unit
      length and, scaled by the distance, leads from the first centre to the
      other. */
  lemma CirclesNormal(sqrt: real -> real, first: Circle, other: Circle)
    requires IsSqrt(sqrt)
    requires Intersects(first, other) && first.pos != other.pos
    ensures var r := CirclesCollisionInfo(sqrt, first, other);
      MagnitudeSquared(r.normal) == 1.0 &&
      Scale(r.normal, Magnitude(sqrt, Sub(other.pos, first.pos))) == Sub(other.pos, first.pos)
  {
    var d := Sub(other.pos, first.pos);
    assert d != Null;
    NormalizeHasUnitLength(sqrt, d);
  }

  /** Two circles side by side on a horizontal line, the second `d` to the
      right (`dir` 1) or to the left (`dir` -1) of the first and nearer than
      the sum of their radii, collide along that side at the depth by which
      the radii overlap. */
  lemma CirclesSideBySide(sqrt: real -> real, first: Circle, other: Circle, dir: real, d: real)
    requires IsSqrt(sqrt)
    requires dir == 1.0 || dir == -1.0
    requires 0.0 < d < first.radius + other.radius
    requires other.pos == Vec(first.pos.x + dir * d, first.pos.y)
    ensures CirclesCollisionInfo(sqrt, first, other) == CirclesCollision(Vec(dir, 0.0), first.radius + other.radius - d)
  {
    var sum := first.radius + other.radius;
    var v, w := Sub(other.pos, first.pos), Sub(first.pos, other.pos);
    assert v == Vec(dir * d, 0.0) && w == Vec(-(dir * d), 0.0);
    var dd := d * d;
    assert MagnitudeSquared(v) == dd && MagnitudeSquared(w) == dd by {
      assert (dir * d) * (dir * d) == dd by {
        if dir == 1.0 { } else { SquareOfNeg(d, dd, (-d) * (-d)); }
      }
    }
    SquareLess(d, sum, dd, sum * sum);
    assert Intersects(first, other);
    SqrtUnique(sqrt, dd, d);
    assert Magnitude(sqrt, v) == d && Magnitude(sqrt, w) == d;
    assert Div(v, d).value == Vec(dir, 0.0) by {
      DivisionCancels(dir * d, d);
    }
    assert CirclesDistance(sqrt, first, other) == d - sum;
  }

  /** The library's circles at (5,5) radius 3 and (10,5) radius 4 collide at
      depth 2 along RIGHT_VEC, seen from the first. */
  lemma CirclesCollisionRight(sqrt: real -> real)
    requires IsSqrt(sqrt)
    ensures CirclesCollisionInfo(sqrt, Circle(Vec(5.0, 5.0), 3.0), Circle(Vec(10.0, 5.0), 4.0)) == CirclesCollision(RightVec, 2.0)
  {
    CirclesSideBySide(sqrt, Circle(Vec(5.0, 5.0), 3.0), Circle(Vec(10.0, 5.0), 4.0), 1.0, 5.0);
  }

  /** The same circles seen from the second collide along LEFT_VEC at depth 2. */
  lemma CirclesCollisionLeft(sqrt: real -> real)
    requires IsSqrt(sqrt)
    ensures CirclesCollisionInfo(sqrt, Circle(Vec(10.0, 5.0), 4.0), Circle(Vec(5.0, 5.0), 3.0)) == CirclesCollision(LeftVec, 2.0)
  {
    CirclesSideBySide(sqrt, Circle(Vec(10.0, 5.0), 4.0), Circle(Vec(5.0, 5.0), 3.0), -1.0, 5.0);
  }

  /** `CircleAABBCollision`: the normal and the depth. */
  datatype CircleAabbCollision = CircleAabbCollision(normal: Vec, depth: real)

  /** `NO_COLLISION` */
  const NoCollision := CircleAabbCollision(Null, 0.0)

  /** The circle's centre lies strictly within the box's x-range or strictly
      within its y-range. */
  predicate WithinRanges(aabb: AABB, circle: Circle)
  {
    (circle.pos.x > aabb.pos.x && circle.pos.x < aabb.pos.x + aabb.size.x) ||
    (circle.pos.y > aabb.pos.y && circle.pos.y < aabb.pos.y + aabb.size.y)
  }

  /** The index of the first point strictly inside the circle, or the number
      of points when there is none. */
  function FirstContained(circle: Circle, points: seq<Vec>): (i: nat)
    ensures i <= |points|
    ensures i < |points| ==> ContainsPoint(circle, points[i])
    ensures forall j :: 0 <= j < i ==> !ContainsPoint(circle, points[j])
    decreases |points|
  {
    if |points| == 0 then
      0
    else if ContainsPoint(circle, points[0]) then
      0
    else
      1 + FirstContained(circle, points[1..])
  }

  /** The search stops at or before any point the circle contains. */
  lemma FirstContainedFinds(circle: Circle, points: seq<Vec>, j: nat)
    requires j < |points| && ContainsPoint(circle, points[j])
    ensures FirstContained(circle, points) <= j
  {
  }

  /** What `circle_aabb_collision_info` returns. */
  function CircleAabbCollisionOf(sqrt: real -> real, aabb: AABB, circle: Circle): CircleAabbCollision
    requires IsSqrt(sqrt)
  {
    if !Overlaps(aabb, Circles.EnclosingAabb(circle)) then
      NoCollision
    else if WithinRanges(aabb, circle) then
      var c := AabbCollisionOf(aabb, Circles.EnclosingAabb(circle));
      CircleAabbCollision(DirectionVector(c.normal), AbsolutePenetrationDepth(c))
    else
      var corners := CornerPoints(aabb);
      var i := FirstContained(circle, corners);
      if i < |corners| then
        CircleAabbCollision(Normalize(sqrt, Sub(circle.pos, corners[i])), circle.radius - Magnitude(sqrt, Sub(circle.pos, corners[i])))
      else
        NoCollision
  }

  /** `circle_aabb_collision_info`: no collision unless the circle's enclosing
      box meets the box; with the centre inside the box's x-range or y-range,
      the box-to-box collision with the enclosing box and its penetration
      depth; otherwise the first corner inside the circle gives the normal,
      from the corner towards the centre, and the depth, the radius less the
      corner's distance from the centre. */
  method CircleAabbCollisionInfo(sqrt: real -> real, aabb: AABB, circle: Circle) returns (r: CircleAabbCollision)
    requires IsSqrt(sqrt)
    ensures r == CircleAabbCollisionOf(sqrt, aabb, circle)
  {
    var broad := AabbIntersects(aabb, Circles.EnclosingAabb(circle));
    if !broad {
      return NoCollision;
    }

    if WithinRanges(aabb, circle) {
      var aabbColl := AabbCollisionInfo(sqrt, aabb, Circles.EnclosingAabb(circle));
      return CircleAabbCollision(DirectionVector(aabbColl.normal), AbsolutePenetrationDepth(aabbColl));
    } else {
      var corners := CornerPoints(aabb);
      ghost var first := FirstContained(circle, corners);
      for i := 0 to |corners|
        invariant forall j :: 0 <= j < i ==> !ContainsPoint(circle, corners[j])
        invariant i <= first
      {
        var corner := corners[i];
        if ContainsPoint(circle, corner) {
          var dir := Normalize(sqrt, Sub(circle.pos, corner));
          var depth := circle.radius - Magnitude(sqrt, Sub(circle.pos, corner));
          return CircleAabbCollision(dir, depth);
        }
      }
    }

    return NoCollision;
  }

  /** The outcome by case. Without a broad-phase overlap there is no
      collision. Inside the ranges the normal is one of the four axis
      directions and the depth is the overlap's size along it, never
      negative. Otherwise a collision comes from a corner of the box strictly
      inside a circle of non-negative radius: its depth is positive, and the
      normal scaled by the corner's distance leads from the corner to the
      centre. */
  lemma CircleAabbCollisionOutcome(sqrt: real -> real, aabb: AABB, circle: Circle)
    requires IsSqrt(sqrt)
    ensures !Overlaps(aabb, Circles.EnclosingAabb(circle)) ==> CircleAabbCollisionOf(sqrt, aabb, circle) == NoCollision
    ensures Overlaps(aabb, Circles.EnclosingAabb(circle)) && WithinRanges(aabb, circle) ==>
      var r, c := CircleAabbCollisionOf(sqrt, aabb, circle), AabbCollisionOf(aabb, Circles.EnclosingAabb(circle));
      r.normal in {LeftVec, RightVec, UpVec, DownVec} && 0.0 <= r.depth &&
      (r.normal in {LeftVec, RightVec} ==> r.depth == c.delta.x) &&
      (r.normal in {UpVec, DownVec} ==> r.depth == c.delta.y)
    ensures (Overlaps(aabb, Circles.EnclosingAabb(circle)) && !WithinRanges(aabb, circle) && 0.0 <= circle.radius &&
             CircleAabbCollisionOf(sqrt, aabb, circle) != NoCollision) ==>
      var r := CircleAabbCollisionOf(sqrt, aabb, circle);
      exists c: Corner :: ContainsPoint(circle, CornerPoint(aabb, c)) &&
        0.0 < r.depth &&
        Scale(r.normal, Magnitude(sqrt, Sub(circle.pos, CornerPoint(aabb, c)))) == Sub(circle.pos, CornerPoint(aabb, c))
  {
    var box := Circles.EnclosingAabb(circle);
    if Overlaps(aabb, box) && WithinRanges(aabb, circle) {
      var c := AabbCollisionOf(aabb, box);
      AabbCollisionOutcome(aabb, box);
      PenetrationDepthAlongAxes(c.normal, c.delta);
    }
    if Overlaps(aabb, box) && !WithinRanges(aabb, circle) && 0.0 <= circle.radius && CircleAabbCollisionOf(sqrt, aabb, circle) != NoCollision {
      CornerOutcome(sqrt, aabb, circle);
    }
  }

  /** The corner case of the outcome: the first corner inside the circle
      gives a positive depth and a normal leading from it to the centre. */
  lemma CornerOutcome(sqrt: real -> real, aabb: AABB, circle: Circle)
    requires IsSqrt(sqrt) && 0.0 <= circle.radius
    requires Overlaps(aabb, Circles.EnclosingAabb(circle)) && !WithinRanges(aabb, circle)
    requires CircleAabbCollisionOf(sqrt, aabb, circle) != NoCollision
    ensures var r := CircleAabbCollisionOf(sqrt, aabb, circle);
      var k := FromIndex(FirstContained(circle, CornerPoints(aabb)));
      ContainsPoint(circle, CornerPoint(aabb, k)) &&
      0.0 < r.depth &&
      Scale(r.normal, Magnitude(sqrt, Sub(circle.pos, CornerPoint(aabb, k)))) == Sub(circle.pos, CornerPoint(aabb, k))
  {
    var corners := CornerPoints(aabb);
    var i := FirstContained(circle, corners);
    assert CornerPoint(aabb, FromIndex(i)) == corners[i];
    ContainedPointIsNear(sqrt, circle, corners[i]);
  }

  /** With the centre inside one of the box's ranges, the result is the
      box-to-box collision with the circle's enclosing box, its normal as a
      vector and its penetration depth. */
  lemma WithinRangesCollision(sqrt: real -> real, aabb: AABB, circle: Circle)
    requires IsSqrt(sqrt)
    requires Overlaps(aabb, Circles.EnclosingAabb(circle)) && WithinRanges(aabb, circle)
    ensures var c := AabbCollisionOf(aabb, Circles.EnclosingAabb(circle));
      CircleAabbCollisionOf(sqrt, aabb, circle) == CircleAabbCollision(DirectionVector(c.normal), AbsolutePenetrationDepth(c))
  {
  }

  /** A corner collision is a real one: when the centre lies outside both
      ranges, a box of non-negative size and a circle of non-negative radius
      intersect exactly when the result is a corner collision of positive
      depth. */
  lemma CircleAabbCornerCollisionIsIntersection(sqrt: real -> real, aabb: AABB, circle: Circle)
    requires IsSqrt(sqrt)
    requires 0.0 <= aabb.size.x && 0.0 <= aabb.size.y && 0.0 <= circle.radius
    requires !WithinRanges(aabb, circle)
    ensures AabbIntersectsCircleExact(aabb, circle) <==> 0.0 < CircleAabbCollisionOf(sqrt, aabb, circle).depth
  {
    if AabbIntersectsCircleExact(aabb, circle) {
      IntersectionGivesCornerDepth(sqrt, aabb, circle);
    }
    if 0.0 < CircleAabbCollisionOf(sqrt, aabb, circle).depth {
      CornerDepthGivesIntersection(sqrt, aabb, circle);
    }
  }

  /** One direction: an intersection is reported with positive depth. */
  lemma IntersectionGivesCornerDepth(sqrt: real -> real, aabb: AABB, circle: Circle)
    requires IsSqrt(sqrt)
    requires 0.0 <= aabb.size.x && 0.0 <= aabb.size.y && 0.0 <= circle.radius
    requires !WithinRanges(aabb, circle)
    requires AabbIntersectsCircleExact(aabb, circle)
    ensures 0.0 < CircleAabbCollisionOf(sqrt, aabb, circle).depth
  {
    var box := Circles.EnclosingAabb(circle);
    var corners := CornerPoints(aabb);
    var near := NearestPoint(aabb, circle.pos);
    var k := NearestCorner(aabb, circle);
    EnclosingAabbHoldsCircle(circle, near);
    OverlapsProperties(aabb, box);
    assert Contains(aabb, near) && Contains(box, near);
    assert corners[Index(k)] == near;
    FirstContainedFinds(circle, corners, Index(k));
    var i := FirstContained(circle, corners);
    ContainedPointIsNear(sqrt, circle, corners[i]);
  }

  /** A point strictly inside a circle lies closer to the centre than the
      radius. */
  lemma ContainedPointIsNear(sqrt: real -> real, circle: Circle, p: Vec)
    requires IsSqrt(sqrt) && 0.0 <= circle.radius && ContainsPoint(circle, p)
    ensures Magnitude(sqrt, Sub(circle.pos, p)) < circle.radius
  {
    var d := Sub(circle.pos, p);
    SquareBelowBound(Magnitude(sqrt, d), circle.radius, MagnitudeSquared(d), circle.radius * circle.radius);
  }

  /** The other direction: a corner collision of positive depth is an
      intersection. */
  lemma CornerDepthGivesIntersection(sqrt: real -> real, aabb: AABB, circle: Circle)
    requires IsSqrt(sqrt)
    requires 0.0 <= aabb.size.x && 0.0 <= aabb.size.y && 0.0 <= circle.radius
    requires !WithinRanges(aabb, circle)
    requires 0.0 < CircleAabbCollisionOf(sqrt, aabb, circle).depth
    ensures AabbIntersectsCircleExact(aabb, circle)
  {
    var corners := CornerPoints(aabb);
    var i := FirstContained(circle, corners);
    ContainsCornersAndCenter(aabb, FromIndex(i));
    assert CornerPoint(aabb, FromIndex(i)) == corners[i];
    AabbIntersectsCircleExactIsIntersection(aabb, circle);
  }

  /** With the centre outside both ranges of a box of non-negative size, the
      point of the box nearest the centre is a corner. */
  function NearestCorner(aabb: AABB, circle: Circle): (k: Corner)
    requires 0.0 <= aabb.size.x && 0.0 <= aabb.size.y
    requires !WithinRanges(aabb, circle)
    ensures CornerPoint(aabb, k) == NearestPoint(aabb, circle.pos)
  {
    var right := circle.pos.x >= aabb.pos.x + aabb.size.x && circle.pos.x > aabb.pos.x;
    var bottom := circle.pos.y >= aabb.pos.y + aabb.size.y && circle.pos.y > aabb.pos.y;
    if right then
      if bottom then BottomRight else TopRight
    else
      if bottom then BottomLeft else TopLeft
  }

  /** The box (6,7,9,3) against the box around a circle of radius 1 at
      (5.5,8): the top-left corner is nearest, the overlap is (0.5,2) and
      the normal LEFT. */
  lemma BoxAroundCircleCollidesLeft()
    ensures AabbCollisionOf(AABB(Vec(6.0, 7.0), Vec(9.0, 3.0)), Circles.EnclosingAabb(Circle(Vec(5.5, 8.0), 1.0))) == AabbCollision(Left, Vec(0.5, 2.0))
  {
    var aabb, box := AABB(Vec(6.0, 7.0), Vec(9.0, 3.0)), Circles.EnclosingAabb(Circle(Vec(5.5, 8.0), 1.0));
    ClosestCornerIs(aabb, box, TopLeft);
    CollisionAtClosest(aabb, box, TopLeft);
  }

  /** The library's box (6,7,9,3) against a circle of radius 1 at (5.5,8)
      collides along LEFT_VEC at depth 0.5. */
  lemma CircleAabbCollisionLeft(sqrt: real -> real)
    requires IsSqrt(sqrt)
    ensures CircleAabbCollisionOf(sqrt, AABB(Vec(6.0, 7.0), Vec(9.0, 3.0)), Circle(Vec(5.5, 8.0), 1.0)) == CircleAabbCollision(LeftVec, 0.5)
  {
    var aabb, circle := AABB(Vec(6.0, 7.0), Vec(9.0, 3.0)), Circle(Vec(5.5, 8.0), 1.0);
    BoxAroundCircleCollidesLeft();
    assert Circles.EnclosingAabb(circle) == AABB(Vec(4.5, 7.0), Vec(2.0, 2.0));
    WithinRangesCollision(sqrt, aabb, circle);
    PenetrationDepthAlongAxes(Left, Vec(0.5, 2.0));
  }

  /** The box (6,7,9,3) against the box (7,4,4,4) around a circle of radius
      2 at (9,6): the top-left corner is nearest, the overlap is (5,1) and
      the normal UP. */
  lemma BoxAroundCircleCollidesUp()
    ensures AabbCollisionOf(AABB(Vec(6.0, 7.0), Vec(9.0, 3.0)), AABB(Vec(7.0, 4.0), Vec(4.0, 4.0))) == AabbCollision(Up, Vec(5.0, 1.0))
  {
    var aabb, box := AABB(Vec(6.0, 7.0), Vec(9.0, 3.0)), AABB(Vec(7.0, 4.0), Vec(4.0, 4.0));
    ClosestCornerIs(aabb, box, TopLeft);
    CollisionAtClosest(aabb, box, TopLeft);
  }

  /** The same box against a circle of radius 2 at (9,6) collides along
      UP_VEC at depth 1. */
  lemma CircleAabbCollisionUp(sqrt: real -> real)
    requires IsSqrt(sqrt)
    ensures CircleAabbCollisionOf(sqrt, AABB(Vec(6.0, 7.0), Vec(9.0, 3.0)), Circle(Vec(9.0, 6.0), 2.0)) == CircleAabbCollision(UpVec, 1.0)
  {
    var aabb, circle := AABB(Vec(6.0, 7.0), Vec(9.0, 3.0)), Circle(Vec(9.0, 6.0), 2.0);
    assert Circles.EnclosingAabb(circle) == AABB(Vec(7.0, 4.0), Vec(4.0, 4.0));
    BoxAroundCircleCollidesUp();
    assert WithinRanges(aabb, circle);
  }

  /** The same box against a circle of radius 3 at (4,6), outside both
      ranges, collides at its top-left corner (6,7): the normal is (-2,-1)
      normalised and the depth is 3 less the square root of 5. */
  lemma CircleAabbCollisionCorner(sqrt: real -> real)
    requires IsSqrt(sqrt)
    ensures CircleAabbCollisionOf(sqrt, AABB(Vec(6.0, 7.0), Vec(9.0, 3.0)), Circle(Vec(4.0, 6.0), 3.0))
      == CircleAabbCollision(Normalize(sqrt, Vec(-2.0, -1.0)), 3.0 - sqrt(5.0))
  {
    var aabb, circle := AABB(Vec(6.0, 7.0), Vec(9.0, 3.0)), Circle(Vec(4.0, 6.0), 3.0);
    assert Circles.EnclosingAabb(circle) == AABB(Vec(1.0, 3.0), Vec(6.0, 6.0));
    var corners := CornerPoints(aabb);
    assert corners[0] == Vec(6.0, 7.0);
    assert ContainsPoint(circle, corners[0]);
    assert FirstContained(circle, corners) == 0;
    assert Sub(circle.pos, corners[0]) == Vec(-2.0, -1.0);
  }
}
