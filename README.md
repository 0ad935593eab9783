# Charbrary collision core in Dafny

A model of the collision-detection and intersection core of Charbrary, a
small C++ 2D geometry library, with proofs of what it computes.

It covers the following:

- **Vectors.** The vector type and its operators: component-wise arithmetic, division that throws on a zero divisor, and exact equality. The compound assignments are methods of a `Vector` object.
- **Vector functions.** `vec_magnitude_squared`, `vec_magnitude`, `vec_dot_product`, `vec_abs` and `vec_normalize`.
- **Corners.** The diagonally-opposed-corner table.
- **Shapes.**
  - `AABB`: a top-left position and a size that may be negative. In-place `move` and `scaleRelativeToCenter` are methods of a `Box` object.
  - `Circle`.
  - `LineSegment`: the slope uses an infinity sentinel for vertical segments.
- **Containment and intersection predicates.** These are the `aabb_contains`, `circle_contains`, `aabb_intersects` and `circle_intersects` overloads. The AABB–circle test is modelled as written, as three stages.
- **Collision-info routines.**
  - `aabb_collision_info` / `AABB::detectCollision`: a corner scan with a loop in which the first minimum wins.
  - `circles_collision_info`.
  - `circle_aabb_collision_info`: delegates to the box case, or takes the first corner inside the circle.
- **Segment intersection classifier.** `line_segments_intersection_info` / `LineSegment::checkForIntersection`. Its result type is the datatype `None | Crossing(point) | Overlapping(first, second)`.

Coordinates are `real`. `std::sqrtf` becomes a parameter `sqrt: real -> real`, and `IsSqrt(sqrt)` requires it to return the non-negative square root of every non-negative argument. Every operation that takes a magnitude carries this parameter.

The modules are:

| module | file | models |
|---|---|---|
| `Vectors` | `vector.dfy` | `Vector.cpp` |
| `VectorMaths` | `vector_maths.dfy` | `vector_maths_functions.cpp` |
| `Corners` | `corner.dfy` | `Corner.cpp` |
| `Aabbs` | `aabb.dfy` | `AABB.cpp` |
| `Circles` | `circle.dfy` | `Circle.cpp` |
| `LineSegments` | `line_segment.dfy` | `LineSegment.cpp` |
| `AabbCollisions` | `aabb_collision.dfy` | `AABBCollision.cpp` |
| `Collision` | `collision.dfy` | the predicates of `collision_functions.cpp` |
| `CollisionInfo` | `collision_info.dfy` | the collision-info routines |
| `SegmentIntersections` | `segment_intersection.dfy` | the segment classifier |
| `AabbObjects` | `aabb_object.dfy` | the `AABB` member functions of `single-include/charbrary.cpp` |
| `Reals` | `reals.dfy` | small lemmas of real arithmetic used by the proofs |

Coordinates are exact reals, so the classifier's `Vertical` sentinel plays the part of the float infinity. Two consequences follow:

- Two vertical segments have equal slopes and equal "intercepts", since infinity equals infinity.
- A vertical segment against a sloped one gives `None`, because `commonX` would be NaN and every comparison with NaN fails.

Collision normals of boxes are the symbolic `Direction` (`Left | Right | Up | Down`, or `NullDirection` for no collision). `DirectionVector` gives the value of the library's constant where a vector is needed.

## Where the description and the code differ

The model follows the code in each of these cases:

- **Box self-intersection.** Every box is said to intersect itself. In the code (`aabb_intersects`, the extended-box test) this holds only for sizes that are not negative, and `Collision.OverlapsProperties` states it that way.
- **Circle self-intersection.** Every circle is said to intersect itself. With radius 0 the strict test `0 < 0` fails, so `Circles.IntersectsReflexive` requires a radius other than 0.
- **Box collision depth.** The box collision is described with a "positive depth". Touching boxes do intersect, because containment is inclusive, and then give a delta of zero. The contracts promise a delta that is not negative.
- **Circle–circle normal.** The circle–circle normal is said to be a unit vector. For concentric circles it is the zero vector, with a positive depth (see `CollisionInfo.CirclesCollisionOutcome`).

## Model

| member | source | states |
|---|---|---|
| Vectors.Div | source/Charbrary/src/Vector.cpp:58-63 | fails with `DivisionByZero` exactly when the divisor is 0; otherwise the quotient scaled by the divisor gives the base back |
| Vectors.Add | source/Charbrary/src/Vector.cpp:38-40 | component-wise `+`; `AddThenSub` proves `-` undoes it and that it commutes |
| Vectors.Sub | source/Charbrary/src/Vector.cpp:42-44 | component-wise `-`; `AddThenSub` proves it undoes `+`, `SubIsAddNeg` that it is `+` of the negation |
| Vectors.Neg | source/Charbrary/src/Vector.cpp:46-48 | unary minus; `SubIsAddNeg` proves it an involution, `ScaleCommutes` that it is scaling by -1 |
| Vectors.Scale | source/Charbrary/src/Vector.cpp:50-52 | `base * scalar`; `Div` and `ScaleCommutes` give its meaning (the inverse of division, the same as `scalar * base`) |
| Vectors.ScaleLeft | source/Charbrary/src/Vector.cpp:54-56 | `scalar * base`; `ScaleCommutes` proves it equal to `base * scalar` |
| Vectors.HalfIsDivision | source/Charbrary/src/AABB.cpp:18-20 | `v / 2.f` never fails and yields the half, and two halves add up to `v` |
| Vectors.AddThenSub | source/Charbrary/src/Vector.cpp:38-44 | subtracting what was added gives the vector back (both orders), and `+` commutes |
| Vectors.SubIsAddNeg | source/Charbrary/src/Vector.cpp:13-16 | subtraction is addition of the negation, which is how `-=` is written; negating twice is the identity |
| Vectors.ScaleCommutes | source/Charbrary/src/Vector.cpp:50-56 | `scalar * v == v * scalar`, and scaling by -1 is unary minus |
| Vectors.DivByZeroFails | source/Charbrary/src/Vector.cpp:58-63 | every vector divided by 0 gives the division-by-zero error |
| Vectors.EqualIsIdentity | source/Charbrary/src/Vector.cpp:65-71 | `==` holds exactly for equal components and `!=` is its negation |
| Vectors.Equal | source/Charbrary/src/Vector.cpp:65-67 | component-wise `==`; `EqualIsIdentity` proves it is identity of vectors |
| Vectors.NotEqual | source/Charbrary/src/Vector.cpp:69-71 | `!=`; `EqualIsIdentity` proves it is the negation of `==` |
| Vectors.Vector.constructor | source/Charbrary/src/Vector.cpp:5 | the new vector holds the given components |
| Vectors.Vector.AddAssign | source/Charbrary/src/Vector.cpp:7-11 | the receiver becomes old value plus the argument, and the receiver itself is returned |
| Vectors.Vector.SubAssign | source/Charbrary/src/Vector.cpp:13-16 | the receiver becomes old value minus the argument, and the receiver is returned |
| Vectors.Vector.MulAssign | source/Charbrary/src/Vector.cpp:18-22 | the receiver becomes old value times the scalar, and the receiver is returned |
| Vectors.Vector.DivAssign | source/Charbrary/src/Vector.cpp:24-31 | fails exactly when the divisor is 0, leaving the receiver unchanged; otherwise returns the receiver, whose new value times the divisor is the old value |
| Vectors.Vector.Assign | source/Charbrary/src/Vector.cpp:33-36 | the receiver takes the other vector's value |
| VectorMaths.SqrtMonotone | source/Charbrary/src/collision_functions.cpp:126-133 | comparing magnitudes (square roots) orders the same as comparing squared magnitudes, so the argmin of the corner scan is the same |
| VectorMaths.MagnitudeSquared | source/Charbrary/src/vector_maths_functions.cpp:10-12 | `x*x + y*y`; `MagnitudeSquaredSign` and `MagnitudeSquaredOfNeg` prove it at least 0, zero only for the null vector, and blind to negation |
| VectorMaths.MagnitudeSquaredSign | source/Charbrary/src/vector_maths_functions.cpp:10-12 | the squared magnitude is at least 0, and 0 exactly for the null vector |
| VectorMaths.MagnitudeSquaredOfNeg | source/Charbrary/src/vector_maths_functions.cpp:10-12 | negating a vector leaves its squared magnitude unchanged |
| VectorMaths.Magnitude | source/Charbrary/src/vector_maths_functions.cpp:14-16 | the magnitude is at least 0 and its square is the squared magnitude |
| VectorMaths.MagnitudeZero | source/Charbrary/src/vector_maths_functions.cpp:14-16 | the magnitude is 0 exactly for the null vector |
| VectorMaths.DotProperties | source/Charbrary/src/vector_maths_functions.cpp:18-20 | the dot product commutes, and `dot(v, v)` is the squared magnitude |
| VectorMaths.Dot | source/Charbrary/src/vector_maths_functions.cpp:18-20 | the dot product; `DotProperties` proves it commutative and equal to the squared magnitude on `(v, v)` |
| VectorMaths.AbsReal | source/Charbrary/src/AABBCollision.cpp:4-6 | `std::abs` is at least 0 and is the argument or its negation |
| VectorMaths.Abs | source/Charbrary/src/vector_maths_functions.cpp:22-24 | both components at least 0, each the input's or its negation |
| VectorMaths.AbsProperties | source/Charbrary/src/vector_maths_functions.cpp:22-24 | `vec_abs` is idempotent and ignores negation |
| VectorMaths.Normalize | source/Charbrary/src/vector_maths_functions.cpp:26-32 | the null vector gives `NULL_VEC`; any other vector is its normalisation scaled by its magnitude |
| VectorMaths.NormalizeNeverDividesByZero | source/Charbrary/src/vector_maths_functions.cpp:26-31 | the division by the magnitude fails exactly for the null vector, the one the guard returns early for |
| VectorMaths.NormalizeHasUnitLength | source/Charbrary/src/vector_maths_functions.cpp:31 | the normalisation of a non-null vector has magnitude and squared magnitude 1 |
| VectorMaths.NormalizeIdempotent | source/Charbrary/src/vector_maths_functions.cpp:26-32 | normalising twice is normalising once |
| VectorMaths.NormalizeExample | tests/charbrary-tests/TEST-vector_maths_functions.cpp:38-43 | (3,4) normalises to (0.6,0.8) |
| Corners.FromIndex | source/Charbrary/src/collision_functions.cpp:131 | `static_cast<Corner>(i)` for i below 4 is the corner whose index is i |
| Corners.IndexRoundTrip | source/Charbrary/src/collision_functions.cpp:131-137 | casting a corner to its index and back gives the corner |
| Corners.DiagonallyOpposed | source/Charbrary/src/Corner.cpp:6-16 | the opposite corner differs on both the top/bottom and the left/right side |
| Corners.DiagonallyOpposedPairs | source/Charbrary/src/Corner.cpp:7-15 | TopLeft and BottomRight are swapped, as are TopRight and BottomLeft |
| Corners.DiagonallyOpposedCharacterised | source/Charbrary/src/Corner.cpp:6-16 | a corner is the opposite exactly when it differs on both sides |
| Corners.DiagonallyOpposedInvolution | source/Charbrary/src/Corner.cpp:6-16 | applying the table twice gives the corner back, and no corner is its own opposite |
| Aabbs.CenterCoordinates | source/Charbrary/src/AABB.cpp:18-20 | the centre is the position plus half the size, coordinate by coordinate |
| Aabbs.Center | source/Charbrary/src/AABB.cpp:18-20 | `pos + size / 2`; `CenterCoordinates` and `CenterIsMidpoint` prove it the midpoint of every diagonal |
| Aabbs.CornerPoint | source/Charbrary/src/AABB.cpp:22-35 | `AABB::corner`; `CornerCoordinates` gives each corner's edges, `CenterIsMidpoint` pairs it with the opposite corner |
| Aabbs.Perimeter | source/Charbrary/src/AABB.cpp:54-56 | `2 * (w + h)`; `MovedShiftsEverything` proves moving keeps it, `ScaledKeepsCenter` that scaling multiplies it by the factor |
| Aabbs.Area | source/Charbrary/src/AABB.cpp:58-60 | `w * h`; `MovedShiftsEverything` proves moving keeps it, `AabbContainsAabbProperties` that a contained box of non-negative size has no larger area |
| Aabbs.Contains | source/Charbrary/src/collision_functions.cpp:27-33 | inclusive point containment; `ContainsCornersAndCenter` proves it holds the corners and centre, `OverlapsProperties` ties box overlap to a shared point |
| Aabbs.Equal | source/Charbrary/src/AABB.cpp:66-68 | `==` on position and size; `EqualIsIdentity` proves it is identity of boxes |
| Aabbs.Moved | source/Charbrary/src/AABB.cpp:14-16 | the box after `move`; `MovedShiftsEverything` and `MoveInverse` prove it shifts every point, keeps the size and can be undone |
| Aabbs.ScaledRelativeToCenter | source/Charbrary/src/AABB.cpp:48-52 | the box after `scaleRelativeToCenter`; `ScaledKeepsCenter` and `ScaledByOne` prove the centre stays and the size scales |
| Aabbs.CornerCoordinates | source/Charbrary/src/AABB.cpp:22-35 | a Left corner has x = pos.x, otherwise pos.x + size.x; a Top corner has y = pos.y, otherwise pos.y + size.y |
| Aabbs.CornerPoints | source/Charbrary/src/AABB.cpp:37-46 | four corners, in the enum order TopLeft, TopRight, BottomLeft, BottomRight |
| Aabbs.CenterIsMidpoint | source/Charbrary/src/AABB.cpp:18-35 | every corner plus its diagonally opposed corner is twice the centre |
| Aabbs.EqualIsIdentity | source/Charbrary/src/AABB.cpp:66-72 | `==` holds exactly for equal position and size, and `!=` is its negation |
| Aabbs.ContainsCornersAndCenter | single-include/charbrary.cpp:200-206 | with a size that is not negative, the inclusive containment holds every corner and the centre |
| Aabbs.MovedShiftsEverything | source/Charbrary/src/AABB.cpp:14-16 | moving shifts the centre and every corner by the movement and keeps area and perimeter |
| Aabbs.ScaledKeepsCenter | source/Charbrary/src/AABB.cpp:48-56 | scaling relative to the centre multiplies the size and the perimeter by the factor and keeps the centre |
| Aabbs.ScaledByOne | source/Charbrary/src/AABB.cpp:48-52 | scaling by 1 leaves the box as it was |
| Circles.EnclosingAabbFits | source/Charbrary/src/Circle.cpp:22-24 | the enclosing box has the circle's centre and size (diameter, diameter), and holds the four axis-extreme points of the circle |
| Circles.Diameter | source/Charbrary/src/Circle.cpp:10-12 | `2 * radius`; `InscribedCircleFits` proves the inscribed circle's diameter is the shorter side of its box |
| Circles.EnclosingAabb | source/Charbrary/src/Circle.cpp:22-24 | the box `(pos - r, 2r)`; `EnclosingAabbFits` and `EnclosingAabbHoldsCircle` prove it shares the centre and holds every point of the circle |
| Circles.ContainsPoint | source/Charbrary/src/Circle.cpp:26-28 | strict point containment; `ContainsPointIsStrict` and `ContainsCentre` prove the boundary is excluded and the centre included for radius other than 0 |
| Circles.Intersects | source/Charbrary/src/Circle.cpp:30-32 | centres nearer than the sum of radii; `IntersectsSymmetric` and `IntersectsReflexive` give its symmetry and reflexivity |
| Circles.StrictlyContains | source/Charbrary/src/Circle.cpp:34-39 | radius gate then centre distance; `StrictlyContainsBounds` and `StrictlyContainsImpliesIntersects` give its meaning |
| Circles.Equal | source/Charbrary/src/Circle.cpp:46-48 | `==` on radius and position; `EqualIsIdentity` proves it is identity of circles |
| Circles.ContainsPointIsStrict | source/Charbrary/src/Circle.cpp:26-28 | a point exactly at distance r is not contained |
| Circles.ContainsCentre | source/Charbrary/src/Circle.cpp:26-28 | a circle contains its own centre exactly when its radius is not 0 |
| Circles.IntersectsSymmetric | source/Charbrary/src/Circle.cpp:30-32 | `a.intersects(b)` equals `b.intersects(a)` |
| Circles.IntersectsReflexive | source/Charbrary/src/Circle.cpp:30-32 | a circle of radius other than 0 intersects itself |
| Circles.StrictlyContainsBounds | source/Charbrary/src/Circle.cpp:34-39 | false when the other radius is larger; true for the circle and itself |
| Circles.StrictlyContainsImpliesIntersects | source/Charbrary/src/Circle.cpp:30-39 | a contained circle of positive radius intersects its container |
| Circles.EqualIsIdentity | source/Charbrary/src/Circle.cpp:46-52 | `==` holds exactly for equal radius and position, and `!=` is its negation |
| Collision.Min | source/Charbrary/src/collision_functions.cpp:10 | `std::min` is at most both arguments and is one of them |
| Collision.InscribedCircleFits | source/Charbrary/src/collision_functions.cpp:9-11 | the inscribed circle is centred on the box, its diameter is the smaller side, and for sizes that are not negative its enclosing box fits in the box |
| Collision.InscribedCircle | source/Charbrary/src/collision_functions.cpp:9-11 | `inscribedCircle`; `InscribedCircleFits` proves it centred on the box with the shorter side as diameter and inside the box |
| Collision.Spans | source/Charbrary/src/collision_functions.cpp:35-43 | the edges of one box within the other's; `SpansIsCornersInside` proves it means every corner of the other box is inside |
| Collision.SpansIsCornersInside | source/Charbrary/src/collision_functions.cpp:35-43 | the shrunk-zone test holds exactly when every corner of the other box is inside the first |
| Collision.AabbContainsAabb | source/Charbrary/src/collision_functions.cpp:35-43 | the answer is the area gate and then the other position inside the zone shrunk by the other size |
| Collision.AabbContainsAabbProperties | source/Charbrary/src/collision_functions.cpp:35-43 | false when the first area is smaller; true for a box and itself; for sizes that are not negative, fitting edges imply the area gate |
| Collision.AabbContainsCircle | source/Charbrary/src/collision_functions.cpp:45-47 | the answer is box containment of the circle's enclosing box |
| Collision.EnclosingAabbHoldsCircle | source/Charbrary/src/collision_functions.cpp:13-15 | every point of a circle lies in its enclosing box |
| Collision.AabbContainsCircleHoldsItsPoints | source/Charbrary/src/collision_functions.cpp:45-47 | when the enclosing box fits, every point of the circle is in the box |
| Collision.CircleContainsAabb | source/Charbrary/src/collision_functions.cpp:60-66 | true exactly when all four corners are strictly inside the circle; `CircleContainsAabbHoldsItsPoints` proves that this means the whole box is inside the circle |
| Collision.FarthestCornerIsFarthest | source/Charbrary/src/collision_functions.cpp:60-66 | no point of a box is farther from a given point than the box's farthest corner |
| Collision.CircleContainsAabbHoldsItsPoints | source/Charbrary/src/collision_functions.cpp:60-66 | for a box of non-negative size, the four-corner test holds exactly when every point of the box is strictly inside the circle |
| Collision.AabbIntersects | source/Charbrary/src/collision_functions.cpp:68-75 | the extended-box test answers the overlap of the two boxes' ranges |
| Collision.Overlaps | source/Charbrary/src/collision_functions.cpp:68-75 | the boxes' closed ranges meet on both axes; `OverlapsProperties` proves it symmetric and, for non-negative sizes, reflexive and the same as sharing a point |
| Collision.OverlapsProperties | source/Charbrary/src/collision_functions.cpp:68-75 | symmetric; reflexive for sizes that are not negative; for such sizes, equivalent to sharing a point |
| Collision.ExtremePointOnCircle | source/Charbrary/src/collision_functions.cpp:91-94 | each of the four axis-extreme points lies at exactly the radius from the centre |
| Collision.AabbIntersectsCircleSound | source/Charbrary/src/collision_functions.cpp:77-106 | false when the enclosing boxes miss; a true answer means a corner or an extreme point reaches the box; `circle_intersects(circle, aabb)` is `aabb_intersects(aabb, circle)` |
| Collision.AabbIntersectsCircle | source/Charbrary/src/collision_functions.cpp:77-98 | the three-stage test as written; `AabbIntersectsCircleSound` proves every true answer is backed by a reaching point, `AabbIntersectsCircleMissesCentredCircle` that it misses some intersections |
| Collision.CircleIntersectsAabb | source/Charbrary/src/collision_functions.cpp:104-106 | `circle_intersects(circle, aabb)`; `AabbIntersectsCircleSound` proves it is the box–circle test with the arguments swapped |
| Collision.AabbIntersectsCircleExactIsIntersection | source/Charbrary/src/collision_functions.cpp:77-98 | corrected test: the nearest-point test holds exactly when box and circle share a point |
| Collision.AabbIntersectsCircleMissesCentredCircle | source/Charbrary/src/collision_functions.cpp:77-98 | as written, the test misses a circle whose centre is inside the box (see Findings) |
| Collision.CirclesDistanceProperties | source/Charbrary/src/collision_functions.cpp:108-110 | the distance is symmetric and, for a sum of radii that is not negative, negative exactly when the circles intersect |
| Collision.CirclesDistance | source/Charbrary/src/collision_functions.cpp:108-110 | centre distance less both radii; `CirclesDistanceProperties` proves it symmetric and negative exactly when the circles intersect |
| Collision.CirclesDistanceExample | tests/charbrary-tests/TEST-collision_functions.cpp:214-219 | circles ((0,0),5) and ((-10,0),3) are 2 apart |
| Collision.AabbContainsExamples | tests/charbrary-tests/TEST-collision_functions.cpp:40-73 | the point and box containment cases of the tests, including the container that is not contained back |
| Collision.AabbContainsCircleExamples | tests/charbrary-tests/TEST-collision_functions.cpp:75-87 | the box-contains-circle cases, negative and positive |
| Collision.CircleContainsAabbExample | tests/charbrary-tests/TEST-collision_functions.cpp:124-129 | the circle ((5,3),3) contains the box (3,1,4,4), and the box fails the area gate against the circle |
| Collision.OverlapsExamples | tests/charbrary-tests/TEST-collision_functions.cpp:139-167 | the box-intersection cases of the tests |
| Collision.AabbIntersectsCircleExamples | tests/charbrary-tests/TEST-collision_functions.cpp:169-183 | the two box–circle intersection cases |
| Collision.CircleIntersectsAabbExample | tests/charbrary-tests/TEST-collision_functions.cpp:131-137 | the circle ((6,3),2) intersects the box (3,1,4,3) without containing it |
| AabbCollisions.DirectionVector | source/Charbrary/src/Constants.h:8-13 | the constant is `NULL_VEC` exactly for no direction |
| AabbCollisions.Opposite | source/Charbrary/src/Constants.h:8-11 | the opposite direction's constant is the negation |
| AabbCollisions.PenetrationDepthAlongAxes | source/Charbrary/src/AABBCollision.cpp:4-6 | depth is at least 0; it is the size of delta.x along LEFT/RIGHT and of delta.y along UP/DOWN, and 0 for the null normal; turning the normal round keeps it |
| AabbCollisions.AbsolutePenetrationDepth | source/Charbrary/src/AABBCollision.cpp:4-6 | `abs(dot(normal, delta))`; `PenetrationDepthAlongAxes` proves it is the delta component along the normal's axis |
| AabbCollisions.PenetrationDepthExample | tests/charbrary-tests/TEST-collision_functions.cpp:263-276 | delta (-140,20) is 140 deep along LEFT and RIGHT and 20 deep along UP and DOWN |
| LineSegments.Slope | source/Charbrary/src/LineSegment.cpp:27-35 | vertical exactly when the x values agree; otherwise the slope times the run is the rise |
| LineSegments.SlopeIgnoresDirection | source/Charbrary/src/LineSegment.cpp:27-35 | the slope does not depend on the order of the endpoints |
| LineSegments.YIntercept | source/Charbrary/src/LineSegment.cpp:53-55 | vertical sentinel passes through unchanged; otherwise the point lies on `y = slope * x + intercept` |
| LineSegments.EndpointsOnLine | source/Charbrary/src/LineSegment.cpp:27-55 | both endpoints of a sloped segment give the same intercept and lie on its line |
| LineSegments.SlopeOfSegmentOnLine | source/Charbrary/src/LineSegment.cpp:27-55 | a sloped segment on `y = m * x + b` has slope m and intercept b |
| LineSegments.MinX | source/Charbrary/src/LineSegment.cpp:37-39 | at most both x values and one of them |
| LineSegments.MinY | source/Charbrary/src/LineSegment.cpp:41-43 | at most both y values and one of them |
| LineSegments.MaxX | source/Charbrary/src/LineSegment.cpp:45-47 | at least both x values and one of them |
| LineSegments.MaxY | source/Charbrary/src/LineSegment.cpp:49-51 | at least both y values and one of them |
| LineSegments.MinMaxProperties | source/Charbrary/src/LineSegment.cpp:37-51 | min at most max on both axes, and none depends on the order of the endpoints |
| LineSegments.AbsoluteSize | source/Charbrary/src/LineSegment.cpp:19-21 | the size is max minus min on each axis, so both components are at least 0 |
| LineSegments.EnclosingAabb | source/Charbrary/src/collision_functions.cpp:17-19 | the box runs from (minX, minY) to (maxX, maxY) |
| LineSegments.EnclosingAabbHoldsEndpoints | source/Charbrary/src/collision_functions.cpp:17-19 | both endpoints lie in the box, which does not depend on the order of the endpoints |
| LineSegments.EqualIgnoresOrder | source/Charbrary/src/LineSegment.cpp:62-71 | `==` means the same or the reversed segment; it is symmetric, order-independent, and `!=` is its negation |
| LineSegments.Equal | source/Charbrary/src/LineSegment.cpp:62-67 | `==` up to the order of the endpoints; `EqualIgnoresOrder` proves it is the same or reversed segment |
| LineSegments.NotEqual | source/Charbrary/src/LineSegment.cpp:69-71 | `!=`; `EqualIgnoresOrder` proves it is the negation of `==` |
| LineSegments.Examples | tests/charbrary-tests/TEST-LineSegment.cpp:22-63 | the slope, absolute-size, min/max and enclosing-box cases of the tests, and the intercept 0.5 through (10,3) being -2 |
| AabbObjects.MemberStrictlyContainsProperties | single-include/charbrary.cpp:217-225 | the member containment holds for a box and itself, fails when the own diagonal is shorter, and for sizes that are not negative agrees with `aabb_contains` |
| AabbObjects.MemberStrictlyContains | single-include/charbrary.cpp:217-225 | what the member `strictlyContains` answers; `MemberStrictlyContainsProperties` and `Box.StrictlyContains` give its meaning |
| AabbObjects.GatesDisagreeOnNegativeSize | single-include/charbrary.cpp:217-225 | with a negative size the diagonal gate and the area gate of `aabb_contains` give different answers |
| AabbObjects.Box.constructor | source/Charbrary/src/AABB.cpp:10 | the box holds the given position and size |
| AabbObjects.Box.Empty | source/Charbrary/src/AABB.cpp:8 | the default box has position and size zero |
| AabbObjects.Box.Move | source/Charbrary/src/AABB.cpp:14-16 | the position moves by the movement, the size stays, the centre moves by the movement |
| AabbObjects.Box.ScaleRelativeToCenter | source/Charbrary/src/AABB.cpp:48-52 | the size is multiplied by the factor and the centre is the one taken before the change |
| AabbObjects.Box.Intersects | single-include/charbrary.cpp:208-215 | the extended copy holds the position exactly when the boxes overlap, in either order |
| AabbObjects.Box.StrictlyContains | single-include/charbrary.cpp:217-225 | the diagonal gate, then the position of the other box inside the shrunk copy |
| AabbObjects.Box.DetectCollision | single-include/charbrary.cpp:227-274 | the same answer as `aabb_collision_info` with this box first: null normal and delta when apart, else one of the four directions and a delta at least 0 |
| AabbObjects.MoveInverse | source/Charbrary/src/AABB.cpp:14-16 | moving back undoes a move, and two moves make one |
| CollisionInfo.FirstMinimum | source/Charbrary/src/collision_functions.cpp:122-133 | the index found is a minimum and strictly below every earlier entry, as the strict `<` keeps the first minimum |
| CollisionInfo.FirstMinimumIs | source/Charbrary/src/collision_functions.cpp:126-133 | any index that is a minimum and strictly below all earlier entries is the one the scan finds |
| CollisionInfo.CornerDistances | source/Charbrary/src/collision_functions.cpp:117-127 | four squared distances, from each corner of the first box (in corner order) to the centre of the other |
| CollisionInfo.ClosestCornerIs | source/Charbrary/src/collision_functions.cpp:126-133 | a corner at least as close as all others and strictly closer than all earlier ones is the closest corner |
| CollisionInfo.ClosestCorner | source/Charbrary/src/collision_functions.cpp:122-133 | the corner the scan keeps, the first of the nearest; `ClosestCornerIs` gives its meaning |
| CollisionInfo.NormalFor | source/Charbrary/src/collision_functions.cpp:145-156 | the normal chosen from the closest corner and the larger delta component; `AabbCollisionOutcome` and `CollisionAtClosest` give its meaning |
| CollisionInfo.CollisionAtClosest | source/Charbrary/src/collision_functions.cpp:135-158 | for overlapping boxes the delta is `abs` of the closest corner minus the opposite corner of the other box, with the normal chosen from it |
| CollisionInfo.AabbCollisionInfo | source/Charbrary/src/collision_functions.cpp:112-159 | the loop with strict `<` over magnitudes, starting from infinity, computes the specified collision |
| CollisionInfo.AabbCollisionOf | source/Charbrary/src/collision_functions.cpp:112-159 | the box–box collision the corner scan computes; `AabbCollisionOutcome` gives its normal and delta in every case |
| CollisionInfo.ScanStep | source/Charbrary/src/collision_functions.cpp:127-129 | the loop's comparison of magnitudes agrees with the comparison of squared distances |
| CollisionInfo.AabbCollisionOutcome | source/Charbrary/src/collision_functions.cpp:112-159 | null normal and delta when apart; otherwise the first nearest corner, delta at least 0, UP/DOWN exactly when delta.x > delta.y (UP for a Top corner), LEFT exactly on a tie or smaller x with a Left corner, never a null normal |
| CollisionInfo.AabbCollisionApart | tests/charbrary-tests/TEST-collision_functions.cpp:228-233 | (0,0,10,10) against (50,50,30,30) gives no collision |
| CollisionInfo.AabbCollisionLeft | tests/charbrary-tests/TEST-collision_functions.cpp:235-240 | (0,0,10,10) against (-1,1,3,3) gives LEFT |
| CollisionInfo.AabbCollisionRight | tests/charbrary-tests/TEST-collision_functions.cpp:242-247 | (0,0,10,10) against (8,5,40,40) gives RIGHT |
| CollisionInfo.AabbCollisionUp | tests/charbrary-tests/TEST-collision_functions.cpp:249-254 | (10,10,4,4) against (9,9,4,2) gives UP |
| CollisionInfo.AabbCollisionDown | tests/charbrary-tests/TEST-collision_functions.cpp:256-261 | (0,0,10,10) against (5,9,10,10) gives DOWN |
| CollisionInfo.CirclesCollisionInfo | source/Charbrary/src/collision_functions.cpp:161-166 | depth at least 0; null normal and depth 0 for circles that do not intersect |
| CollisionInfo.CirclesCollisionOutcome | source/Charbrary/src/collision_functions.cpp:161-166 | depth is symmetric; for intersecting circles it is r1 + r2 minus the centre distance, and positive; for distinct centres the normal is the unit vector from the first centre to the other |
| CollisionInfo.CirclesDepthSymmetric | source/Charbrary/src/collision_functions.cpp:161-166 | swapping the circles keeps the depth |
| CollisionInfo.CirclesDepth | source/Charbrary/src/collision_functions.cpp:161-166 | for intersecting circles the depth is r1 + r2 minus the centre distance, and positive |
| CollisionInfo.CirclesNormal | source/Charbrary/src/collision_functions.cpp:161-166 | for intersecting circles with distinct centres the normal has length 1 and points from the first centre to the other |
| CollisionInfo.CirclesCollisionRight | tests/charbrary-tests/TEST-collision_functions.cpp:278-287 | ((5,5),3) against ((10,5),4) gives RIGHT and depth 2 |
| CollisionInfo.CirclesSideBySide | source/Charbrary/src/collision_functions.cpp:161-166 | circles side by side on a horizontal line, nearer than their radii, collide along that side at the depth by which the radii overlap |
| CollisionInfo.CirclesCollisionLeft | tests/charbrary-tests/TEST-collision_functions.cpp:289-298 | ((10,5),4) against ((5,5),3) gives LEFT and depth 2 |
| CollisionInfo.FirstContained | source/Charbrary/src/collision_functions.cpp:181-188 | the index of the first point inside the circle, or the length when there is none |
| CollisionInfo.FirstContainedFinds | source/Charbrary/src/collision_functions.cpp:181-188 | the scan stops no later than any contained point |
| CollisionInfo.CircleAabbCollisionInfo | source/Charbrary/src/collision_functions.cpp:168-192 | the method with its loop and early return computes the specified result |
| CollisionInfo.CircleAabbCollisionOf | source/Charbrary/src/collision_functions.cpp:168-192 | the circle–box collision the method computes; `CircleAabbCollisionOutcome` gives its result in every case |
| CollisionInfo.CircleAabbCollisionOutcome | source/Charbrary/src/collision_functions.cpp:168-192 | no collision when the enclosing boxes miss; within a range, one of the four axis normals with the matching delta component as depth; otherwise, for a radius that is not negative, a reported collision comes from a corner inside the circle, with positive depth and the normal pointing from that corner to the centre |
| CollisionInfo.CornerOutcome | source/Charbrary/src/collision_functions.cpp:180-188 | for a radius that is not negative, the reported corner is the first one inside the circle, with positive depth and normal along centre minus corner |
| CollisionInfo.WithinRangesCollision | source/Charbrary/src/collision_functions.cpp:175-179 | within a range, the result is the normal and penetration depth of `aabb_collision_info(aabb, enclosingAABB(circle))` |
| CollisionInfo.WithinRanges | source/Charbrary/src/collision_functions.cpp:175-176 | the centre strictly inside the box's x-range or y-range; `WithinRangesCollision` and `CircleAabbCollisionOutcome` give its meaning |
| CollisionInfo.CircleAabbCornerCollisionIsIntersection | source/Charbrary/src/collision_functions.cpp:180-191 | outside both ranges, a positive depth is reported exactly when box and circle truly intersect |
| CollisionInfo.IntersectionGivesCornerDepth | source/Charbrary/src/collision_functions.cpp:180-191 | outside both ranges, a true intersection yields a positive depth |
| CollisionInfo.ContainedPointIsNear | source/Charbrary/src/collision_functions.cpp:183-185 | a point inside the circle is closer than the radius, so the depth is positive |
| CollisionInfo.CornerDepthGivesIntersection | source/Charbrary/src/collision_functions.cpp:180-191 | outside both ranges, a positive depth implies a true intersection |
| CollisionInfo.NearestCorner | source/Charbrary/src/collision_functions.cpp:175-188 | outside both ranges, the box point nearest the centre is a corner |
| CollisionInfo.BoxAroundCircleCollidesLeft | tests/charbrary-tests/TEST-collision_functions.cpp:336-346 | the box (6,7,9,3) against the enclosing box of ((5.5,8),1) gives LEFT with delta (0.5,2) |
| CollisionInfo.CircleAabbCollisionLeft | tests/charbrary-tests/TEST-collision_functions.cpp:336-346 | the circle ((5.5,8),1) hits the box (6,7,9,3) from the left, depth 0.5 |
| CollisionInfo.BoxAroundCircleCollidesUp | tests/charbrary-tests/TEST-collision_functions.cpp:360-370 | the box (6,7,9,3) against (7,4,4,4) gives UP with delta (5,1) |
| CollisionInfo.CircleAabbCollisionUp | tests/charbrary-tests/TEST-collision_functions.cpp:360-370 | the circle ((9,6),2) hits the box (6,7,9,3) along UP, depth 1 |
| CollisionInfo.CircleAabbCollisionCorner | tests/charbrary-tests/TEST-collision_functions.cpp:384-394 | the circle ((4,6),3) hits the top-left corner, normal `normalize(-2,-1)`, depth 3 - sqrt(5) (0.763932 in the test) |
| SegmentIntersections.LinesMeetOutside | source/Charbrary/src/collision_functions.cpp:270-279 | sloped segments whose lines meet outside one x-range give None |
| SegmentIntersections.EqualInterceptCrossing | source/Charbrary/src/collision_functions.cpp:264-267 | boxes that meet, different slopes and equal intercepts give the crossing (0, b) at the common intercept |
| SegmentIntersections.LinesMeetInside | source/Charbrary/src/collision_functions.cpp:268-276 | sloped segments with different intercepts whose lines meet strictly inside both x-ranges give the crossing at `commonX`, with y from the first line |
| SegmentIntersections.MeetingOnBoth | source/Charbrary/src/collision_functions.cpp:270-275 | where the two lines meet strictly inside both x-ranges, the meeting point lies on both segments |
| SegmentIntersections.CommonXAt | source/Charbrary/src/collision_functions.cpp:270-276 | with the slopes and intercepts known, `commonX` is where the lines meet and the crossing is reported there |
| SegmentIntersections.CommonPointMeansBoxesMeet | source/Charbrary/src/collision_functions.cpp:195 | a point on both segments makes their enclosing boxes meet, so the classifier goes past its first test |
| SegmentIntersections.SlopedBranch | source/Charbrary/src/collision_functions.cpp:264-276 | boxes that meet, different finite slopes and different intercepts lead to the `commonX` test |
| SegmentIntersections.CommonXCrossing | source/Charbrary/src/collision_functions.cpp:270-279 | the `commonX` test of the classifier; `LinesMeetInside`, `LinesMeetOutside` and `CommonXCrossingIsOnBothSegments` give its meaning |
| SegmentIntersections.OnSegment | source/Charbrary/src/collision_functions.cpp:194-286 | a point lies on a segment: collinear with it and inside its enclosing box; `OnLineWithinIsOnSegment` and `OutsideXRangeIsOffSegment` give its meaning |
| SegmentIntersections.CombinedExtent | source/Charbrary/src/collision_functions.cpp:204-207 | the combined extremes of two segments; `OverlapEnds` uses it |
| SegmentIntersections.StartOnExtremes | source/Charbrary/src/collision_functions.cpp:212-256 | whether a segment's start lies on the combined extremes, by the branch the extent selects; `OverlapEnds` uses it |
| SegmentIntersections.Contribution | source/Charbrary/src/collision_functions.cpp:212-256 | the endpoint a segment contributes: its end when its start is on the extremes, its start otherwise |
| SegmentIntersections.CollinearOverlap | source/Charbrary/src/collision_functions.cpp:204-258 | the overlap pair the library reports; `OverlapEnds` and `CollinearPair` give its meaning |
| SegmentIntersections.CommonXCrossingIsOnBothSegments | source/Charbrary/src/collision_functions.cpp:270-276 | a crossing at `commonX` lies on both segments |
| SegmentIntersections.ContributedEnd | source/Charbrary/src/collision_functions.cpp:212-256 | each segment contributes its end when its start is on the combined extremes (degenerate axis first), else its start |
| SegmentIntersections.LineSegmentsIntersectionInfo | source/Charbrary/src/collision_functions.cpp:194-286 | the branching with pointer-like endpoint choice computes the specified classification |
| SegmentIntersections.IntersectionOf | source/Charbrary/src/collision_functions.cpp:194-286 | the classification the library computes; `IntersectionOutcome`, `EqualInterceptCrossing`, `LinesMeetInside`, `LinesMeetOutside` and `CrossingFromCommonXIsOnBothSegments` give its result in every case |
| SegmentIntersections.OverlapEnds | source/Charbrary/src/collision_functions.cpp:204-258 | the overlap is read off which starts lie on the combined extremes |
| SegmentIntersections.CollinearPair | source/Charbrary/src/collision_functions.cpp:201-203 | sloped segments on one line whose boxes meet take the collinear branch |
| SegmentIntersections.HorizontalPair | source/Charbrary/src/collision_functions.cpp:201-203 | horizontal segments at one height whose boxes meet take the collinear branch |
| SegmentIntersections.StaggeredHorizontalOverlap | source/Charbrary/src/collision_functions.cpp:227-258 | staggered horizontal segments [a,b] and [c,d] with a < c ≤ b < d overlap from (b,y) to (c,y) |
| SegmentIntersections.VerticalPair | source/Charbrary/src/collision_functions.cpp:201-212 | vertical segments at one x whose boxes meet take the collinear branch |
| SegmentIntersections.VerticalAndSloped | source/Charbrary/src/collision_functions.cpp:264-279 | a vertical against a sloped segment gives None |
| SegmentIntersections.VerticalThroughHorizontal | source/Charbrary/src/collision_functions.cpp:264-279 | a vertical and a horizontal segment passing through each other give None |
| SegmentIntersections.IntersectionOutcome | source/Charbrary/src/collision_functions.cpp:194-286 | None when the boxes miss; Overlapping exactly for equal slopes and intercepts with meeting boxes, one endpoint from each; Crossing only for different slopes; None when exactly one is vertical |
| SegmentIntersections.CrossingFromCommonXIsOnBothSegments | source/Charbrary/src/collision_functions.cpp:269-276 | with different intercepts, a reported crossing lies on both segments |
| SegmentIntersections.CrossingSymmetric | source/Charbrary/src/collision_functions.cpp:264-279 | a crossing is reported in both orders, at the same point |
| SegmentIntersections.CommonXCrossingSymmetric | source/Charbrary/src/collision_functions.cpp:270-276 | the `commonX` crossing does not depend on the order of the segments |
| SegmentIntersections.CrossingExample | tests/charbrary-tests/TEST-LineSegment.cpp:74-81 | {(-7,4),(-1,1)} and {(-1,4),(-4,1)} cross at (-3,2) |
| SegmentIntersections.BoxesMeetWithoutCrossingExample | tests/charbrary-tests/TEST-LineSegment.cpp:83-89 | the boxes meet but the segments do not cross |
| SegmentIntersections.CrossingAtYInterceptExample | tests/charbrary-tests/TEST-LineSegment.cpp:91-98 | segments with a common y-intercept cross at (0,1) |
| SegmentIntersections.ParallelExample | tests/charbrary-tests/TEST-LineSegment.cpp:100-106 | parallel segments give None |
| SegmentIntersections.VerticalParallelExample | tests/charbrary-tests/TEST-LineSegment.cpp:108-114 | verticals at x = -3 and x = -2 give None |
| SegmentIntersections.DistantLinesExample | tests/charbrary-tests/TEST-LineSegment.cpp:66-72 | lines that meet outside the segments give None |
| SegmentIntersections.OverlappingExample | tests/charbrary-tests/TEST-LineSegment.cpp:116-125 | the collinear pair overlaps on {(-5,0),(-7,1)} |
| SegmentIntersections.VerticalOverlappingExample | tests/charbrary-tests/TEST-LineSegment.cpp:127-136 | the vertical pair overlaps on {(-5,-1),(-5,0)} |
| SegmentIntersections.HorizontalOverlappingExample | tests/charbrary-tests/TEST-LineSegment.cpp:138-147 | the horizontal pair overlaps on {(3,-4),(0,-4)} |
| SegmentIntersections.InterceptShortcutMisplacesCrossing | source/Charbrary/src/collision_functions.cpp:265-267 | as written, the equal-intercept shortcut reports (0,0), a point on neither segment (see Findings) |
| SegmentIntersections.VerticalCrossingMissed | source/Charbrary/src/collision_functions.cpp:270-272 | as written, a vertical and a horizontal segment that cross at (0,0) give None (see Findings) |
| SegmentIntersections.NestedOverlapMisreported | source/Charbrary/src/collision_functions.cpp:204-258 | as written, nested collinear segments are reported with an end that is not on the inner segment (see Findings) |
| SegmentIntersections.NestedHorizontalOverlap | source/Charbrary/src/collision_functions.cpp:204-258 | as written, any horizontal segment strictly inside another is reported with the outer end, which is not on the inner segment (the horizontal branch, lines 227-241) |
| SegmentIntersections.NestedSlopedOverlap | source/Charbrary/src/collision_functions.cpp:204-258 | as written, any segment on the line y = x strictly inside another is reported with the outer end, which is not on the inner segment (the sloped branch, lines 242-256) |
| SegmentIntersections.NestedSlopedMisreported | source/Charbrary/src/collision_functions.cpp:242-258 | as written, {(0,0),(10,10)} and {(2,2),(5,5)} are reported as ((10,10),(2,2)), and (10,10) is not on the inner segment |
| SegmentIntersections.VerticalCrossingIsOnBothSegments | source/Charbrary/src/collision_functions.cpp:270-272 | corrected: the crossing of a vertical with a sloped segment lies on both |
| SegmentIntersections.CorrectedCrossingIsOnBothSegments | source/Charbrary/src/collision_functions.cpp:194-286 | corrected: every reported crossing lies on both segments |
| SegmentIntersections.CorrectedIntersectionOf | source/Charbrary/src/collision_functions.cpp:194-286 | the corrected classifier; `CorrectedCrossingIsOnBothSegments`, `CorrectedOverlapIsCommonStretch` and `CorrectedAgreesElsewhere` give its meaning |
| SegmentIntersections.VerticalCrossing | source/Charbrary/src/collision_functions.cpp:270-272 | corrected: a vertical against a sloped segment crosses at the vertical's x when that lies in both; `VerticalCrossingIsOnBothSegments` gives its meaning |
| SegmentIntersections.CommonStretch | source/Charbrary/src/collision_functions.cpp:204-258 | corrected: the collinear overlap as the common stretch along x, or along y for vertical segments; `CorrectedOverlapIsCommonStretch` gives its meaning |
| SegmentIntersections.StretchAlong | source/Charbrary/src/collision_functions.cpp:204-258 | corrected: the higher of the low ends and the lower of the high ends along the chosen coordinate; `StretchEnds` gives its meaning |
| SegmentIntersections.StretchEndsOnBoth | source/Charbrary/src/collision_functions.cpp:204-258 | corrected: both ends of the common stretch of collinear segments lie on both segments |
| SegmentIntersections.StretchBounds | source/Charbrary/src/collision_functions.cpp:204-258 | corrected: the stretch runs forwards and every common point lies between its ends |
| SegmentIntersections.CorrectedOverlapIsCommonStretch | source/Charbrary/src/collision_functions.cpp:204-258 | corrected: a reported overlap has both ends on both segments, in order, bounding every common point |
| SegmentIntersections.CorrectedAgreesElsewhere | source/Charbrary/src/collision_functions.cpp:194-286 | corrected and library agree when the boxes miss, for parallel lines, and for sloped segments with different intercepts |
| SegmentIntersections.CorrectedSkipsMisplacedCrossing | source/Charbrary/src/collision_functions.cpp:265-267 | corrected: the misplaced (0,0) crossing is not reported |
| SegmentIntersections.CorrectedFindsVerticalCrossing | source/Charbrary/src/collision_functions.cpp:270-272 | corrected: the vertical–horizontal crossing at (0,0) is found |
| SegmentIntersections.CorrectedFindsNestedStretch | source/Charbrary/src/collision_functions.cpp:204-258 | corrected: the nested segments overlap from (2,0) to (5,0) |
| SegmentIntersections.CorrectedKeepsInterceptCrossing | tests/charbrary-tests/TEST-LineSegment.cpp:91-98 | corrected: the tested crossing at (0,1) is kept |
| SegmentIntersections.CorrectedKeepsOverlap | tests/charbrary-tests/TEST-LineSegment.cpp:116-125 | corrected: the tested overlap {(-7,1),(-5,0)} is kept |
| SegmentIntersections.CorrectedKeepsVerticalOverlap | tests/charbrary-tests/TEST-LineSegment.cpp:127-136 | corrected: the tested vertical overlap is kept |
| SegmentIntersections.CorrectedKeepsHorizontalOverlap | tests/charbrary-tests/TEST-LineSegment.cpp:138-147 | corrected: the tested horizontal overlap {(0,-4),(3,-4)} is kept |

## Left out

- Float rounding, overflow, NaN and infinities other than the vertical-slope sentinel: coordinates are exact reals. The test constants that compare float bit patterns (the 30-degree circle depth 1.527864, the corner depths 0.8377223, 0.876894 and 0.5857864) have no exact real counterpart, and only the top-left corner case is stated exactly (3 - sqrt(5)).
- `std::sqrtf`: it is a parameter that satisfies `IsSqrt`, not a computed function.
- CollisionInfo.CircleAabbCollisionOutcome: the corner case is stated only for a radius that is not negative: the containment test compares squares, so a negative radius still finds a corner, but the depth (radius minus distance) is then negative.
- CollisionInfo.CornerOutcome: stated only for a radius that is not negative, for the same reason.
- `vec_rotate`, `vec_from_polar_coordinates`, `Circle::circumference` and `Circle::area`: these need trigonometry or π, which reals without axioms cannot express.
- `enclosingCircle`, `inscribedAABB`, `AABB::diagonalLength`, and `LineSegment::length`/`lengthSquared`/`dirFromStart`: these are thin wrappers over `vec_magnitude`/`vec_normalize` outside the collision routines.
- The float constructor `AABB(x, y, w, h)`: it is the same as the vector constructor applied to `(x, y)` and `(w, h)`, so boxes are written as `AABB(Vec(x, y), Vec(w, h))`.
- The `throw` in the `default:` branch of `AABB::corner`: `Corner` has exactly four values here, so the branch is unreachable. `Corner::MAX_VALUE`, the loop's initial "no corner", is represented by the index 4, which the scan always replaces on its first step.
- `operator=` of `Circle` and `LineSegment`: circles and segments are values. Assignment of vectors is `Vector.Assign`, and the in-place box operations are methods of `Box`.
- `Box` keeps its position and size as vector values rather than `Vector` objects. Aliasing between a box and a separately held vector is therefore not modelled.
- The numeric sign of UP and DOWN: the test suites disagree on it, so box collision normals stay symbolic. `DirectionVector` uses the values of `Constants.h` only where the circle–box routine needs a vector.
- The `Circle::strictlyContains` and `LineSegment::checkForIntersection` members of the single-header file are the same definitions as `circle_contains` and `line_segments_intersection_info`, and are modelled once.
- The stopwatch, the random-number helpers, the single-header generator script, `main.cpp` and the SFML vector switch are not part of this model. They are clock, randomness, file I/O, or a foreign type.
- `ensureContainment` is declared in `collision_functions.h`, but its implementation is not part of this model.
- CollisionInfo.CirclesCollisionOutcome: the depth formula and its positivity are stated only for a sum of radii that is not negative. With negative radii the circles "intersect" under the squared test while the distance is positive.

## Findings

| source | as written | input that shows it | evidently intended | confidence | as-written member | corrected member |
|---|---|---|---|---|---|---|
| source/Charbrary/src/collision_functions.cpp:265-267 | with different slopes and equal intercepts, `Crossing(0, intercept)` is reported without checking that x = 0 lies within either segment | {(1,1),(3,3)} and {(1,2),(1.5,3)}: reports (0,0), which is on neither segment | report the crossing only inside both x-ranges, here None | not executed; high | SegmentIntersections.InterceptShortcutMisplacesCrossing | SegmentIntersections.CorrectedCrossingIsOnBothSegments |
| source/Charbrary/src/collision_functions.cpp:270-272 | a vertical against a sloped segment makes `commonX` NaN, so every comparison fails and None is reported | {(0,-1),(0,1)} and {(-1,0),(1,0)}: None, though both contain (0,0) | a crossing at the vertical's x when it lies inside both segments | not executed; medium | SegmentIntersections.VerticalCrossingMissed, SegmentIntersections.VerticalAndSloped | SegmentIntersections.CorrectedFindsVerticalCrossing, SegmentIntersections.VerticalCrossingIsOnBothSegments, SegmentIntersections.CorrectedCrossingIsOnBothSegments |
| source/Charbrary/src/collision_functions.cpp:204-258 | each segment contributes its end when its start is on the combined extremes, which for nested segments picks an outer end (the horizontal branch at lines 227-241, the sloped one at 242-256) | {(0,0),(10,0)} and {(2,0),(5,0)}: reports (10,0)–(2,0), and (10,0) is not on the inner segment; likewise {(0,0),(10,10)} and {(2,2),(5,5)} | the common stretch (2,0)–(5,0) | not executed; high | SegmentIntersections.NestedOverlapMisreported, SegmentIntersections.NestedHorizontalOverlap, SegmentIntersections.NestedSlopedMisreported | SegmentIntersections.CorrectedOverlapIsCommonStretch, SegmentIntersections.CorrectedFindsNestedStretch |
| source/Charbrary/src/collision_functions.cpp:77-98 | the three-stage test accepts only a box corner inside the circle or a circle extreme point inside the box | box (-9,-9,18,18) and circle ((0,0),10): false, though the circle's centre is inside the box | true whenever box and circle share a point | not executed; high | Collision.AabbIntersectsCircleMissesCentredCircle | Collision.AabbIntersectsCircleExactIsIntersection |

The operations of the library are modelled as written. `LineSegmentsIntersectionInfo` computes `IntersectionOf`, and the circle–box predicate is `AabbIntersectsCircle`. The corrected definitions, `CorrectedIntersectionOf` and `AabbIntersectsCircleExact`, stand beside them with their intended properties proved, and `CorrectedAgreesElsewhere` shows where the corrected classifier and the library answer alike.
