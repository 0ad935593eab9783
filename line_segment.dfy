/** Line segments between two endpoints.

    The slope of a vertical segment is the float infinity; here it is the
    `Vertical` constructor, and the y-intercept of a vertical segment passes
    that same sentinel through. */
module LineSegments {
  import opened Vectors
  import opened VectorMaths
  import opened Reals
  import opened Aabbs

  datatype LineSegment = LineSegment(start: Vec, end: Vec)

  /** A slope, or the y-intercept derived from it: a real number, or the
      infinity that marks a vertical segment. */
  datatype Gradient = Finite(value: real) | Vertical

  /** The same segment walked the other way. */
  function Reversed(s: LineSegment): LineSegment
  {
    LineSegment(s.end, s.start)
  }

  /** `LineSegment::slope`: rise over run of `start - end`, or the vertical
      sentinel when both endpoints share their x. A finite slope times the run
      gives the rise back. */
  function Slope(s: LineSegment): (r: Gradient)
    ensures r == Vertical <==> s.start.x == s.end.x
    ensures r.Finite? ==> r.value * (s.start.x - s.end.x) == s.start.y - s.end.y
  {
    var size := Sub(s.start, s.end);
    if size.x != 0.0 then
      DivisionCancels(size.y, size.x);
      Finite(size.y / size.x)
    else
      Vertical
  }

  /** Walking a segment the other way does not change its slope. */
  lemma SlopeIgnoresDirection(s: LineSegment)
    ensures Slope(Reversed(s)) == Slope(s)
  {
    if s.start.x != s.end.x {
      var run, rise := s.start.x - s.end.x, s.start.y - s.end.y;
      QuotientOfNegations(rise, run);
    }
  }

  /** `LineSegment::YIntercept`: where the line of the given slope through the
      point meets the y axis; the vertical sentinel is returned unchanged. */
  function YIntercept(anyPoint: Vec, slope: Gradient): (r: Gradient)
    ensures r == Vertical <==> slope == Vertical
    ensures r.Finite? ==> anyPoint.y == slope.value * anyPoint.x + r.value
  {
    if slope != Vertical then Finite(anyPoint.y - slope.value * anyPoint.x) else slope
  }

  /** Both endpoints of a non-vertical segment lie on the line `y = slope * x
      + intercept`, whichever endpoint the intercept is computed from. */
  lemma EndpointsOnLine(s: LineSegment)
    requires Slope(s).Finite?
    ensures YIntercept(s.end, Slope(s)) == YIntercept(s.start, Slope(s))
    ensures s.end.y == Slope(s).value * s.end.x + YIntercept(s.start, Slope(s)).value
  {
    var m := Slope(s).value;
    LineThroughTwoPoints(m, s.start.x, s.start.y, s.end.x, s.end.y, m * s.start.x, m * s.end.x);
  }

  /** A non-vertical segment whose endpoints lie on `y = m * x + b` has
      slope `m` and y-intercept `b`. */
  lemma SlopeOfSegmentOnLine(s: LineSegment, m: real, b: real)
    requires s.start.x != s.end.x
    requires s.start.y == m * s.start.x + b && s.end.y == m * s.end.x + b
    ensures Slope(s) == Finite(m) && YIntercept(s.start, Slope(s)) == Finite(b)
  {
    SlopeOfLine(Slope(s).value, m, b, s.start.x, s.end.x);
  }

  /** `LineSegment::minX` */
  function MinX(s: LineSegment): (r: real)
    ensures r <= s.start.x && r <= s.end.x
    ensures r == s.start.x || r == s.end.x
  {
    if s.start.x < s.end.x then s.start.x else s.end.x
  }

  /** `LineSegment::minY` */
  function MinY(s: LineSegment): (r: real)
    ensures r <= s.start.y && r <= s.end.y
    ensures r == s.start.y || r == s.end.y
  {
    if s.start.y < s.end.y then s.start.y else s.end.y
  }

  /** `LineSegment::maxX` */
  function MaxX(s: LineSegment): (r: real)
    ensures s.start.x <= r && s.end.x <= r
    ensures r == s.start.x || r == s.end.x
  {
    if s.start.x > s.end.x then s.start.x else s.end.x
  }

  /** `LineSegment::maxY` */
  function MaxY(s: LineSegment): (r: real)
    ensures s.start.y <= r && s.end.y <= r
    ensures r == s.start.y || r == s.end.y
  {
    if s.start.y > s.end.y then s.start.y else s.end.y
  }

  /** The minimum never exceeds the maximum, and neither depends on the
      direction the segment is walked in. */
  lemma MinMaxProperties(s: LineSegment)
    ensures MinX(s) <= MaxX(s) && MinY(s) <= MaxY(s)
    ensures MinX(Reversed(s)) == MinX(s) && MaxX(Reversed(s)) == MaxX(s)
    ensures MinY(Reversed(s)) == MinY(s) && MaxY(Reversed(s)) == MaxY(s)
  {
  }

  /** `LineSegment::absoluteSize`: `vec_abs(end - start)`, the extent of the
      segment along each axis. */
  function AbsoluteSize(s: LineSegment): (r: Vec)
    ensures r.x == MaxX(s) - MinX(s) && r.y == MaxY(s) - MinY(s)
    ensures 0.0 <= r.x && 0.0 <= r.y
  {
    Abs(Sub(s.end, s.start))
  }

  /** `enclosingAABB(segment)` and `LineSegment::enclosingAABB`: the box from
      the smallest coordinates with the absolute size. */
  function EnclosingAabb(s: LineSegment): (r: AABB)
    ensures r.pos == Vec(MinX(s), MinY(s))
    ensures Add(r.pos, r.size) == Vec(MaxX(s), MaxY(s))
  {
    AABB(Vec(MinX(s), MinY(s)), AbsoluteSize(s))
  }

  /** The enclosing box holds both endpoints, and is the same for the
      segment walked the other way. */
  lemma EnclosingAabbHoldsEndpoints(s: LineSegment)
    ensures Contains(EnclosingAabb(s), s.start) && Contains(EnclosingAabb(s), s.end)
    ensures EnclosingAabb(Reversed(s)) == EnclosingAabb(s)
  {
  }

  /** `operator==`: the same two endpoints, in either order. */
  predicate Equal(left: LineSegment, right: LineSegment)
  {
    (Vectors.Equal(left.start, right.start) && Vectors.Equal(left.end, right.end))
    ||
    (Vectors.Equal(left.start, right.end) && Vectors.Equal(left.end, right.start))
  }

  /** `operator!=` */
  predicate NotEqual(left: LineSegment, right: LineSegment)
  {
    !Equal(left, right)
  }

  /** Equality is the same segment or the same segment reversed; it is
      symmetric, ignores direction, and `!=` is its negation. */
  lemma EqualIgnoresOrder(left: LineSegment, right: LineSegment)
    ensures Equal(left, right) <==> left == right || left == Reversed(right)
    ensures Equal(left, right) <==> Equal(right, left)
    ensures Equal(left, Reversed(left))
    ensures NotEqual(left, right) <==> !(left == right || left == Reversed(right))
  {
  }

  /** The slope of {(0,-2),(4,0)} is one half and that of {(7,-2),(7,1)}
      vertical; the line of slope one half through (10,3) meets the y axis at
      -2; {(-6,-2),(-10,-5)} has absolute size (4,3); {(5,14),(13,7)} spans x
      from 5 to 13 and y from 7 to 14, inside the box at (5,7) of size (8,7). */
  lemma Examples()
    ensures Slope(LineSegment(Vec(0.0, -2.0), Vec(4.0, 0.0))) == Finite(0.5)
    ensures Slope(LineSegment(Vec(7.0, -2.0), Vec(7.0, 1.0))) == Vertical
    ensures YIntercept(Vec(10.0, 3.0), Finite(0.5)) == Finite(-2.0)
    ensures AbsoluteSize(LineSegment(Vec(-6.0, -2.0), Vec(-10.0, -5.0))) == Vec(4.0, 3.0)
    ensures var s := LineSegment(Vec(5.0, 14.0), Vec(13.0, 7.0));
      MinX(s) == 5.0 && MaxX(s) == 13.0 && MinY(s) == 7.0 && MaxY(s) == 14.0 &&
      EnclosingAabb(s) == AABB(Vec(5.0, 7.0), Vec(8.0, 7.0))
  {
  }
}
