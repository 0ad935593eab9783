/** Classifying how two line segments meet: not at all, crossing at one
    point, or overlapping along a common stretch.

    The classifier works on slopes and y-intercepts, where a vertical segment
    has the float infinity for both. Infinity equals infinity, so two
    vertical segments count as having equal slopes and equal intercepts; when
    exactly one segment is vertical the crossing abscissa is computed from an
    infinity and comes out NaN, and every comparison with NaN fails. */
module SegmentIntersections {
  import opened Vectors
  import opened Reals
  import opened Aabbs
  import opened LineSegments
  import Collision

  /** `SegmentsIntersection`: the kind of intersection with the point of a
      crossing or the two ends of an overlap. */
  datatype SegmentsIntersection =
    | NoIntersection
    | Crossing(point: Vec)
    | Overlapping(first: Vec, second: Vec)

  /** The cross product of two vectors: zero exactly when they are parallel. */
  function Cross(a: Vec, b: Vec): real
  {
    a.x * b.y - a.y * b.x
  }

  /** The point lies on the segment: on the line through its endpoints and
      within the box they span. This is the reference against which the
      classifier's answers are judged. */
  predicate OnSegment(s: LineSegment, p: Vec)
  {
    Cross(Sub(p, s.start), Sub(s.end, s.start)) == 0.0 && Contains(LineSegments.EnclosingAabb(s), p)
  }

  /** A point on the line of a non-vertical segment, between its smallest and
      largest x, lies on the segment. */
  lemma OnLineWithinIsOnSegment(s: LineSegment, p: Vec)
    requires Slope(s).Finite?
    requires p.y == Slope(s).value * p.x + YIntercept(s.start, Slope(s)).value
    requires MinX(s) <= p.x <= MaxX(s)
    ensures OnSegment(s, p)
  {
    var m, b := Slope(s).value, YIntercept(s.start, Slope(s)).value;
    EndpointsOnLine(s);
    OnGivenLineWithinIsOnSegment(s, p, m, b);
  }

  /** The same, for any line `y = m * x + b` through both endpoints. */
  lemma OnGivenLineWithinIsOnSegment(s: LineSegment, p: Vec, m: real, b: real)
    requires s.start.y == m * s.start.x + b && s.end.y == m * s.end.x + b
    requires p.y == m * p.x + b
    requires MinX(s) <= p.x <= MaxX(s)
    ensures OnSegment(s, p)
  {
    CollinearOnLine(m, b, p.x, p.y, s.start.x, s.start.y, s.end.x, s.end.y);
    BetweenOnLine(m, b, s.start.x, s.start.y, s.end.x, s.end.y, p.x, p.y);
  }

  /** A point at the abscissa of a vertical segment, between its smallest and
      largest y, lies on the segment. */
  lemma OnVerticalWithinIsOnSegment(s: LineSegment, p: Vec)
    requires s.start.x == s.end.x == p.x
    requires MinY(s) <= p.y <= MaxY(s)
    ensures OnSegment(s, p)
  {
  }

  /** A point at the height of a horizontal segment, between its smallest
      and largest x, lies on the segment. */
  lemma OnHorizontalWithinIsOnSegment(s: LineSegment, p: Vec)
    requires s.start.y == s.end.y == p.y
    requires MinX(s) <= p.x <= MaxX(s)
    ensures OnSegment(s, p)
  {
  }

  /** A point outside the x-range of a segment is not on it. */
  lemma OutsideXRangeIsOffSegment(s: LineSegment, p: Vec)
    requires p.x < MinX(s) || MaxX(s) < p.x
    ensures !OnSegment(s, p)
  {
  }

  /** `a < b ? a : b` */
  function Smaller(a: real, b: real): (r: real)
    ensures r <= a && r <= b && (r == a || r == b)
  {
    if a < b then a else b
  }

  /** `a > b ? a : b` */
  function Larger(a: real, b: real): (r: real)
    ensures a <= r && b <= r && (r == a || r == b)
  {
    if a > b then a else b
  }

  /** The smallest and largest coordinates over both segments. */
  datatype Extent = Extent(minx: real, maxx: real, miny: real, maxy: real)

  function CombinedExtent(first: LineSegment, other: LineSegment): Extent
  {
    Extent(Smaller(MinX(first), MinX(other)), Larger(MaxX(first), MaxX(other)),
           Smaller(MinY(first), MinY(other)), Larger(MaxY(first), MaxY(other)))
  }

  /** The start of the segment lies on the extremes of the combined extent:
      on the y extremes when all x coincide, on the x extremes when all y
      coincide, and on either otherwise. */
  predicate StartOnExtremes(s: LineSegment, e: Extent)
  {
    if e.minx == e.maxx then
      s.start.y == e.miny || s.start.y == e.maxy
    else if e.miny == e.maxy then
      s.start.x == e.minx || s.start.x == e.maxx
    else
      s.start.x == e.minx || s.start.x == e.maxx || s.start.y == e.miny || s.start.y == e.maxy
  }

  /** The endpoint a segment contributes to an overlap: its end when its
      start is on the extremes, otherwise its start. */
  function Contribution(s: LineSegment, e: Extent): (r: Vec)
    ensures r == s.start || r == s.end
  {
    if StartOnExtremes(s, e) then s.end else s.start
  }

  /** The overlap of two collinear segments as the library reports it. */
  function CollinearOverlap(first: LineSegment, other: LineSegment): SegmentsIntersection
  {
    var e := CombinedExtent(first, other);
    Overlapping(Contribution(first, e), Contribution(other, e))
  }

  /** The crossing abscissa lies strictly inside the segment's x-range. */
  predicate StrictlyWithinX(s: LineSegment, x: real)
  {
    x > MinX(s) && x < MaxX(s)
  }

  /** Two segments on the lines `y = m1 * x + b1` and `y = m2 * x + b2`, of
      different slopes and intercepts, whose lines meet outside the x-range
      of one of them, do not intersect. */
  lemma LinesMeetOutside(first: LineSegment, other: LineSegment, m1: real, b1: real, m2: real, b2: real)
    requires first.start.x != first.end.x && other.start.x != other.end.x
    requires first.start.y == m1 * first.start.x + b1 && first.end.y == m1 * first.end.x + b1
    requires other.start.y == m2 * other.start.x + b2 && other.end.y == m2 * other.end.x + b2
    requires m1 != m2 && b1 != b2
    requires !StrictlyWithinX(first, (b2 - b1) / (m1 - m2)) || !StrictlyWithinX(other, (b2 - b1) / (m1 - m2))
    ensures IntersectionOf(first, other) == NoIntersection
  {
    SlopeOfSegmentOnLine(first, m1, b1);
    SlopeOfSegmentOnLine(other, m2, b2);
  }

  /** Segments on the lines `y = m1 * x + b1` and `y = m2 * x + b2`, with
      different slopes and intercepts, whose lines meet strictly inside both
      x-ranges: the crossing at `commonX` is reported (it lies on both
      segments by `CrossingFromCommonXIsOnBothSegments`). */
  lemma LinesMeetInside(first: LineSegment, other: LineSegment, m1: real, b1: real, m2: real, b2: real)
    requires first.start.x != first.end.x && other.start.x != other.end.x
    requires first.start.y == m1 * first.start.x + b1 && first.end.y == m1 * first.end.x + b1
    requires other.start.y == m2 * other.start.x + b2 && other.end.y == m2 * other.end.x + b2
    requires m1 != m2 && b1 != b2
    requires StrictlyWithinX(first, (b2 - b1) / (m1 - m2)) && StrictlyWithinX(other, (b2 - b1) / (m1 - m2))
    ensures var x := (b2 - b1) / (m1 - m2);
      IntersectionOf(first, other) == Crossing(Vec(x, m1 * x + b1))
  {
    var x := (b2 - b1) / (m1 - m2);
    var p := Vec(x, m1 * x + b1);
    MeetingPoint(m1, b1, m2, b2);
    MeetingOnBoth(first, other, m1, b1, m2, b2, x);
    CommonPointMeansBoxesMeet(first, other, p);
    SlopeOfSegmentOnLine(first, m1, b1);
    SlopeOfSegmentOnLine(other, m2, b2);
    CommonXAt(first, other, m1, b1, m2, b2);
    SlopedBranch(first, other);
  }

  /** Where the lines meet strictly inside both x-ranges, the meeting point
      lies on both segments. */
  lemma MeetingOnBoth(first: LineSegment, other: LineSegment, m1: real, b1: real, m2: real, b2: real, x: real)
    requires first.start.y == m1 * first.start.x + b1 && first.end.y == m1 * first.end.x + b1
    requires other.start.y == m2 * other.start.x + b2 && other.end.y == m2 * other.end.x + b2
    requires m1 * x + b1 == m2 * x + b2
    requires StrictlyWithinX(first, x) && StrictlyWithinX(other, x)
    ensures OnSegment(first, Vec(x, m1 * x + b1)) && OnSegment(other, Vec(x, m1 * x + b1))
  {
    OnGivenLineWithinIsOnSegment(first, Vec(x, m1 * x + b1), m1, b1);
    OnGivenLineWithinIsOnSegment(other, Vec(x, m1 * x + b1), m2, b2);
  }

  /** With the slopes and intercepts known, `commonX` is where the lines meet. */
  lemma CommonXAt(first: LineSegment, other: LineSegment, m1: real, b1: real, m2: real, b2: real)
    requires Slope(first) == Finite(m1) && Slope(other) == Finite(m2) && m1 != m2
    requires YIntercept(first.start, Slope(first)) == Finite(b1) && YIntercept(other.start, Slope(other)) == Finite(b2)
    requires StrictlyWithinX(first, (b2 - b1) / (m1 - m2)) && StrictlyWithinX(other, (b2 - b1) / (m1 - m2))
    ensures var x := (b2 - b1) / (m1 - m2);
      CommonXCrossing(first, other) == Crossing(Vec(x, m1 * x + b1))
  {
  }

  /** Segments whose boxes meet, with different finite slopes and different
      intercepts, take the `commonX` branch. */
  lemma SlopedBranch(first: LineSegment, other: LineSegment)
    requires Collision.Overlaps(LineSegments.EnclosingAabb(first), LineSegments.EnclosingAabb(other))
    requires Slope(first).Finite? && Slope(other).Finite? && Slope(first) != Slope(other)
    requires YIntercept(first.start, Slope(first)) != YIntercept(other.start, Slope(other))
    ensures IntersectionOf(first, other) == CommonXCrossing(first, other)
  {
  }

  /** Segments that share a point span boxes that meet. */
  lemma CommonPointMeansBoxesMeet(first: LineSegment, other: LineSegment, p: Vec)
    requires OnSegment(first, p) && OnSegment(other, p)
    ensures Collision.Overlaps(LineSegments.EnclosingAabb(first), LineSegments.EnclosingAabb(other))
  {
  }

  /** Two segments of different finite slopes: their lines meet at
      `commonX`, and that counts as a crossing only strictly inside both
      x-ranges. */
  function CommonXCrossing(first: LineSegment, other: LineSegment): SegmentsIntersection
    requires Slope(first).Finite? && Slope(other).Finite? && Slope(first) != Slope(other)
  {
    var slopeCurrent, slopeOther := Slope(first).value, Slope(other).value;
    var interceptCurrent := YIntercept(first.start, Slope(first)).value;
    var interceptOther := YIntercept(other.start, Slope(other)).value;
    var commonX := (interceptOther - interceptCurrent) / (slopeCurrent - slopeOther);
    if StrictlyWithinX(first, commonX) && StrictlyWithinX(other, commonX) then
      Crossing(Vec(commonX, slopeCurrent * commonX + interceptCurrent))
    else
      NoIntersection
  }

  /** A crossing at `commonX` lies on both segments. */
  lemma CommonXCrossingIsOnBothSegments(first: LineSegment, other: LineSegment)
    requires Slope(first).Finite? && Slope(other).Finite? && Slope(first) != Slope(other)
    requires CommonXCrossing(first, other).Crossing?
    ensures OnSegment(first, CommonXCrossing(first, other).point)
    ensures OnSegment(other, CommonXCrossing(first, other).point)
  {
    var m1, m2 := Slope(first).value, Slope(other).value;
    var b1, b2 := YIntercept(first.start, Slope(first)).value, YIntercept(other.start, Slope(other)).value;
    var p := CommonXCrossing(first, other).point;
    MeetingPoint(m1, b1, m2, b2);
    OnLineWithinIsOnSegment(first, p);
    OnLineWithinIsOnSegment(other, p);
  }

  /** What `line_segments_intersection_info` returns. When the boxes the
      segments span do not overlap there is no intersection. Equal slopes
      with equal intercepts give the collinear overlap, with different
      intercepts nothing. Different slopes with equal intercepts give a
      crossing at (0, intercept) straight away; otherwise the lines meet at
      `commonX`, and the crossing counts only strictly inside both x-ranges. */
  function IntersectionOf(first: LineSegment, other: LineSegment): SegmentsIntersection
  {
    var slopeCurrent, slopeOther := Slope(first), Slope(other);
    var interceptCurrent := YIntercept(first.start, slopeCurrent);
    var interceptOther := YIntercept(other.start, slopeOther);
    if !Collision.Overlaps(LineSegments.EnclosingAabb(first), LineSegments.EnclosingAabb(other)) then
      NoIntersection
    else if slopeCurrent == slopeOther then
      if interceptCurrent == interceptOther then CollinearOverlap(first, other) else NoIntersection
    else if interceptCurrent == interceptOther then
      Crossing(Vec(0.0, interceptCurrent.value))
    else if slopeCurrent == Vertical || slopeOther == Vertical then
      NoIntersection
    else
      CommonXCrossing(first, other)
  }

  /** The endpoint one segment contributes to a collinear overlap, chosen as
      the library does from the combined extent: its end when its start lies
      on the relevant extremes, otherwise its start. */
  method ContributedEnd(s: LineSegment, minx: real, maxx: real, miny: real, maxy: real) returns (p: Vec)
    ensures p == Contribution(s, Extent(minx, maxx, miny, maxy))
    ensures p == s.start || p == s.end
  {
    if minx == maxx {
      if s.start.y == miny || s.start.y == maxy {
        p := s.end;
      } else {
        p := s.start;
      }
    } else if miny == maxy {
      if s.start.x == minx || s.start.x == maxx {
        p := s.end;
      } else {
        p := s.start;
      }
    } else {
      if s.start.x == minx || s.start.x == maxx || s.start.y == miny || s.start.y == maxy {
        p := s.end;
      } else {
        p := s.start;
      }
    }
  }

  /** `line_segments_intersection_info` and `LineSegment::checkForIntersection`,
      with the overlap's two endpoints chosen by assignments across the
      branches. */
  method LineSegmentsIntersectionInfo(first: LineSegment, other: LineSegment) returns (r: SegmentsIntersection)
    ensures r == IntersectionOf(first, other)
  {
    var broad := Collision.AabbIntersects(LineSegments.EnclosingAabb(first), LineSegments.EnclosingAabb(other));
    if !broad {
      return NoIntersection;
    }
    assert Collision.Overlaps(LineSegments.EnclosingAabb(first), LineSegments.EnclosingAabb(other));
    var slopeCurrent := Slope(first);
    var slopeOther := Slope(other);
    var interceptCurrent := YIntercept(first.start, slopeCurrent);
    var interceptOther := YIntercept(other.start, slopeOther);

    if slopeCurrent == slopeOther {
      if interceptCurrent == interceptOther {
        var minx := if MinX(first) < MinX(other) then MinX(first) else MinX(other);
        var maxx := if MaxX(first) > MaxX(other) then MaxX(first) else MaxX(other);
        var miny := if MinY(first) < MinY(other) then MinY(first) else MinY(other);
        var maxy := if MaxY(first) > MaxY(other) then MaxY(first) else MaxY(other);

        assert IntersectionOf(first, other) == CollinearOverlap(first, other);
        ghost var e := CombinedExtent(first, other);
        assert minx == e.minx && maxx == e.maxx && miny == e.miny && maxy == e.maxy;
        var p1 := ContributedEnd(first, minx, maxx, miny, maxy);
        var p2 := ContributedEnd(other, minx, maxx, miny, maxy);
        assert p1 == Contribution(first, e) && p2 == Contribution(other, e);
        return Overlapping(p1, p2);
      } else {
        return NoIntersection;
      }
    } else {
      if interceptCurrent == interceptOther {
        return Crossing(Vec(0.0, interceptCurrent.value));
      } else {
        if slopeCurrent == Vertical || slopeOther == Vertical {
          // commonX is NaN: every comparison below fails
          return NoIntersection;
        }
        assert IntersectionOf(first, other) == CommonXCrossing(first, other);
        var commonX := (interceptOther.value - interceptCurrent.value) / (slopeCurrent.value - slopeOther.value);
        if commonX > MinX(first) && commonX < MaxX(first) && commonX > MinX(other) && commonX < MaxX(other) {
          var commonY := slopeCurrent.value * commonX + interceptCurrent.value;
          return Crossing(Vec(commonX, commonY));
        } else {
          return NoIntersection;
        }
      }
    }
  }

  /** The boxes two segments span meet when their coordinate ranges do. */
  lemma SpansMeet(first: LineSegment, other: LineSegment)
    requires MinX(first) <= MaxX(other) && MinX(other) <= MaxX(first)
    requires MinY(first) <= MaxY(other) && MinY(other) <= MaxY(first)
    ensures Collision.Overlaps(LineSegments.EnclosingAabb(first), LineSegments.EnclosingAabb(other))
  {
  }

  /** The collinear overlap read off the combined extent, once it is known
      which of the two starts lie on its extremes. */
  lemma OverlapEnds(first: LineSegment, other: LineSegment, e: Extent, firstOn: bool, otherOn: bool)
    requires CombinedExtent(first, other) == e
    requires StartOnExtremes(first, e) == firstOn && StartOnExtremes(other, e) == otherOn
    ensures CollinearOverlap(first, other) ==
      Overlapping(if firstOn then first.end else first.start, if otherOn then other.end else other.start)
  {
  }

  /** Two non-vertical segments on the line `y = m * x + b` whose boxes
      meet: the library reports the collinear overlap, the corrected
      classifier the common stretch. */
  lemma CollinearPair(first: LineSegment, other: LineSegment, m: real, b: real)
    requires first.start.x != first.end.x && other.start.x != other.end.x
    requires first.start.y == m * first.start.x + b && first.end.y == m * first.end.x + b
    requires other.start.y == m * other.start.x + b && other.end.y == m * other.end.x + b
    requires Collision.Overlaps(LineSegments.EnclosingAabb(first), LineSegments.EnclosingAabb(other))
    ensures IntersectionOf(first, other) == CollinearOverlap(first, other)
    ensures CorrectedIntersectionOf(first, other) == StretchAlong(first, other, false)
  {
    SlopeOfSegmentOnLine(first, m, b);
    SlopeOfSegmentOnLine(other, m, b);
  }

  /** Two horizontal segments at the same height whose boxes meet: the
      library reports the collinear overlap, the corrected classifier the
      common stretch. */
  lemma HorizontalPair(first: LineSegment, other: LineSegment)
    requires first.start.x != first.end.x && other.start.x != other.end.x
    requires first.start.y == first.end.y == other.start.y == other.end.y
    requires Collision.Overlaps(LineSegments.EnclosingAabb(first), LineSegments.EnclosingAabb(other))
    ensures IntersectionOf(first, other) == CollinearOverlap(first, other)
    ensures CorrectedIntersectionOf(first, other) == StretchAlong(first, other, false)
  {
    CollinearPair(first, other, 0.0, first.start.y);
  }

  /** Two rightward segments at the same height, the second starting within
      the first and ending beyond it: the library reports the first's end
      and the second's start. */
  lemma StaggeredHorizontalOverlap(a: real, b: real, c: real, d: real, y: real)
    requires a < c <= b < d
    ensures IntersectionOf(LineSegment(Vec(a, y), Vec(b, y)), LineSegment(Vec(c, y), Vec(d, y)))
      == Overlapping(Vec(b, y), Vec(c, y))
  {
    var first, other := LineSegment(Vec(a, y), Vec(b, y)), LineSegment(Vec(c, y), Vec(d, y));
    var e := CombinedExtent(first, other);
    assert e.minx == a && e.maxx == d;
    OverlapEnds(first, other, e, true, false);
    SpansMeet(first, other);
    HorizontalPair(first, other);
  }

  /** Two vertical segments at the same abscissa whose boxes meet: the
      library reports the collinear overlap, the corrected classifier the
      common stretch. */
  lemma VerticalPair(first: LineSegment, other: LineSegment)
    requires first.start.x == first.end.x == other.start.x == other.end.x
    requires Collision.Overlaps(LineSegments.EnclosingAabb(first), LineSegments.EnclosingAabb(other))
    ensures IntersectionOf(first, other) == CollinearOverlap(first, other)
    ensures CorrectedIntersectionOf(first, other) == StretchAlong(first, other, true)
  {
  }

  /** A vertical segment and a segment on the line `y = m * x + b` whose
      boxes meet: the library reports nothing, the corrected classifier the
      point of the line at the vertical's abscissa when it lies strictly
      inside both segments. */
  lemma VerticalAndSloped(vertical: LineSegment, sloped: LineSegment, m: real, b: real)
    requires vertical.start.x == vertical.end.x && sloped.start.x != sloped.end.x
    requires sloped.start.y == m * sloped.start.x + b && sloped.end.y == m * sloped.end.x + b
    requires Collision.Overlaps(LineSegments.EnclosingAabb(vertical), LineSegments.EnclosingAabb(sloped))
    ensures IntersectionOf(vertical, sloped) == NoIntersection
    ensures var x, y := vertical.start.x, m * vertical.start.x + b;
      CorrectedIntersectionOf(vertical, sloped) ==
        if StrictlyWithinX(sloped, x) && MinY(vertical) < y < MaxY(vertical) then Crossing(Vec(x, y)) else NoIntersection
  {
    SlopeOfSegmentOnLine(sloped, m, b);
  }

  /** A vertical segment at abscissa `x` from `y0` to `y1` and a horizontal
      one at ordinate `y` from `x0` to `x1`, each passing strictly through
      the other: the library reports nothing, the corrected classifier the
      crossing `(x, y)`. */
  lemma VerticalThroughHorizontal(x: real, y0: real, y1: real, x0: real, x1: real, y: real)
    requires y0 < y < y1 && x0 < x < x1
    ensures var vertical, horizontal := LineSegment(Vec(x, y0), Vec(x, y1)), LineSegment(Vec(x0, y), Vec(x1, y));
      IntersectionOf(vertical, horizontal) == NoIntersection &&
      CorrectedIntersectionOf(vertical, horizontal) == Crossing(Vec(x, y))
  {
    var vertical, horizontal := LineSegment(Vec(x, y0), Vec(x, y1)), LineSegment(Vec(x0, y), Vec(x1, y));
    SpansMeet(vertical, horizontal);
    VerticalAndSloped(vertical, horizontal, 0.0, y);
  }

  /** The outcome by case: nothing when the spanned boxes miss each other;
      an overlap exactly for collinear segments whose boxes meet, made of one
      endpoint of each; a crossing only for segments of different slopes;
      and nothing at all when exactly one of the segments is vertical. */
  lemma IntersectionOutcome(first: LineSegment, other: LineSegment)
    ensures !Collision.Overlaps(LineSegments.EnclosingAabb(first), LineSegments.EnclosingAabb(other)) ==>
      IntersectionOf(first, other) == NoIntersection
    ensures IntersectionOf(first, other).Overlapping? <==>
      Collision.Overlaps(LineSegments.EnclosingAabb(first), LineSegments.EnclosingAabb(other)) &&
      Slope(first) == Slope(other) && YIntercept(first.start, Slope(first)) == YIntercept(other.start, Slope(other))
    ensures IntersectionOf(first, other).Overlapping? ==>
      var r := IntersectionOf(first, other);
      (r.first == first.start || r.first == first.end) && (r.second == other.start || r.second == other.end)
    ensures IntersectionOf(first, other).Crossing? ==> Slope(first) != Slope(other)
    ensures Slope(first).Vertical? != Slope(other).Vertical? ==> IntersectionOf(first, other) == NoIntersection
  {
  }

  /** Segments whose boxes meet, with different slopes and equal
      intercepts: the library reports the crossing at (0, intercept) without
      further test. */
  lemma EqualInterceptCrossing(first: LineSegment, other: LineSegment)
    requires Collision.Overlaps(LineSegments.EnclosingAabb(first), LineSegments.EnclosingAabb(other))
    requires Slope(first) != Slope(other)
    requires YIntercept(first.start, Slope(first)) == YIntercept(other.start, Slope(other))
    ensures YIntercept(first.start, Slope(first)).Finite?
    ensures IntersectionOf(first, other) == Crossing(Vec(0.0, YIntercept(first.start, Slope(first)).value))
  {
  }

  /** A crossing found from the crossing abscissa, that is with different
      intercepts, lies on both segments. */
  lemma CrossingFromCommonXIsOnBothSegments(first: LineSegment, other: LineSegment)
    requires YIntercept(first.start, Slope(first)) != YIntercept(other.start, Slope(other))
    requires IntersectionOf(first, other).Crossing?
    ensures OnSegment(first, IntersectionOf(first, other).point)
    ensures OnSegment(other, IntersectionOf(first, other).point)
  {
    CommonXCrossingIsOnBothSegments(first, other);
  }

  /** The crossing does not depend on the order of the segments: one order
      reports a crossing exactly when the other does, at the same point. */
  lemma CrossingSymmetric(first: LineSegment, other: LineSegment)
    ensures IntersectionOf(first, other).Crossing? <==> IntersectionOf(other, first).Crossing?
    ensures IntersectionOf(first, other).Crossing? ==>
      IntersectionOf(first, other).point == IntersectionOf(other, first).point
  {
    Collision.OverlapsProperties(LineSegments.EnclosingAabb(first), LineSegments.EnclosingAabb(other));
    var s1, s2 := Slope(first), Slope(other);
    if s1 != s2 && s1.Finite? && s2.Finite? {
      CommonXCrossingSymmetric(first, other);
    }
  }

  /** The lines of two segments of different finite slopes meet at the same
      point whichever segment comes first. */
  lemma CommonXCrossingSymmetric(first: LineSegment, other: LineSegment)
    requires Slope(first).Finite? && Slope(other).Finite? && Slope(first) != Slope(other)
    ensures CommonXCrossing(first, other) == CommonXCrossing(other, first)
  {
    var m1, m2 := Slope(first).value, Slope(other).value;
    var b1, b2 := YIntercept(first.start, Slope(first)).value, YIntercept(other.start, Slope(other)).value;
    QuotientOfNegations(b2 - b1, m1 - m2);
    assert (b1 - b2) / (m2 - m1) == (b2 - b1) / (m1 - m2);
    MeetingPoint(m1, b1, m2, b2);
  }

  /** The library's crossing segments {(-7,4),(-1,1)} and {(-1,4),(-4,1)}
      cross at (-3,2). */
  lemma CrossingExample()
    ensures IntersectionOf(LineSegment(Vec(-7.0, 4.0), Vec(-1.0, 1.0)), LineSegment(Vec(-1.0, 4.0), Vec(-4.0, 1.0)))
      == Crossing(Vec(-3.0, 2.0))
  {
    var first, other := LineSegment(Vec(-7.0, 4.0), Vec(-1.0, 1.0)), LineSegment(Vec(-1.0, 4.0), Vec(-4.0, 1.0));
    assert Slope(first) == Finite(-0.5) && Slope(other) == Finite(1.0);
  }

  /** {(-7,4),(-1,1)} and {(-1,4),(-3,3)} span overlapping boxes, but their
      lines meet at x = -4, outside the second segment. */
  lemma BoxesMeetWithoutCrossingExample()
    ensures IntersectionOf(LineSegment(Vec(-7.0, 4.0), Vec(-1.0, 1.0)), LineSegment(Vec(-1.0, 4.0), Vec(-3.0, 3.0)))
      == NoIntersection
  {
    var first, other := LineSegment(Vec(-7.0, 4.0), Vec(-1.0, 1.0)), LineSegment(Vec(-1.0, 4.0), Vec(-3.0, 3.0));
    assert Slope(first) == Finite(-0.5) && Slope(other) == Finite(0.5);
  }

  /** {(9,-5),(-3,3)} and {(-3,-1),(6,5)} share the y-intercept 1 and are
      reported crossing at (0,1). */
  lemma CrossingAtYInterceptExample()
    ensures IntersectionOf(LineSegment(Vec(9.0, -5.0), Vec(-3.0, 3.0)), LineSegment(Vec(-3.0, -1.0), Vec(6.0, 5.0)))
      == Crossing(Vec(0.0, 1.0))
  {
    var first, other := LineSegment(Vec(9.0, -5.0), Vec(-3.0, 3.0)), LineSegment(Vec(-3.0, -1.0), Vec(6.0, 5.0));
    assert Slope(first) == Finite(-8.0 / 12.0) && Slope(other) == Finite(-6.0 / -9.0);
  }

  /** The parallel segments {(-2,4),(-5,1)} and {(-1,4),(-4,1)}, of slope 1
      and intercepts 6 and 5, do not intersect. */
  lemma ParallelExample()
    ensures IntersectionOf(LineSegment(Vec(-2.0, 4.0), Vec(-5.0, 1.0)), LineSegment(Vec(-1.0, 4.0), Vec(-4.0, 1.0)))
      == NoIntersection
  {
    var first, other := LineSegment(Vec(-2.0, 4.0), Vec(-5.0, 1.0)), LineSegment(Vec(-1.0, 4.0), Vec(-4.0, 1.0));
    assert Slope(first) == Finite(1.0) && Slope(other) == Finite(1.0);
    assert YIntercept(first.start, Slope(first)) == Finite(6.0);
    assert YIntercept(other.start, Slope(other)) == Finite(5.0);
  }

  /** The vertical segments at x = -3 and x = -2 do not intersect. */
  lemma VerticalParallelExample()
    ensures IntersectionOf(LineSegment(Vec(-3.0, 3.0), Vec(-3.0, 2.0)), LineSegment(Vec(-2.0, 4.0), Vec(-2.0, -1.0)))
      == NoIntersection
  {
    var first, other := LineSegment(Vec(-3.0, 3.0), Vec(-3.0, 2.0)), LineSegment(Vec(-2.0, 4.0), Vec(-2.0, -1.0));
    assert LineSegments.EnclosingAabb(first).pos.x == -3.0 && LineSegments.EnclosingAabb(first).size.x == 0.0;
    assert LineSegments.EnclosingAabb(other).pos.x == -2.0;
  }

  /** {(-70,4),(-1,10)} and {(-1,4),(-4,1)} span boxes that touch, but their
      lines meet at x = 39/7, outside both segments. */
  lemma DistantLinesExample()
    ensures IntersectionOf(LineSegment(Vec(-70.0, 4.0), Vec(-1.0, 10.0)), LineSegment(Vec(-1.0, 4.0), Vec(-4.0, 1.0)))
      == NoIntersection
  {
    var first, other := LineSegment(Vec(-70.0, 4.0), Vec(-1.0, 10.0)), LineSegment(Vec(-1.0, 4.0), Vec(-4.0, 1.0));
    LinesMeetOutside(first, other, 2.0 / 23.0, 232.0 / 23.0, 1.0, 5.0);
  }

  /** {(-11,3),(-5,0)} and {(-7,1),(-3,-1)} overlap on the pair
      ((-5,0),(-7,1)). */
  lemma OverlappingExample()
    ensures IntersectionOf(LineSegment(Vec(-11.0, 3.0), Vec(-5.0, 0.0)), LineSegment(Vec(-7.0, 1.0), Vec(-3.0, -1.0)))
      == Overlapping(Vec(-5.0, 0.0), Vec(-7.0, 1.0))
  {
    var first, other := LineSegment(Vec(-11.0, 3.0), Vec(-5.0, 0.0)), LineSegment(Vec(-7.0, 1.0), Vec(-3.0, -1.0));
    assert CombinedExtent(first, other) == Extent(-11.0, -3.0, -1.0, 3.0);
    OverlapEnds(first, other, Extent(-11.0, -3.0, -1.0, 3.0), true, false);
    SpansMeet(first, other);
    CollinearPair(first, other, -0.5, -2.5);
  }

  /** The vertical {(-5,-1),(-5,2)} and {(-5,0),(-5,-4)} overlap on the pair
      ((-5,-1),(-5,0)). */
  lemma VerticalOverlappingExample()
    ensures IntersectionOf(LineSegment(Vec(-5.0, -1.0), Vec(-5.0, 2.0)), LineSegment(Vec(-5.0, 0.0), Vec(-5.0, -4.0)))
      == Overlapping(Vec(-5.0, -1.0), Vec(-5.0, 0.0))
  {
    var first, other := LineSegment(Vec(-5.0, -1.0), Vec(-5.0, 2.0)), LineSegment(Vec(-5.0, 0.0), Vec(-5.0, -4.0));
    assert CombinedExtent(first, other) == Extent(-5.0, -5.0, -4.0, 2.0);
    OverlapEnds(first, other, Extent(-5.0, -5.0, -4.0, 2.0), false, false);
    SpansMeet(first, other);
    VerticalPair(first, other);
  }

  /** The horizontal {(-1,-4),(3,-4)} and {(0,-4),(5,-4)} overlap on the pair
      ((3,-4),(0,-4)). */
  lemma HorizontalOverlappingExample()
    ensures IntersectionOf(LineSegment(Vec(-1.0, -4.0), Vec(3.0, -4.0)), LineSegment(Vec(0.0, -4.0), Vec(5.0, -4.0)))
      == Overlapping(Vec(3.0, -4.0), Vec(0.0, -4.0))
  {
    StaggeredHorizontalOverlap(-1.0, 3.0, 0.0, 5.0, -4.0);
  }

  /** The shortcut for equal intercepts reports a crossing at (0,0) for
      {(1,1),(3,3)} and {(1,2),(1.5,3)}, a point on neither segment. */
  lemma InterceptShortcutMisplacesCrossing()
    ensures var first, other := LineSegment(Vec(1.0, 1.0), Vec(3.0, 3.0)), LineSegment(Vec(1.0, 2.0), Vec(1.5, 3.0));
      IntersectionOf(first, other) == Crossing(Vec(0.0, 0.0)) &&
      !OnSegment(first, Vec(0.0, 0.0)) && !OnSegment(other, Vec(0.0, 0.0))
  {
    var first, other := LineSegment(Vec(1.0, 1.0), Vec(3.0, 3.0)), LineSegment(Vec(1.0, 2.0), Vec(1.5, 3.0));
    assert Slope(first) == Finite(1.0) && Slope(other) == Finite(2.0);
  }

  /** The vertical {(0,-1),(0,1)} and the horizontal {(-1,0),(1,0)} both
      pass through (0,0), yet no intersection is reported. */
  lemma VerticalCrossingMissed()
    ensures var first, other := LineSegment(Vec(0.0, -1.0), Vec(0.0, 1.0)), LineSegment(Vec(-1.0, 0.0), Vec(1.0, 0.0));
      IntersectionOf(first, other) == NoIntersection &&
      OnSegment(first, Vec(0.0, 0.0)) && OnSegment(other, Vec(0.0, 0.0))
  {
    VerticalThroughHorizontal(0.0, -1.0, 1.0, -1.0, 1.0, 0.0);
    OriginOnVertical();
    OriginOnHorizontal();
  }

  /** (0,0) lies on the vertical {(0,-1),(0,1)}. */
  lemma OriginOnVertical()
    ensures OnSegment(LineSegment(Vec(0.0, -1.0), Vec(0.0, 1.0)), Vec(0.0, 0.0))
  {
    OnVerticalWithinIsOnSegment(LineSegment(Vec(0.0, -1.0), Vec(0.0, 1.0)), Vec(0.0, 0.0));
  }

  /** (0,0) lies on the horizontal {(-1,0),(1,0)}. */
  lemma OriginOnHorizontal()
    ensures OnSegment(LineSegment(Vec(-1.0, 0.0), Vec(1.0, 0.0)), Vec(0.0, 0.0))
  {
    OnHorizontalWithinIsOnSegment(LineSegment(Vec(-1.0, 0.0), Vec(1.0, 0.0)), Vec(0.0, 0.0));
  }

  /** Two rightward segments at the same height, the second strictly inside
      the first: the library reports the first's end and the second's start,
      and the first's end is not on the second segment. */
  lemma NestedHorizontalOverlap(a: real, b: real, c: real, d: real, y: real)
    requires a < c < d < b
    ensures var first, other := LineSegment(Vec(a, y), Vec(b, y)), LineSegment(Vec(c, y), Vec(d, y));
      IntersectionOf(first, other) == Overlapping(Vec(b, y), Vec(c, y)) &&
      !OnSegment(other, Vec(b, y))
  {
    var first, other := LineSegment(Vec(a, y), Vec(b, y)), LineSegment(Vec(c, y), Vec(d, y));
    OutsideXRangeIsOffSegment(other, Vec(b, y));
    var e := CombinedExtent(first, other);
    assert e == Extent(a, b, y, y);
    OverlapEnds(first, other, e, true, false);
    SpansMeet(first, other);
    HorizontalPair(first, other);
  }

  /** For {(0,0),(10,0)} and the segment {(2,0),(5,0)} inside it, the pair
      reported is ((10,0),(2,0)), though (10,0) is not on the inner segment:
      the common stretch is from (2,0) to (5,0). */
  lemma NestedOverlapMisreported()
    ensures var first, other := LineSegment(Vec(0.0, 0.0), Vec(10.0, 0.0)), LineSegment(Vec(2.0, 0.0), Vec(5.0, 0.0));
      IntersectionOf(first, other) == Overlapping(Vec(10.0, 0.0), Vec(2.0, 0.0)) &&
      !OnSegment(other, Vec(10.0, 0.0))
  {
    NestedHorizontalOverlap(0.0, 10.0, 2.0, 5.0, 0.0);
  }

  /** Two rising segments on the line `y = x`, the second strictly inside the
      first: the sloped branch also reports the first's end and the second's
      start, and the first's end is not on the second segment. */
  lemma NestedSlopedOverlap(a: real, b: real, c: real, d: real)
    requires a < c < d < b
    ensures var first, other := LineSegment(Vec(a, a), Vec(b, b)), LineSegment(Vec(c, c), Vec(d, d));
      IntersectionOf(first, other) == Overlapping(Vec(b, b), Vec(c, c)) &&
      !OnSegment(other, Vec(b, b))
  {
    var first, other := LineSegment(Vec(a, a), Vec(b, b)), LineSegment(Vec(c, c), Vec(d, d));
    OutsideXRangeIsOffSegment(other, Vec(b, b));
    var e := CombinedExtent(first, other);
    assert e == Extent(a, b, a, b);
    OverlapEnds(first, other, e, true, false);
    SpansMeet(first, other);
    CollinearPair(first, other, 1.0, 0.0);
  }

  /** For {(0,0),(10,10)} and the segment {(2,2),(5,5)} inside it, the pair
      reported is ((10,10),(2,2)), though (10,10) is not on the inner segment. */
  lemma NestedSlopedMisreported()
    ensures var first, other := LineSegment(Vec(0.0, 0.0), Vec(10.0, 10.0)), LineSegment(Vec(2.0, 2.0), Vec(5.0, 5.0));
      IntersectionOf(first, other) == Overlapping(Vec(10.0, 10.0), Vec(2.0, 2.0)) &&
      !OnSegment(other, Vec(10.0, 10.0))
  {
    NestedSlopedOverlap(0.0, 10.0, 2.0, 5.0);
  }

  /** The coordinate along which collinear segments are compared: y for
      vertical segments, x otherwise. */
  function Along(p: Vec, vertical: bool): real
  {
    if vertical then p.y else p.x
  }

  /** The endpoint of a segment lowest along the chosen coordinate. */
  function LowEnd(s: LineSegment, vertical: bool): (r: Vec)
    ensures r == s.start || r == s.end
    ensures Along(r, vertical) == (if vertical then MinY(s) else MinX(s))
  {
    if Along(s.start, vertical) < Along(s.end, vertical) then s.start else s.end
  }

  /** The endpoint of a segment highest along the chosen coordinate. */
  function HighEnd(s: LineSegment, vertical: bool): (r: Vec)
    ensures r == s.start || r == s.end
    ensures Along(r, vertical) == (if vertical then MaxY(s) else MaxX(s))
  {
    if Along(s.start, vertical) > Along(s.end, vertical) then s.start else s.end
  }

  /** The common stretch of two collinear segments: from the higher of the
      two low ends to the lower of the two high ends. */
  function CommonStretch(first: LineSegment, other: LineSegment): SegmentsIntersection
  {
    StretchAlong(first, other, Slope(first) == Vertical)
  }

  /** The common stretch measured along y when `vertical` holds, along x
      otherwise. */
  function StretchAlong(first: LineSegment, other: LineSegment, vertical: bool): SegmentsIntersection
  {
    var low1, low2 := LowEnd(first, vertical), LowEnd(other, vertical);
    var high1, high2 := HighEnd(first, vertical), HighEnd(other, vertical);
    Overlapping(if Along(low1, vertical) < Along(low2, vertical) then low2 else low1,
                if Along(high2, vertical) < Along(high1, vertical) then high2 else high1)
  }

  /** Where a vertical segment meets a segment of finite slope: at the
      vertical's abscissa, counted only strictly inside the other's x-range
      and strictly inside the vertical's y-range. */
  function VerticalCrossing(vertical: LineSegment, sloped: LineSegment): SegmentsIntersection
    requires Slope(sloped).Finite?
  {
    var x := vertical.start.x;
    var y := Slope(sloped).value * x + YIntercept(sloped.start, Slope(sloped)).value;
    if StrictlyWithinX(sloped, x) && MinY(vertical) < y < MaxY(vertical) then Crossing(Vec(x, y)) else NoIntersection
  }

  /** The classifier with its three gaps closed: no shortcut for equal
      intercepts, a crossing computed for exactly one vertical segment, and
      the common stretch for collinear segments. */
  function CorrectedIntersectionOf(first: LineSegment, other: LineSegment): SegmentsIntersection
  {
    var slopeCurrent, slopeOther := Slope(first), Slope(other);
    var interceptCurrent := YIntercept(first.start, slopeCurrent);
    var interceptOther := YIntercept(other.start, slopeOther);
    if !Collision.Overlaps(LineSegments.EnclosingAabb(first), LineSegments.EnclosingAabb(other)) then
      NoIntersection
    else if slopeCurrent == slopeOther then
      if interceptCurrent == interceptOther then CommonStretch(first, other) else NoIntersection
    else if slopeCurrent == Vertical then
      VerticalCrossing(first, other)
    else if slopeOther == Vertical then
      VerticalCrossing(other, first)
    else
      CommonXCrossing(first, other)
  }

  /** Every endpoint lies on its own segment. */
  lemma EndpointsOnSegment(s: LineSegment)
    ensures OnSegment(s, s.start) && OnSegment(s, s.end)
  {
    var d := Sub(s.end, s.start);
    assert Cross(d, d) == 0.0;
  }

  /** A crossing of a vertical segment with a sloped one lies on both. */
  lemma VerticalCrossingIsOnBothSegments(vertical: LineSegment, sloped: LineSegment)
    requires Slope(vertical) == Vertical && Slope(sloped).Finite?
    requires VerticalCrossing(vertical, sloped).Crossing?
    ensures OnSegment(vertical, VerticalCrossing(vertical, sloped).point)
    ensures OnSegment(sloped, VerticalCrossing(vertical, sloped).point)
  {
    var p := VerticalCrossing(vertical, sloped).point;
    OnVerticalWithinIsOnSegment(vertical, p);
    OnLineWithinIsOnSegment(sloped, p);
  }

  /** A crossing of the corrected classifier lies on both segments. */
  lemma CorrectedCrossingIsOnBothSegments(first: LineSegment, other: LineSegment)
    requires CorrectedIntersectionOf(first, other).Crossing?
    ensures OnSegment(first, CorrectedIntersectionOf(first, other).point)
    ensures OnSegment(other, CorrectedIntersectionOf(first, other).point)
  {
    if Slope(first) == Vertical {
      VerticalCrossingIsOnBothSegments(first, other);
    } else if Slope(other) == Vertical {
      VerticalCrossingIsOnBothSegments(other, first);
    } else {
      CommonXCrossingIsOnBothSegments(first, other);
    }
  }

  /** An endpoint of `s` on the line of `t`, which has the same finite
      slope and intercept, and within the x-range of `t` lies on `t`. */
  lemma CollinearEndpointOnSegment(s: LineSegment, t: LineSegment, p: Vec)
    requires Slope(s).Finite? && Slope(s) == Slope(t)
    requires YIntercept(s.start, Slope(s)) == YIntercept(t.start, Slope(t))
    requires p == s.start || p == s.end
    requires MinX(t) <= p.x <= MaxX(t)
    ensures OnSegment(t, p)
  {
    EndpointsOnLine(s);
    assert p.y == Slope(t).value * p.x + YIntercept(t.start, Slope(t)).value;
    OnLineWithinIsOnSegment(t, p);
  }

  /** An endpoint of the vertical `s` within the y-range of the vertical
      `t`, whose box meets that of `s`, lies on `t`. */
  lemma VerticalEndpointOnSegment(s: LineSegment, t: LineSegment, p: Vec)
    requires Slope(s) == Vertical && Slope(t) == Vertical
    requires p == s.start || p == s.end
    requires Collision.Overlaps(LineSegments.EnclosingAabb(s), LineSegments.EnclosingAabb(t))
    requires MinY(t) <= p.y <= MaxY(t)
    ensures OnSegment(t, p)
  {
    assert p.x == t.start.x;
    OnVerticalWithinIsOnSegment(t, p);
  }

  /** The end of the common stretch that comes from `s` lies on `t`. */
  lemma StretchEndOnSegment(s: LineSegment, t: LineSegment, p: Vec, vertical: bool)
    requires vertical <==> Slope(s) == Vertical
    requires Slope(s) == Slope(t) && YIntercept(s.start, Slope(s)) == YIntercept(t.start, Slope(t))
    requires p == s.start || p == s.end
    requires Collision.Overlaps(LineSegments.EnclosingAabb(s), LineSegments.EnclosingAabb(t))
    requires vertical ==> MinY(t) <= p.y <= MaxY(t)
    requires !vertical ==> MinX(t) <= p.x <= MaxX(t)
    ensures OnSegment(t, p)
  {
    if vertical {
      VerticalEndpointOnSegment(s, t, p);
    } else {
      CollinearEndpointOnSegment(s, t, p);
    }
  }

  /** The common stretch read off the low and high ends of both segments. */
  lemma StretchEnds(first: LineSegment, other: LineSegment, vertical: bool, low1: Vec, low2: Vec, high1: Vec, high2: Vec)
    requires LowEnd(first, vertical) == low1 && LowEnd(other, vertical) == low2
    requires HighEnd(first, vertical) == high1 && HighEnd(other, vertical) == high2
    ensures StretchAlong(first, other, vertical) ==
      Overlapping(if Along(low1, vertical) < Along(low2, vertical) then low2 else low1,
                  if Along(high2, vertical) < Along(high1, vertical) then high2 else high1)
  {
  }

  /** A point on a segment lies within the segment's extent on both axes. */
  lemma OnSegmentWithinSpan(s: LineSegment, q: Vec)
    requires OnSegment(s, q)
    ensures MinX(s) <= q.x <= MaxX(s) && MinY(s) <= q.y <= MaxY(s)
  {
  }

  /** Both ends of the stretch of two collinear segments whose boxes meet
      lie on both segments. */
  lemma StretchEndsOnBoth(first: LineSegment, other: LineSegment, vertical: bool)
    requires vertical <==> Slope(first) == Vertical
    requires Slope(first) == Slope(other) && YIntercept(first.start, Slope(first)) == YIntercept(other.start, Slope(other))
    requires Collision.Overlaps(LineSegments.EnclosingAabb(first), LineSegments.EnclosingAabb(other))
    ensures var r := StretchAlong(first, other, vertical);
      OnSegment(first, r.first) && OnSegment(other, r.first) &&
      OnSegment(first, r.second) && OnSegment(other, r.second)
  {
    var r := StretchAlong(first, other, vertical);
    EndpointsOnSegment(first);
    EndpointsOnSegment(other);
    Collision.OverlapsProperties(LineSegments.EnclosingAabb(first), LineSegments.EnclosingAabb(other));
    if r.first == LowEnd(other, vertical) {
      StretchEndOnSegment(other, first, r.first, vertical);
    } else {
      StretchEndOnSegment(first, other, r.first, vertical);
    }
    if r.second == HighEnd(other, vertical) {
      StretchEndOnSegment(other, first, r.second, vertical);
    } else {
      StretchEndOnSegment(first, other, r.second, vertical);
    }
  }

  /** When the boxes of two segments meet, their stretch runs forwards, and
      every point on both segments lies between its ends. */
  lemma StretchBounds(first: LineSegment, other: LineSegment, vertical: bool)
    requires Collision.Overlaps(LineSegments.EnclosingAabb(first), LineSegments.EnclosingAabb(other))
    ensures var r := StretchAlong(first, other, vertical);
      Along(r.first, vertical) <= Along(r.second, vertical) &&
      forall q :: OnSegment(first, q) && OnSegment(other, q) ==>
        Along(r.first, vertical) <= Along(q, vertical) <= Along(r.second, vertical)
  {
    var r := StretchAlong(first, other, vertical);
    Collision.OverlapsProperties(LineSegments.EnclosingAabb(first), LineSegments.EnclosingAabb(other));
    MinMaxProperties(first);
    MinMaxProperties(other);
    forall q | OnSegment(first, q) && OnSegment(other, q)
      ensures Along(r.first, vertical) <= Along(q, vertical) <= Along(r.second, vertical)
    {
      OnSegmentWithinSpan(first, q);
      OnSegmentWithinSpan(other, q);
    }
  }

  /** An overlap of the corrected classifier is the common stretch of the
      two segments: both its ends lie on both segments, the first no further
      along than the second, and every point on both segments lies between
      them. */
  lemma CorrectedOverlapIsCommonStretch(first: LineSegment, other: LineSegment)
    requires CorrectedIntersectionOf(first, other).Overlapping?
    ensures var r, vertical := CorrectedIntersectionOf(first, other), Slope(first) == Vertical;
      OnSegment(first, r.first) && OnSegment(other, r.first) &&
      OnSegment(first, r.second) && OnSegment(other, r.second) &&
      Along(r.first, vertical) <= Along(r.second, vertical) &&
      forall q :: OnSegment(first, q) && OnSegment(other, q) ==>
        Along(r.first, vertical) <= Along(q, vertical) <= Along(r.second, vertical)
  {
    assert Slope(first) == Slope(other) && YIntercept(first.start, Slope(first)) == YIntercept(other.start, Slope(other));
    assert Collision.Overlaps(LineSegments.EnclosingAabb(first), LineSegments.EnclosingAabb(other));
    StretchEndsOnBoth(first, other, Slope(first) == Vertical);
    StretchBounds(first, other, Slope(first) == Vertical);
  }

  /** The corrected classifier answers as the library does wherever the
      library's answer is sound: when the boxes miss, for parallel lines, and
      for two sloped segments with different intercepts. */
  lemma CorrectedAgreesElsewhere(first: LineSegment, other: LineSegment)
    ensures var s1, s2 := Slope(first), Slope(other);
      var i1, i2 := YIntercept(first.start, s1), YIntercept(other.start, s2);
      (!Collision.Overlaps(LineSegments.EnclosingAabb(first), LineSegments.EnclosingAabb(other)) ||
       (s1 == s2 && i1 != i2) ||
       (s1 != s2 && s1.Finite? && s2.Finite? && i1 != i2)) ==>
      CorrectedIntersectionOf(first, other) == IntersectionOf(first, other)
  {
  }

  /** The corrected classifier finds no crossing for {(1,1),(3,3)} and
      {(1,2),(1.5,3)}. */
  lemma CorrectedSkipsMisplacedCrossing()
    ensures CorrectedIntersectionOf(LineSegment(Vec(1.0, 1.0), Vec(3.0, 3.0)), LineSegment(Vec(1.0, 2.0), Vec(1.5, 3.0)))
      == NoIntersection
  {
    var first, other := LineSegment(Vec(1.0, 1.0), Vec(3.0, 3.0)), LineSegment(Vec(1.0, 2.0), Vec(1.5, 3.0));
    assert Slope(first) == Finite(1.0) && Slope(other) == Finite(2.0);
    assert YIntercept(first.start, Slope(first)) == Finite(0.0);
    assert YIntercept(other.start, Slope(other)) == Finite(0.0);
  }

  /** The corrected classifier finds the vertical and horizontal segments
      crossing at (0,0). */
  lemma CorrectedFindsVerticalCrossing()
    ensures CorrectedIntersectionOf(LineSegment(Vec(0.0, -1.0), Vec(0.0, 1.0)), LineSegment(Vec(-1.0, 0.0), Vec(1.0, 0.0)))
      == Crossing(Vec(0.0, 0.0))
  {
    VerticalThroughHorizontal(0.0, -1.0, 1.0, -1.0, 1.0, 0.0);
  }

  /** The corrected classifier reports the stretch from (2,0) to (5,0) for
      the nested segments. */
  lemma CorrectedFindsNestedStretch()
    ensures CorrectedIntersectionOf(LineSegment(Vec(0.0, 0.0), Vec(10.0, 0.0)), LineSegment(Vec(2.0, 0.0), Vec(5.0, 0.0)))
      == Overlapping(Vec(2.0, 0.0), Vec(5.0, 0.0))
  {
    var first, other := LineSegment(Vec(0.0, 0.0), Vec(10.0, 0.0)), LineSegment(Vec(2.0, 0.0), Vec(5.0, 0.0));
    StretchEnds(first, other, false, first.start, other.start, first.end, other.end);
    SpansMeet(first, other);
    HorizontalPair(first, other);
  }

  /** On the library's crossing at the y-intercept the corrected classifier
      reports the same point (0,1). */
  lemma CorrectedKeepsInterceptCrossing()
    ensures CorrectedIntersectionOf(LineSegment(Vec(9.0, -5.0), Vec(-3.0, 3.0)), LineSegment(Vec(-3.0, -1.0), Vec(6.0, 5.0)))
      == Crossing(Vec(0.0, 1.0))
  {
    var first, other := LineSegment(Vec(9.0, -5.0), Vec(-3.0, 3.0)), LineSegment(Vec(-3.0, -1.0), Vec(6.0, 5.0));
    assert Slope(first) == Finite(-2.0 / 3.0) && Slope(other) == Finite(2.0 / 3.0);
    assert YIntercept(first.start, Slope(first)) == Finite(1.0);
    assert YIntercept(other.start, Slope(other)) == Finite(1.0);
  }

  /** On the library's overlapping cases the corrected classifier reports the
      same stretches as the library, up to the order of their ends. */
  lemma CorrectedKeepsOverlap()
    ensures CorrectedIntersectionOf(LineSegment(Vec(-11.0, 3.0), Vec(-5.0, 0.0)), LineSegment(Vec(-7.0, 1.0), Vec(-3.0, -1.0)))
      == Overlapping(Vec(-7.0, 1.0), Vec(-5.0, 0.0))
  {
    var first, other := LineSegment(Vec(-11.0, 3.0), Vec(-5.0, 0.0)), LineSegment(Vec(-7.0, 1.0), Vec(-3.0, -1.0));
    StretchEnds(first, other, false, first.start, other.start, first.end, other.end);
    SpansMeet(first, other);
    CollinearPair(first, other, -0.5, -2.5);
  }

  /** The vertical overlapping case. */
  lemma CorrectedKeepsVerticalOverlap()
    ensures CorrectedIntersectionOf(LineSegment(Vec(-5.0, -1.0), Vec(-5.0, 2.0)), LineSegment(Vec(-5.0, 0.0), Vec(-5.0, -4.0)))
      == Overlapping(Vec(-5.0, -1.0), Vec(-5.0, 0.0))
  {
    var first, other := LineSegment(Vec(-5.0, -1.0), Vec(-5.0, 2.0)), LineSegment(Vec(-5.0, 0.0), Vec(-5.0, -4.0));
    StretchEnds(first, other, true, first.start, other.end, first.end, other.start);
    SpansMeet(first, other);
    VerticalPair(first, other);
  }

  /** The horizontal overlapping case. */
  lemma CorrectedKeepsHorizontalOverlap()
    ensures CorrectedIntersectionOf(LineSegment(Vec(-1.0, -4.0), Vec(3.0, -4.0)), LineSegment(Vec(0.0, -4.0), Vec(5.0, -4.0)))
      == Overlapping(Vec(0.0, -4.0), Vec(3.0, -4.0))
  {
    var first, other := LineSegment(Vec(-1.0, -4.0), Vec(3.0, -4.0)), LineSegment(Vec(0.0, -4.0), Vec(5.0, -4.0));
    StretchEnds(first, other, false, first.start, other.start, first.end, other.end);
    SpansMeet(first, other);
    HorizontalPair(first, other);
  }
}
