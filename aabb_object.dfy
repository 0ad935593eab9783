/** The box as an object: the member functions of `AABB` in the
    single-header variant of the library, which change the box in place
    (`move`, `scaleRelativeToCenter`) or work on a local copy of a box that
    they change (`intersects`, `strictlyContains`). */
module AabbObjects {
  import opened Vectors
  import opened VectorMaths
  import opened Reals
  import opened Aabbs
  import opened Collision
  import opened AabbCollisions
  import opened CollisionInfo

  /** The size gate of `AABB::strictlyContains`: the squared diagonal of
      `first` is at least that of `other`. */
  predicate DiagonalAtLeast(first: AABB, other: AABB)
  {
    MagnitudeSquared(first.size) >= MagnitudeSquared(other.size)
  }

  /** What `AABB::strictlyContains` answers: the diagonal gate, then the
      edges of `other` within those of `first`. */
  predicate MemberStrictlyContains(first: AABB, other: AABB)
  {
    DiagonalAtLeast(first, other) && Spans(first, other)
  }

  /** For boxes of non-negative size the diagonal gate never rejects a box
      whose edges fit, so the member answers exactly as `aabb_contains`
      does; a box contains itself; a box with the longer diagonal is never
      contained. */
  lemma MemberStrictlyContainsProperties(first: AABB, other: AABB)
    ensures MemberStrictlyContains(first, first)
    ensures MagnitudeSquared(first.size) < MagnitudeSquared(other.size) ==> !MemberStrictlyContains(first, other)
    ensures 0.0 <= first.size.x && 0.0 <= first.size.y && 0.0 <= other.size.x && 0.0 <= other.size.y ==>
      (MemberStrictlyContains(first, other) <==> Spans(first, other)) &&
      (MemberStrictlyContains(first, other) <==> Area(first) >= Area(other) && Spans(first, other))
  {
    if 0.0 <= first.size.x && 0.0 <= first.size.y && 0.0 <= other.size.x && 0.0 <= other.size.y && Spans(first, other) {
      SquareOfSmaller(other.size.x, first.size.x, other.size.x * other.size.x, first.size.x * first.size.x);
      SquareOfSmaller(other.size.y, first.size.y, other.size.y * other.size.y, first.size.y * first.size.y);
      AabbContainsAabbProperties(first, other);
    }
  }

  /** With a negative size the two gates part: the box (0,0,1,1) holds the
      box (0,0,-5,0) for `aabb_contains`, whose area gate compares 1 with 0,
      but not for `AABB::strictlyContains`, whose diagonal gate compares 2
      with 25. */
  lemma GatesDisagreeOnNegativeSize()
    ensures var first, other := AABB(Vec(0.0, 0.0), Vec(1.0, 1.0)), AABB(Vec(0.0, 0.0), Vec(-5.0, 0.0));
      Area(first) >= Area(other) && Spans(first, other) && !MemberStrictlyContains(first, other)
  {
  }

  /** `ch::AABB` with its position (the TopLeft corner) and its size. */
  class Box {
    var pos: Vec
    var size: Vec

    /** `AABB(pos, size)` */
    constructor (pos0: Vec, size0: Vec)
      ensures Value() == AABB(pos0, size0)
    {
      pos, size := pos0, size0;
    }

    /** `AABB()`: position and size zero. */
    constructor Empty()
      ensures Value() == AABB(Null, Null)
    {
      pos, size := Null, Null;
    }

    /** The box's current position and size as a value. */
    function Value(): AABB
      reads this
    {
      AABB(pos, size)
    }

    /** `AABB::contains` on the current box. */
    predicate Contains(point: Vec)
      reads this
    {
      Aabbs.Contains(Value(), point)
    }

    /** `AABB::move`: the position moves by the movement, the size stays. */
    method Move(movement: Vec)
      modifies this
      ensures Value() == Moved(old(Value()), movement)
      ensures size == old(size)
      ensures Center(Value()) == Add(old(Center(Value())), movement)
    {
      pos := Add(pos, movement);
      MovedShiftsEverything(old(Value()), movement, Corners.TopLeft);
    }

    /** `AABB::scaleRelativeToCenter`: the centre is taken first, then the
        size is multiplied by the factor and the position put half the new
        size before that centre, so that the centre stays. */
    method ScaleRelativeToCenter(factor: real)
      modifies this
      ensures Value() == ScaledRelativeToCenter(old(Value()), factor)
      ensures size == Scale(old(size), factor)
      ensures Center(Value()) == old(Center(Value()))
    {
      var centerBefore := Center(Value());
      size := Scale(size, factor);
      pos := Sub(centerBefore, Half(size));
      ScaledKeepsCenter(old(Value()), factor);
    }

    /** `AABB::intersects`: a copy of `other` grown by this box's size up
        and to the left holds this box's position exactly when the two
        boxes overlap. */
    method Intersects(other: AABB) returns (r: bool)
      ensures r <==> Overlaps(Value(), other)
      ensures r <==> Overlaps(other, Value())
    {
      var extended := new Box(other.pos, other.size);
      extended.size := Add(extended.size, size);
      extended.pos := Sub(extended.pos, size);
      r := extended.Contains(pos);
      OverlapsProperties(Value(), other);
    }

    /** `AABB::strictlyContains`: false when this box's diagonal is the
        shorter; otherwise a copy of this box shrunk by `other`'s size is
        tested against `other`'s position. */
    method StrictlyContains(other: AABB) returns (r: bool)
      ensures r <==> MemberStrictlyContains(Value(), other)
    {
      if MagnitudeSquared(size) >= MagnitudeSquared(other.size) {
        var zone := new Box(pos, size);
        zone.size := Sub(zone.size, other.size);
        return zone.Contains(other.pos);
      }
      return false;
    }

    /** `AABB::detectCollision`: the same corner search as
        `aabb_collision_info`, with this box as the first. */
    method DetectCollision(sqrt: real -> real, other: AABB) returns (r: AabbCollision)
      requires IsSqrt(sqrt)
      ensures r == AabbCollisionOf(Value(), other)
      ensures !Overlaps(Value(), other) ==> r == AabbCollision(NullDirection, Null)
      ensures Overlaps(Value(), other) ==> r.normal != NullDirection && 0.0 <= r.delta.x && 0.0 <= r.delta.y
    {
      r := AabbCollisionInfo(sqrt, Value(), other);
      AabbCollisionOutcome(Value(), other);
    }
  }

  /** Moving a box and moving it back leaves it where it was, and two moves
      add up to one. */
  lemma MoveInverse(b: AABB, movement: Vec, further: Vec)
    ensures Moved(Moved(b, movement), Neg(movement)) == b
    ensures Moved(Moved(b, movement), further) == Moved(b, Add(movement, further))
  {
  }
}
