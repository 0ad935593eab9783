/** The four corners of an axis-aligned box and the lookup table of
    diagonally opposed corners.

    The enum's `MAX_VALUE` member only counts the corners; it is not a
    corner, so it has no constructor here. */
module Corners {

  /** The corners in the enum's declaration order. */
  datatype Corner = TopLeft | TopRight | BottomLeft | BottomRight

  /** The corner count, `MAX_VALUE` cast to an index. */
  const CornerCount: nat := 4

  /** `static_cast<size_t>(corner)`: the position in declaration order. */
  function Index(c: Corner): (i: nat)
    ensures i < CornerCount
  {
    match c
    case TopLeft => 0
    case TopRight => 1
    case BottomLeft => 2
    case BottomRight => 3
  }

  /** `static_cast<Corner>(i)` for an index below the corner count. */
  function FromIndex(i: nat): (c: Corner)
    requires i < CornerCount
    ensures Index(c) == i
  {
    if i == 0 then TopLeft
    else if i == 1 then TopRight
    else if i == 2 then BottomLeft
    else BottomRight
  }

  /** Casting to an index and back gives the same corner. */
  lemma IndexRoundTrip(c: Corner)
    ensures FromIndex(Index(c)) == c
  {
  }

  predicate IsTop(c: Corner)
  {
    c == TopLeft || c == TopRight
  }

  predicate IsLeft(c: Corner)
  {
    c == TopLeft || c == BottomLeft
  }

  /** `DIAGONALLY_OPPOSED_CORNERS`, indexed by corner. */
  const DiagonallyOpposedTable: seq<Corner> := [BottomRight, BottomLeft, TopRight, TopLeft]

  /** `diagonally_opposed_corner`: a table lookup; the result lies on the
      other side both vertically and horizontally. */
  function DiagonallyOpposed(c: Corner): (r: Corner)
    ensures IsTop(r) != IsTop(c)
    ensures IsLeft(r) != IsLeft(c)
  {
    DiagonallyOpposedTable[Index(c)]
  }

  /** The table pairs TopLeft with BottomRight and TopRight with BottomLeft. */
  lemma DiagonallyOpposedPairs()
    ensures DiagonallyOpposed(TopLeft) == BottomRight
    ensures DiagonallyOpposed(BottomRight) == TopLeft
    ensures DiagonallyOpposed(TopRight) == BottomLeft
    ensures DiagonallyOpposed(BottomLeft) == TopRight
  {
  }

  /** Being on the other side both ways determines a corner: the table
      agrees with that geometric description. */
  lemma DiagonallyOpposedCharacterised(c: Corner, r: Corner)
    ensures r == DiagonallyOpposed(c) <==> IsTop(r) != IsTop(c) && IsLeft(r) != IsLeft(c)
  {
  }

  /** Applying the table twice gives the corner back, and no corner is its own opposite. */
  lemma DiagonallyOpposedInvolution(c: Corner)
    ensures DiagonallyOpposed(DiagonallyOpposed(c)) == c
    ensures DiagonallyOpposed(c) != c
  {
  }
}
