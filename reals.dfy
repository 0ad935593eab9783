/** Facts about products of reals that the geometry proofs rely on.

    Each lemma names every product it talks about through a parameter
    (`ab == a * b`), so that callers can hand it the products they already
    have, and is stated over plain reals. */
module Reals {

  lemma ProductPositive(a: real, b: real, ab: real)
    requires 0.0 < a && 0.0 < b && ab == a * b
    ensures 0.0 < ab
  {
  }

  lemma SquarePositive(a: real, aa: real)
    requires a != 0.0 && aa == a * a
    ensures 0.0 < aa
  {
    if 0.0 < a {
      ProductPositive(a, a, aa);
    } else {
      ProductPositive(-a, -a, aa);
    }
  }

  /** A square is never negative, and is zero only for zero. */
  lemma SquareSign(a: real, aa: real)
    requires aa == a * a
    ensures !(aa < 0.0)
    ensures aa == 0.0 <==> a == 0.0
  {
    if a != 0.0 {
      SquarePositive(a, aa);
    }
  }

  lemma SquareOfNeg(a: real, aa: real, na: real)
    requires aa == a * a && na == (-a) * (-a)
    ensures na == aa
  {
  }

  /** Zero is below a square exactly when the squared number is not zero. */
  lemma ZeroBelowSquare(a: real, aa: real)
    requires aa == a * a
    ensures 0.0 < aa <==> a != 0.0
  {
    if a != 0.0 {
      SquarePositive(a, aa);
    }
  }

  /** The squares of two self-differences add up to something below exactly
      the positive bounds. */
  lemma SelfDifferencesBelow(x: real, y: real, m: real, bound: real)
    requires m == (x - x) * (x - x) + (y - y) * (y - y)
    ensures m < bound <==> 0.0 < bound
  {
  }

  /** A sum of two squares is never negative, and is zero only when both numbers are. */
  lemma SumOfSquaresSign(a: real, b: real, m: real)
    requires m == a * a + b * b
    ensures !(m < 0.0)
    ensures m == 0.0 <==> a == 0.0 && b == 0.0
  {
    var aa, bb := a * a, b * b;
    SquareSign(a, aa);
    SquareSign(b, bb);
  }

  /** Multiplying by a positive number keeps a strict order. */
  lemma ProductLess(s: real, t: real, u: real, su: real, tu: real)
    requires 0.0 < u && s < t && su == s * u && tu == t * u
    ensures su < tu
  {
    ProductPositive(t - s, u, tu - su);
  }

  /** Between non-negative numbers, comparing squares is comparing the numbers. */
  lemma SquareLess(s: real, t: real, ss: real, tt: real)
    requires !(s < 0.0) && !(t < 0.0) && ss == s * s && tt == t * t
    ensures s < t <==> ss < tt
  {
    var st := s * t;
    if s < t {
      if s == 0.0 {
        SquarePositive(t, tt);
      } else {
        ProductLess(s, t, s, ss, st);
        ProductLess(s, t, t, st, tt);
      }
    } else if t < s {
      if t == 0.0 {
        SquarePositive(s, ss);
      } else {
        ProductLess(t, s, t, tt, st);
        ProductLess(t, s, s, st, ss);
      }
    }
  }

  /** Non-negative numbers with equal squares are equal. */
  lemma SquareInjective(s: real, t: real, ss: real, tt: real)
    requires !(s < 0.0) && !(t < 0.0) && ss == s * s && tt == t * t
    requires ss == tt
    ensures s == t
  {
    SquareLess(s, t, ss, tt);
    SquareLess(t, s, tt, ss);
  }

  lemma SquareOfProduct(r: real, m: real, v: real, rr: real, mm: real, vv: real)
    requires r * m == v
    requires rr == r * r && mm == m * m && vv == v * v
    ensures vv == rr * mm
  {
    assert v * v == (r * r) * (m * m);
  }

  lemma CancelFactor(s: real, mm: real)
    requires 0.0 < mm
    requires s * mm == mm
    ensures s == 1.0
  {
    assert s == (s * mm) / mm;
  }

  lemma CancelSum(rr1: real, rr2: real, mm: real, vv1: real, vv2: real)
    requires 0.0 < mm
    requires vv1 == rr1 * mm && vv2 == rr2 * mm
    requires mm == vv1 + vv2
    ensures rr1 + rr2 == 1.0
  {
    var sum := rr1 + rr2;
    assert sum * mm == vv1 + vv2;
    CancelFactor(sum, mm);
  }

  /** Dividing both coordinates by the length `m` of `(vx, vy)` leaves
      coordinates whose squares add up to one. */
  lemma UnitAfterDivision(rx: real, ry: real, m: real, vx: real, vy: real)
    requires 0.0 < m
    requires rx * m == vx && ry * m == vy
    requires m * m == vx * vx + vy * vy
    ensures rx * rx + ry * ry == 1.0
  {
    var rrx, rry, mm, vvx, vvy := rx * rx, ry * ry, m * m, vx * vx, vy * vy;
    SquareOfProduct(rx, m, vx, rrx, mm, vvx);
    SquareOfProduct(ry, m, vy, rry, mm, vvy);
    ProductPositive(m, m, mm);
    CancelSum(rrx, rry, mm, vvx, vvy);
  }

  /** Dividing and multiplying back by the same non-zero number cancels. */
  lemma DivisionCancels(a: real, b: real)
    requires b != 0.0
    ensures (a / b) * b == a
  {
  }

  /** Negating both sides of a quotient does not change it. */
  lemma QuotientOfNegations(a: real, b: real)
    requires b != 0.0
    ensures (-a) / (-b) == a / b
  {
  }

  /** If the line of slope `m` passes through `(x1, y1)` and rises by
      `y1 - y2` over `x1 - x2`, it meets the y axis at the same height from
      `(x2, y2)` as from `(x1, y1)`. */
  lemma LineThroughTwoPoints(m: real, x1: real, y1: real, x2: real, y2: real, mx1: real, mx2: real)
    requires m * (x1 - x2) == y1 - y2
    requires mx1 == m * x1 && mx2 == m * x2
    ensures y2 - mx2 == y1 - mx1
  {
    assert m * (x1 - x2) == mx1 - mx2;
  }

  /** A number whose square is below the square of a non-negative bound lies
      strictly between the bound and its negation. */
  lemma SquareBelowBound(d: real, r: real, dd: real, rr: real)
    requires !(r < 0.0) && dd == d * d && rr == r * r && dd < rr
    ensures -r < d && d < r
  {
    if d < 0.0 {
      var nd := (-d) * (-d);
      SquareOfNeg(d, dd, nd);
      SquareLess(-d, r, nd, rr);
    } else {
      SquareLess(d, r, dd, rr);
    }
  }

  /** A number no further from zero than another, on the same side, has a
      square no larger. */
  lemma SquareOfSmaller(a: real, b: real, aa: real, bb: real)
    requires (!(a < 0.0) && !(b < a)) || (!(0.0 < a) && !(a < b))
    requires aa == a * a && bb == b * b
    ensures !(bb < aa)
  {
    if !(a < 0.0) && !(b < a) {
      SquareLess(a, b, aa, bb);
    } else {
      var na, nb := (-a) * (-a), (-b) * (-b);
      SquareOfNeg(a, aa, na);
      SquareOfNeg(b, bb, nb);
      SquareLess(-b, -a, nb, na);
    }
  }

  /** Products of non-negative numbers grow with their factors. */
  lemma ProductMonotone(a: real, b: real, c: real, d: real, ab: real, cd: real)
    requires !(c < 0.0) && !(d < 0.0) && !(a < c) && !(b < d)
    requires ab == a * b && cd == c * d
    ensures !(ab < cd)
  {
    var cb := c * b;
    if d < b && 0.0 < c {
      ProductLess(d, b, c, cd, cb);
    }
    if c < a && 0.0 < b {
      ProductLess(c, a, b, cb, ab);
    }
  }

  /** A point on the line `y = m * x + b` is collinear with two other points
      of that line: the cross product of their differences is zero. */
  lemma CollinearOnLine(m: real, b: real, px: real, py: real, sx: real, sy: real, ex: real, ey: real)
    requires py == m * px + b && sy == m * sx + b && ey == m * ex + b
    ensures (px - sx) * (ey - sy) - (py - sy) * (ex - sx) == 0.0
  {
    var u, v := px - sx, ex - sx;
    assert ey - sy == m * v;
    assert py - sy == m * u;
    assert u * (m * v) == (m * u) * v;
  }

  /** On a line, the height at an abscissa between two others lies between
      the heights at those two. */
  lemma LinearBetween(m: real, b: real, lo: real, hi: real, x: real)
    requires lo <= x <= hi
    ensures (m * lo + b <= m * x + b <= m * hi + b) || (m * hi + b <= m * x + b <= m * lo + b)
  {
    if 0.0 < m {
      if lo < x {
        ProductLess(lo, x, m, lo * m, x * m);
      }
      if x < hi {
        ProductLess(x, hi, m, x * m, hi * m);
      }
    } else if m < 0.0 {
      var n := -m;
      if lo < x {
        ProductLess(lo, x, n, lo * n, x * n);
        assert lo * n == -(m * lo) && x * n == -(m * x);
      }
      if x < hi {
        ProductLess(x, hi, n, x * n, hi * n);
        assert hi * n == -(m * hi) && x * n == -(m * x);
      }
    }
  }

  /** Of three points on one line, the one whose abscissa lies between the
      other two abscissas also has its height between theirs. */
  lemma BetweenOnLine(m: real, b: real, sx: real, sy: real, ex: real, ey: real, px: real, py: real)
    requires sy == m * sx + b && ey == m * ex + b && py == m * px + b
    requires (sx <= px <= ex) || (ex <= px <= sx)
    ensures (sy <= py <= ey) || (ey <= py <= sy)
  {
    if sx <= px <= ex {
      LinearBetween(m, b, sx, ex, px);
    } else {
      LinearBetween(m, b, ex, sx, px);
    }
  }

  /** Two lines of different slopes meet where `x` is the difference of the
      intercepts over the difference of the slopes. */
  lemma MeetingPoint(m1: real, b1: real, m2: real, b2: real)
    requires m1 != m2
    ensures m1 * ((b2 - b1) / (m1 - m2)) + b1 == m2 * ((b2 - b1) / (m1 - m2)) + b2
  {
    var x := (b2 - b1) / (m1 - m2);
    DivisionCancels(b2 - b1, m1 - m2);
    assert x * (m1 - m2) == m1 * x - m2 * x;
  }

  /** A rise over a non-zero run along the line of slope `m` has ratio `m`. */
  lemma SlopeOfLine(v: real, m: real, b: real, sx: real, ex: real)
    requires sx != ex
    requires v * (sx - ex) == (m * sx + b) - (m * ex + b)
    ensures v == m
  {
    var d := sx - ex;
    assert (m * sx + b) - (m * ex + b) == m * d;
    assert v == (v * d) / d;
  }
}
