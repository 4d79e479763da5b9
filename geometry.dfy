/**
 * The two geometric value types of the algs4 library that the 2-d tree and
 * its brute-force oracle consume: an immutable point and an axis-aligned
 * rectangle with inclusive bounds. Coordinates are exact reals.
 */
module Geometry {

  datatype Point2D = Point2D(x: real, y: real)

  /** Point2D.compareTo: by y, ties broken by x; this is the iteration order of an algs4 SET. */
  predicate Less(a: Point2D, b: Point2D) {
    a.y < b.y || (a.y == b.y && a.x < b.x)
  }

  lemma LessIsStrictTotalOrder(a: Point2D, b: Point2D, c: Point2D)
    ensures !Less(a, a)
    ensures Less(a, b) && Less(b, c) ==> Less(a, c)
    ensures a != b ==> Less(a, b) || Less(b, a)
    ensures Less(a, b) ==> !Less(b, a)
  {
  }

  function Square(d: real): (s: real)
    ensures s >= 0.0
  {
    d * d
  }

  /** 0 <= a <= b implies a*a <= b*b. */
  lemma SquareMonotonic(a: real, b: real)
    requires 0.0 <= a <= b
    ensures Square(a) <= Square(b)
  {
    calc {
      a * a;
    <= a * b;
    <= b * b;
    }
  }

  /** Point2D.distanceSquaredTo. */
  function DistanceSquared(a: Point2D, b: Point2D): (d: real)
    ensures d >= 0.0
    ensures a == b ==> d == 0.0
  {
    Square(a.x - b.x) + Square(a.y - b.y)
  }

  /** RectHV(xmin, ymin, xmax, ymax). */
  datatype RectHV = RectHV(xmin: real, ymin: real, xmax: real, ymax: real)

  /** The check RectHV's constructor makes before it accepts its bounds. */
  predicate WellFormed(r: RectHV) {
    r.xmin <= r.xmax && r.ymin <= r.ymax
  }

  const UnitSquare := RectHV(0.0, 0.0, 1.0, 1.0)

  /** RectHV.contains: inclusive on all four sides. */
  predicate Contains(r: RectHV, p: Point2D) {
    r.xmin <= p.x <= r.xmax && r.ymin <= p.y <= r.ymax
  }

  /** RectHV.intersects: the projections overlap on both axes, touching included. */
  predicate Intersects(r: RectHV, s: RectHV) {
    r.xmax >= s.xmin && r.ymax >= s.ymin && s.xmax >= r.xmin && s.ymax >= r.ymin
  }

  /** Distance from a coordinate to the interval [lo, hi], signed as RectHV computes it. */
  function Gap(v: real, lo: real, hi: real): real {
    if v < lo then v - lo else if v > hi then v - hi else 0.0
  }

  /** RectHV.distanceSquaredTo: clamp each coordinate into the rectangle and sum the squared gaps. */
  function RectDistanceSquared(r: RectHV, p: Point2D): (d: real)
    ensures d >= 0.0
    ensures Contains(r, p) ==> d == 0.0
  {
    Square(Gap(p.x, r.xmin, r.xmax)) + Square(Gap(p.y, r.ymin, r.ymax))
  }

  /** A point shared by two rectangles makes them intersect. */
  lemma CommonPointIntersects(r: RectHV, s: RectHV, p: Point2D)
    requires Contains(r, p) && Contains(s, p)
    ensures Intersects(r, s) && Intersects(s, r)
  {
  }

  /** The gap from v to [lo, hi] is no longer than the distance from v to any w in [lo, hi]. */
  lemma GapBound(v: real, lo: real, hi: real, w: real)
    requires lo <= w <= hi
    ensures Square(Gap(v, lo, hi)) <= Square(v - w)
  {
    if v < lo {
      SquareMonotonic(lo - v, w - v);
      assert Square(Gap(v, lo, hi)) == Square(lo - v);
      assert Square(v - w) == Square(w - v);
    } else if v > hi {
      SquareMonotonic(v - hi, v - w);
    }
  }

  /**
   * The distance from p to a rectangle is a lower bound on its distance to
   * every point inside the rectangle: the fact behind the 2-d tree's pruning.
   */
  lemma RectDistanceIsLowerBound(r: RectHV, p: Point2D, q: Point2D)
    requires Contains(r, q)
    ensures RectDistanceSquared(r, p) <= DistanceSquared(p, q)
  {
    GapBound(p.x, r.xmin, r.xmax, q.x);
    GapBound(p.y, r.ymin, r.ymax, q.y);
  }
}
