/**
 * The brute-force oracle (PointSET.java): an ordered set of points answering
 * range and nearest-neighbour queries by a linear scan. The algs4 SET it
 * wraps is modelled by its contents listed in iteration order, which is
 * ascending Point2D order (y, then x) without repeats.
 */
module PointSet {
  import opened Geometry
  import opened Wrappers

  /** Strictly ascending in Point2D order: the iteration order of an algs4 SET. */
  ghost predicate Sorted(s: seq<Point2D>) {
    forall i, j :: 0 <= i < j < |s| ==> Less(s[i], s[j])
  }

  /** The elements of a listing. */
  ghost function Elements(s: seq<Point2D>): set<Point2D> {
    set x | x in s
  }

  /** A listing in strictly ascending order has no repeats, so its length is its number of elements. */
  lemma {:induction false} SortedCardinality(s: seq<Point2D>)
    requires Sorted(s)
    ensures |Elements(s)| == |s|
  {
    if s != [] {
      SortedCardinality(s[1..]);
      forall k | 1 <= k < |s| ensures s[k] != s[0] {
        assert Less(s[0], s[k]);
        LessIsStrictTotalOrder(s[0], s[k], s[k]);
      }
      assert s[0] !in Elements(s[1..]);
      assert Elements(s) == {s[0]} + Elements(s[1..]);
    }
  }

  /** SET.add: the point goes to its place in the order; one already present changes nothing. */
  function Add(s: seq<Point2D>, p: Point2D): (r: seq<Point2D>)
    requires Sorted(s)
    ensures Sorted(r)
    ensures Elements(r) == Elements(s) + {p}
    ensures p in s ==> r == s
  {
    if s == [] then [p]
    else if Less(p, s[0]) then
      forall j | 0 < j < |s| ensures Less(p, s[j]) {
        LessIsStrictTotalOrder(p, s[0], s[j]);
      }
      [p] + s
    else if p == s[0] then s
    else
      var rest := Add(s[1..], p);
      LessIsStrictTotalOrder(p, s[0], p);
      assert Less(s[0], p);
      forall j | 0 <= j < |rest| ensures Less(s[0], rest[j]) {
        assert rest[j] in Elements(rest);
        if rest[j] != p {
          assert rest[j] in Elements(s[1..]);
        }
      }
      assert Elements(s) == {s[0]} + Elements(s[1..]);
      [s[0]] + rest
  }

  /** The points of a listing that a rectangle contains, in listing order. */
  function Within(s: seq<Point2D>, rect: RectHV): (r: seq<Point2D>)
    ensures forall x :: x in r <==> x in s && Contains(rect, x)
    ensures Sorted(s) ==> Sorted(r)
    ensures |r| <= |s|
  {
    if s == [] then []
    else
      var init := Within(s[..|s| - 1], rect);
      var last := s[|s| - 1];
      assert forall x :: x in s <==> x in s[..|s| - 1] || x == last;
      assert Sorted(s) ==> forall j :: 0 <= j < |init| ==> Less(init[j], last) by {
        if Sorted(s) {
          forall j | 0 <= j < |init| ensures Less(init[j], last) {
            assert init[j] in s[..|s| - 1];
          }
        }
      }
      init + (if Contains(rect, last) then [last] else [])
  }

  /** PointSET: the set of points held in an algs4 SET. */
  class PointSET {
    var pointSet: seq<Point2D>

    ghost predicate Valid()
      reads this
    {
      Sorted(pointSet)
    }

    /** An empty set of points. */
    constructor ()
      ensures Valid() && pointSet == []
    {
      pointSet := [];
    }

    /** isEmpty: no point is stored. */
    function IsEmpty(): (b: bool)
      reads this
      ensures b <==> Elements(pointSet) == {}
    {
      assert pointSet != [] ==> pointSet[0] in Elements(pointSet);
      |pointSet| == 0
    }

    /** size: the number of distinct points stored. */
    function Size(): (n: nat)
      reads this
      requires Valid()
      ensures n == |Elements(pointSet)|
    {
      SortedCardinality(pointSet);
      |pointSet|
    }

    /** insert: the set gains exactly `p`; a point already present leaves it unchanged. */
    method Insert(p: Point2D)
      requires Valid()
      modifies this
      ensures Valid()
      ensures pointSet == Add(old(pointSet), p)
      ensures Elements(pointSet) == Elements(old(pointSet)) + {p}
      ensures p in old(pointSet) ==> pointSet == old(pointSet)
    {
      pointSet := Add(pointSet, p);
    }

    /** contains: membership by value. */
    function Contains(p: Point2D): (b: bool)
      reads this
      ensures b <==> p in Elements(pointSet)
    {
      p in pointSet
    }

    /** range: every stored point the rectangle contains, in the set's iteration order. */
    method Range(rect: RectHV) returns (q: seq<Point2D>)
      requires Valid()
      ensures q == Within(pointSet, rect)
      ensures forall x :: x in q <==> x in pointSet && Geometry.Contains(rect, x)
      ensures Sorted(q)
    {
      q := [];
      for i := 0 to |pointSet|
        invariant q == Within(pointSet[..i], rect)
      {
        assert pointSet[..i + 1][..i] == pointSet[..i];
        if Geometry.Contains(rect, pointSet[i]) {
          q := q + [pointSet[i]];
        }
      }
      assert pointSet[..|pointSet|] == pointSet;
    }

    /**
     * nearest: null on an empty set; otherwise a stored point of least
     * squared distance to `p`, the first such in iteration order because a
     * later point replaces the best only when strictly closer.
     */
    method Nearest(p: Point2D) returns (r: Option<Point2D>)
      requires Valid()
      ensures r.None? <==> pointSet == []
      ensures r.Some? ==> r.value in pointSet
      ensures r.Some? ==> forall x :: x in pointSet ==> DistanceSquared(r.value, p) <= DistanceSquared(x, p)
      ensures r.Some? ==>
                exists k :: 0 <= k < |pointSet| && pointSet[k] == r.value &&
                  (forall j :: 0 <= j < k ==> DistanceSquared(pointSet[j], p) > DistanceSquared(r.value, p))
    {
      if IsEmpty() {
        return None;
      }
      var minPoint: Option<Point2D> := None;
      ghost var k := 0;
      for i := 0 to |pointSet|
        invariant minPoint.None? <==> i == 0
        invariant minPoint.Some? ==> 0 <= k < i && pointSet[k] == minPoint.value
        invariant minPoint.Some? ==>
                    forall j :: 0 <= j < i ==> DistanceSquared(minPoint.value, p) <= DistanceSquared(pointSet[j], p)
        invariant minPoint.Some? ==>
                    forall j :: 0 <= j < k ==> DistanceSquared(pointSet[j], p) > DistanceSquared(minPoint.value, p)
      {
        var point := pointSet[i];
        if minPoint.None? || DistanceSquared(point, p) < DistanceSquared(minPoint.value, p) {
          minPoint := Some(point);
          k := i;
        }
      }
      r := minPoint;
    }
  }
}
