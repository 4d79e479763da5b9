/**
 * The brute-force search for four collinear points: every increasing
 * quadruple of indices p < q < r < s is tried, and when the slopes from
 * point p to q, r and s are all equal, the segment from point p to point s
 * is recorded.
 *
 * Before the search, the input is validated: a null array or a null
 * element throws NullPointerException, and the same Point object at two
 * positions throws IllegalArgumentException. Thrown exceptions are `Fail`
 * or `Failure` results. algs4's LineSegment is the datatype Segment.
 */
module BruteCollinear {
  import opened Wrappers
  import opened Points

  /** A LineSegment between two points. */
  datatype Segment = Segment(p: Point, q: Point)

  /** Indices of four points, p < q < r < s. */
  type Quad = (nat, nat, nat, nat)

  predicate Increasing(t: Quad, n: nat) {
    t.0 < t.1 < t.2 < t.3 < n
  }

  /** The test of the innermost loop: the slopes from a[p] to a[q], a[r] and a[s] agree. */
  predicate Aligned(a: seq<Point>, t: Quad)
    requires t.0 < |a| && t.1 < |a| && t.2 < |a| && t.3 < |a|
  {
    a[t.0].SlopeTo(a[t.1]) == a[t.0].SlopeTo(a[t.2]) && a[t.0].SlopeTo(a[t.1]) == a[t.0].SlopeTo(a[t.3])
  }

  /** The segments line up with the quadruples: from point p to point s of each. */
  predicate Describes(a: seq<Point>, quads: seq<Quad>, segments: seq<Segment>) {
    |segments| == |quads| &&
    forall i :: 0 <= i < |quads| ==>
      quads[i].0 < |a| && quads[i].3 < |a| && segments[i] == Segment(a[quads[i].0], a[quads[i].3])
  }

  /* The order in which the loops record them. */

  /** Lexicographic order on quadruples. */
  predicate QuadLess(t: Quad, u: Quad) {
    t.0 < u.0 ||
    (t.0 == u.0 && (t.1 < u.1 || (t.1 == u.1 && (t.2 < u.2 || (t.2 == u.2 && t.3 < u.3)))))
  }

  predicate Sorted(qs: seq<Quad>) {
    forall i, j {:trigger QuadLess(qs[i], qs[j])} :: 0 <= i < j < |qs| ==> QuadLess(qs[i], qs[j])
  }

  /** Each quadruple comes before the next one. */
  predicate Chain(qs: seq<Quad>) {
    forall i :: 0 < i < |qs| ==> QuadLess(qs[i - 1], qs[i])
  }

  /** The last quadruple of xs comes before the first of ys. */
  predicate Joins(xs: seq<Quad>, ys: seq<Quad>) {
    xs == [] || ys == [] || QuadLess(xs[|xs| - 1], ys[0])
  }

  /** Two chains that join make a chain. */
  lemma ChainAppend(xs: seq<Quad>, ys: seq<Quad>, zs: seq<Quad>)
    requires Chain(xs) && Chain(ys) && Joins(xs, ys) && zs == xs + ys
    ensures Chain(zs)
  {
    forall i | 0 < i < |zs|
      ensures QuadLess(zs[i - 1], zs[i])
    {
      if i < |xs| {
        assert zs[i - 1] == xs[i - 1] && zs[i] == xs[i];
      } else if i == |xs| {
        assert zs[i - 1] == xs[i - 1] && zs[i] == ys[0];
      } else {
        assert zs[i - 1] == ys[i - 1 - |xs|] && zs[i] == ys[i - |xs|];
      }
    }
  }

  /** A chain is sorted, since QuadLess is transitive. */
  lemma {:induction false} ChainSorted(qs: seq<Quad>)
    requires Chain(qs)
    ensures Sorted(qs)
    decreases |qs|
  {
    if |qs| > 1 {
      var init := qs[..|qs| - 1];
      assert Chain(init) by {
        forall i | 0 < i < |init|
          ensures QuadLess(init[i - 1], init[i])
        {
          assert init[i - 1] == qs[i - 1] && init[i] == qs[i];
        }
      }
      ChainSorted(init);
      forall i, j | 0 <= i < j < |qs|
        ensures QuadLess(qs[i], qs[j])
      {
        if j < |qs| - 1 {
          assert QuadLess(init[i], init[j]);
        } else if i < |qs| - 2 {
          assert QuadLess(init[i], init[|qs| - 2]);
          assert QuadLess(qs[|qs| - 2], qs[|qs| - 1]);
        }
      }
    }
  }

  /* What the slope test means geometrically. */

  /** Twice the signed area of the triangle p, q, r, in exact integers. */
  function Cross(p: Point, q: Point, r: Point): int {
    (q.x as int - p.x as int) * (r.y as int - p.y as int) - (r.x as int - p.x as int) * (q.y as int - p.y as int)
  }

  /** The differences slopeTo computes from p to q do not overflow an int. */
  predicate NoOverflow(p: Point, q: Point) {
    -0x8000_0000 <= q.x as int - p.x as int < 0x8000_0000 &&
    -0x8000_0000 <= q.y as int - p.y as int < 0x8000_0000
  }

  /** Where the slopes do not overflow and q, r differ from p, equal slopes from p mean p, q, r are collinear. */
  lemma SameSlopeIffCollinear(p: Point, q: Point, r: Point)
    requires NoOverflow(p, q) && NoOverflow(p, r)
    requires (q.x, q.y) != (p.x, p.y) && (r.x, r.y) != (p.x, p.y)
    ensures p.SlopeTo(q) == p.SlopeTo(r) <==> Cross(p, q, r) == 0
  {
    SlopeToExact(p, q);
    SlopeToExact(p, r);
    var dx1, dy1 := q.x as int - p.x as int, q.y as int - p.y as int;
    var dx2, dy2 := r.x as int - p.x as int, r.y as int - p.y as int;
    SameSlopeIffParallel(dx1, dy1, dx2, dy2);
  }

  /** A recorded quadruple of points apart from the first one lies on one line. */
  lemma AlignedIffCollinear(a: seq<Point>, t: Quad)
    requires Increasing(t, |a|)
    requires NoOverflow(a[t.0], a[t.1]) && NoOverflow(a[t.0], a[t.2]) && NoOverflow(a[t.0], a[t.3])
    requires (a[t.1].x, a[t.1].y) != (a[t.0].x, a[t.0].y)
    requires (a[t.2].x, a[t.2].y) != (a[t.0].x, a[t.0].y)
    requires (a[t.3].x, a[t.3].y) != (a[t.0].x, a[t.0].y)
    ensures Aligned(a, t) <==> Cross(a[t.0], a[t.1], a[t.2]) == 0 && Cross(a[t.0], a[t.1], a[t.3]) == 0
  {
    SameSlopeIffCollinear(a[t.0], a[t.1], a[t.2]);
    SameSlopeIffCollinear(a[t.0], a[t.1], a[t.3]);
  }

  /** A point equal in coordinates to the first counts as aligned only with others equal to it too. */
  lemma AlignedWithCoincident(a: seq<Point>, t: Quad)
    requires Increasing(t, |a|)
    requires (a[t.1].x, a[t.1].y) == (a[t.0].x, a[t.0].y)
    ensures Aligned(a, t) <==>
              (a[t.2].x, a[t.2].y) == (a[t.0].x, a[t.0].y) && (a[t.3].x, a[t.3].y) == (a[t.0].x, a[t.0].y)
  {
  }

  /* validateInput. */

  /**
   * The checks of validateInput from position i on, in the order the loops
   * make them: a null at i, then the same object at i and at some j with
   * i < j < limit, then the positions after i.
   */
  function Scan(ps: seq<Point?>, i: nat, limit: int): (o: Outcome)
    requires limit <= |ps|
    ensures o == Pass || o == Fail(NullPointer) || o == Fail(IllegalArgument)
    decreases |ps| - i
  {
    if i >= |ps| then Pass
    else if ps[i] == null then Fail(NullPointer)
    else if exists j :: i < j < limit && ps[i] == ps[j] then Fail(IllegalArgument)
    else Scan(ps, i + 1, limit)
  }

  /** validateInput as written: the inner loop stops one short, at length - 1. */
  function Validate(ps: seq<Point?>): Outcome {
    Scan(ps, 0, |ps| - 1)
  }

  /** validateInput as evidently intended: every later position is compared. */
  function ValidateIntended(ps: seq<Point?>): Outcome {
    Scan(ps, 0, |ps|)
  }

  lemma {:induction false} ScanPasses(ps: seq<Point?>, i: nat, limit: int)
    requires limit <= |ps|
    ensures Scan(ps, i, limit) == Pass <==>
              (forall k :: i <= k < |ps| ==> ps[k] != null) &&
              (forall k, j :: i <= k < j < limit ==> ps[k] != ps[j])
    decreases |ps| - i
  {
    if i < |ps| {
      ScanPasses(ps, i + 1, limit);
    }
  }

  /** As written, validation passes exactly when there is no null and no repeat among the first length - 1 positions. */
  lemma ValidatePasses(ps: seq<Point?>)
    ensures Validate(ps) == Pass <==>
              (forall k :: 0 <= k < |ps| ==> ps[k] != null) &&
              (forall k, j :: 0 <= k < j < |ps| - 1 ==> ps[k] != ps[j])
  {
    ScanPasses(ps, 0, |ps| - 1);
  }

  /** As intended, validation passes exactly when there is no null and every position holds a different object. */
  lemma ValidateIntendedPasses(ps: seq<Point?>)
    ensures ValidateIntended(ps) == Pass <==>
              (forall k :: 0 <= k < |ps| ==> ps[k] != null) &&
              (forall k, j :: 0 <= k < j < |ps| ==> ps[k] != ps[j])
  {
    ScanPasses(ps, 0, |ps|);
  }

  /** As written, a point repeated at the last position goes unnoticed: [a, a] passes. */
  lemma RepeatAtEndPasses(a: Point)
    ensures Validate([a, a]) == Pass
    ensures ValidateIntended([a, a]) == Fail(IllegalArgument)
  {
    ValidatePasses([a, a]);
    assert [a, a][0] == [a, a][1];
  }

  /** validateInput: a null array throws NullPointerException; otherwise the checks of Validate, in its order. */
  method ValidateInput(points: array?<Point?>) returns (o: Outcome)
    ensures points == null ==> o == Fail(NullPointer)
    ensures points != null ==> o == Validate(points[..])
  {
    if points == null {
      return Fail(NullPointer);
    }
    ghost var ps := points[..];
    var i := 0;
    while i < points.Length
      invariant 0 <= i <= points.Length
      invariant Validate(ps) == Scan(ps, i, points.Length - 1)
    {
      if points[i] == null {
        return Fail(NullPointer);
      }
      var j := i + 1;
      while j < points.Length - 1
        invariant i + 1 <= j
        invariant forall k :: i < k < j && k < points.Length - 1 ==> points[i] != points[k]
      {
        if points[i] == points[j] {
          return Fail(IllegalArgument);
        }
        j := j + 1;
      }
      i := i + 1;
    }
    return Pass;
  }

  /*
   * The search. Each of the four nested loops is a method here, and each
   * returns the segments it records together with the quadruples of indices
   * (p, q, r, s) they come from: exactly the aligned ones within its range,
   * in lexicographic order.
   */

  class BruteCollinearPoints {
    const points: seq<Point>
    const lineSegments: seq<Segment>
    ghost const quads: seq<Quad>

    /**
     * The segments come from the quadruples, which are exactly the
     * increasing aligned ones, in lexicographic order.
     */
    ghost predicate Valid() {
      Describes(points, quads, lineSegments) && Sorted(quads) &&
      forall t :: t in quads <==> Increasing(t, |points|) && Aligned(points, t)
    }

    /** The search itself, on a validated copy of the input: the outer loop over p. */
    constructor (points: seq<Point>)
      ensures this.points == points && Valid()
    {
      var a := points;
      var found: seq<Segment> := [];
      ghost var hits: seq<Quad> := [];
      for p := 0 to |a|
        invariant Describes(a, hits, found) && Chain(hits)
        invariant forall t :: t in hits <==> t.0 < p && Increasing(t, |a|) && Aligned(a, t)
      {
        var more: seq<Segment>;
        ghost var moreHits: seq<Quad>;
        more, moreHits := SearchQ(a, p);
        assert Joins(hits, moreHits) by {
          if hits != [] && moreHits != [] {
            assert hits[|hits| - 1] in hits && moreHits[0] in moreHits;
          }
        }
        ChainAppend(hits, moreHits, hits + moreHits);
        DescribesAppend(a, hits, found, moreHits, more);
        found, hits := found + more, hits + moreHits;
      }
      ChainSorted(hits);
      this.points := a;
      lineSegments := found;
      quads := hits;
    }

    /** numberOfSegments: one per recorded quadruple. */
    function NumberOfSegments(): (k: nat)
      requires Valid()
      ensures k == |quads|
    {
      |lineSegments|
    }

    /** segments: a fresh array of the segments, in the order they were found. */
    method Segments() returns (segments: array<Segment>)
      requires Valid()
      ensures fresh(segments) && segments[..] == lineSegments
    {
      segments := new Segment[|lineSegments|](i requires 0 <= i < |lineSegments| => lineSegments[i]);
    }
  }

  /** Segments and quadruples that line up still line up when both are extended. */
  lemma DescribesAppend(a: seq<Point>, q1: seq<Quad>, s1: seq<Segment>, q2: seq<Quad>, s2: seq<Segment>)
    requires Describes(a, q1, s1) && Describes(a, q2, s2)
    ensures Describes(a, q1 + q2, s1 + s2)
  {
    forall i | 0 <= i < |q1 + q2|
      ensures (q1 + q2)[i].0 < |a| && (q1 + q2)[i].3 < |a|
      ensures (s1 + s2)[i] == Segment(a[(q1 + q2)[i].0], a[(q1 + q2)[i].3])
    {
      if i >= |q1| {
        assert (q1 + q2)[i] == q2[i - |q1|] && (s1 + s2)[i] == s2[i - |q1|];
      }
    }
  }

  /** The second loop of the search, for one p: q from p + 1 to the end. */
  method SearchQ(a: seq<Point>, p: nat) returns (found: seq<Segment>, ghost hits: seq<Quad>)
    requires p < |a|
    ensures Describes(a, hits, found) && Chain(hits)
    ensures forall i :: 0 <= i < |found| ==> found[i].p == a[p]
    ensures forall t :: t in hits <==> t.0 == p && Increasing(t, |a|) && Aligned(a, t)
  {
    found, hits := [], [];
    for q := p + 1 to |a|
      invariant Describes(a, hits, found) && Chain(hits)
      invariant forall t :: t in hits <==> t.0 == p && t.1 < q && Increasing(t, |a|) && Aligned(a, t)
    {
      var more: seq<Segment>;
      ghost var moreHits: seq<Quad>;
      more, moreHits := SearchR(a, p, q);
      assert Joins(hits, moreHits) by {
        if hits != [] && moreHits != [] {
          assert hits[|hits| - 1] in hits && moreHits[0] in moreHits;
        }
      }
      ChainAppend(hits, moreHits, hits + moreHits);
      DescribesAppend(a, hits, found, moreHits, more);
      found, hits := found + more, hits + moreHits;
    }
  }

  /** The third loop, for one p and q: r from q + 1 to the end. */
  method SearchR(a: seq<Point>, p: nat, q: nat) returns (found: seq<Segment>, ghost hits: seq<Quad>)
    requires p < q < |a|
    ensures Describes(a, hits, found) && Chain(hits)
    ensures forall i :: 0 <= i < |found| ==> found[i].p == a[p]
    ensures forall t :: t in hits <==> t.0 == p && t.1 == q && Increasing(t, |a|) && Aligned(a, t)
  {
    found, hits := [], [];
    for r := q + 1 to |a|
      invariant Describes(a, hits, found) && Chain(hits)
      invariant forall t :: t in hits <==> t.0 == p && t.1 == q && t.2 < r && Increasing(t, |a|) && Aligned(a, t)
    {
      var more: seq<Segment>;
      ghost var moreHits: seq<Quad>;
      more, moreHits := SearchS(a, p, q, r);
      assert Joins(hits, moreHits) by {
        if hits != [] && moreHits != [] {
          assert hits[|hits| - 1] in hits && moreHits[0] in moreHits;
        }
      }
      ChainAppend(hits, moreHits, hits + moreHits);
      DescribesAppend(a, hits, found, moreHits, more);
      found, hits := found + more, hits + moreHits;
    }
  }

  /**
   * The innermost loop, for one p, q and r: s from r + 1 to the end,
   * recording the segment from a[p] to a[s] when the slopes agree.
   */
  method SearchS(a: seq<Point>, p: nat, q: nat, r: nat) returns (found: seq<Segment>, ghost hits: seq<Quad>)
    requires p < q < r < |a|
    ensures Describes(a, hits, found) && Chain(hits)
    ensures forall i :: 0 <= i < |found| ==> found[i].p == a[p]
    ensures forall t :: t in hits <==> t.0 == p && t.1 == q && t.2 == r && Increasing(t, |a|) && Aligned(a, t)
  {
    found, hits := [], [];
    for s := r + 1 to |a|
      invariant Describes(a, hits, found) && Chain(hits)
      invariant forall t :: t in hits <==> t.0 == p && t.1 == q && t.2 == r && t.3 < s && Increasing(t, |a|) && Aligned(a, t)
    {
      if a[p].SlopeTo(a[q]) == a[p].SlopeTo(a[r]) && a[p].SlopeTo(a[q]) == a[p].SlopeTo(a[s]) {
        assert Joins(hits, [(p, q, r, s)]) by {
          if hits != [] {
            assert hits[|hits| - 1] in hits;
          }
        }
        ChainAppend(hits, [(p, q, r, s)], hits + [(p, q, r, s)]);
        found := found + [Segment(a[p], a[s])];
        hits := hits + [(p, q, r, s)];
      }
    }
  }

  /**
   * The segments of a finished search: the i-th runs from point p to point
   * s of an increasing aligned quadruple, no quadruple is recorded twice,
   * and every aligned quadruple has its segment.
   */
  lemma SegmentsFound(b: BruteCollinearPoints)
    requires b.Valid()
    ensures forall i :: 0 <= i < |b.lineSegments| ==>
              Increasing(b.quads[i], |b.points|) && Aligned(b.points, b.quads[i]) &&
              b.lineSegments[i] == Segment(b.points[b.quads[i].0], b.points[b.quads[i].3])
    ensures forall i, j :: 0 <= i < j < |b.quads| ==> b.quads[i] != b.quads[j]
    ensures forall t :: Increasing(t, |b.points|) && Aligned(b.points, t) ==>
              exists i :: 0 <= i < |b.quads| && b.quads[i] == t
  {
    forall i | 0 <= i < |b.lineSegments|
      ensures Increasing(b.quads[i], |b.points|) && Aligned(b.points, b.quads[i])
    {
      assert b.quads[i] in b.quads;
    }
    forall i, j | 0 <= i < j < |b.quads|
      ensures b.quads[i] != b.quads[j]
    {
      assert QuadLess(b.quads[i], b.quads[j]);
    }
    forall t | Increasing(t, |b.points|) && Aligned(b.points, t)
      ensures exists i :: 0 <= i < |b.quads| && b.quads[i] == t
    {
      assert t in b.quads;
    }
  }

  /**
   * new BruteCollinearPoints(points): a failed validation throws its
   * exception; otherwise the search runs on a copy of the points.
   */
  method Create(points: array?<Point?>) returns (r: Result<BruteCollinearPoints>)
    ensures points == null ==> r == Failure(NullPointer)
    ensures points != null && Validate(points[..]).Fail? ==> r == Failure(Validate(points[..]).error)
    ensures points != null && Validate(points[..]) == Pass ==>
              r.Success? && fresh(r.value) && r.value.Valid() &&
              |r.value.points| == points.Length &&
              forall i :: 0 <= i < points.Length ==> points[i] == r.value.points[i]
  {
    var o := ValidateInput(points);
    if o.Fail? {
      return Failure(o.error);
    }
    ValidatePasses(points[..]);
    var copy: seq<Point> := [];
    for i := 0 to points.Length
      invariant |copy| == i && forall k :: 0 <= k < i ==> points[k] == copy[k]
    {
      copy := copy + [points[i]];
    }
    var b := new BruteCollinearPoints(copy);
    return Success(b);
  }
}
