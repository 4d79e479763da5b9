/**
 * Cross-validation of the 2-d tree against the brute-force oracle: both are
 * fed the same sequence of points, then asked the same range and
 * nearest-neighbour queries.
 */
module KdEquivalence {
  import opened Geometry
  import opened Wrappers
  import opened TwoDTree
  import opened PointSet

  /** The tree left by inserting `ps` in order into an empty KdTree. */
  function BuildTree(ps: seq<Point2D>): Tree {
    if ps == [] then Nil
    else PutTree(BuildTree(ps[..|ps| - 1]), ps[|ps| - 1], UnitSquare, 0)
  }

  /** The listing left by inserting `ps` in order into an empty PointSET. */
  function BuildSet(ps: seq<Point2D>): (s: seq<Point2D>)
    ensures Sorted(s)
    ensures Elements(s) == Elements(ps)
  {
    if ps == [] then []
    else
      var init := ps[..|ps| - 1];
      assert Elements(ps) == Elements(init) + {ps[|ps| - 1]};
      Add(BuildSet(init), ps[|ps| - 1])
  }

  /** No two distinct points share an x or a y coordinate. */
  ghost predicate GeneralPosition(ps: seq<Point2D>) {
    forall i, j :: 0 <= i < |ps| && 0 <= j < |ps| && ps[i] != ps[j] ==>
      ps[i].x != ps[j].x && ps[i].y != ps[j].y
  }

  /**
   * Whatever was inserted, the tree is a search tree cut along its split
   * lines, holds only inserted points, and `contains` holds for every point
   * inserted so far.
   */
  lemma {:induction false} BuildTreeFacts(ps: seq<Point2D>)
    ensures Ordered(BuildTree(ps), 0)
    ensures Partitioned(BuildTree(ps), UnitSquare, 0)
    ensures Points(BuildTree(ps)) <= Elements(ps)
    ensures forall p :: p in ps ==> Get(BuildTree(ps), p, 0).Some?
  {
    if ps != [] {
      var init := ps[..|ps| - 1];
      var last := ps[|ps| - 1];
      var t := BuildTree(init);
      BuildTreeFacts(init);
      PutKeepsOrdered(t, last, UnitSquare, 0);
      PutKeepsPartitioned(t, last, UnitSquare, 0);
      assert Elements(ps) == Elements(init) + {last};
      forall p | p in ps ensures Get(BuildTree(ps), p, 0).Some? {
        if p != last {
          assert p in init;
          GetSurvivesPut(t, p, last, UnitSquare, 0);
        }
      }
    }
  }

  lemma GeneralPositionPrefix(ps: seq<Point2D>, k: nat)
    requires GeneralPosition(ps) && k <= |ps|
    ensures GeneralPosition(ps[..k])
  {
    forall i, j | 0 <= i < k && 0 <= j < k && ps[..k][i] != ps[..k][j]
      ensures ps[..k][i].x != ps[..k][j].x && ps[..k][i].y != ps[..k][j].y
    {
      assert ps[..k][i] == ps[i] && ps[..k][j] == ps[j];
    }
  }

  lemma TieMeansSame(ps: seq<Point2D>, i: nat, j: nat)
    requires GeneralPosition(ps) && i < |ps| && j < |ps|
    requires ps[i].x == ps[j].x || ps[i].y == ps[j].y
    ensures ps[i] == ps[j]
  {
  }

  /** An insertion that meets no tie with a different point leaves the new point stored. */
  lemma PutWithoutTie(t: Tree, p: Point2D)
    requires forall q :: q in Points(t) && (q.x == p.x || q.y == p.y) ==> q == p
    ensures Points(PutTree(t, p, UnitSquare, 0)) == Points(t) + {p}
  {
  }

  lemma ElementsOfSnoc(ps: seq<Point2D>)
    requires ps != []
    ensures Elements(ps) == Elements(ps[..|ps| - 1]) + {ps[|ps| - 1]}
  {
    assert ps == ps[..|ps| - 1] + [ps[|ps| - 1]];
  }

  /** In general position the last point ties no other earlier point. */
  lemma NoTieWithLast(ps: seq<Point2D>, s: set<Point2D>)
    requires GeneralPosition(ps) && ps != []
    requires s == Elements(ps[..|ps| - 1])
    ensures forall q :: q in s && (q.x == ps[|ps| - 1].x || q.y == ps[|ps| - 1].y) ==> q == ps[|ps| - 1]
  {
    forall q | q in s && (q.x == ps[|ps| - 1].x || q.y == ps[|ps| - 1].y) ensures q == ps[|ps| - 1] {
      var i :| 0 <= i < |ps| - 1 && ps[..|ps| - 1][i] == q;
      TieMeansSame(ps, i, |ps| - 1);
    }
  }

  /**
   * In general position no insertion is lost to a coordinate tie, so the
   * tree stores exactly the points the oracle stores.
   */
  lemma {:induction false} GeneralPositionKeepsAll(ps: seq<Point2D>)
    requires GeneralPosition(ps)
    ensures Points(BuildTree(ps)) == Elements(ps)
  {
    if ps != [] {
      var t := BuildTree(ps[..|ps| - 1]);
      GeneralPositionPrefix(ps, |ps| - 1);
      GeneralPositionKeepsAll(ps[..|ps| - 1]);
      NoTieWithLast(ps, Points(t));
      PutWithoutTie(t, ps[|ps| - 1]);
      ElementsOfSnoc(ps);
    }
  }

  /**
   * Without general position the tree still stores a subset of the oracle,
   * so its range answer is a subset of the oracle's.
   */
  lemma TreeRangeWithinOracle(ps: seq<Point2D>, rect: RectHV, x: Point2D)
    requires x in Points(BuildTree(ps)) && Contains(rect, x)
    ensures x in Within(BuildSet(ps), rect)
  {
    BuildTreeFacts(ps);
    assert x in Elements(BuildSet(ps));
  }

  /** The tree left by inserting `ps` in order with the intended insertion. */
  function BuildIntended(ps: seq<Point2D>): Tree {
    if ps == [] then Nil
    else PutIntended(BuildIntended(ps[..|ps| - 1]), ps[|ps| - 1], UnitSquare, 0)
  }

  /**
   * With the intended insertion the tree stores every inserted point once:
   * its number of nodes, the size counter, is the number of distinct points
   * inserted, and the intended search finds exactly those points.
   */
  lemma {:induction false} IntendedCountsDistinct(ps: seq<Point2D>)
    ensures OrderedRight(BuildIntended(ps), 0) && NoRepeats(BuildIntended(ps))
    ensures Points(BuildIntended(ps)) == Elements(ps)
    ensures Count(BuildIntended(ps)) == |Elements(ps)|
    ensures forall p :: GetIntended(BuildIntended(ps), p, 0) <==> p in ps
  {
    if ps != [] {
      var t := BuildIntended(ps[..|ps| - 1]);
      IntendedCountsDistinct(ps[..|ps| - 1]);
      PutIntendedKeepsInvariant(t, ps[|ps| - 1], UnitSquare, 0);
      ElementsOfSnoc(ps);
    }
    CountIsCardinality(BuildIntended(ps));
    forall p ensures GetIntended(BuildIntended(ps), p, 0) <==> p in ps {
      GetIntendedIffStored(BuildIntended(ps), p, 0);
      assert p in ps <==> p in Elements(ps);
    }
  }

  /**
   * As written, two distinct points that tie on x leave one node: size() is
   * 1 after two distinct insertions, where the intended insertion gives 2.
   */
  lemma SizeUndercountsTies()
    ensures var ps := [Point2D(0.5, 0.5), Point2D(0.5, 0.25)];
            && Count(BuildTree(ps)) == 1
            && |Elements(ps)| == 2
            && Count(BuildIntended(ps)) == 2
  {
    var ps := [Point2D(0.5, 0.5), Point2D(0.5, 0.25)];
    assert ps[..1] == [Point2D(0.5, 0.5)];
    assert ps[..1][..0] == [];
    assert Elements(ps) == {Point2D(0.5, 0.5), Point2D(0.5, 0.25)};
  }

  /** Insert the points, in order, into a fresh KdTree. */
  method BuildKdTree(ps: seq<Point2D>) returns (tree: KdTree)
    requires forall q :: q in ps ==> Contains(UnitSquare, q)
    ensures fresh(tree)
    ensures tree.Valid() && tree.root == BuildTree(ps)
  {
    tree := new KdTree();
    for i := 0 to |ps|
      invariant tree.Valid() && tree.root == BuildTree(ps[..i])
    {
      assert ps[..i + 1][..i] == ps[..i];
      assert ps[i] in ps;
      tree.Insert(ps[i]);
    }
    assert ps[..|ps|] == ps;
  }

  /** Insert the points, in order, into a fresh PointSET. */
  method BuildPointSet(ps: seq<Point2D>) returns (oracle: PointSET)
    ensures fresh(oracle)
    ensures oracle.Valid() && oracle.pointSet == BuildSet(ps)
  {
    oracle := new PointSET();
    for i := 0 to |ps|
      invariant oracle.Valid() && oracle.pointSet == BuildSet(ps[..i])
    {
      assert ps[..i + 1][..i] == ps[..i];
      oracle.Insert(ps[i]);
    }
    assert ps[..|ps|] == ps;
  }

  /** Insert the points, in order, into a fresh KdTree and a fresh PointSET. */
  method BuildBoth(ps: seq<Point2D>) returns (tree: KdTree, oracle: PointSET)
    requires forall q :: q in ps ==> Contains(UnitSquare, q)
    ensures fresh(tree) && fresh(oracle)
    ensures tree.Valid() && tree.root == BuildTree(ps)
    ensures oracle.Valid() && oracle.pointSet == BuildSet(ps)
  {
    tree := BuildKdTree(ps);
    oracle := BuildPointSet(ps);
  }

  /**
   * Drive a KdTree and a PointSET with the same insertions and compare their
   * answers: for points in the unit square in general position, the range
   * answers hold the same points and the nearest points are equally close.
   */
  method CrossValidate(ps: seq<Point2D>, rect: RectHV, p: Point2D)
    returns (kdRange: seq<Point2D>, setRange: seq<Point2D>,
             kdNearest: Option<Point2D>, setNearest: Option<Point2D>)
    requires forall q :: q in ps ==> Contains(UnitSquare, q)
    ensures GeneralPosition(ps) ==> (forall x :: x in kdRange <==> x in setRange)
    ensures kdNearest.None? <==> ps == []
    ensures setNearest.None? <==> ps == []
    ensures GeneralPosition(ps) && ps != [] ==>
              DistanceSquared(kdNearest.value, p) == DistanceSquared(setNearest.value, p)
  {
    var tree, oracle := BuildBoth(ps);
    kdRange := tree.Range(rect);
    setRange := oracle.Range(rect);
    kdNearest := tree.Nearest(p);
    setNearest := oracle.Nearest(p);
    BuildTreeFacts(ps);
    if ps != [] {
      assert ps[0] in Elements(ps);
      assert ps[0] in Elements(oracle.pointSet);
      assert Get(tree.root, ps[0], 0).Some?;
    }
    if GeneralPosition(ps) {
      GeneralPositionKeepsAll(ps);
      if ps != [] {
        var a, b := kdNearest.value, setNearest.value;
        assert b in Elements(oracle.pointSet);
        assert a in Elements(ps);
        assert DistanceSquared(a, p) <= DistanceSquared(b, p);
        assert DistanceSquared(b, p) <= DistanceSquared(a, p);
      }
    }
  }
}
