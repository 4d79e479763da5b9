/**
 * The 2-d tree (KdTree.java): a binary search tree over points whose split
 * key alternates between x (even depth) and y (odd depth). Every node keeps
 * the rectangle it was inserted into; the root's is the unit square.
 *
 * Nodes are values owned by exactly one parent, so a node link that the
 * source rewrites in place is rebuilt here along the insertion path.
 */
module TwoDTree {
  import opened Geometry
  import opened Wrappers

  /** Node(point, rect, left, right); `Nil` is a null link. */
  datatype Tree = Nil | Node(point: Point2D, rect: RectHV, left: Tree, right: Tree)

  /** The split key of a level: x at even depth, y at odd depth. */
  function Key(p: Point2D, level: nat): real {
    if level % 2 == 0 then p.x else p.y
  }

  /** comparePoints: Double.compare on the level's key only. */
  function ComparePoints(a: Point2D, b: Point2D, level: nat): (c: int)
    ensures c == -1 || c == 0 || c == 1
    ensures level % 2 == 0 ==> (c < 0 <==> a.x < b.x) && (c == 0 <==> a.x == b.x)
    ensures level % 2 == 1 ==> (c < 0 <==> a.y < b.y) && (c == 0 <==> a.y == b.y)
  {
    if Key(a, level) < Key(b, level) then -1
    else if Key(a, level) > Key(b, level) then 1
    else 0
  }

  /** The points stored in a tree. */
  function Points(t: Tree): set<Point2D> {
    match t
    case Nil => {}
    case Node(p, _, l, r) => {p} + Points(l) + Points(r)
  }

  /** The number of nodes of a tree. */
  function Count(t: Tree): nat {
    match t
    case Nil => 0
    case Node(_, _, l, r) => 1 + Count(l) + Count(r)
  }

  /**
   * The search-tree invariant: below a node of level `level`, every point of
   * the left subtree is strictly smaller on that level's key and every point
   * of the right subtree strictly larger.
   */
  ghost predicate Ordered(t: Tree, level: nat) {
    match t
    case Nil => true
    case Node(p, _, l, r) =>
      && (forall q :: q in Points(l) ==> Key(q, level) < Key(p, level))
      && (forall q :: q in Points(r) ==> Key(q, level) > Key(p, level))
      && Ordered(l, level + 1)
      && Ordered(r, level + 1)
  }

  /** The bounds handed to the left child: the lower part at the node's split line. */
  function LeftBounds(b: RectHV, p: Point2D, level: nat): RectHV {
    if level % 2 == 0 then b.(xmax := p.x) else b.(ymax := p.y)
  }

  /** The bounds handed to the right child: the upper part at the node's split line. */
  function RightBounds(b: RectHV, p: Point2D, level: nat): RectHV {
    if level % 2 == 0 then b.(xmin := p.x) else b.(ymin := p.y)
  }

  /** Every node's rectangle is its parent's rectangle cut at the parent's split coordinate. */
  ghost predicate Partitioned(t: Tree, bounds: RectHV, level: nat) {
    match t
    case Nil => true
    case Node(p, rect, l, r) =>
      && rect == bounds
      && Partitioned(l, LeftBounds(bounds, p, level), level + 1)
      && Partitioned(r, RightBounds(bounds, p, level), level + 1)
  }

  /** Every point of every subtree lies in the rectangle of that subtree's root. */
  ghost predicate Enclosed(t: Tree) {
    match t
    case Nil => true
    case Node(_, rect, l, r) =>
      && (forall q :: q in Points(t) ==> Contains(rect, q))
      && Enclosed(l)
      && Enclosed(r)
  }

  /** No point is stored twice: the root's point is in neither subtree and the subtrees are disjoint. */
  ghost predicate NoRepeats(t: Tree) {
    match t
    case Nil => true
    case Node(p, _, l, r) =>
      && p !in Points(l) && p !in Points(r)
      && Points(l) !! Points(r)
      && NoRepeats(l) && NoRepeats(r)
  }

  /**
   * get: descend by the level's key; the search ends at the first node whose
   * split coordinate ties the point's, whether or not the other coordinate
   * agrees.
   */
  function Get(t: Tree, p: Point2D, level: nat): (r: Option<Point2D>)
    ensures r.Some? ==> r.value in Points(t) && (r.value.x == p.x || r.value.y == p.y)
    ensures Ordered(t, level) && p in Points(t) ==> r == Some(p)
    decreases t
  {
    match t
    case Nil => None
    case Node(q, _, l, rt) =>
      var c := ComparePoints(p, q, level);
      if c < 0 then Get(l, p, level + 1)
      else if c > 0 then Get(rt, p, level + 1)
      else Some(q)
  }

  /**
   * put, as a function of the tree: a new node holding `p` and the current
   * bounds replaces the null link the descent reaches; a tie on a split
   * coordinate on the way leaves the tree as it is.
   */
  function PutTree(t: Tree, p: Point2D, bounds: RectHV, level: nat): (r: Tree)
    ensures Get(t, p, level).Some? ==> r == t
    ensures Get(t, p, level).None? ==> Points(r) == Points(t) + {p} && Count(r) == Count(t) + 1
    ensures Get(r, p, level).Some?
    decreases t
  {
    match t
    case Nil => Node(p, bounds, Nil, Nil)
    case Node(q, rect, l, rt) =>
      var c := ComparePoints(p, q, level);
      if c < 0 then Node(q, rect, PutTree(l, p, LeftBounds(bounds, q, level), level + 1), rt)
      else if c > 0 then Node(q, rect, l, PutTree(rt, p, RightBounds(bounds, q, level), level + 1))
      else t
  }

  /** Insertion keeps the search-tree invariant. */
  lemma {:induction false} PutKeepsOrdered(t: Tree, p: Point2D, bounds: RectHV, level: nat)
    requires Ordered(t, level)
    ensures Ordered(PutTree(t, p, bounds, level), level)
    decreases t
  {
    match t
    case Nil =>
    case Node(q, rect, l, rt) =>
      var c := ComparePoints(p, q, level);
      if c < 0 {
        PutKeepsOrdered(l, p, LeftBounds(bounds, q, level), level + 1);
      } else if c > 0 {
        PutKeepsOrdered(rt, p, RightBounds(bounds, q, level), level + 1);
      }
  }

  /** Insertion keeps every rectangle the cut of its parent's. */
  lemma {:induction false} PutKeepsPartitioned(t: Tree, p: Point2D, bounds: RectHV, level: nat)
    requires Partitioned(t, bounds, level)
    ensures Partitioned(PutTree(t, p, bounds, level), bounds, level)
    decreases t
  {
    match t
    case Nil =>
    case Node(q, rect, l, rt) =>
      var c := ComparePoints(p, q, level);
      if c < 0 {
        PutKeepsPartitioned(l, p, LeftBounds(bounds, q, level), level + 1);
      } else if c > 0 {
        PutKeepsPartitioned(rt, p, RightBounds(bounds, q, level), level + 1);
      }
  }

  /**
   * Insertion only fills a null link, so a point that `get` finds before an
   * insertion it still finds, at the same node, afterwards.
   */
  lemma {:induction false} GetSurvivesPut(t: Tree, p: Point2D, q: Point2D, bounds: RectHV, level: nat)
    requires Get(t, p, level).Some?
    ensures Get(PutTree(t, q, bounds, level), p, level) == Get(t, p, level)
    decreases t
  {
    match t
    case Node(n, rect, l, rt) =>
      var cp := ComparePoints(p, n, level);
      var cq := ComparePoints(q, n, level);
      if cp < 0 && cq < 0 {
        GetSurvivesPut(l, p, q, LeftBounds(bounds, n, level), level + 1);
      } else if cp > 0 && cq > 0 {
        GetSurvivesPut(rt, p, q, RightBounds(bounds, n, level), level + 1);
      }
  }

  /** Distinct keys on both sides of each node mean no point is stored twice. */
  lemma {:induction false} OrderedHasNoRepeats(t: Tree, level: nat)
    requires Ordered(t, level)
    ensures NoRepeats(t)
    decreases t
  {
    match t
    case Nil =>
    case Node(p, _, l, r) =>
      OrderedHasNoRepeats(l, level + 1);
      OrderedHasNoRepeats(r, level + 1);
      forall q | q in Points(l) ensures q !in Points(r) {
        assert Key(q, level) < Key(p, level);
      }
  }

  /** With no point stored twice, the number of nodes is the number of points. */
  lemma {:induction false} CountIsCardinality(t: Tree)
    requires NoRepeats(t)
    ensures Count(t) == |Points(t)|
    decreases t
  {
    match t
    case Nil =>
    case Node(p, _, l, r) =>
      CountIsCardinality(l);
      CountIsCardinality(r);
      assert Points(t) == {p} + (Points(l) + Points(r));
  }

  /**
   * For points inside the starting bounds, every node's point and every point
   * below it lie in the node's rectangle.
   */
  lemma {:induction false} PartitionedIsEnclosed(t: Tree, bounds: RectHV, level: nat)
    requires Ordered(t, level) && Partitioned(t, bounds, level)
    requires forall q :: q in Points(t) ==> Contains(bounds, q)
    ensures Enclosed(t)
    decreases t
  {
    match t
    case Nil =>
    case Node(p, rect, l, r) =>
      forall q | q in Points(l) ensures Contains(LeftBounds(bounds, p, level), q) {
        assert q in Points(t) && Key(q, level) < Key(p, level);
      }
      forall q | q in Points(r) ensures Contains(RightBounds(bounds, p, level), q) {
        assert q in Points(t) && Key(q, level) > Key(p, level);
      }
      PartitionedIsEnclosed(l, LeftBounds(bounds, p, level), level + 1);
      PartitionedIsEnclosed(r, RightBounds(bounds, p, level), level + 1);
  }

  /** Appending two duplicate-free sequences with no common element gives a duplicate-free sequence. */
  predicate Distinct<T(==)>(s: seq<T>) {
    forall i, j :: 0 <= i < j < |s| ==> s[i] != s[j]
  }

  lemma DistinctAppend<T>(a: seq<T>, b: seq<T>)
    requires Distinct(a) && Distinct(b)
    requires forall x :: x in a ==> x !in b
    ensures Distinct(a + b)
  {
    forall i, j | 0 <= i < j < |a + b| ensures (a + b)[i] != (a + b)[j] {
      if i < |a| && j >= |a| {
        assert (a + b)[i] in a && (a + b)[j] in b;
      }
    }
  }

  /**
   * nearest(node, point, min): the best point so far is threaded through the
   * calls. A subtree is skipped when the best is strictly closer than the
   * subtree's rectangle; otherwise the node's own point may replace the best,
   * and the right child is visited first when its rectangle holds the query.
   */
  function NearestFrom(t: Tree, p: Point2D, min: Option<Point2D>): (r: Option<Point2D>)
    ensures r.Some? <==> t.Node? || min.Some?
    ensures r.Some? ==> r.value in Points(t) || min == Some(r.value)
    ensures min.Some? ==> DistanceSquared(r.value, p) <= DistanceSquared(min.value, p)
    decreases t
  {
    match t
    case Nil => min
    case Node(q, rect, l, rt) =>
      var best := if min.None? then q else min.value;
      if DistanceSquared(best, p) >= RectDistanceSquared(rect, p) then
        var best' := if DistanceSquared(q, p) < DistanceSquared(best, p) then q else best;
        if rt.Node? && Contains(rt.rect, p) then
          NearestFrom(l, p, NearestFrom(rt, p, Some(best')))
        else
          NearestFrom(rt, p, NearestFrom(l, p, Some(best')))
      else
        Some(best)
  }

  /**
   * The pruning never loses the answer: when every subtree's points lie in
   * its rectangle, the point found is at least as close as every stored point.
   */
  lemma {:induction false} NearestIsClosest(t: Tree, p: Point2D, min: Option<Point2D>, q: Point2D)
    requires Enclosed(t) && q in Points(t)
    ensures NearestFrom(t, p, min).Some?
    ensures DistanceSquared(NearestFrom(t, p, min).value, p) <= DistanceSquared(q, p)
    decreases t
  {
    match t
    case Node(n, rect, l, rt) =>
      var best := if min.None? then n else min.value;
      if DistanceSquared(best, p) >= RectDistanceSquared(rect, p) {
        var best' := if DistanceSquared(n, p) < DistanceSquared(best, p) then n else best;
        if rt.Node? && Contains(rt.rect, p) {
          var mid := NearestFrom(rt, p, Some(best'));
          if q in Points(l) {
            NearestIsClosest(l, p, mid, q);
          } else if q in Points(rt) {
            NearestIsClosest(rt, p, Some(best'), q);
          }
        } else {
          var mid := NearestFrom(l, p, Some(best'));
          if q in Points(rt) {
            NearestIsClosest(rt, p, mid, q);
          } else if q in Points(l) {
            NearestIsClosest(l, p, Some(best'), q);
          }
        }
      } else {
        RectDistanceIsLowerBound(rect, p, q);
        assert DistanceSquared(p, q) == DistanceSquared(q, p);
      }
  }

  /** All stored points lie in the unit square (the assignment's domain). */
  ghost predicate InUnitSquare(t: Tree) {
    forall q :: q in Points(t) ==> Contains(UnitSquare, q)
  }

  /** Insertion at the root keeps the tree ordered and partitioned, and a point get misses is not stored. */
  lemma PutKeepsValid(t: Tree, p: Point2D)
    requires Ordered(t, 0) && Partitioned(t, UnitSquare, 0)
    ensures Ordered(PutTree(t, p, UnitSquare, 0), 0) && Partitioned(PutTree(t, p, UnitSquare, 0), UnitSquare, 0)
    ensures Get(t, p, 0).None? ==> p !in Points(t)
  {
    OrderedHasNoRepeats(t, 0);
    PutKeepsOrdered(t, p, UnitSquare, 0);
    PutKeepsPartitioned(t, p, UnitSquare, 0);
  }

  /**
   * Inserting a point of the unit square into a valid tree of such points
   * leaves every point inside the rectangle of each node above it, so each
   * rectangle put builds is well-formed.
   */
  lemma PutEncloses(t: Tree, p: Point2D)
    requires Ordered(t, 0) && Partitioned(t, UnitSquare, 0) && InUnitSquare(t) && Contains(UnitSquare, p)
    ensures InUnitSquare(PutTree(t, p, UnitSquare, 0)) && Enclosed(PutTree(t, p, UnitSquare, 0))
  {
    var r := PutTree(t, p, UnitSquare, 0);
    PutKeepsOrdered(t, p, UnitSquare, 0);
    PutKeepsPartitioned(t, p, UnitSquare, 0);
    assert Points(r) <= Points(t) + {p};
    PartitionedIsEnclosed(r, UnitSquare, 0);
  }

  /** KdTree: the root of the 2-d tree and the number of nodes created so far. */
  class KdTree {
    var root: Tree
    var size: nat

    ghost predicate Valid()
      reads this
    {
      && Ordered(root, 0)
      && Partitioned(root, UnitSquare, 0)
      && InUnitSquare(root)
      && size == |Points(root)|
    }

    /** An empty set of points. */
    constructor ()
      ensures Valid() && root == Nil && size == 0
    {
      root := Nil;
      size := 0;
    }

    /** isEmpty: the size counter is zero, which happens exactly when no point is stored. */
    function IsEmpty(): (b: bool)
      reads this
      requires Valid()
      ensures b <==> Points(root) == {}
    {
      size == 0
    }

    /** size: the number of distinct stored points, which is also the number of nodes. */
    function Size(): (n: nat)
      reads this
      requires Valid()
      ensures n == |Points(root)| == Count(root)
    {
      OrderedHasNoRepeats(root, 0);
      CountIsCardinality(root);
      size
    }

    /**
     * contains: true for every stored point, and true only when some stored
     * point shares an x or a y coordinate with the query.
     */
    function Contains(p: Point2D): (b: bool)
      reads this
      requires Valid()
      ensures p in Points(root) ==> b
      ensures b ==> exists q :: q in Points(root) && (q.x == p.x || q.y == p.y)
    {
      Get(root, p, 0).Some?
    }

    /**
     * insert: a node is created, and the counter bumped, exactly when the
     * descent reaches a null link; a tie on a split coordinate leaves both
     * the tree and the counter unchanged. The point lies in the unit
     * square, so every node's rectangle holds its point and no RectHV is
     * built with its bounds reversed.
     */
    method Insert(p: Point2D)
      requires Valid() && Geometry.Contains(UnitSquare, p)
      modifies this
      ensures Valid()
      ensures Enclosed(root)
      ensures root == PutTree(old(root), p, UnitSquare, 0)
      ensures Contains(p)
      ensures old(Contains(p)) ==> root == old(root) && size == old(size)
      ensures !old(Contains(p)) ==> Points(root) == old(Points(root)) + {p} && size == old(size) + 1
    {
      ghost var before := root;
      root := Put(root, p, UnitSquare, 0);
      PutKeepsValid(before, p);
      PutEncloses(before, p);
    }

    /**
     * put(node, point, xmin, ymin, xmax, ymax, level): the null link reached
     * gets a new node with the current bounds and the counter goes up by one.
     */
    method Put(node: Tree, p: Point2D, bounds: RectHV, level: nat) returns (r: Tree)
      modifies this`size
      ensures r == PutTree(node, p, bounds, level)
      ensures size == old(size) + (if Get(node, p, level).None? then 1 else 0)
      decreases node
    {
      match node {
        case Nil =>
          size := size + 1;
          r := Node(p, bounds, Nil, Nil);
        case Node(q, rect, l, rt) =>
          var c := ComparePoints(p, q, level);
          r := node;
          if c < 0 {
            var l' := Put(l, p, LeftBounds(bounds, q, level), level + 1);
            r := node.(left := l');
          } else if c > 0 {
            var rt' := Put(rt, p, RightBounds(bounds, q, level), level + 1);
            r := node.(right := rt');
          }
      }
    }

    /**
     * range: the stored points the query rectangle contains, each once. Every
     * point reported is stored and inside the query; for points in the unit
     * square none is missed.
     */
    method Range(rect: RectHV) returns (q: seq<Point2D>)
      requires Valid()
      ensures forall x :: x in q ==> x in Points(root) && Geometry.Contains(rect, x)
      ensures forall x :: x in Points(root) && Geometry.Contains(rect, x) ==> x in q
      ensures Distinct(q)
    {
      OrderedHasNoRepeats(root, 0);
      PartitionedIsEnclosed(root, UnitSquare, 0);
      q := RangeAdd(root, rect, []);
    }

    /**
     * rangeAdd: a subtree whose rectangle misses the query is skipped;
     * otherwise the node's point is appended when the query contains it and
     * both children are visited.
     */
    method RangeAdd(node: Tree, rect: RectHV, queue: seq<Point2D>) returns (q: seq<Point2D>)
      ensures |q| >= |queue| && q[..|queue|] == queue
      ensures forall x :: x in q[|queue|..] ==> x in Points(node) && Geometry.Contains(rect, x)
      ensures Enclosed(node) ==>
                forall x :: x in Points(node) && Geometry.Contains(rect, x) ==> x in q[|queue|..]
      ensures NoRepeats(node) ==> Distinct(q[|queue|..])
      decreases node
    {
      q := queue;
      if node.Node? && Intersects(rect, node.rect) {
        if Geometry.Contains(rect, node.point) {
          q := q + [node.point];
        }
        var mid := q;
        q := RangeAdd(node.left, rect, q);
        var afterLeft := q;
        q := RangeAdd(node.right, rect, q);
        assert q[|queue|..] == mid[|queue|..] + afterLeft[|mid|..] + q[|afterLeft|..];
        if NoRepeats(node) {
          assert Distinct(mid[|queue|..]);
          DistinctAppend(mid[|queue|..], afterLeft[|mid|..]);
          DistinctAppend(mid[|queue|..] + afterLeft[|mid|..], q[|afterLeft|..]);
        }
      } else if node.Node? && Enclosed(node) {
        forall x | x in Points(node) && Geometry.Contains(rect, x) ensures false {
          CommonPointIntersects(rect, node.rect, x);
        }
      }
    }

    /**
     * nearest: null on an empty tree; otherwise a stored point, and for
     * points in the unit square one at least as close to `p` as every stored
     * point.
     */
    method Nearest(p: Point2D) returns (r: Option<Point2D>)
      requires Valid()
      ensures r.None? <==> size == 0
      ensures r.Some? ==> r.value in Points(root)
      ensures r.Some? ==>
                forall q :: q in Points(root) ==> DistanceSquared(r.value, p) <= DistanceSquared(q, p)
    {
      if IsEmpty() {
        r := None;
      } else {
        r := NearestFrom(root, p, None);
        PartitionedIsEnclosed(root, UnitSquare, 0);
        forall q | q in Points(root) ensures DistanceSquared(r.value, p) <= DistanceSquared(q, p) {
          NearestIsClosest(root, p, None, q);
        }
      }
    }
  }

  /**
   * The coordinate-tie quirk: after (0.5, 0.5) the point (0.5, 0.25) ties the
   * root's x and is not inserted, yet `get` reports it present.
   */
  lemma TiedPointIsDropped()
    ensures var t := PutTree(Nil, Point2D(0.5, 0.5), UnitSquare, 0);
            && PutTree(t, Point2D(0.5, 0.25), UnitSquare, 0) == t
            && Get(t, Point2D(0.5, 0.25), 0) == Some(Point2D(0.5, 0.5))
            && Point2D(0.5, 0.25) !in Points(t)
  {
  }

  /*
   * The insertion the documentation of the 2-d tree describes: a search
   * stops only at a node holding the very same point, and a tie on the split
   * coordinate between different points goes right.
   */

  /** The search-tree invariant with ties going right: left keys strictly smaller, right keys at least as large. */
  ghost predicate OrderedRight(t: Tree, level: nat) {
    match t
    case Nil => true
    case Node(p, _, l, r) =>
      && (forall q :: q in Points(l) ==> Key(q, level) < Key(p, level))
      && (forall q :: q in Points(r) ==> Key(q, level) >= Key(p, level))
      && OrderedRight(l, level + 1)
      && OrderedRight(r, level + 1)
  }

  /** contains as intended: the descent succeeds only at a node holding the query point itself. */
  function GetIntended(t: Tree, p: Point2D, level: nat): (found: bool)
    ensures found ==> p in Points(t)
    decreases t
  {
    match t
    case Nil => false
    case Node(q, _, l, rt) =>
      if p == q then true
      else if Key(p, level) < Key(q, level) then GetIntended(l, p, level + 1)
      else GetIntended(rt, p, level + 1)
  }

  /** put as intended: a new node at the null link the descent reaches, unless the point is met on the way. */
  function PutIntended(t: Tree, p: Point2D, bounds: RectHV, level: nat): (r: Tree)
    ensures Points(r) == Points(t) + {p}
    ensures Count(r) == Count(t) + (if GetIntended(t, p, level) then 0 else 1)
    decreases t
  {
    match t
    case Nil => Node(p, bounds, Nil, Nil)
    case Node(q, rect, l, rt) =>
      if p == q then t
      else if Key(p, level) < Key(q, level) then Node(q, rect, PutIntended(l, p, LeftBounds(bounds, q, level), level + 1), rt)
      else Node(q, rect, l, PutIntended(rt, p, RightBounds(bounds, q, level), level + 1))
  }

  /** In a tree ordered with ties going right, the intended search finds exactly the stored points. */
  lemma {:induction false} GetIntendedIffStored(t: Tree, p: Point2D, level: nat)
    requires OrderedRight(t, level)
    ensures GetIntended(t, p, level) <==> p in Points(t)
    decreases t
  {
    match t
    case Nil =>
    case Node(q, _, l, rt) =>
      if p != q {
        if Key(p, level) < Key(q, level) {
          GetIntendedIffStored(l, p, level + 1);
        } else {
          GetIntendedIffStored(rt, p, level + 1);
        }
      }
  }

  /**
   * The intended insertion keeps the ordering and stores no point twice; a
   * point already stored leaves the tree as it is.
   */
  lemma {:induction false} PutIntendedKeepsInvariant(t: Tree, p: Point2D, bounds: RectHV, level: nat)
    requires OrderedRight(t, level) && NoRepeats(t)
    ensures OrderedRight(PutIntended(t, p, bounds, level), level)
    ensures NoRepeats(PutIntended(t, p, bounds, level))
    ensures p in Points(t) ==> PutIntended(t, p, bounds, level) == t
    decreases t
  {
    match t
    case Nil =>
    case Node(q, rect, l, rt) =>
      if p != q {
        if Key(p, level) < Key(q, level) {
          PutIntendedKeepsInvariant(l, p, LeftBounds(bounds, q, level), level + 1);
          assert p !in Points(rt);
        } else {
          PutIntendedKeepsInvariant(rt, p, RightBounds(bounds, q, level), level + 1);
          assert p !in Points(l);
        }
      }
  }
}
