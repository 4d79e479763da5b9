/**
 * The interface of algs4's WeightedQuickUnionUF as the percolation grid
 * uses it: `connected` and `union` over the elements 0 .. count - 1.
 *
 * The library's weighted forest is not part of this model. Its state is
 * represented by a component label per element: two elements are connected
 * exactly when they carry the same label, so `connected` is an equivalence
 * relation by construction and `union` relabels one whole component.
 */
module UnionFind {

  class UF {
    var id: seq<nat>

    /** WeightedQuickUnionUF(count): every element in a component of its own. */
    constructor (count: nat)
      ensures |id| == count
      ensures forall p, q :: 0 <= p < count && 0 <= q < count ==> (Connected(p, q) <==> p == q)
    {
      id := seq(count, i => i);
    }

    /** connected(p, q): p and q are in the same component. */
    predicate Connected(p: nat, q: nat)
      requires p < |id| && q < |id|
      reads this
    {
      id[p] == id[q]
    }

    /**
     * union(p, q): the components of p and q become one; every other pair
     * is connected afterwards exactly when it was before.
     */
    method Union(p: nat, q: nat)
      requires p < |id| && q < |id|
      modifies this
      ensures Unioned(old(id), id, p, q)
      ensures Coarser(old(id), id)
    {
      var before := id;
      var pid, qid := id[p], id[q];
      id := seq(|before|, i requires 0 <= i < |before| => if before[i] == pid then qid else before[i]);
    }
  }

  /**
   * `b` is `a` after union(p, q): x and y share a label in `b` exactly when
   * they did in `a`, or one of them was with p and the other with q.
   */
  ghost predicate Unioned(a: seq<nat>, b: seq<nat>, p: nat, q: nat)
    requires p < |a| && q < |a|
  {
    |b| == |a| &&
    forall x, y :: 0 <= x < |a| && 0 <= y < |a| ==> UnionedPair(a, b, p, q, x, y)
  }

  /** The pair (x, y) as `Unioned` says. */
  ghost predicate UnionedPair(a: seq<nat>, b: seq<nat>, p: nat, q: nat, x: nat, y: nat)
    requires p < |a| && q < |a| && x < |a| && y < |a| && |b| == |a|
  {
    b[x] == b[y] <==> a[x] == a[y] || (a[x] == a[p] && a[y] == a[q]) || (a[x] == a[q] && a[y] == a[p])
  }

  /** The labels that the elements of `J` carry in `a`. */
  ghost function Labels(a: seq<nat>, J: set<nat>): set<nat> {
    set j | j in J && j < |a| :: a[j]
  }

  /**
   * `b` is `a` after a run of unions that joins every element of `J` into
   * one component and nothing else: x and y are connected in `b` exactly
   * when they were in `a`, or each of them was connected in `a` to some
   * element of `J`.
   */
  ghost predicate Merged(a: seq<nat>, b: seq<nat>, J: set<nat>) {
    |b| == |a| && (forall j :: j in J ==> j < |a|) &&
    forall x, y :: 0 <= x < |a| && 0 <= y < |a| ==> MergedPair(a, b, J, x, y)
  }

  /** The pair (x, y) as `Merged` says. */
  ghost predicate MergedPair(a: seq<nat>, b: seq<nat>, J: set<nat>, x: nat, y: nat)
    requires x < |a| && y < |a| && |b| == |a|
  {
    b[x] == b[y] <==> a[x] == a[y] || (a[x] in Labels(a, J) && a[y] in Labels(a, J))
  }

  /** No union yet: a single element is already merged with itself. */
  lemma MergedStart(a: seq<nat>, p: nat)
    requires p < |a|
    ensures Merged(a, a, {p})
  {
    assert Labels(a, {p}) == {a[p]};
  }

  /** A union of an element of `J` with q extends the merged set by q. */
  lemma MergedUnion(a: seq<nat>, b: seq<nat>, c: seq<nat>, J: set<nat>, p: nat, q: nat)
    requires Merged(a, b, J) && p in J && q < |a|
    requires Unioned(b, c, p, q)
    ensures Merged(a, c, J + {q})
  {
    var L := Labels(a, J);
    assert Labels(a, J + {q}) == L + {a[q]};
    assert a[p] in L;
    forall x, y | 0 <= x < |a| && 0 <= y < |a|
      ensures MergedPair(a, c, J + {q}, x, y)
    {
      assert MergedPair(a, b, J, x, y) && MergedPair(a, b, J, x, p) && MergedPair(a, b, J, y, p);
      assert MergedPair(a, b, J, x, q) && MergedPair(a, b, J, y, q) && UnionedPair(b, c, p, q, x, y);
      assert b[x] == b[p] <==> a[x] in L;
      assert b[y] == b[p] <==> a[y] in L;
      assert b[x] == b[q] <==> a[x] == a[q] || (a[x] in L && a[q] in L);
      assert b[y] == b[q] <==> a[y] == a[q] || (a[y] in L && a[q] in L);
    }
  }

  /** Skipping the union of q with an element of `J` it was already connected to merges q all the same. */
  lemma MergedAlready(a: seq<nat>, b: seq<nat>, J: set<nat>, p: nat, q: nat)
    requires Merged(a, b, J) && p in J && q < |a| && a[q] == a[p]
    ensures Merged(a, b, J + {q})
  {
    assert Labels(a, J + {q}) == Labels(a, J);
    forall x, y | 0 <= x < |a| && 0 <= y < |a|
      ensures MergedPair(a, b, J + {q}, x, y)
    {
      assert MergedPair(a, b, J, x, y);
    }
  }

  /** Merging only adds connections. */
  lemma MergedIsCoarser(a: seq<nat>, b: seq<nat>, J: set<nat>)
    requires Merged(a, b, J)
    ensures Coarser(a, b)
  {
    forall x, y | 0 <= x < |a| && 0 <= y < |a| && a[x] == a[y]
      ensures b[x] == b[y]
    {
      assert MergedPair(a, b, J, x, y);
    }
  }

  /** Any two elements of `J` end up connected. */
  lemma MergedJoins(a: seq<nat>, b: seq<nat>, J: set<nat>, x: nat, y: nat)
    requires Merged(a, b, J) && x in J && y in J
    ensures b[x] == b[y]
  {
    assert a[x] in Labels(a, J) && a[y] in Labels(a, J);
    assert MergedPair(a, b, J, x, y);
  }

  /** Every pair with equal labels in `a` has equal labels in `b`: `b` connects at least what `a` connects. */
  ghost predicate Coarser(a: seq<nat>, b: seq<nat>) {
    |a| == |b| &&
    forall x, y :: 0 <= x < |a| && 0 <= y < |a| && a[x] == a[y] ==> b[x] == b[y]
  }

  /** connected is reflexive, symmetric and transitive. */
  lemma ConnectedIsEquivalence(uf: UF, x: nat, y: nat, z: nat)
    requires x < |uf.id| && y < |uf.id| && z < |uf.id|
    ensures uf.Connected(x, x)
    ensures uf.Connected(x, y) ==> uf.Connected(y, x)
    ensures uf.Connected(x, y) && uf.Connected(y, z) ==> uf.Connected(x, z)
  {
  }
}
