/**
 * The percolation grid: n-by-n sites, 1-based, each closed (0) or open (1),
 * with two union-find structures over the n * n sites and two virtual
 * sites. `uf` joins open neighbours and the top row to the virtual top
 * site; `ufPerc` does the same and also joins the bottom row to the virtual
 * bottom site, so that `isFull` asks `uf` (no backwash through the bottom)
 * and `percolates` asks `ufPerc`.
 *
 * IndexOutOfBoundsException is `Fail(IndexOutOfBounds)` for `open` and
 * `Failure(IndexOutOfBounds)` for the queries.
 */
module Percolations {
  import opened Wrappers
  import opened RowMajor
  import opened UnionFind

  /** isInBound: row and column both in [1, n]. */
  predicate InBound(row: int, col: int, n: nat) {
    1 <= row <= n && 1 <= col <= n
  }

  /**
   * convert2dTo1dCoord: the flat index of the 1-based cell (row, col),
   * counted row by row; ConvertIsProduct ties it to n * (row - 1) + col - 1.
   */
  function Convert(row: int, col: int, n: nat): (k: nat)
    requires InBound(row, col, n)
    ensures k < GridCells(n)
  {
    IndexInGrid(row - 1, col - 1, n);
    Index(row - 1, col - 1, n)
  }

  /** The flat index is the one the source computes, n * (row - 1) + col - 1. */
  lemma ConvertIsProduct(row: int, col: int, n: nat)
    requires InBound(row, col, n)
    ensures Convert(row, col, n) == n * (row - 1) + col - 1
  {
    IndexIsProduct(row - 1, col - 1, n);
  }

  /** Different cells in bounds have different flat indices. */
  lemma ConvertInjective(row: int, col: int, row': int, col': int, n: nat)
    requires InBound(row, col, n) && InBound(row', col', n)
    requires Convert(row, col, n) == Convert(row', col', n)
    ensures row == row' && col == col'
  {
    IndexInjective(row - 1, col - 1, row' - 1, col' - 1, n);
  }

  /** Every index below n * n is the flat index of a cell in bounds. */
  lemma ConvertOnto(k: nat, n: nat)
    requires k < GridCells(n)
    ensures InBound(k / n + 1, k % n + 1, n) && Convert(k / n + 1, k % n + 1, n) == k
  {
    IndexOfCell(k, n);
  }

  /** The single flat index of (row, col) when it is in bounds and open in `s`, otherwise nothing. */
  function OpenSite(s: seq<int>, row: int, col: int, n: nat): (r: set<nat>)
    requires |s| == GridCells(n)
    ensures r == {} || (InBound(row, col, n) && r == {Convert(row, col, n)} && s[Convert(row, col, n)] == 1)
  {
    if InBound(row, col, n) && s[Convert(row, col, n)] == 1 then {Convert(row, col, n)} else {}
  }

  /** The open sites among the cells below, above, left and right of (row, col). */
  function OpenNeighbours(s: seq<int>, row: int, col: int, n: nat): set<nat>
    requires |s| == GridCells(n)
  {
    OpenSite(s, row + 1, col, n) + OpenSite(s, row - 1, col, n) +
    OpenSite(s, row, col - 1, n) + OpenSite(s, row, col + 1, n)
  }

  /** Writing another cell leaves the open state of (row, col) as it is. */
  lemma OpenSiteIgnores(s: seq<int>, row: int, col: int, n: nat, k: nat, v: int)
    requires |s| == GridCells(n) && k < |s|
    requires InBound(row, col, n) ==> Convert(row, col, n) != k
    ensures OpenSite(s[k := v], row, col, n) == OpenSite(s, row, col, n)
  {
  }

  /** Opening (row, col) changes none of its neighbours' open state. */
  lemma OpenNeighboursIgnoreSelf(s: seq<int>, row: int, col: int, n: nat, v: int)
    requires |s| == GridCells(n) && InBound(row, col, n)
    ensures OpenNeighbours(s[Convert(row, col, n) := v], row, col, n) == OpenNeighbours(s, row, col, n)
  {
    var k := Convert(row, col, n);
    if row < n {
      assert Convert(row + 1, col, n) == n + k;
    }
    OpenSiteIgnores(s, row + 1, col, n, k, v);
    if row > 1 {
      assert k == n + Convert(row - 1, col, n);
    }
    OpenSiteIgnores(s, row - 1, col, n, k, v);
    HorizontalNeighboursDiffer(row, col, n);
    OpenSiteIgnores(s, row, col - 1, n, k, v);
    OpenSiteIgnores(s, row, col + 1, n, k, v);
  }

  /** The cells left and right of (row, col) have other flat indices. */
  lemma HorizontalNeighboursDiffer(row: int, col: int, n: nat)
    requires InBound(row, col, n)
    ensures col > 1 ==> Convert(row, col - 1, n) + 1 == Convert(row, col, n)
    ensures col < n ==> Convert(row, col + 1, n) == Convert(row, col, n) + 1
  {
    IndexShift(row - 1, col - 1, n);
    if col > 1 {
      IndexShift(row - 1, col - 2, n);
    }
    if col < n {
      IndexShift(row - 1, col, n);
    }
  }

  /** The merged sets built neighbour by neighbour are the ones open promises. */
  lemma Regroup(J: set<nat>, B: set<nat>, below: set<nat>, above: set<nat>, left: set<nat>, right: set<nat>)
    ensures J + below + above + left + right == J + (below + above + left + right)
    ensures J + B + below + above + left + right == J + (below + above + left + right) + B
  {
  }

  class Percolation {
    const n: nat
    const topSite: nat
    const bottomSite: nat
    const uf: UF
    const ufPerc: UF
    const site: array<int>

    /**
     * The sites are 0 or 1; both structures span the sites and the two
     * virtual sites; whatever `uf` connects `ufPerc` connects too; and
     * nothing is connected to the bottom site in `uf`.
     */
    ghost predicate Shape()
      reads this, site, uf, ufPerc
    {
      topSite == GridCells(n) && bottomSite == GridCells(n) + 1 &&
      site.Length == GridCells(n) &&
      |uf.id| == GridCells(n) + 2 && |ufPerc.id| == GridCells(n) + 2 && uf != ufPerc &&
      (forall i :: 0 <= i < site.Length ==> site[i] == 0 || site[i] == 1) &&
      Coarser(uf.id, ufPerc.id) &&
      (forall x :: 0 <= x < |uf.id| && x != bottomSite ==> !uf.Connected(x, bottomSite))
    }

    /** Every open site of the top row is connected to the top site in `uf`. */
    ghost predicate TopRowFull()
      requires Shape()
      reads this, site, uf, ufPerc
    {
      forall c :: 0 <= c < n ==> site[c] == 1 ==> uf.Connected(c, topSite)
    }

    ghost predicate Valid()
      reads this, site, uf, ufPerc
    {
      Shape() && TopRowFull()
    }

    /** Percolation(N): all N * N sites closed, nothing joined. */
    constructor (N: nat)
      ensures Valid() && fresh(site) && fresh(uf) && fresh(ufPerc)
      ensures n == N && forall i :: 0 <= i < site.Length ==> site[i] == 0
      ensures forall x, y :: 0 <= x < |ufPerc.id| && 0 <= y < |ufPerc.id| ==> (ufPerc.Connected(x, y) <==> x == y)
    {
      n := N;
      GridSize(N);
      uf := new UF(N * N + 2);
      ufPerc := new UF(N * N + 2);
      site := new int[N * N](_ => 0);
      topSite := N * N;
      bottomSite := N * N + 1;
      new;
      forall x, y | 0 <= x < |uf.id| && 0 <= y < |uf.id| && uf.id[x] == uf.id[y]
        ensures ufPerc.id[x] == ufPerc.id[y]
      {
        assert uf.Connected(x, y);
      }
    }

    /** isOpen: out of bounds throws; otherwise whether the site is 1. */
    function IsOpen(row: int, col: int): (r: Result<bool>)
      requires Valid()
      reads this, site, uf, ufPerc
      ensures !InBound(row, col, n) ==> r == Failure(IndexOutOfBounds)
      ensures InBound(row, col, n) ==> r.Success? && (r.value <==> site[Convert(row, col, n)] == 1)
    {
      if !InBound(row, col, n) then Failure(IndexOutOfBounds)
      else
        Success(site[Convert(row, col, n)] == 1)
    }

    /** isFull: out of bounds throws; otherwise the site is open and `uf` connects it to the top site. */
    function IsFull(row: int, col: int): (r: Result<bool>)
      requires Valid()
      reads this, site, uf, ufPerc
      ensures !InBound(row, col, n) ==> r == Failure(IndexOutOfBounds)
      ensures InBound(row, col, n) ==>
                r.Success? && (r.value <==> IsOpen(row, col) == Success(true) && uf.Connected(topSite, Convert(row, col, n)))
    {
      if !InBound(row, col, n) then Failure(IndexOutOfBounds)
      else if !IsOpen(row, col).value then Success(false)
      else
        Success(uf.Connected(topSite, Convert(row, col, n)))
    }

    /** percolates: `ufPerc` connects the top site to the bottom site. */
    predicate Percolates()
      requires Valid()
      reads this, site, uf, ufPerc
    {
      ufPerc.Connected(topSite, bottomSite)
    }

    /** The sites open joins in `uf`: the site itself, the top site on row 1, and the neighbours open in `s`. */
    ghost function Joined(s: seq<int>, row: int, col: int): set<nat>
      requires |s| == GridCells(n) && InBound(row, col, n)
    {
      {Convert(row, col, n)} + (if row == 1 then {topSite} else {}) + OpenNeighbours(s, row, col, n)
    }

    /** The sites open joins in `ufPerc`: those of `uf`, and the bottom site on row n. */
    ghost function JoinedPerc(s: seq<int>, row: int, col: int): set<nat>
      requires |s| == GridCells(n) && InBound(row, col, n)
    {
      Joined(s, row, col) + (if row == n then {bottomSite} else {})
    }

    /**
     * open: out of bounds throws and changes nothing; an open site is left
     * as it is; otherwise the site becomes 1, nothing else in `site`
     * changes, and in each structure exactly the site, its open
     * neighbours and (on the top row) the top site are merged into one
     * component, together with (on the bottom row, in `ufPerc` only) the
     * bottom site. Connections are never lost.
     */
    method Open(row: int, col: int) returns (o: Outcome)
      requires Valid()
      modifies site, uf, ufPerc
      ensures Valid()
      ensures Coarser(old(uf.id), uf.id) && Coarser(old(ufPerc.id), ufPerc.id)
      ensures !InBound(row, col, n) ==>
              o == Fail(IndexOutOfBounds) && site[..] == old(site[..])
              && uf.id == old(uf.id) && ufPerc.id == old(ufPerc.id)
      ensures InBound(row, col, n) ==> o == Pass && site[..] == old(site[..])[Convert(row, col, n) := 1]
      ensures InBound(row, col, n) && old(site[Convert(row, col, n)]) == 1 ==>
                uf.id == old(uf.id) && ufPerc.id == old(ufPerc.id)
      ensures InBound(row, col, n) && old(site[Convert(row, col, n)]) == 0 ==>
                Merged(old(uf.id), uf.id, Joined(old(site[..]), row, col)) &&
                Merged(old(ufPerc.id), ufPerc.id, JoinedPerc(old(site[..]), row, col))
      ensures InBound(row, col, n) && old(site[Convert(row, col, n)]) == 0 ==>
                forall k :: k in OpenNeighbours(old(site[..]), row, col, n) ==>
                  uf.Connected(Convert(row, col, n), k) && ufPerc.Connected(Convert(row, col, n), k)
      ensures InBound(row, col, n) && old(site[Convert(row, col, n)]) == 0 && row == n ==>
                ufPerc.Connected(Convert(row, col, n), bottomSite)
      ensures InBound(row, col, n) && row == 1 ==> IsFull(row, col) == Success(true)
      ensures old(Percolates()) ==> Percolates()
    {
      if !InBound(row, col, n) {
        return Fail(IndexOutOfBounds);
      }
      if IsOpen(row, col).value {
        assert site[..] == old(site[..])[Convert(row, col, n) := 1];
        return Pass;
      }
      ghost var ids, percIds := uf.id, ufPerc.id;
      var currentSite := Convert(row, col, n);
      site[currentSite] := 1;
      assert site[..] == old(site[..])[currentSite := 1];
      ghost var J := JoinTop(currentSite, row, col);
      JoinNeighbours(currentSite, row, col, ids, percIds, J);
      OpenNeighboursIgnoreSelf(old(site[..]), row, col, n, 1);
      assert J + OpenNeighbours(site[..], row, col, n) == Joined(old(site[..]), row, col);
      MergedIsCoarser(ids, uf.id, Joined(old(site[..]), row, col));
      MergedIsCoarser(percIds, ufPerc.id, JoinedPerc(old(site[..]), row, col));
      ConnectsOpened(currentSite, row, col, ids, percIds, old(site[..]));
      return Pass;
    }

    /**
     * The top-row step of open, after the site is set to 1: on row 1 the
     * site is joined to the top site in both structures unless `uf`
     * already connects them. `J` is the set merged so far: the site, and
     * the top site on row 1.
     */
    method JoinTop(currentSite: nat, row: int, col: int) returns (ghost J: set<nat>)
      requires Shape() && InBound(row, col, n) && currentSite == Convert(row, col, n) && site[currentSite] == 1
      requires forall c :: 0 <= c < n && c != currentSite ==> site[c] == 1 ==> uf.Connected(c, topSite)
      modifies uf, ufPerc
      ensures Valid() && J == {currentSite} + (if row == 1 then {topSite} else {})
      ensures Merged(old(uf.id), uf.id, J) && Merged(old(ufPerc.id), ufPerc.id, J)
    {
      MergedStart(uf.id, currentSite);
      MergedStart(ufPerc.id, currentSite);
      J := {currentSite};
      if row == 1 && !uf.Connected(currentSite, topSite) {
        JoinBoth(currentSite, topSite);
        MergedUnion(old(uf.id), old(uf.id), uf.id, J, currentSite, topSite);
        MergedUnion(old(ufPerc.id), old(ufPerc.id), ufPerc.id, J, currentSite, topSite);
        J := J + {topSite};
      } else if row == 1 {
        assert ufPerc.Connected(currentSite, topSite);
        MergedAlready(uf.id, uf.id, J, currentSite, topSite);
        MergedAlready(ufPerc.id, ufPerc.id, J, currentSite, topSite);
        J := J + {topSite};
      } else {
        IndexShift(row - 1, col - 1, n);
        IndexBefore(0, row - 1, n - 1, n);
      }
    }

    /** The joins open promises, read off the merged sets: the site is connected to each open neighbour, and to the bottom site in `ufPerc` on row n. */
    lemma ConnectsOpened(currentSite: nat, row: int, col: int, ids: seq<nat>, percIds: seq<nat>, s: seq<int>)
      requires Shape() && InBound(row, col, n) && currentSite == Convert(row, col, n) && |s| == GridCells(n)
      requires Merged(ids, uf.id, Joined(s, row, col)) && Merged(percIds, ufPerc.id, JoinedPerc(s, row, col))
      ensures forall k :: k in OpenNeighbours(s, row, col, n) ==> uf.Connected(currentSite, k) && ufPerc.Connected(currentSite, k)
      ensures row == n ==> ufPerc.Connected(currentSite, bottomSite)
    {
      forall k | k in OpenNeighbours(s, row, col, n)
        ensures uf.Connected(currentSite, k) && ufPerc.Connected(currentSite, k)
      {
        MergedJoins(ids, uf.id, Joined(s, row, col), currentSite, k);
        MergedJoins(percIds, ufPerc.id, JoinedPerc(s, row, col), currentSite, k);
      }
      if row == n {
        MergedJoins(percIds, ufPerc.id, JoinedPerc(s, row, col), currentSite, bottomSite);
      }
    }

    /**
     * The second half of open: a bottom-row site is joined to the bottom
     * site in `ufPerc`, then the site is joined to each open neighbour
     * below, above, left and right. `J` is what the first half merged.
     */
    method JoinNeighbours(currentSite: nat, row: int, col: int, ghost ids: seq<nat>, ghost percIds: seq<nat>, ghost J: set<nat>)
      requires Valid() && InBound(row, col, n) && currentSite == Convert(row, col, n) && currentSite in J
      requires Merged(ids, uf.id, J) && Merged(percIds, ufPerc.id, J)
      modifies uf, ufPerc
      ensures Valid()
      ensures Merged(ids, uf.id, J + OpenNeighbours(site[..], row, col, n))
      ensures Merged(percIds, ufPerc.id, J + OpenNeighbours(site[..], row, col, n) + (if row == n then {bottomSite} else {}))
    {
      ghost var JP := JoinBottom(currentSite, row, col, percIds, J);
      JoinVertical(currentSite, row, col, ids, percIds, J, JP);
      ghost var below, above := OpenSite(site[..], row + 1, col, n), OpenSite(site[..], row - 1, col, n);
      JoinHorizontal(currentSite, row, col, ids, percIds, J + below + above, JP + below + above);
      ghost var left, right := OpenSite(site[..], row, col - 1, n), OpenSite(site[..], row, col + 1, n);
      Regroup(J, if row == n then {bottomSite} else {}, below, above, left, right);
    }

    /** The bottom-row step of open: on row n the site is joined to the bottom site, in `ufPerc` only. */
    method JoinBottom(currentSite: nat, row: int, col: int, ghost percIds: seq<nat>, ghost J: set<nat>) returns (ghost JP: set<nat>)
      requires Valid() && InBound(row, col, n) && currentSite == Convert(row, col, n) && currentSite in J
      requires Merged(percIds, ufPerc.id, J)
      modifies ufPerc
      ensures Valid() && JP == J + (if row == n then {bottomSite} else {})
      ensures Merged(percIds, ufPerc.id, JP)
      ensures row == n ==> ufPerc.Connected(currentSite, bottomSite)
    {
      JP := J;
      if row == n {
        ufPerc.Union(currentSite, bottomSite);
        MergedUnion(percIds, old(ufPerc.id), ufPerc.id, J, currentSite, bottomSite);
        assert UnionedPair(old(ufPerc.id), ufPerc.id, currentSite, bottomSite, currentSite, bottomSite);
        JP := J + {bottomSite};
      } else {
        assert J + {} == J;
      }
    }

    /** The joins with the open sites below and above (row, col), each where it exists. */
    method JoinVertical(current: nat, row: int, col: int, ghost ids: seq<nat>, ghost percIds: seq<nat>, ghost J: set<nat>, ghost JP: set<nat>)
      requires Valid() && current < topSite && InBound(row, col, n) && current in J && current in JP
      requires Merged(ids, uf.id, J) && Merged(percIds, ufPerc.id, JP)
      modifies uf, ufPerc
      ensures Valid()
      ensures Merged(ids, uf.id, J + OpenSite(site[..], row + 1, col, n) + OpenSite(site[..], row - 1, col, n))
      ensures Merged(percIds, ufPerc.id, JP + OpenSite(site[..], row + 1, col, n) + OpenSite(site[..], row - 1, col, n))
    {
      ghost var below := OpenSite(site[..], row + 1, col, n);
      if row < n {
        JoinIfOpen(current, row + 1, col, ids, percIds, J, JP);
      } else {
        assert J + below == J && JP + below == JP;
      }
      ghost var above := OpenSite(site[..], row - 1, col, n);
      if row > 1 {
        JoinIfOpen(current, row - 1, col, ids, percIds, J + below, JP + below);
      } else {
        assert J + below + above == J + below && JP + below + above == JP + below;
      }
    }

    /** The joins with the open sites left and right of (row, col), each where it exists. */
    method JoinHorizontal(current: nat, row: int, col: int, ghost ids: seq<nat>, ghost percIds: seq<nat>, ghost J: set<nat>, ghost JP: set<nat>)
      requires Valid() && current < topSite && InBound(row, col, n) && current in J && current in JP
      requires Merged(ids, uf.id, J) && Merged(percIds, ufPerc.id, JP)
      modifies uf, ufPerc
      ensures Valid()
      ensures Merged(ids, uf.id, J + OpenSite(site[..], row, col - 1, n) + OpenSite(site[..], row, col + 1, n))
      ensures Merged(percIds, ufPerc.id, JP + OpenSite(site[..], row, col - 1, n) + OpenSite(site[..], row, col + 1, n))
    {
      ghost var left := OpenSite(site[..], row, col - 1, n);
      if col > 1 {
        JoinIfOpen(current, row, col - 1, ids, percIds, J, JP);
      } else {
        assert J + left == J && JP + left == JP;
      }
      ghost var right := OpenSite(site[..], row, col + 1, n);
      if col < n {
        JoinIfOpen(current, row, col + 1, ids, percIds, J + left, JP + left);
      } else {
        assert J + left + right == J + left && JP + left + right == JP + left;
      }
    }

    /**
     * One neighbour step of open: if the site (row, col) is open, it is
     * joined to `current` in both structures, which extends both merged
     * sets by it; otherwise nothing changes.
     */
    method JoinIfOpen(current: nat, row: int, col: int, ghost ids: seq<nat>, ghost percIds: seq<nat>, ghost J: set<nat>, ghost JP: set<nat>)
      requires Valid() && current < topSite && InBound(row, col, n) && current in J && current in JP
      requires Merged(ids, uf.id, J) && Merged(percIds, ufPerc.id, JP)
      modifies uf, ufPerc
      ensures Valid()
      ensures Merged(ids, uf.id, J + OpenSite(site[..], row, col, n))
      ensures Merged(percIds, ufPerc.id, JP + OpenSite(site[..], row, col, n))
      ensures IsOpen(row, col).value ==> uf.Connected(current, Convert(row, col, n)) && ufPerc.Connected(current, Convert(row, col, n))
      ensures !IsOpen(row, col).value ==> uf.id == old(uf.id) && ufPerc.id == old(ufPerc.id)
    {
      if IsOpen(row, col).value {
        var neighbour := Convert(row, col, n);
        JoinBoth(current, neighbour);
        assert OpenSite(site[..], row, col, n) == {neighbour};
        MergedUnion(ids, old(uf.id), uf.id, J, current, neighbour);
        MergedUnion(percIds, old(ufPerc.id), ufPerc.id, JP, current, neighbour);
      } else {
        assert J + OpenSite(site[..], row, col, n) == J && JP + OpenSite(site[..], row, col, n) == JP;
      }
    }

    /** The same union in both structures, between two sites other than the bottom site. */
    method JoinBoth(p: nat, q: nat)
      requires Shape() && p <= topSite && q <= topSite
      modifies uf, ufPerc
      ensures Shape() && uf.Connected(p, q) && ufPerc.Connected(p, q)
      ensures Unioned(old(uf.id), uf.id, p, q) && Unioned(old(ufPerc.id), ufPerc.id, p, q)
      ensures Coarser(old(uf.id), uf.id)
      ensures old(TopRowFull()) ==> TopRowFull()
    {
      assert !uf.Connected(p, bottomSite) && !uf.Connected(q, bottomSite);
      label before:
      uf.Union(p, q);
      ufPerc.Union(p, q);
      forall x, y | 0 <= x < |uf.id| && 0 <= y < |uf.id| && uf.id[x] == uf.id[y]
        ensures ufPerc.id[x] == ufPerc.id[y]
      {
        assert UnionedPair(old@before(uf.id), uf.id, p, q, x, y);
        assert UnionedPair(old@before(ufPerc.id), ufPerc.id, p, q, x, y);
        assert old@before(uf.Connected(x, p)) ==> old@before(ufPerc.Connected(x, p));
        assert old@before(uf.Connected(x, q)) ==> old@before(ufPerc.Connected(x, q));
        assert old@before(uf.Connected(y, p)) ==> old@before(ufPerc.Connected(y, p));
        assert old@before(uf.Connected(y, q)) ==> old@before(ufPerc.Connected(y, q));
        assert old@before(uf.Connected(x, y)) ==> old@before(ufPerc.Connected(x, y));
      }
      forall x | 0 <= x < |uf.id| && x != bottomSite
        ensures !uf.Connected(x, bottomSite)
      {
        assert UnionedPair(old@before(uf.id), uf.id, p, q, x, bottomSite);
      }
      assert UnionedPair(old@before(uf.id), uf.id, p, q, p, q);
      assert UnionedPair(old@before(ufPerc.id), ufPerc.id, p, q, p, q);
    }
  }

  /**
   * On a 2-by-2 grid, opening (1, 1) and then (2, 1) fills (2, 1) and
   * makes the system percolate, and `uf` connects the two opened sites.
   */
  method OpenColumnPercolates() returns (full: Result<bool>, connected: bool, percolates: bool)
    ensures full == Success(true) && connected && percolates
  {
    var grid := new Percolation(2);
    var o := grid.Open(1, 1);
    ghost var s1 := grid.site[..];
    assert s1[Convert(1, 1, 2)] == 1;
    o := grid.Open(2, 1);
    assert Convert(1, 1, 2) in OpenNeighbours(s1, 2, 1, 2);
    full := grid.IsFull(2, 1);
    connected := grid.uf.Connected(0, 2);
    percolates := grid.Percolates();
  }
}
