/**
 * The linked deque: a doubly-linked list reached through its first and last
 * nodes, with a counter that `size` reports.
 *
 * Java's null items are `None`; thrown exceptions are `Fail`/`Failure`
 * results. The abstract contents are the ghost sequence `items`, and the
 * ghost sequence `nodes` names the node that holds each item, front to back.
 */
module Deques {
  import opened Wrappers

  class Node<T> {
    var previous: Node?<T>
    var next: Node?<T>
    var item: T

    constructor (item: T, previous: Node?<T>, next: Node?<T>)
      ensures this.item == item && this.previous == previous && this.next == next
    {
      this.item := item;
      this.previous := previous;
      this.next := next;
    }
  }

  class Deque<T> {
    var count: int
    var firstNode: Node?<T>
    var lastNode: Node?<T>
    ghost var items: seq<T>
    ghost var nodes: seq<Node<T>>
    ghost var Repr: set<object>

    /**
     * The nodes are distinct, hold the items in order, and are chained both
     * ways; firstNode and lastNode are the two ends, null when there are none.
     */
    ghost predicate Valid()
      reads this, Repr
    {
      this in Repr &&
      (forall i :: 0 <= i < |nodes| ==> nodes[i] in Repr) &&
      |nodes| == |items| &&
      (forall i, j :: 0 <= i < j < |nodes| ==> nodes[i] != nodes[j]) &&
      (forall i :: 0 <= i < |nodes| ==> nodes[i].item == items[i]) &&
      (forall i :: 0 < i < |nodes| ==> nodes[i].previous == nodes[i - 1]) &&
      (forall i :: 0 <= i < |nodes| - 1 ==> nodes[i].next == nodes[i + 1]) &&
      (nodes == [] ==> firstNode == null && lastNode == null) &&
      (nodes != [] ==>
         firstNode == nodes[0] && firstNode.previous == null &&
         lastNode == nodes[|nodes| - 1] && lastNode.next == null)
    }

    /** Deque(): no nodes, count 0. */
    constructor ()
      ensures Valid() && fresh(Repr)
      ensures items == [] && count == 0
    {
      count := 0;
      firstNode := null;
      lastNode := null;
      items := [];
      nodes := [];
      Repr := {this};
    }

    /** isEmpty: both ends are null, which happens exactly when there are no items. */
    predicate IsEmpty()
      requires Valid()
      reads this, Repr
      ensures IsEmpty() <==> items == []
    {
      firstNode == null && lastNode == null
    }

    /** size: the counter, which addLast and the removals leave behind the items. */
    function Size(): int
      reads this
    {
      count
    }

    /**
     * addFirst: a null item throws NullPointerException and changes nothing;
     * otherwise the item becomes the first, the rest keep their order, and
     * the counter goes up by one.
     */
    method AddFirst(item: Option<T>) returns (o: Outcome)
      requires Valid()
      modifies Repr
      ensures Valid() && fresh(Repr - old(Repr))
      ensures item.None? ==> o == Fail(NullPointer) && items == old(items) && count == old(count)
      ensures item.Some? ==> o == Pass && items == [item.value] + old(items) && count == old(count) + 1
    {
      if item.None? {
        return Fail(NullPointer);
      }
      if IsEmpty() {
        var elementNode := new Node(item.value, null, null);
        firstNode := elementNode;
        lastNode := elementNode;
        count := count + 1;
        items, nodes, Repr := [item.value], [elementNode], Repr + {elementNode};
        return Pass;
      }
      ghost var was := nodes;
      assert was[0] in Repr;
      var oldFirstNode := firstNode;
      firstNode := new Node(item.value, null, oldFirstNode);
      count := count + 1;
      if oldFirstNode != null {
        oldFirstNode.previous := firstNode;
      }
      items, nodes, Repr := [item.value] + items, [firstNode] + nodes, Repr + {firstNode};
      forall i | 1 <= i < |nodes|
        ensures nodes[i].previous == nodes[i - 1]
        ensures nodes[i].next == (if i == |nodes| - 1 then null else nodes[i + 1])
      {
        assert nodes[i] == was[i - 1];
        if i > 1 {
          assert was[i - 1] != was[0];
        }
      }
      return Pass;
    }

    /**
     * addLast: a null item throws NullPointerException and changes nothing;
     * otherwise the item becomes the last and the rest keep their order. The
     * counter goes up only when the deque was empty.
     */
    method AddLast(item: Option<T>) returns (o: Outcome)
      requires Valid()
      modifies Repr
      ensures Valid() && fresh(Repr - old(Repr))
      ensures item.None? ==> o == Fail(NullPointer) && items == old(items) && count == old(count)
      ensures item.Some? ==> o == Pass && items == old(items) + [item.value]
      ensures item.Some? ==> count == old(count) + (if old(items) == [] then 1 else 0)
    {
      if item.None? {
        return Fail(NullPointer);
      }
      if IsEmpty() {
        var elementNode := new Node(item.value, null, null);
        firstNode := elementNode;
        lastNode := elementNode;
        count := count + 1;
        items, nodes, Repr := [item.value], [elementNode], Repr + {elementNode};
        return Pass;
      }
      ghost var was := nodes;
      assert was[|was| - 1] in Repr;
      var newLastNode := new Node(item.value, lastNode, null);
      lastNode.next := newLastNode;
      lastNode := newLastNode;
      items, nodes, Repr := items + [item.value], nodes + [newLastNode], Repr + {newLastNode};
      forall i | 0 <= i < |nodes| - 1
        ensures nodes[i].previous == (if i == 0 then null else nodes[i - 1])
        ensures nodes[i].next == nodes[i + 1]
      {
        assert nodes[i] == was[i];
        if i < |was| - 1 {
          assert was[i] != was[|was| - 1];
        }
      }
      return Pass;
    }

    /**
     * removeFirst: an empty deque throws NoSuchElementException; otherwise
     * the first item is returned and removed. The counter never changes.
     */
    method RemoveFirst() returns (r: Result<T>)
      requires Valid()
      modifies Repr
      ensures Valid() && Repr <= old(Repr) && count == old(count)
      ensures old(items) == [] ==> r == Failure(NoSuchElement) && items == old(items)
      ensures old(items) != [] ==> r == Success(old(items)[0]) && items == old(items)[1..]
    {
      if firstNode == null && lastNode == null {
        return Failure(NoSuchElement);
      }
      ghost var was := nodes;
      var f := firstNode;
      assert |was| > 1 ==> f.next == was[1] && was[1] in Repr;
      firstNode := f.next;
      if firstNode == null {
        lastNode := null;
      } else {
        firstNode.previous := null;
      }
      items, nodes := items[1..], nodes[1..];
      forall i | 0 <= i < |nodes|
        ensures nodes[i].previous == (if i == 0 then null else nodes[i - 1])
        ensures nodes[i].next == (if i == |nodes| - 1 then null else nodes[i + 1])
      {
        assert nodes[i] == was[i + 1];
        if i > 0 {
          assert was[i + 1] != was[1];
        }
      }
      return Success(f.item);
    }

    /**
     * removeLast: an empty deque throws NoSuchElementException; otherwise
     * the last item is returned and removed, and its node is unlinked. The
     * counter never changes.
     */
    method RemoveLast() returns (r: Result<T>)
      requires Valid()
      modifies Repr
      ensures Valid() && Repr <= old(Repr) && count == old(count)
      ensures old(items) == [] ==> r == Failure(NoSuchElement) && items == old(items)
      ensures old(items) != [] ==> r == Success(old(items)[|old(items)| - 1]) && items == old(items)[..|old(items)| - 1]
    {
      if firstNode == null && lastNode == null {
        return Failure(NoSuchElement);
      }
      ghost var was := nodes;
      var l := lastNode;
      assert |was| > 1 ==> l.previous == was[|was| - 2] && was[|was| - 2] in Repr;
      assert |was| == 1 ==> l.previous == null;
      lastNode := l.previous;
      if lastNode == null {
        firstNode := null;
      } else {
        lastNode.next := null;
      }
      l.next := null;
      l.previous := null;
      items, nodes := items[..|items| - 1], nodes[..|nodes| - 1];
      forall i | 0 <= i < |nodes|
        ensures nodes[i].previous == (if i == 0 then null else nodes[i - 1])
        ensures nodes[i].next == (if i == |nodes| - 1 then null else nodes[i + 1])
      {
        assert nodes[i] == was[i];
        assert was[i] != was[|was| - 1];
        if i < |nodes| - 1 {
          assert was[i] != was[|was| - 2];
        }
      }
      return Success(l.item);
    }

    /** The iterator: following `next` from the first node yields the items front to back. */
    method Iterate() returns (s: seq<T>)
      requires Valid()
      ensures s == items
    {
      s := [];
      var current := firstNode;
      var i := 0;
      while current != null
        invariant 0 <= i <= |nodes|
        invariant current == (if i < |nodes| then nodes[i] else null)
        invariant s == items[..i]
        decreases |nodes| - i
      {
        s := s + [current.item];
        current := current.next;
        i := i + 1;
      }
    }

    /*
     * The counter was evidently meant to be the number of items, as the
     * comment on size says. The methods below are the operations with the
     * missing counter updates put back; each keeps `count == |items|`.
     */

    /** The number of items equals the counter. */
    ghost predicate Counted()
      reads this
    {
      count == |items|
    }

    /** addLast, counting every added item. */
    method AddLastCounted(item: Option<T>) returns (o: Outcome)
      requires Valid() && Counted()
      modifies Repr
      ensures Valid() && Counted() && fresh(Repr - old(Repr))
      ensures item.None? ==> o == Fail(NullPointer) && items == old(items)
      ensures item.Some? ==> o == Pass && items == old(items) + [item.value]
    {
      var wasEmpty := IsEmpty();
      o := AddLast(item);
      if o == Pass && !wasEmpty {
        count := count + 1;
      }
    }

    /** removeFirst, uncounting the removed item. */
    method RemoveFirstCounted() returns (r: Result<T>)
      requires Valid() && Counted()
      modifies Repr
      ensures Valid() && Counted() && Repr <= old(Repr)
      ensures old(items) == [] ==> r == Failure(NoSuchElement) && items == old(items)
      ensures old(items) != [] ==> r == Success(old(items)[0]) && items == old(items)[1..]
    {
      r := RemoveFirst();
      if r.Success? {
        count := count - 1;
      }
    }

    /** removeLast, uncounting the removed item. */
    method RemoveLastCounted() returns (r: Result<T>)
      requires Valid() && Counted()
      modifies Repr
      ensures Valid() && Counted() && Repr <= old(Repr)
      ensures old(items) == [] ==> r == Failure(NoSuchElement) && items == old(items)
      ensures old(items) != [] ==> r == Success(old(items)[|old(items)| - 1]) && items == old(items)[..|old(items)| - 1]
    {
      r := RemoveLast();
      if r.Success? {
        count := count - 1;
      }
    }
  }

  /** As written: after addFirst(a) and addLast(b), size() is 1 although the deque holds two items. */
  method SizeAfterAddFirstAddLast<T>(a: T, b: T) returns (size: int, held: seq<T>)
    ensures size == 1 && held == [a, b]
  {
    var d := new Deque<T>();
    var _ := d.AddFirst(Some(a));
    var _ := d.AddLast(Some(b));
    size := d.Size();
    held := d.Iterate();
  }

  /** With the counter updates put back, the same calls leave size() at 2. */
  method SizeAfterAddFirstAddLastCounted<T>(a: T, b: T) returns (size: int, held: seq<T>)
    ensures size == 2 && held == [a, b]
  {
    var d := new Deque<T>();
    var _ := d.AddFirst(Some(a));
    var _ := d.AddLastCounted(Some(b));
    size := d.Size();
    held := d.Iterate();
  }
}
