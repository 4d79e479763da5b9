/**
 * The randomized queue: a resizing array holding the items in its first
 * `numOfElements` slots, doubled when full and halved when a quarter full,
 * which dequeues by moving the last item into the removed slot.
 *
 * Java's null items and empty slots are `None`. The index that
 * `StdRandom.uniform(numOfElements)` would draw is the argument `r`.
 */
module RandomizedQueues {
  import opened Wrappers

  /** The values of a run of filled slots. */
  function Values<T>(s: seq<Option<T>>): (r: seq<T>)
    requires forall i :: 0 <= i < |s| ==> s[i].Some?
    ensures |r| == |s|
    ensures forall i :: 0 <= i < |s| ==> s[i] == Some(r[i])
  {
    if s == [] then [] else Values(s[..|s| - 1]) + [s[|s| - 1].value]
  }

  /** The items left when the item at `r` is replaced by the last one and the last slot dropped. */
  function SwapRemove<T>(s: seq<T>, r: nat): seq<T>
    requires r < |s|
  {
    s[r := s[|s| - 1]][..|s| - 1]
  }

  /** Removing by swap-with-last keeps every item but the one at `r`, and keeps the others' order except for the moved last item. */
  lemma SwapRemoveContents<T>(s: seq<T>, r: nat)
    requires r < |s|
    ensures |SwapRemove(s, r)| == |s| - 1
    ensures multiset(SwapRemove(s, r)) == multiset(s) - multiset{s[r]}
    ensures forall i :: 0 <= i < |s| - 1 && i != r ==> SwapRemove(s, r)[i] == s[i]
    ensures r < |s| - 1 ==> SwapRemove(s, r)[r] == s[|s| - 1]
  {
    var last := |s| - 1;
    var init := s[..last];
    assert s == init + [s[last]];
    if r == last {
      assert SwapRemove(s, r) == init;
    } else {
      assert SwapRemove(s, r) == init[r := s[last]];
      assert init[r] == s[r];
      calc {
        multiset(SwapRemove(s, r));
        multiset(init) - multiset{s[r]} + multiset{s[last]};
        { assert s[r] in multiset(init); }
        multiset(init) + multiset{s[last]} - multiset{s[r]};
        multiset(s) - multiset{s[r]};
      }
    }
  }

  class RandomizedQueue<T> {
    var numOfElements: nat
    var elements: array<Option<T>>

    /** At least one slot; the items fill the slots below numOfElements and the rest are null. */
    ghost predicate Valid()
      reads this, elements
    {
      1 <= elements.Length && numOfElements <= elements.Length &&
      (forall i :: 0 <= i < numOfElements ==> elements[i].Some?) &&
      (forall i :: numOfElements <= i < elements.Length ==> elements[i].None?)
    }

    /** The items, in slot order. */
    ghost function Items(): (s: seq<T>)
      requires Valid()
      reads this, elements
      ensures |s| == numOfElements
    {
      Values(elements[..numOfElements])
    }

    /** RandomizedQueue(): one empty slot. */
    constructor ()
      ensures Valid() && fresh(elements)
      ensures elements.Length == 1 && Items() == []
    {
      numOfElements := 0;
      elements := new Option<T>[1](_ => None);
    }

    /** isEmpty: no items. */
    predicate IsEmpty()
      requires Valid()
      reads this, elements
      ensures IsEmpty() <==> Items() == []
    {
      numOfElements == 0
    }

    /** size: the number of items. */
    function Size(): (n: nat)
      requires Valid()
      reads this, elements
      ensures n == |Items()|
    {
      numOfElements
    }

    /**
     * enqueue: a null item throws NullPointerException and changes nothing;
     * otherwise a full array is doubled first, and the item goes in the
     * first free slot.
     */
    method Enqueue(item: Option<T>) returns (o: Outcome)
      requires Valid()
      modifies this, elements
      ensures Valid() && (elements == old(elements) || fresh(elements))
      ensures item.None? ==> o == Fail(NullPointer) && Items() == old(Items()) && elements.Length == old(elements.Length)
      ensures item.Some? ==> o == Pass && Items() == old(Items()) + [item.value]
      ensures item.Some? ==>
                elements.Length == if old(numOfElements) == old(elements.Length) then 2 * old(elements.Length) else old(elements.Length)
    {
      if item.None? {
        return Fail(NullPointer);
      }
      ghost var was := Items();
      if numOfElements == elements.Length {
        Resize(2 * elements.Length);
      }
      elements[numOfElements] := item;
      numOfElements := numOfElements + 1;
      assert elements[..numOfElements] == elements[..numOfElements - 1] + [item];
      return Pass;
    }

    /** resize: a fresh array of the given capacity holding the items in the same slots. */
    method Resize(capacity: nat)
      requires Valid() && numOfElements <= capacity && 1 <= capacity
      modifies this
      ensures Valid() && fresh(elements)
      ensures elements.Length == capacity && numOfElements == old(numOfElements)
      ensures Items() == old(Items())
    {
      var copy := new Option<T>[capacity](_ => None);
      for i := 0 to numOfElements
        modifies copy
        invariant copy[..i] == elements[..i]
        invariant forall j :: i <= j < capacity ==> copy[j].None?
      {
        copy[i] := elements[i];
      }
      assert copy[..numOfElements] == elements[..numOfElements];
      elements := copy;
    }

    /**
     * dequeue: an empty queue throws NoSuchElementException; otherwise the
     * item in slot r is returned, the last item moves into its slot, and the
     * array is halved once only a quarter of it is in use.
     */
    method Dequeue(r: nat) returns (x: Result<T>)
      requires Valid() && (r < numOfElements || numOfElements == 0)
      modifies this, elements
      ensures Valid() && (elements == old(elements) || fresh(elements))
      ensures old(numOfElements) == 0 ==> x == Failure(NoSuchElement) && Items() == old(Items())
      ensures old(numOfElements) > 0 ==> x == Success(old(Items())[r]) && Items() == SwapRemove(old(Items()), r)
      ensures old(numOfElements) > 0 ==> multiset(Items()) == multiset(old(Items())) - multiset{x.value}
      ensures elements.Length ==
                if 0 < numOfElements == old(elements.Length) / 4 then old(elements.Length) / 2 else old(elements.Length)
    {
      if numOfElements == 0 {
        return Failure(NoSuchElement);
      }
      ghost var was := Items();
      var item := TakeSlot(r);
      SwapRemoveContents(was, r);
      if numOfElements > 0 && numOfElements == elements.Length / 4 {
        Resize(elements.Length / 2);
      }
      return Success(item);
    }

    /** The first half of dequeue: take the item in slot r, move the last item there, null the last slot. */
    method TakeSlot(r: nat) returns (item: T)
      requires Valid() && r < numOfElements
      modifies this`numOfElements, elements
      ensures Valid() && numOfElements == old(numOfElements) - 1
      ensures item == old(Items())[r] && Items() == SwapRemove(old(Items()), r)
    {
      ghost var slots := elements[..numOfElements];
      item := elements[r].value;
      elements[r] := elements[numOfElements - 1];
      numOfElements := numOfElements - 1;
      elements[numOfElements] := None;
      assert elements[..numOfElements] == SwapRemove(slots, r);
    }

    /** sample: an empty queue throws NoSuchElementException; otherwise the item in slot r, and nothing changes. */
    function Sample(r: nat): (x: Result<T>)
      requires Valid() && (r < numOfElements || numOfElements == 0)
      reads this, elements
      ensures numOfElements == 0 ==> x == Failure(NoSuchElement)
      ensures numOfElements > 0 ==> x.Success? && x.value == Items()[r] && x.value in multiset(Items())
    {
      if numOfElements == 0 then Failure(NoSuchElement) else Success(elements[r].value)
    }
  }
}
