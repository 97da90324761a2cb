/** The fixed-capacity FIFO queue in front of the capture sink. */
module RingBuffer {
  import opened Arithmetic
  import opened Wrappers

  /** The slot `i` places after `head` in a ring of `n`. */
  function Slot(n: nat, head: nat, i: nat): (s: nat)
    requires head < n && i < n
    ensures s < n
  {
    if head + i < n then head + i else head + i - n
  }

  lemma SlotIsModular(n: nat, head: nat, i: nat)
    requires head < n && i < n
    ensures Slot(n, head, i) == (head + i) % n
  {
    if head + i < n {
      DivisionUnique(head + i, n, 0, head + i);
    } else {
      DivisionUnique(head + i, n, 1, head + i - n);
    }
  }

  lemma NextSlot(n: nat, head: nat)
    requires head < n
    ensures (head + 1) % n == if head + 1 < n then head + 1 else 0
  {
    if n == 1 {
      assert (head + 1) % n == 0;
    } else {
      SlotIsModular(n, head, 1);
    }
  }

  class RingBuffer<T> {
    const items: array<Option<T>>
    var head: nat
    var count: nat

    /** Live slots are filled; every other slot has been released. */
    ghost predicate Valid()
      reads this, items
    {
      && count <= items.Length
      && (if items.Length == 0 then head == 0 else head < items.Length)
      && (forall i | 0 <= i < items.Length :: items[Slot(items.Length, head, i)].Some? <==> i < count)
    }

    ghost function Contents(): (c: seq<T>)
      requires Valid()
      reads this, items
      ensures |c| == count
    {
      seq(count, i requires 0 <= i < count && Valid() reads this, items =>
            items[Slot(items.Length, head, i)].value)
    }

    /** An empty ring; one built with no positive capacity takes nothing. */
    constructor (capacity: int)
      ensures Valid() && fresh(items) && Contents() == []
      ensures items.Length == if capacity > 0 then capacity else 0
    {
      items := new Option<T>[if capacity > 0 then capacity else 0](i => None);
      head, count := 0, 0;
    }

    /** Appends, or reports fullness and stores nothing. */
    method Push(item: T) returns (pushed: bool)
      requires Valid()
      modifies this, items
      ensures Valid()
      ensures pushed <==> |old(Contents())| < items.Length
      ensures Contents() == if pushed then old(Contents()) + [item] else old(Contents())
    {
      if count >= items.Length {
        return false;
      }
      SlotIsModular(items.Length, head, count);
      items[(head + count) % items.Length] := Some(item);
      count := count + 1;
      assert forall i | 0 <= i < count - 1 ::
          items[Slot(items.Length, head, i)] == old(items[Slot(items.Length, head, i)]);
      return true;
    }

    /** Removes the oldest item; its slot keeps no reference to it. */
    method Shift() returns (item: Option<T>)
      requires Valid()
      modifies this, items
      ensures Valid()
      ensures old(Contents()) == [] ==> item == None && Contents() == []
      ensures old(Contents()) != [] ==>
                item == Some(old(Contents())[0]) && Contents() == old(Contents())[1..]
    {
      if count == 0 {
        return None;
      }
      ghost var n, front := items.Length, head;
      assert Slot(n, front, 0) == front;
      item := items[head];
      items[head] := None;
      NextSlot(n, front);
      head := (head + 1) % items.Length;
      count := count - 1;
      assert forall i | 0 <= i < n - 1 :: Slot(n, head, i) == Slot(n, front, i + 1);
      assert Slot(n, head, n - 1) == front;
    }
  }
}
