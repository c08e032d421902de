/** The stack of src/stack/stack_linked_singly.py: a `size` counter beside a
    singly-linked list whose tail is the top of the stack. */
module StackLinked {
  import opened Wrappers
  import opened SeqStorage
  import SinglyLinked

  class Stack {
    var size: int
    var storage: SinglyLinked.LinkedList

    ghost predicate Valid()
      reads this, storage, storage.nodes
    {
      storage.Valid()
    }

    /** The stored values, bottom of the stack first. */
    ghost function Contents(): seq<Value>
      reads this, storage
    {
      storage.Values()
    }

    constructor ()
      ensures Valid() && fresh(storage) && size == 0 && Contents() == []
    {
      size := 0;
      storage := new SinglyLinked.LinkedList();
    }

    /** `__len__`: the counter, which is the number of stored values for as long
        as no None has been pushed and popped (see `Pop`). */
    method Len() returns (n: int)
      requires Valid()
      ensures n == size
    {
      n := size;
    }

    /** `push`: count one more and append the value at the storage tail. */
    method Push(value: Value)
      requires Valid()
      modifies this, storage, storage.tail
      ensures Valid() && storage == old(storage)
      ensures size == old(size) + 1 && Contents() == old(Contents()) + [value]
      ensures old(size) == |old(Contents())| ==> size == |Contents()|
      ensures fresh(storage.tail) && storage.nodes == old(storage.nodes) + [storage.tail]
    {
      size := size + 1;
      storage.AddToTail(value);
    }

    /** `pop`: `remove_tail`, which gives None on an empty storage and otherwise
        removes and returns the top value; the counter goes down only when the
        value returned is not None. So popping a pushed None removes it from the
        storage but leaves the counter as it was. */
    method Pop() returns (r: Value)
      requires Valid()
      modifies this, storage, storage.nodes
      ensures Valid() && storage == old(storage)
      ensures Popping(r, Contents()) == SeqStorage.Pop(old(Contents()))
      ensures size == if r != None then old(size) - 1 else old(size)
      ensures old(size) == |old(Contents())| ==>
        size == |Contents()| + (if old(Contents()) != [] && r == None then 1 else 0)
    {
      ghost var c := Contents();
      r := storage.RemoveTail();
      PopOfLast(c, r, Contents());
      if r != None {
        size := size - 1;
      }
    }

    /** `pop` as evidently intended: the counter goes down whenever a value was
        removed, None or not, so it keeps counting the stored values. */
    method PopCounted() returns (r: Value)
      requires Valid()
      modifies this, storage, storage.nodes
      ensures Valid() && storage == old(storage)
      ensures Popping(r, Contents()) == SeqStorage.Pop(old(Contents()))
      ensures size == if old(Contents()) != [] then old(size) - 1 else old(size)
      ensures old(size) == |old(Contents())| ==> size == |Contents()|
    {
      ghost var c := Contents();
      var nonEmpty := storage.head != null;
      r := storage.RemoveTail();
      PopOfLast(c, r, Contents());
      if nonEmpty {
        size := size - 1;
      }
    }
  }

  /** Pushing None and popping it: the storage is empty again but `len` says 1. */
  method NoneDriftScenario() returns (s: Stack, n: int)
    ensures s.Valid() && s.Contents() == [] && n == 1
  {
    s := new Stack();
    s.Push(None);
    var _ := s.Pop();
    n := s.Len();
  }

  /** The same steps with the counting `pop`: `len` says 0. */
  method CountedScenario() returns (s: Stack, n: int)
    ensures s.Valid() && s.Contents() == [] && n == 0
  {
    s := new Stack();
    s.Push(None);
    var _ := s.PopCounted();
    n := s.Len();
  }
}
