/** The list-backed queue of src/queue/queue_list.py: values enter at index 0 and
    leave from the right end. */
module QueueList {
  import opened Wrappers
  import opened SeqStorage

  class Queue {
    /** The Python list, newest value first. */
    var storage: seq<Value>

    constructor ()
      ensures storage == []
    {
      storage := [];
    }

    /** `__len__`: the number of stored values. */
    method Len() returns (n: int)
      ensures n == |storage|
    {
      n := |storage|;
    }

    /** `enqueue`: `insert(0, value)`, at the left end. */
    method Enqueue(value: Value)
      modifies this
      ensures storage == [value] + old(storage)
    {
      storage := [value] + storage;
    }

    /** `dequeue`: None and no change when empty, otherwise the list's own `pop`,
        which removes and returns the rightmost, oldest, value. */
    method Dequeue() returns (r: Value)
      modifies this
      ensures Popping(r, storage) == SeqStorage.Pop(old(storage))
    {
      if |storage| == 0 {
        return None;
      }
      r := storage[|storage| - 1];
      storage := storage[..|storage| - 1];
    }
  }
}
