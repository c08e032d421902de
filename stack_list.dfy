/** The list-backed stack of src/stack/stack_list.py. */
module StackList {
  import opened Wrappers
  import opened SeqStorage

  class Stack {
    /** The Python list, bottom of the stack first. */
    var storage: seq<Value>

    constructor ()
      ensures storage == []
    {
      storage := [];
    }

    /** `__len__`: the number of stored values. */
    method Len() returns (n: int)
      ensures n == |storage|
    {
      n := |storage|;
    }

    /** `push`: `append` the value at the right end. */
    method Push(value: Value)
      modifies this
      ensures storage == old(storage) + [value]
    {
      storage := storage + [value];
    }

    /** `pop`: None and no change when empty, otherwise the list's own `pop`,
        which removes and returns the rightmost value. */
    method Pop() returns (r: Value)
      modifies this
      ensures Popping(r, storage) == SeqStorage.Pop(old(storage))
    {
      if |storage| == 0 {
        return None;
      }
      r := storage[|storage| - 1];
      storage := storage[..|storage| - 1];
    }
  }
}
