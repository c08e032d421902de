/** The absent-or-present value used for Python's `None` returns. */
module Wrappers {

  datatype Option<+T> = None | Some(value: T)

  /** A Python value held by the singly-linked list, the stacks and the queues:
      `None` or an integer. */
  type Value = Option<int>
}
