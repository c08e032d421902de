/** The doubly-linked list of doubly_linked_list/doubly_linked_list.py at the root
    of the repository. Its node class, constructor, `__repr__`, `__len__`,
    `add_to_*`, `remove_*` and `get_max` are the same code as in the src copy and
    share its model (class `DoublyLinkedGuarded.DoublyLinkedList`). Only
    `move_to_front`, `move_to_end` and `delete` differ: they do not look for a None
    or unattached node, so they must be given a node of the list, and `delete`
    clears the removed node's links. They are modelled here as operations on that
    same class. */
module DoublyLinkedUnguarded {
  import opened Wrappers
  import opened Splice
  import opened DoublyLinkedNodes
  import opened DoublyLinkedGuarded

  /** `move_to_front` without guards: a no-op on an empty list and for the head;
      otherwise the node is spliced out and becomes the head, the other nodes
      keeping their order. */
  method MoveToFront(list: DoublyLinkedList, node: Node?)
    requires list.Valid() && (list.nodes != [] ==> node != null && node in list.nodes)
    modifies list, list.nodes
    ensures list.Valid() && list.stale == old(list.stale)
    ensures old(list.nodes) == [] || node == old(list.head) ==>
      unchanged(list) && unchanged(old(list.nodes))
    ensures node != null && node in old(list.nodes) ==>
      && list.nodes == Splice.MoveToFront(old(list.nodes), IndexOf(old(list.nodes), node))
      && list.Values() == Splice.MoveToFront(old(list.Values()), IndexOf(old(list.nodes), node))
  ensures node != null && node in old(list.nodes) && node != old(list.head) ==>
    list.head == node && list.head.prev == null
  {
    if list.size == 0 {
      return;
    }
    if list.head == node {
      HeadStays(list.nodes, node);
      return;
    }
    list.SpliceToFront(node, IndexOf(list.nodes, node));
  }

  /** `move_to_end` without guards: a no-op on an empty list and for the tail;
      otherwise the node is spliced out and becomes the tail, the other nodes
      keeping their order, and nothing stale is left behind the tail. */
  method MoveToEnd(list: DoublyLinkedList, node: Node?)
    requires list.Valid() && (list.nodes != [] ==> node != null && node in list.nodes)
    modifies list, list.nodes
    ensures list.Valid()
    ensures old(list.nodes) == [] || node == old(list.tail) ==>
      unchanged(list) && unchanged(old(list.nodes))
    ensures node != null && node in old(list.nodes) && node != old(list.tail) ==> list.stale == []
    ensures node != null && node in old(list.nodes) ==>
      && list.nodes == Splice.MoveToEnd(old(list.nodes), IndexOf(old(list.nodes), node))
      && list.Values() == Splice.MoveToEnd(old(list.Values()), IndexOf(old(list.nodes), node))
  ensures node != null && node in old(list.nodes) && node != old(list.tail) ==>
    list.tail == node && list.head.prev == old(list.head.prev)
  {
    if list.size == 0 {
      return;
    }
    if node == list.tail {
      TailStays(list.nodes, node);
      return;
    }
    list.SpliceToEnd(node, IndexOf(list.nodes, node));
  }

  /** `delete` without guards: None and no change for an empty list. A list of one
      node is emptied whatever node is given, and that node's value returned.
      Otherwise the node leaves the chain, both its links are cleared and its
      value is returned. The new head's `prev` still points at a removed head;
      the new tail's `next` still points at a removed tail, which is then all
      that is stale (its own `next` is cleared). */
  method Delete(list: DoublyLinkedList, node: Node?) returns (r: Option<int>)
    requires list.Valid()
    requires list.nodes != [] ==> node != null
    requires |list.nodes| > 1 ==> node in list.nodes
    modifies list, list.nodes
    ensures list.Valid()
    ensures old(list.nodes) == [] ==> r == None && unchanged(list)
    ensures |old(list.nodes)| == 1 ==>
      && r == Some(node.value) && list.nodes == [] && list.stale == []
      && node.next == old(node.next) && node.prev == old(node.prev)
    ensures |old(list.nodes)| > 1 ==>
      var i := IndexOf(old(list.nodes), node);
      && r == Some(node.value)
      && list.nodes == RemoveAt(old(list.nodes), i)
      && list.Values() == RemoveAt(old(list.Values()), i)
      && node.next == null && node.prev == null
      && (i == 0 ==> list.head.prev == node && list.stale == old(list.stale))
      && (0 < i < |old(list.nodes)| - 1 ==> list.stale == old(list.stale))
      && (i == |old(list.nodes)| - 1 ==> list.tail.next == node && list.stale == [node])
      && (0 < i ==> list.head == old(list.head) && list.head.prev == old(list.head.prev))
  {
    if list.size == 0 {
      return None;
    }
    var removed := node.value;
    if list.size == 1 {
      list.head, list.tail, list.size := null, null, 0;
      list.nodes, list.stale := [], [];
      ShapeClosed([], null, null);
    } else {
      ghost var i := IndexOf(list.nodes, node);
      ghost var last := |list.nodes| - 1;
      SpliceOutFacts(list.nodes, list.stale, i);
      list.Unchain(node, i);
      ClearLinks(list, node, i == last);
    }
    return Some(removed);
  }

  /** Clearing the links of a node that has just left the chain: the shape is
      kept, and when it was the tail it is now the only stale node. */
  method ClearLinks(list: DoublyLinkedList, node: Node, ghost wasTail: bool)
    requires list.Valid() && node !in list.nodes && list.nodes != []
    requires wasTail ==> list.stale != [] && list.stale[0] == node
    requires !wasTail ==> node !in list.stale
    modifies node, list
    ensures list.Valid() && node.next == null && node.prev == null
    ensures list.nodes == old(list.nodes) && list.head == old(list.head) && list.tail == old(list.tail)
    ensures list.stale == if wasTail then [node] else old(list.stale)
    ensures list.head.prev == old(list.head.prev) && list.tail.next == old(list.tail.next)
  {
    ghost var ns := list.nodes;
    SegmentEnds(ns);
    node.next, node.prev := null, null;
    SegmentKept(ns);
    if wasTail {
      list.stale := [node];
    } else {
      NextChainKept(list.stale);
    }
    ShapeOf(ns, list.stale, list.head, list.tail);
  }
}
