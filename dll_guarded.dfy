/** The doubly-linked list of src/doubly_linked_list/doubly_linked_list.py, the
    variant whose relocation and deletion methods guard against a None or
    unattached node argument. */
module DoublyLinkedGuarded {
  import opened Wrappers
  import opened Splice
  import opened DoublyLinkedNodes
  import MaxScan
  import Render

  class DoublyLinkedList {
    var head: Node?
    var tail: Node?
    var size: int
    /** The chain from `head` to `tail`. */
    ghost var nodes: seq<Node>
    /** Removed nodes that following `next` from `tail` still visits. */
    ghost var stale: seq<Node>

    ghost predicate Valid()
      reads this, nodes, stale
    {
      Shape(nodes, stale, head, tail) && size == |nodes|
    }

    /** The head-to-tail values. */
    ghost function Values(): seq<int>
      reads this
    {
      ValuesOf(nodes)
    }

    /** The values a walk along `next` from `head` visits before None. */
    ghost function Walked(): seq<int>
      reads this
    {
      ValuesOf(nodes + stale)
    }

    /** A node the relocation and deletion methods may be given: None, a node of
        this list, or a node with neither `next` nor `prev` (which they detect as
        not belonging to the list). */
    ghost predicate Acceptable(node: Node?)
      reads this, node
    {
      node == null || node in nodes || (node.next == null && node.prev == null)
    }

    constructor (initial: Option<seq<int>>)
      ensures Valid()
      ensures Values() == (if initial.Some? then initial.value else [])
      ensures stale == [] && fresh(nodes)
      ensures head != null ==> head.prev == null
    {
      head, tail, size := null, null, 0;
      nodes, stale := [], [];
      new;
      if initial.Some? {
        var vs := initial.value;
        for k := 0 to |vs|
          invariant Valid() && Values() == vs[..k]
          invariant stale == [] && fresh(nodes)
          invariant tail != null ==> fresh(tail)
          invariant head != null ==> head.prev == null
        {
          AddToTail(vs[k]);
          assert vs[..k + 1] == vs[..k] + [vs[k]];
        }
      }
    }

    method Len() returns (n: int)
      requires Valid()
      ensures n == |Values()|
    {
      n := size;
    }

    method AddToHead(value: int)
      requires Valid()
      modifies this, head
      ensures Valid()
      ensures head != null && fresh(head) && nodes == [head] + old(nodes) && head.prev == null
      ensures Values() == [value] + old(Values())
      ensures stale == old(stale)
    {
      var n := new Node(value);
      ghost var ns := nodes;
      if size == 0 {
        head, tail := n, n;
      } else {
        SegmentEnds(ns);
        n.next := head;
        head.prev := n;
        head := n;
        SegmentKept(ns);
      }
      SegmentConcat([n], ns);
      NextChainKept(stale);
      ValuesOfAppend([n], ns);
      ValuesOfOne(n);
      size, nodes := size + 1, [n] + ns;
      ShapeOf(nodes, stale, head, tail);
    }

    method RemoveHead() returns (r: Option<int>)
      requires Valid()
      modifies this, nodes
      ensures Valid()
      ensures old(nodes) == [] ==> r == None && unchanged(this)
      ensures old(nodes) != [] ==>
        && r.Some? && old(nodes) == [old(head)] + nodes
        && old(Values()) == [r.value] + Values()
        && old(head).next == old(head.next) && old(head).prev == old(head.prev)
      ensures nodes != [] ==> stale == old(stale) && head.prev == null
    {
      if size == 0 {
        return None;
      }
      ghost var ns := nodes;
      SegmentDropFirst(ns);
      ghost var b := AllButFirst(ns);
      ValuesOfAppend([ns[0]], b);
      ValuesOfOne(ns[0]);
      var removed := head.value;
      if size == 1 {
        head, tail, size, nodes, stale := null, null, 0, [], [];
        ShapeClosed([], null, null);
      } else {
        var h := head.next;
        h.prev := null;
        head, size, nodes := h, size - 1, b;
        SegmentKept(b);
      }
      return Some(removed);
    }

    method AddToTail(value: int)
      requires Valid()
      modifies this, tail
      ensures Valid()
      ensures tail != null && fresh(tail) && nodes == old(nodes) + [tail]
      ensures Values() == old(Values()) + [value]
      ensures tail.next == null && stale == []
      ensures head.prev == if old(nodes) == [] then null else old(head.prev)
    {
      var n := new Node(value);
      ghost var ns := nodes;
      if size == 0 {
        head, tail := n, n;
      } else {
        SegmentEnds(ns);
        tail.next := n;
        n.prev := tail;
        tail := n;
        SegmentKept(ns);
      }
      SegmentConcat(ns, [n]);
      ValuesOfAppend(ns, [n]);
      ValuesOfOne(n);
      size, nodes, stale := size + 1, ns + [n], [];
      ShapeClosed(nodes, head, tail);
    }

    method RemoveTail() returns (r: Option<int>)
      requires Valid()
      modifies this, nodes
      ensures Valid()
      ensures old(nodes) == [] ==> r == None && unchanged(this)
      ensures old(nodes) != [] ==>
        && r.Some? && old(nodes) == nodes + [old(tail)]
        && old(Values()) == Values() + [r.value]
        && old(tail).prev == null && old(tail).next == null
      ensures stale == []
      ensures nodes != [] ==> head == old(head) && head.prev == old(head.prev)
    {
      if size == 0 {
        return None;
      }
      ghost var ns := nodes;
      var removed := tail;
      SegmentDropLast(ns);
      ghost var a := AllButLast(ns);
      ValuesOfAppend(a, [removed]);
      ValuesOfOne(removed);
      if size == 1 {
        removed.prev, removed.next := null, null;
        head, tail, size, nodes, stale := null, null, 0, [], [];
        ShapeClosed([], null, null);
      } else {
        var p := tail.prev;
        p.next := null;
        removed.prev, removed.next := null, null;
        tail, size, nodes, stale := p, size - 1, a, [];
        SegmentKept(a);
        ShapeClosed(a, head, tail);
      }
      return Some(removed.value);
    }

    /** `move_to_front`: a no-op on an empty list, for None, for a node with
        neither link set and for the head; otherwise the node is spliced out and
        becomes the head, the other nodes keeping their order. */
    method MoveToFront(node: Node?)
      requires Valid() && Acceptable(node)
      modifies this, nodes
      ensures Valid() && stale == old(stale)
      ensures node == null || node !in old(nodes) || node == old(head) ==>
        unchanged(this) && unchanged(old(nodes))
      ensures node != null && node in old(nodes) ==>
        && nodes == Splice.MoveToFront(old(nodes), IndexOf(old(nodes), node))
        && Values() == Splice.MoveToFront(old(Values()), IndexOf(old(nodes), node))
      ensures node != null && node in old(nodes) && node != old(head) ==> head == node && head.prev == null
    {
      if size == 0 {
        return;
      }
      if node != null && node in nodes && size > 1 {
        Attached(nodes, node);
      }
      if node == null || (node.next == null && node.prev == null) {
        if node != null && node in nodes {
          HeadStays(nodes, node);
        }
        return;
      }
      if head == node {
        HeadStays(nodes, node);
        return;
      }
      SpliceToFront(node, IndexOf(nodes, node));
    }

    /** The splice of `move_to_front` for the node at index `i > 0`. */
    method SpliceToFront(node: Node, ghost i: nat)
      requires Valid() && 0 < i < |nodes| && nodes[i] == node
      modifies this, nodes
      ensures Valid() && stale == old(stale)
      ensures nodes == Splice.MoveToFront(old(nodes), i)
      ensures Values() == Splice.MoveToFront(old(Values()), i)
      ensures head == node && head.prev == null
    {
      ValuesOfMoves(nodes, i);
      if tail == node {
        TailToFront(node, i);
      } else {
        MiddleToFront(node, i);
      }
    }

    /** The tail moves to the front: the node before it becomes the tail, and
        its `next` takes over the old tail's `next`. */
    method TailToFront(node: Node, ghost i: nat)
      requires Valid() && 0 < i && i == |nodes| - 1 && nodes[i] == node
      modifies this, nodes
      ensures Valid() && stale == old(stale)
      ensures nodes == Splice.MoveToFront(old(nodes), i)
      ensures head == node && head.prev == null
    {
      ghost var ns := nodes;
      ghost var r := RemoveAt(ns, i);
      SpliceOutFacts(ns, stale, i);
      var p := node.prev;
      SegmentDropLast(ns);
      tail := p;
      p.next := node.next;
      SegmentKept(r);
      PutBefore(node, head, r);
      head, nodes := node, [node] + r;
      NextChainKept(stale);
      ShapeOf(nodes, stale, head, tail);
    }

    /** A node strictly between head and tail moves to the front. */
    method MiddleToFront(node: Node, ghost i: nat)
      requires Valid() && 0 < i < |nodes| - 1 && nodes[i] == node
      modifies this, nodes
      ensures Valid() && stale == old(stale)
      ensures nodes == Splice.MoveToFront(old(nodes), i)
      ensures head == node && head.prev == null
    {
      ghost var ns := nodes;
      ghost var r := RemoveAt(ns, i);
      SpliceOutFacts(ns, stale, i);
      Bypass(node, ns, i);
      PutBefore(node, head, r);
      head, nodes := node, [node] + r;
      NextChainKept(stale);
      ShapeOf(nodes, stale, head, tail);
    }

    /** `move_to_end`: a no-op on an empty list, for None, for a node with
        neither link set and for the tail; otherwise the node is spliced out and
        becomes the tail, the other nodes keeping their order. Linking it behind
        the old tail overwrites the tail's `next`, so nothing stale is left. */
    method MoveToEnd(node: Node?)
      requires Valid() && Acceptable(node)
      modifies this, nodes
      ensures Valid()
      ensures node == null || node !in old(nodes) || node == old(tail) ==>
        unchanged(this) && unchanged(old(nodes))
      ensures node != null && node in old(nodes) && node != old(tail) ==> stale == []
      ensures node != null && node in old(nodes) ==>
        && nodes == Splice.MoveToEnd(old(nodes), IndexOf(old(nodes), node))
        && Values() == Splice.MoveToEnd(old(Values()), IndexOf(old(nodes), node))
      ensures node != null && node in old(nodes) && node != old(tail) ==>
        tail == node && head.prev == old(head.prev)
    {
      if size == 0 {
        return;
      }
      if node != null && node in nodes && size > 1 {
        Attached(nodes, node);
      }
      if node == null || (node.next == null && node.prev == null) {
        if node != null && node in nodes {
          TailStays(nodes, node);
        }
        return;
      }
      if node == tail {
        TailStays(nodes, node);
        return;
      }
      SpliceToEnd(node, IndexOf(nodes, node));
    }

    /** The splice of `move_to_end` for the node at index `i`, not the last. */
    method SpliceToEnd(node: Node, ghost i: nat)
      requires Valid() && i < |nodes| - 1 && nodes[i] == node
      modifies this, nodes
      ensures Valid() && stale == []
      ensures nodes == Splice.MoveToEnd(old(nodes), i)
      ensures Values() == Splice.MoveToEnd(old(Values()), i)
      ensures tail == node && head.prev == old(head.prev)
    {
      ValuesOfMoves(nodes, i);
      if node != head {
        MiddleToEnd(node, i);
      } else {
        HeadToEnd(node, i);
      }
    }

    /** A node strictly between head and tail moves to the end. */
    method MiddleToEnd(node: Node, ghost i: nat)
      requires Valid() && 0 < i < |nodes| - 1 && nodes[i] == node
      modifies this, nodes
      ensures Valid() && stale == []
      ensures nodes == Splice.MoveToEnd(old(nodes), i)
      ensures tail == node && head.prev == old(head.prev)
    {
      ghost var ns := nodes;
      ghost var r := RemoveAt(ns, i);
      SpliceOutFacts(ns, stale, i);
      Bypass(node, ns, i);
      PutAfter(node, tail, r);
      tail, nodes, stale := node, r + [node], [];
      ShapeClosed(nodes, head, tail);
    }

    /** The head moves to the end: the node after it becomes the head, its
        `prev` taking over the old head's `prev`. */
    method HeadToEnd(node: Node, ghost i: nat)
      requires Valid() && i == 0 && |nodes| > 1 && nodes[0] == node
      modifies this, nodes
      ensures Valid() && stale == []
      ensures nodes == Splice.MoveToEnd(old(nodes), i)
      ensures tail == node && head.prev == old(head.prev)
    {
      ghost var ns := nodes;
      ghost var r := RemoveAt(ns, i);
      SpliceOutFacts(ns, stale, i);
      head := node.next;
      Behead(node, ns);
      PutAfter(node, tail, r);
      tail, nodes, stale := node, r + [node], [];
      ShapeClosed(nodes, head, tail);
    }

    /** A node `delete` may be given: besides those the relocations accept, any
        node at all when the list holds exactly one, since then its membership
        is not looked at. */
    ghost predicate Deletable(node: Node?)
      reads this, node
    {
      Acceptable(node) || |nodes| == 1
    }

    /** `delete`: None and no change for an empty list, for None and, when two or
        more nodes are held, for a node with neither link set. A list of one node
        is emptied whatever node is given, and that node's value returned.
        Otherwise the node leaves the chain and its value is returned; the links
        around it are not all repaired: after deleting the head the new head's
        `prev` still points at the removed node, after deleting the tail the new
        tail's `next` does (the removed node joins `stale`), and the removed node
        keeps both its links. */
    method Delete(node: Node?) returns (r: Option<int>)
      requires Valid() && Deletable(node)
      modifies this, nodes
      ensures Valid()
      ensures old(nodes) == [] || node == null || (|old(nodes)| > 1 && node !in old(nodes)) ==>
        r == None && unchanged(this) && unchanged(old(nodes))
      ensures node != null && |old(nodes)| == 1 ==>
        && r == Some(node.value) && nodes == [] && stale == []
        && node.next == old(node.next) && node.prev == old(node.prev)
      ensures node != null && node in old(nodes) && |old(nodes)| > 1 ==>
        var i := IndexOf(old(nodes), node);
        && r == Some(node.value)
        && nodes == RemoveAt(old(nodes), i)
        && Values() == RemoveAt(old(Values()), i)
        && node.next == old(node.next) && node.prev == old(node.prev)
        && (i == 0 ==> head.prev == node && stale == old(stale))
        && (0 < i < |old(nodes)| - 1 ==> stale == old(stale))
        && (i == |old(nodes)| - 1 ==> tail.next == node && stale == [node] + old(stale))
        && (0 < i ==> head == old(head) && head.prev == old(head.prev))
    {
      if size == 0 || node == null {
        return None;
      }
      var removed := node.value;
      if size == 1 {
        head, tail, size, nodes, stale := null, null, 0, [], [];
        ShapeClosed([], null, null);
      } else {
        if node.next == null && node.prev == null {
          if node in nodes {
            Attached(nodes, node);
          }
          return None;
        }
        Unchain(node, IndexOf(nodes, node));
      }
      return Some(removed);
    }

    /** The unlinking of `delete` for the node at index `i` of a chain of two or more. */
    method Unchain(node: Node, ghost i: nat)
      requires Valid() && |nodes| > 1 && i < |nodes| && nodes[i] == node
      modifies this, nodes
      ensures Valid()
      ensures nodes == RemoveAt(old(nodes), i)
      ensures Values() == RemoveAt(old(Values()), i)
      ensures node.next == old(node.next) && node.prev == old(node.prev)
      ensures i == 0 ==> head.prev == node && stale == old(stale)
      ensures 0 < i < |old(nodes)| - 1 ==> stale == old(stale)
      ensures i == |old(nodes)| - 1 ==> tail.next == node && stale == [node] + old(stale)
      ensures 0 < i ==> head == old(head) && head.prev == old(head.prev)
    {
      ghost var ns := nodes;
      ghost var r := RemoveAt(ns, i);
      SpliceOutFacts(ns, stale, i);
      ValuesOfRemoveAt(ns, i);
      if head == node {
        SegmentDropFirst(ns);
        head, size, nodes := node.next, size - 1, r;
      } else if tail == node {
        SegmentDropLast(ns);
        NextChainCons(node, stale);
        tail, size, nodes, stale := node.prev, size - 1, r, [node] + stale;
      } else {
        Bypass(node, ns, i);
        size, nodes := size - 1, r;
        NextChainKept(stale);
      }
    }

    /** `delete` as evidently intended: like `Delete`, but a removed head's
        successor gets `prev` None and a removed tail's predecessor gets `next`
        None, so nothing removed stays reachable from the list. In particular a
        list with nothing stale keeps nothing stale. */
    method DeleteRepaired(node: Node?) returns (r: Option<int>)
      requires Valid() && Deletable(node)
      modifies this, nodes
      ensures Valid()
      ensures old(stale) == [] ==> stale == []
      ensures old(nodes) == [] || node == null || (|old(nodes)| > 1 && node !in old(nodes)) ==>
        r == None && unchanged(this) && unchanged(old(nodes))
      ensures node != null && |old(nodes)| == 1 ==>
        && r == Some(node.value) && nodes == [] && stale == []
        && node.next == old(node.next) && node.prev == old(node.prev)
      ensures node != null && node in old(nodes) && |old(nodes)| > 1 ==>
        var i := IndexOf(old(nodes), node);
        && r == Some(node.value)
        && nodes == RemoveAt(old(nodes), i)
        && Values() == RemoveAt(old(Values()), i)
        && (i == 0 ==> head.prev == null && stale == old(stale))
        && (0 < i < |old(nodes)| - 1 ==> stale == old(stale))
        && (i == |old(nodes)| - 1 ==> tail.next == null && stale == [])
        && (0 < i ==> head == old(head) && head.prev == old(head.prev))
        && node.next == old(node.next) && node.prev == old(node.prev)
    {
      if size == 0 || node == null {
        return None;
      }
      var removed := node.value;
      if size == 1 {
        head, tail, size, nodes, stale := null, null, 0, [], [];
        ShapeClosed([], null, null);
      } else {
        if node.next == null && node.prev == null {
          if node in nodes {
            Attached(nodes, node);
          }
          return None;
        }
        var wasHead, wasTail := head == node, tail == node;
        Unchain(node, IndexOf(nodes, node));
        Seal(wasHead, wasTail);
      }
      return Some(removed);
    }

    /** The repair of `DeleteRepaired`: cut the link from the new head back to a
        removed head, or from the new tail on to a removed tail. */
    method Seal(wasHead: bool, wasTail: bool)
      requires Valid() && nodes != []
      modifies this, head, tail
      ensures Valid() && nodes == old(nodes)
      ensures wasHead ==> head.prev == null && stale == old(stale)
      ensures !wasHead && wasTail ==> tail.next == null && stale == []
      ensures !wasHead && !wasTail ==> stale == old(stale)
      ensures head == old(head) && (!wasHead ==> head.prev == old(head.prev))
    {
      ghost var ns := nodes;
      SegmentEnds(ns);
      if wasHead {
        head.prev := null;
        SegmentKept(ns);
        NextChainKept(stale);
        ShapeOf(ns, stale, head, tail);
      } else if wasTail {
        tail.next := null;
        SegmentKept(ns);
        stale := [];
        ShapeClosed(ns, head, tail);
      }
    }

    /** `get_max`: the scan from the head along `next` until None, keeping the
        first of the greatest values it meets. It visits the stale nodes a
        deletion of the tail left behind it, so its result is the scan over
        `Walked()`, which is `Values()` when nothing is stale. */
    method GetMax() returns (m: int)
      requires Valid() && nodes != []
      ensures m == MaxScan.Max(Walked())
    {
      ghost var w := nodes + stale;
      ghost var ws := Walked();
      ValuesOfAt(w, 0);
      m := head.value;
      var current := head.next;
      WalkStep(nodes, stale, head, tail, 0);
      var k := 1;
      while current != null
        invariant 1 <= k <= |w|
        invariant current == (if k < |w| then w[k] else null)
        invariant MaxScan.ScanFrom(m, ws[k..]) == MaxScan.Max(ws)
        decreases |w| - k
      {
        WalkStep(nodes, stale, head, tail, k);
        assert ws[k..][1..] == ws[k + 1..];
        if m < current.value {
          m := current.value;
        }
        current := current.next;
        k := k + 1;
      }
    }

    /** `__repr__`: "DLL=[]" for an empty list; otherwise "DLL=[" and, for every
        node met walking along `next` from the head, its text followed by "]"
        if it is the tail and by " -> " if it is not. */
    method Repr() returns (text: string)
      requires Valid()
      ensures text == Render.Repr(Values(), ValuesOf(stale))
    {
      text := Render.Opening;
      if size == 0 {
        assert Values() == [];
        return text + "]";
      }
      ghost var w := nodes + stale;
      ghost var ws := Walked();
      ghost var t := |nodes| - 1;
      ValuesOfAppend(nodes, stale);
      var current := head;
      var k := 0;
      while current != null
        invariant 0 <= k <= |w|
        invariant current == (if k < |w| then w[k] else null)
        invariant text == Render.Opening + Render.Pieces(ws[..k], t)
        decreases |w| - k
      {
        WalkStep(nodes, stale, head, tail, k);
        Render.ReprStep(ws, k, t, text);
        text := text + Render.NodeText(current.value) + (if current == tail then "]" else " -> ");
        current := current.next;
        k := k + 1;
      }
      assert ws[..k] == ws;
    }
  }

  /** The list [1, 5] after `delete` of its tail: the walk along `next` still
      visits the removed node, so `get_max` reports 5 and `__repr__` shows it
      after the closing bracket, although only 1 is held. */
  method StaleTailScenario() returns (list: DoublyLinkedList, m: int, text: string)
    ensures list.Valid() && list.Values() == [1] && list.size == 1
    ensures m == 5 && text == "DLL=[Node(1)]Node(5) -> "
  {
    list := new DoublyLinkedList(Some([1, 5]));
    var t := list.tail;
    ghost var ns := list.nodes;
    ValuesOfAt(ns, 1);
    var _ := list.Delete(t);
    ValuesOfOne(t);
    ValuesOfAppend(list.nodes, [t]);
    assert list.Values() == [1] by {
      ValuesOfAt(ns, 0);
    }
    m := list.GetMax();
    text := list.Repr();
    Render.ReprOneStale();
  }

  /** The same steps with the repaired deletion: nothing removed is visited. */
  method RepairedTailScenario() returns (list: DoublyLinkedList, m: int, text: string)
    ensures list.Valid() && list.Values() == [1] && list.size == 1
    ensures m == 1 && text == "DLL=[Node(1)]"
  {
    list := new DoublyLinkedList(Some([1, 5]));
    var t := list.tail;
    ghost var ns := list.nodes;
    var _ := list.DeleteRepaired(t);
    assert list.Values() == [1] by {
      ValuesOfAt(ns, 0);
    }
    m := list.GetMax();
    text := list.Repr();
    Render.ReprOne();
  }
}
