/** The singly-linked list of singly_linked_list/singly_linked_list.py: `head` and
    `tail` over nodes linked by `next`, with no size field. */
module SinglyLinked {
  import opened Wrappers
  import opened Splice

  class Node {
    const value: Value
    var next: Node?

    constructor (value: Value)
      ensures this.value == value && next == null
    {
      this.value := value;
      next := null;
    }
  }

  /** The values held by `ns`, in order. */
  ghost function ValuesOf(ns: seq<Node>): seq<Value>
  {
    seq(|ns|, i requires 0 <= i < |ns| => ns[i].value)
  }

  /** The values of two chains joined are the values of each, in order. */
  lemma ValuesOfAppend(a: seq<Node>, b: seq<Node>)
    ensures ValuesOf(a + b) == ValuesOf(a) + ValuesOf(b)
  {
  }

  /** The values of a prefix or suffix of a chain are that prefix or suffix of
      its values. */
  lemma ValuesOfSlices(ns: seq<Node>, i: nat)
    requires i <= |ns|
    ensures ValuesOf(ns[..i]) == ValuesOf(ns)[..i] && ValuesOf(ns[i..]) == ValuesOf(ns)[i..]
  {
  }

  class LinkedList {
    var head: Node?
    var tail: Node?
    /** The chain from `head` to `tail`. */
    ghost var nodes: seq<Node>

    /** `head` is None exactly when `tail` is; otherwise following `next` from
        `head` visits the distinct nodes of `nodes` and ends at `tail`, whose
        `next` is None. */
    ghost predicate Valid()
      reads this, nodes
    {
      && (nodes == [] ==> head == null && tail == null)
      && (nodes != [] ==> head == nodes[0] && tail == nodes[|nodes| - 1] && tail.next == null)
      && Distinct(nodes)
      && forall i {:trigger nodes[i].next} :: 0 <= i < |nodes| - 1 ==> nodes[i].next == nodes[i + 1]
    }

    /** The head-to-tail values. */
    ghost function Values(): seq<Value>
      reads this
    {
      ValuesOf(nodes)
    }

    constructor ()
      ensures Valid() && nodes == [] && head == null && tail == null
    {
      head, tail := null, null;
      nodes := [];
    }

    /** `add_to_head`: a new node holding `value` comes first; on an empty list
        it is both head and tail. */
    method AddToHead(value: Value)
      requires Valid()
      modifies this
      ensures Valid() && fresh(head) && nodes == [head] + old(nodes)
      ensures Values() == [value] + old(Values())
      ensures old(nodes) == [] ==> tail == head
    {
      var n := new Node(value);
      if head == null {
        head, tail := n, n;
        nodes := [n];
        return;
      }
      n.next := head;
      head := n;
      ValuesOfAppend([n], nodes);
      nodes := [n] + nodes;
    }

    /** `add_to_tail`: a new node holding `value` comes last, linked from the old
        tail; on an empty list it is both head and tail. */
    method AddToTail(value: Value)
      requires Valid()
      modifies this, tail
      ensures Valid() && fresh(tail) && nodes == old(nodes) + [tail]
      ensures Values() == old(Values()) + [value]
      ensures old(nodes) == [] ==> head == tail
    {
      var n := new Node(value);
      if head == null {
        head, tail := n, n;
        nodes := [n];
        return;
      }
      tail.next := n;
      tail := n;
      ValuesOfAppend(nodes, [n]);
      nodes := nodes + [n];
    }

    /** `remove_head`: None on an empty list; otherwise the first value, `head`
        moving on to the next node, and `tail` becoming None with the last one. */
    method RemoveHead() returns (r: Value)
      requires Valid()
      modifies this
      ensures Valid()
      ensures old(nodes) == [] ==> r == None && unchanged(this)
      ensures old(nodes) != [] ==>
        && r == old(Values())[0]
        && nodes == old(nodes)[1..]
        && Values() == old(Values())[1..]
    {
      if head == null {
        return None;
      }
      r := head.value;
      if head.next == null {
        tail := null;
      }
      head := head.next;
      ValuesOfSlices(nodes, 1);
      nodes := nodes[1..];
    }

    /** `remove_tail`: None on an empty list; with one node `head` and `tail`
        become None; otherwise a walk from `head` finds the node whose `next` is
        the tail, which becomes the tail with `next` None. The old last value is
        returned. */
    method RemoveTail() returns (r: Value)
      requires Valid()
      modifies this, nodes
      ensures Valid()
      ensures old(nodes) == [] ==> r == None && unchanged(this)
      ensures old(nodes) != [] ==>
        && r == old(Values())[|old(nodes)| - 1]
        && nodes == old(nodes)[..|old(nodes)| - 1]
        && Values() == old(Values())[..|old(nodes)| - 1]
    {
      if head == null {
        return None;
      }
      r := tail.value;
      if head.next == null {
        head, tail := null, null;
        nodes := [];
        return;
      }
      var current := head;
      ghost var k := 0;
      while current.next != tail
        invariant 0 <= k < |nodes| - 1 && current == nodes[k]
        decreases |nodes| - 1 - k
      {
        current := current.next;
        k := k + 1;
      }
      ghost var last := |nodes| - 1;
      assert k + 1 == last by {
        assert nodes[k + 1] == nodes[last];
      }
      current.next := null;
      tail := current;
      ValuesOfSlices(nodes, last);
      nodes := nodes[..last];
    }
  }
}
