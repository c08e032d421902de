/** The node record of the doubly-linked lists and the shape their `head`, `tail`
    and `next`/`prev` links keep. Both list variants use it. */
module DoublyLinkedNodes {
  import opened Splice

  class Node {
    const value: int
    var prev: Node?
    var next: Node?

    constructor (value: int)
      ensures this.value == value && prev == null && next == null
    {
      this.value := value;
      prev := null;
      next := null;
    }
  }

  function First(ns: seq<Node>): Node?
  {
    if ns == [] then null else ns[0]
  }

  function Last(ns: seq<Node>): Node?
  {
    if ns == [] then null else ns[|ns| - 1]
  }

  /** All nodes but the last. */
  function AllButLast(ns: seq<Node>): seq<Node>
  {
    if ns == [] then [] else ns[..|ns| - 1]
  }

  /** All nodes but the first. */
  function AllButFirst(ns: seq<Node>): seq<Node>
  {
    if ns == [] then [] else ns[1..]
  }

  /** Each node of `ns` but the last has the next one as its `next`. */
  ghost predicate NextLinked(ns: seq<Node>)
    reads AllButLast(ns)`next
  {
    forall i {:trigger ns[i].next} :: 0 <= i < |ns| - 1 ==> ns[i].next == ns[i + 1]
  }

  /** Each node of `ns` but the first has the previous one as its `prev`. */
  ghost predicate PrevLinked(ns: seq<Node>)
    reads AllButFirst(ns)`prev
  {
    forall i {:trigger ns[i].prev} :: 0 < i < |ns| ==> ns[i].prev == ns[i - 1]
  }

  /** A stretch of a list: distinct nodes, each linked to its successor by `next`
      and back by `prev`. */
  ghost predicate Segment(ns: seq<Node>)
    reads AllButLast(ns)`next, AllButFirst(ns)`prev
  {
    Distinct(ns) && NextLinked(ns) && PrevLinked(ns)
  }

  /** Following `next` from the first node of `ns` visits `ns` in order, then None. */
  ghost predicate NextChain(ns: seq<Node>)
    reads ns`next
  {
    Distinct(ns) && NextLinked(ns) && (ns != [] ==> Last(ns).next == null)
  }

  /** The shape of a list whose head-to-tail chain is `nodes`. Following `next`
      from the tail visits `stale` (removed nodes that a deletion left linked
      behind the tail) before None. Nothing is said of `head.prev`, which a
      deletion can leave pointing at the removed node. */
  ghost predicate Shape(nodes: seq<Node>, stale: seq<Node>, head: Node?, tail: Node?)
    reads nodes`next, nodes`prev, stale`next
  {
    && head == First(nodes) && tail == Last(nodes)
    && (nodes == [] ==> stale == [])
    && (tail != null ==> tail.next == First(stale))
    && Segment(nodes) && NextChain(stale) && Disjoint(nodes, stale)
  }

  /** Two segments apart from each other, the last node of the first linked both
      ways to the first of the second, form one segment. */
  lemma SegmentConcat(a: seq<Node>, b: seq<Node>)
    requires Segment(a) && Segment(b) && Disjoint(a, b)
    requires a != [] && b != [] ==> Last(a).next == b[0] && b[0].prev == Last(a)
    ensures Segment(a + b)
  {
    DistinctAppend(a, b);
    var w := a + b;
    forall i | 0 < i < |w| ensures w[i - 1].next == w[i] && w[i].prev == w[i - 1] {
      if i < |a| {
        assert w[i - 1] == a[i - 1] && w[i] == a[i];
      } else if i > |a| {
        assert w[i - 1] == b[i - 1 - |a|] && w[i] == b[i - |a|];
      }
    }
  }

  /** A slice of a segment is a segment. */
  lemma SegmentSlice(ns: seq<Node>, lo: nat, hi: nat)
    requires lo <= hi <= |ns| && Segment(ns)
    ensures Segment(ns[lo..hi])
  {
    DistinctSlice(ns, lo, hi);
    var s := ns[lo..hi];
    forall k | 0 < k < |s| ensures s[k - 1].next == s[k] && s[k].prev == s[k - 1] {
      assert s[k - 1] == ns[lo + k - 1] && s[k] == ns[lo + k];
    }
  }

  /** A segment around its node at `i`: the segments before and after it, apart
      from each other and from that node, and the links between them. */
  lemma SegmentAround(ns: seq<Node>, i: nat)
    requires i < |ns| && Segment(ns)
    ensures var a, n, b := ns[..i], ns[i], ns[i + 1..];
      && ns == a + [n] + b && Segment(a) && Segment(b)
      && n !in a && n !in b && Disjoint(a, b)
      && (a != [] ==> n.prev == Last(a) && Last(a).next == n)
      && (b != [] ==> n.next == b[0] && b[0].prev == n)
  {
    var a, n, b := ns[..i], ns[i], ns[i + 1..];
    assert ns == a + [n] + b;
    SegmentSlice(ns, 0, i);
    SegmentSlice(ns, i + 1, |ns|);
    assert ns[i + 1..|ns|] == b;
    DistinctNotIn(ns, i, 0, i);
    DistinctNotIn(ns, i, i + 1, |ns|);
    forall x | x in a ensures x !in b {
      var k :| 0 <= k < i && a[k] == x;
      DistinctNotIn(ns, k, i + 1, |ns|);
    }
    if a != [] {
      assert ns[i].prev == ns[i - 1];
    }
    if b != [] {
      assert ns[i + 1 - 1].next == ns[i + 1];
    }
  }

  /** A segment without its last node: what stays is a segment that the last
      node is apart from, linked to it both ways, and whose own last node is
      not among its other nodes. */
  lemma SegmentDropLast(ns: seq<Node>)
    requires ns != [] && Segment(ns)
    ensures var a, n := AllButLast(ns), Last(ns);
      && ns == a + [n] && Segment(a) && n !in a
      && n !in AllButFirst(a) && n !in AllButLast(a)
      && (a != [] ==> a[0] == ns[0] && n.prev == Last(a) && Last(a).next == n && Last(a) !in AllButLast(a))
  {
    SegmentAround(ns, |ns| - 1);
    var a, n := AllButLast(ns), Last(ns);
    Apart(n, a);
    if a != [] {
      SegmentEnds(a);
    }
  }

  /** A segment without its first node, symmetrically. */
  lemma SegmentDropFirst(ns: seq<Node>)
    requires ns != [] && Segment(ns)
    ensures var n, b := ns[0], AllButFirst(ns);
      && ns == [n] + b && Segment(b) && n !in b
      && n !in AllButFirst(b) && n !in AllButLast(b)
      && (b != [] ==> n.next == b[0] && b[0].prev == n && b[0] !in AllButFirst(b))
  {
    SegmentAround(ns, 0);
    var n, b := ns[0], AllButFirst(ns);
    Apart(n, b);
    if b != [] {
      SegmentEnds(b);
    }
  }

  /** A segment whose links were left alone is still a segment. */
  twostate lemma SegmentKept(ns: seq<Node>)
    requires old(Segment(ns))
    requires unchanged(AllButLast(ns)`next) && unchanged(AllButFirst(ns)`prev)
    ensures Segment(ns)
  {
  }

  /** A chain whose `next` links were left alone is still a chain. */
  twostate lemma NextChainKept(ns: seq<Node>)
    requires old(NextChain(ns)) && unchanged(ns`next)
    ensures NextChain(ns)
  {
  }

  /** The parts of a list's shape, put together. */
  lemma ShapeOf(ns: seq<Node>, stale: seq<Node>, head: Node?, tail: Node?)
    requires Segment(ns) && NextChain(stale) && Disjoint(ns, stale)
    requires head == First(ns) && tail == Last(ns) && (ns == [] ==> stale == [])
    requires tail != null ==> tail.next == First(stale)
    ensures Shape(ns, stale, head, tail)
  {
  }

  /** A segment whose last node ends the walk, with nothing stale behind it. */
  lemma ShapeClosed(ns: seq<Node>, head: Node?, tail: Node?)
    requires Segment(ns) && head == First(ns) && tail == Last(ns)
    requires tail != null ==> tail.next == null
    ensures Shape(ns, [], head, tail)
  {
  }

  /** The ends of a segment are not among its other nodes. */
  lemma SegmentEnds(ns: seq<Node>)
    requires ns != [] && Segment(ns)
    ensures ns[0] !in AllButFirst(ns) && Last(ns) !in AllButLast(ns)
  {
    DistinctNotIn(ns, 0, 1, |ns|);
    DistinctNotIn(ns, |ns| - 1, 0, |ns| - 1);
  }

  /** A node not in `ns` is in no part of it. */
  lemma Apart(x: Node, ns: seq<Node>)
    requires x !in ns
    ensures x !in AllButFirst(ns) && x !in AllButLast(ns)
  {
    if ns != [] {
      assert forall y :: y in ns[1..] ==> y in ns;
      assert forall y :: y in ns[..|ns| - 1] ==> y in ns;
    }
  }

  /** A node whose `next` is the first of a chain, put in front of it. */
  lemma NextChainCons(n: Node, ns: seq<Node>)
    requires NextChain(ns) && n !in ns && n.next == First(ns)
    ensures NextChain([n] + ns)
  {
    DistinctAppend([n], ns);
    var w := [n] + ns;
    forall i | 0 < i < |w| ensures w[i - 1].next == w[i] {
      if i > 1 {
        assert w[i - 1] == ns[i - 2] && w[i] == ns[i - 1];
      }
    }
  }

  /** The values held by `ns`, in order. */
  ghost function ValuesOf(ns: seq<Node>): (vs: seq<int>)
    ensures |vs| == |ns|
  {
    if ns == [] then [] else [ns[0].value] + ValuesOf(ns[1..])
  }

  lemma {:induction false} ValuesOfAt(ns: seq<Node>, i: nat)
    requires i < |ns|
    ensures ValuesOf(ns)[i] == ns[i].value
  {
    if i > 0 {
      ValuesOfAt(ns[1..], i - 1);
    }
  }

  lemma ValuesOfOne(n: Node)
    ensures ValuesOf([n]) == [n.value]
  {
    assert [n][1..] == [];
  }

  lemma {:induction false} ValuesOfAppend(a: seq<Node>, b: seq<Node>)
    ensures ValuesOf(a + b) == ValuesOf(a) + ValuesOf(b)
  {
    if a == [] {
      assert a + b == b;
    } else {
      assert (a + b)[1..] == a[1..] + b;
      ValuesOfAppend(a[1..], b);
    }
  }

  /** Values of a prefix or suffix are the prefix or suffix of the values. */
  lemma ValuesOfSlices(ns: seq<Node>, i: nat)
    requires i <= |ns|
    ensures ValuesOf(ns[..i]) == ValuesOf(ns)[..i]
    ensures ValuesOf(ns[i..]) == ValuesOf(ns)[i..]
  {
    assert ns[..i] + ns[i..] == ns;
    ValuesOfAppend(ns[..i], ns[i..]);
  }

  /** Values commute with removing a node. */
  lemma ValuesOfRemoveAt(ns: seq<Node>, i: nat)
    requires i < |ns|
    ensures ValuesOf(RemoveAt(ns, i)) == RemoveAt(ValuesOf(ns), i)
  {
    ValuesOfSlices(ns, i);
    ValuesOfSlices(ns, i + 1);
    ValuesOfAppend(ns[..i], ns[i + 1..]);
  }

  /** Values commute with relocating a node. */
  lemma ValuesOfMoves(ns: seq<Node>, i: nat)
    requires i < |ns|
    ensures ValuesOf(MoveToFront(ns, i)) == MoveToFront(ValuesOf(ns), i)
    ensures ValuesOf(MoveToEnd(ns, i)) == MoveToEnd(ValuesOf(ns), i)
  {
    ValuesOfRemoveAt(ns, i);
    ValuesOfAt(ns, i);
    ValuesOfOne(ns[i]);
    ValuesOfAppend([ns[i]], RemoveAt(ns, i));
    ValuesOfAppend(RemoveAt(ns, i), [ns[i]]);
  }

  /** Every node of a segment of two or more nodes has a link set, so a node with
      neither is not a member, unless it is the only one. */
  lemma Attached(ns: seq<Node>, n: Node)
    requires Segment(ns) && n in ns && |ns| > 1
    ensures n.next != null || n.prev != null
  {
    var i := IndexOf(ns, n);
    if 0 < i {
      assert ns[i].prev == ns[i - 1];
    } else {
      assert ns[i].next == ns[i + 1];
    }
  }

  ghost function IndexOf(ns: seq<Node>, n: Node): (i: nat)
    requires n in ns
    ensures i < |ns| && ns[i] == n
  {
    if ns[0] == n then 0 else 1 + IndexOf(ns[1..], n)
  }

  /** One step of a walk along `next` from the head: the k-th visited node is
      followed by the (k+1)-th, or by None after the last; the tail is visited
      exactly at index |nodes| - 1; the value seen is the k-th walked value. */
  lemma WalkStep(nodes: seq<Node>, stale: seq<Node>, head: Node?, tail: Node?, k: nat)
    requires Shape(nodes, stale, head, tail)
    requires k < |nodes + stale|
    ensures var w := nodes + stale;
      w[k].next == (if k + 1 < |w| then w[k + 1] else null)
    ensures (nodes + stale)[k] == tail <==> k == |nodes| - 1
    ensures ValuesOf(nodes + stale)[k] == (nodes + stale)[k].value
  {
    var w := nodes + stale;
    ValuesOfAt(w, k);
    if k < |nodes| - 1 {
      assert w[k] == nodes[k] && w[k + 1] == nodes[k + 1];
      assert nodes[k + 1 - 1].next == nodes[k + 1];
      DistinctNotIn(nodes, k, |nodes| - 1, |nodes|);
    } else if k == |nodes| - 1 {
      assert w[k] == tail;
    } else {
      assert w[k] == stale[k - |nodes|] && w[k] in stale;
      if k + 1 < |w| {
        assert w[k + 1] == stale[k + 1 - |nodes|];
        assert stale[k + 1 - |nodes| - 1].next == stale[k + 1 - |nodes|];
      }
    }
  }

  /** Every node of what is left after a removal was in the sequence. */
  lemma InRemoveAt(ns: seq<Node>, i: nat)
    requires i < |ns|
    ensures forall x :: x in RemoveAt(ns, i) ==> x in ns
  {
    forall x | x in RemoveAt(ns, i) ensures x in ns {
      var k :| 0 <= k < |RemoveAt(ns, i)| && RemoveAt(ns, i)[k] == x;
      if k < i {
        assert x == ns[k];
      } else {
        assert x == ns[k + 1];
      }
    }
  }

  /** `node.prev.next = node.next; node.next.prev = node.prev`: the neighbours of
      the node at `i`, which is neither end of the segment, are linked to each
      other. The node keeps its own links. */
  method Bypass(node: Node, ghost ns: seq<Node>, ghost i: nat)
    requires Segment(ns) && 0 < i < |ns| - 1 && ns[i] == node
    modifies ns[i - 1], ns[i + 1]
    ensures Segment(RemoveAt(ns, i))
    ensures ns[i - 1].prev == old(ns[i - 1].prev) && ns[i + 1].next == old(ns[i + 1].next)
  {
    SegmentAround(ns, i);
    ghost var a, b := ns[..i], ns[i + 1..];
    SegmentEnds(a);
    SegmentEnds(b);
    Apart(Last(a), b);
    Apart(b[0], a);
    node.prev.next := node.next;
    node.next.prev := node.prev;
    SegmentKept(a);
    SegmentKept(b);
    SegmentConcat(a, b);
  }

  /** `first.prev = node; node.next = first; node.prev = None`: `node` goes in
      front of the segment that starts at `first`. */
  method PutBefore(node: Node, first: Node, ghost ns: seq<Node>)
    requires Segment(ns) && ns != [] && first == ns[0] && node !in ns
    modifies first, node
    ensures Segment([node] + ns) && node.prev == null && first.next == old(first.next)
  {
    SegmentEnds(ns);
    Apart(node, ns);
    first.prev := node;
    node.next := first;
    node.prev := null;
    SegmentKept(ns);
    SegmentConcat([node], ns);
  }

  /** `last.next = node; node.prev = last; node.next = None`: `node` goes behind
      the segment that ends at `last`. */
  method PutAfter(node: Node, last: Node, ghost ns: seq<Node>)
    requires Segment(ns) && ns != [] && last == Last(ns) && node !in ns
    modifies last, node
    ensures Segment(ns + [node]) && node.next == null && last.prev == old(last.prev)
  {
    SegmentEnds(ns);
    Apart(node, ns);
    last.next := node;
    node.prev := last;
    node.next := null;
    SegmentKept(ns);
    SegmentConcat(ns, [node]);
  }

  /** What the splices of `move_to_front`, `move_to_end` and `delete` need to
      know about the chain `ns` without its node at `i`, and about the removed
      nodes `stale` behind it. */
  lemma SpliceOutFacts(ns: seq<Node>, stale: seq<Node>, i: nat)
    requires Segment(ns) && Disjoint(ns, stale) && i < |ns|
    ensures var r := RemoveAt(ns, i);
      && |r| == |ns| - 1 && ns[i] !in r && ns[i] !in stale && Disjoint(r, stale)
      && (0 < i ==> ns[i - 1] !in stale && r[0] == ns[0] && ns[i] != ns[0])
      && (i < |ns| - 1 ==> ns[i + 1] !in stale && Last(r) == Last(ns) && Last(ns) != ns[i])
      && (i == |ns| - 1 ==> r == AllButLast(ns))
      && (i == 0 ==> r == AllButFirst(ns))
  {
    var r := RemoveAt(ns, i);
    InRemoveAt(ns, i);
    DistinctMoves(ns, i);
    DistinctNotIn(ns, i, 0, i);
    DistinctNotIn(ns, i, i + 1, |ns|);
    assert ns[i] in ns;
    if 0 < i {
      assert ns[i - 1] in ns && r[0] == ns[0] && r[0] in r;
    }
    if i < |ns| - 1 {
      assert ns[i + 1] in ns && Last(r) == Last(ns);
    }
  }

  /** The first node, moved to the front, stays where it is. */
  lemma HeadStays(ns: seq<Node>, node: Node)
    requires ns != [] && node == ns[0]
    ensures IndexOf(ns, node) == 0
    ensures ns == MoveToFront(ns, 0) && ValuesOf(ns) == MoveToFront(ValuesOf(ns), 0)
  {
    MovesInPlace(ns);
    MovesInPlace(ValuesOf(ns));
  }

  /** The last node of a segment, moved to the end, stays where it is. */
  lemma TailStays(ns: seq<Node>, node: Node)
    requires ns != [] && node == Last(ns) && Segment(ns)
    ensures IndexOf(ns, node) == |ns| - 1
    ensures ns == MoveToEnd(ns, |ns| - 1) && ValuesOf(ns) == MoveToEnd(ValuesOf(ns), |ns| - 1)
  {
    var k := IndexOf(ns, node);
    assert ns[k] == ns[|ns| - 1];
    MovesInPlace(ns);
    MovesInPlace(ValuesOf(ns));
  }

  /** `node.next.prev = node.prev` for the first node of a segment of two or
      more: what follows it is a segment of its own. */
  method Behead(node: Node, ghost ns: seq<Node>)
    requires Segment(ns) && |ns| > 1 && ns[0] == node
    modifies ns[1]
    ensures Segment(ns[1..]) && ns[1].prev == old(node.prev) && ns[1].next == old(ns[1].next)
  {
    SegmentDropFirst(ns);
    node.next.prev := node.prev;
    SegmentKept(AllButFirst(ns));
  }
}
