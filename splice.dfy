/** Sequence-level meaning of the doubly-linked list's relocation and deletion
    operations: what happens to the head-to-tail order, and to distinctness. */
module Splice {

  /** No element occurs twice. */
  ghost predicate Distinct<T>(s: seq<T>)
  {
    forall i, j :: 0 <= i < j < |s| ==> s[i] != s[j]
  }

  /** No element of `a` occurs in `b`. */
  ghost predicate Disjoint<T>(a: seq<T>, b: seq<T>)
  {
    forall x :: x in a ==> x !in b
  }

  lemma DistinctAppend<T>(a: seq<T>, b: seq<T>)
    requires Distinct(a) && Distinct(b) && Disjoint(a, b)
    ensures Distinct(a + b)
  {
    forall i, j | 0 <= i < j < |a + b|
      ensures (a + b)[i] != (a + b)[j]
    {
      if j < |a| {
        assert (a + b)[i] == a[i] && (a + b)[j] == a[j];
      } else if i >= |a| {
        assert (a + b)[i] == b[i - |a|] && (a + b)[j] == b[j - |a|];
      } else {
        assert (a + b)[i] in a && (a + b)[j] in b;
      }
    }
  }

  /** A slice of a sequence without repetitions has none. */
  lemma DistinctSlice<T>(s: seq<T>, lo: nat, hi: nat)
    requires lo <= hi <= |s| && Distinct(s)
    ensures Distinct(s[lo..hi])
  {
    var t := s[lo..hi];
    forall i, j | 0 <= i < j < |t| ensures t[i] != t[j] {
      assert t[i] == s[lo + i] && t[j] == s[lo + j];
    }
  }

  /** In a sequence without repetitions, the element at `i` is in no slice that
      leaves `i` out. */
  lemma DistinctNotIn<T>(s: seq<T>, i: nat, lo: nat, hi: nat)
    requires i < |s| && lo <= hi <= |s| && !(lo <= i < hi) && Distinct(s)
    ensures s[i] !in s[lo..hi]
  {
    forall k | 0 <= k < hi - lo ensures s[lo..hi][k] != s[i] {
      assert s[lo..hi][k] == s[lo + k];
    }
  }

  /** The sequence without its element at index `i`. */
  function RemoveAt<T>(s: seq<T>, i: nat): seq<T>
    requires i < |s|
  {
    s[..i] + s[i + 1..]
  }

  /** The element at `i` first, then all the others. */
  function MoveToFront<T>(s: seq<T>, i: nat): seq<T>
    requires i < |s|
  {
    [s[i]] + RemoveAt(s, i)
  }

  /** All the others, then the element at `i`. */
  function MoveToEnd<T>(s: seq<T>, i: nat): seq<T>
    requires i < |s|
  {
    RemoveAt(s, i) + [s[i]]
  }

  /** Removal shortens the sequence by one, and the survivors keep their order:
      those before `i` stay where they were, those after move down by one. */
  lemma RemoveAtIndex<T>(s: seq<T>, i: nat)
    requires i < |s|
    ensures |RemoveAt(s, i)| == |s| - 1
    ensures forall j :: 0 <= j < i ==> RemoveAt(s, i)[j] == s[j]
    ensures forall j :: i <= j < |s| - 1 ==> RemoveAt(s, i)[j] == s[j + 1]
  {
  }

  /** Relocation puts the element at `i` at the chosen end and the others, in
      their old order, next to it. */
  lemma MovesIndex<T>(s: seq<T>, i: nat)
    requires i < |s|
    ensures var f := MoveToFront(s, i); |f| == |s| && f[0] == s[i] && f[1..] == RemoveAt(s, i)
    ensures var e := MoveToEnd(s, i); |e| == |s| && e[|s| - 1] == s[i] && e[..|s| - 1] == RemoveAt(s, i)
  {
    assert MoveToFront(s, i)[1..] == RemoveAt(s, i);
    assert MoveToEnd(s, i)[..|s| - 1] == RemoveAt(s, i);
  }

  /** The three pieces each relocation puts together. */
  lemma MovesSplit<T>(s: seq<T>, i: nat)
    requires i < |s|
    ensures MoveToFront(s, i) == [s[i]] + s[..i] + s[i + 1..]
    ensures MoveToEnd(s, i) == s[..i] + s[i + 1..] + [s[i]]
  {
    assert [s[i]] + (s[..i] + s[i + 1..]) == [s[i]] + s[..i] + s[i + 1..];
  }

  /** Removing an element takes exactly one copy of it out of the multiset. */
  lemma RemoveAtMultiset<T>(s: seq<T>, i: nat)
    requires i < |s|
    ensures multiset(RemoveAt(s, i)) == multiset(s) - multiset{s[i]}
  {
    assert s == s[..i] + [s[i]] + s[i + 1..];
  }

  /** Both relocations are permutations of the list. */
  lemma MovesPermute<T>(s: seq<T>, i: nat)
    requires i < |s|
    ensures multiset(MoveToFront(s, i)) == multiset(s)
    ensures multiset(MoveToEnd(s, i)) == multiset(s)
  {
    RemoveAtMultiset(s, i);
  }

  /** Relocating or removing an element keeps a sequence free of repetitions. */
  lemma DistinctMoves<T>(s: seq<T>, i: nat)
    requires i < |s| && Distinct(s)
    ensures Distinct(RemoveAt(s, i))
    ensures Distinct(MoveToFront(s, i)) && Distinct(MoveToEnd(s, i))
  {
    var r, a, b := RemoveAt(s, i), s[..i], s[i + 1..];
    DistinctSlice(s, 0, i);
    DistinctSlice(s, i + 1, |s|);
    assert s[0..i] == a && s[i + 1..|s|] == b;
    forall x | x in a ensures x !in b {
      var k :| 0 <= k < i && a[k] == x;
      DistinctNotIn(s, k, i + 1, |s|);
    }
    DistinctAppend(a, b);
    DistinctNotIn(s, i, 0, i);
    DistinctNotIn(s, i, i + 1, |s|);
    assert s[i] !in r;
    DistinctAppend([s[i]], r);
    DistinctAppend(r, [s[i]]);
  }

  /** Moving the first element to the front, or the last to the end, changes nothing:
      these are exactly the cases the list treats as no-ops. */
  lemma MovesInPlace<T>(s: seq<T>)
    requires |s| > 0
    ensures MoveToFront(s, 0) == s
    ensures MoveToEnd(s, |s| - 1) == s
  {
    assert MoveToFront(s, 0) == s by {
      assert RemoveAt(s, 0) == s[1..];
    }
    assert MoveToEnd(s, |s| - 1) == s by {
      assert RemoveAt(s, |s| - 1) == s[..|s| - 1];
    }
  }
}
