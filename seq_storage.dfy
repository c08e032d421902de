/** The storage of the stacks and queues as a sequence of Python values, left
    end first: what their `pop` returns and leaves, and what a run of pushes or
    enqueues followed by pops yields. */
module SeqStorage {
  import opened Wrappers

  /** The value a `pop` returns and the storage it leaves. */
  datatype Popping = Popping(out: Value, rest: seq<Value>)

  /** A guarded `pop` from the right end: None and nothing removed when the
      storage is empty, otherwise the last value split off. */
  function Pop(s: seq<Value>): (p: Popping)
    ensures s == [] ==> p == Popping(None, [])
    ensures s != [] ==> s == p.rest + [p.out]
  {
    if s == [] then Popping(None, s) else Popping(s[|s| - 1], s[..|s| - 1])
  }

  /** What a removal from the right end leaves, stated as `Pop`: None and
      nothing on empty storage, otherwise the last value and the rest. */
  lemma PopOfLast(s: seq<Value>, out: Value, rest: seq<Value>)
    requires s == [] ==> out == None && rest == []
    requires s != [] ==> out == s[|s| - 1] && rest == s[..|s| - 1]
    ensures Pop(s) == Popping(out, rest)
    ensures s != [] ==> |rest| == |s| - 1
  {
  }

  /** The values `n` successive pops return, in order, and the storage left. */
  function PopMany(s: seq<Value>, n: nat): (seq<Value>, seq<Value>)
    decreases n
  {
    if n == 0 then ([], s)
    else
      var p := Pop(s);
      var d := PopMany(p.rest, n - 1);
      ([p.out] + d.0, d.1)
  }

  /** `vs` back to front. */
  function Reversed(vs: seq<Value>): seq<Value>
    decreases |vs|
  {
    if vs == [] then [] else [vs[|vs| - 1]] + Reversed(vs[..|vs| - 1])
  }

  /** Enqueueing each of `vs` in turn at the left end of `s`. */
  function EnqueueAll(s: seq<Value>, vs: seq<Value>): seq<Value>
    decreases |vs|
  {
    if vs == [] then s else EnqueueAll([vs[0]] + s, vs[1..])
  }

  /** A pop right after a push returns the pushed value and restores the
      storage, whatever it held. */
  lemma PushThenPop(s: seq<Value>, v: Value)
    ensures Pop(s + [v]) == Popping(v, s)
  {
    assert (s + [v])[..|s|] == s;
  }

  /** Reversing a sequence with one more value in front puts that value last. */
  lemma {:induction false} ReversedCons(x: Value, vs: seq<Value>)
    ensures Reversed([x] + vs) == Reversed(vs) + [x]
    decreases |vs|
  {
    if vs != [] {
      var w := [x] + vs;
      assert w[..|w| - 1] == [x] + vs[..|vs| - 1];
      ReversedCons(x, vs[..|vs| - 1]);
    } else {
      assert ([x] + vs)[..0] == [];
    }
  }

  /** LIFO: after pushing `vs` onto `s`, popping |vs| times returns `vs` last
      pushed first and leaves `s`. */
  lemma {:induction false} LastInFirstOut(s: seq<Value>, vs: seq<Value>)
    ensures PopMany(s + vs, |vs|) == (Reversed(vs), s)
    decreases |vs|
  {
    if vs == [] {
      assert s + vs == s;
    } else {
      var init := vs[..|vs| - 1];
      assert s + vs == (s + init) + [vs[|vs| - 1]];
      PushThenPop(s + init, vs[|vs| - 1]);
      LastInFirstOut(s, init);
    }
  }

  /** Enqueueing `vs` at the left end stores them back to front before `s`. */
  lemma {:induction false} EnqueueAllStores(s: seq<Value>, vs: seq<Value>)
    ensures EnqueueAll(s, vs) == Reversed(vs) + s
    decreases |vs|
  {
    if vs != [] {
      EnqueueAllStores([vs[0]] + s, vs[1..]);
      assert vs == [vs[0]] + vs[1..];
      ReversedCons(vs[0], vs[1..]);
    }
  }

  /** FIFO: when the storage holds `t` followed, at its right end, by the
      values `vs` enqueued before it (stored back to front, as
      `EnqueueAllStores` shows), dequeueing |vs| times from the right end
      returns `vs` in the order they were enqueued and leaves `t`. */
  lemma {:induction false} FirstInFirstOut(vs: seq<Value>, t: seq<Value>)
    ensures PopMany(t + Reversed(vs), |vs|) == (vs, t)
    decreases |vs|
  {
    if vs != [] {
      ReversedCons(vs[0], vs[1..]);
      assert vs == [vs[0]] + vs[1..];
      assert t + Reversed(vs) == (t + Reversed(vs[1..])) + [vs[0]];
      PushThenPop(t + Reversed(vs[1..]), vs[0]);
      FirstInFirstOut(vs[1..], t);
    } else {
      assert t + [] == t;
    }
  }

  /** FIFO from an empty queue: enqueueing v1..vn and then dequeueing n times
      yields v1..vn and leaves the queue empty. */
  lemma EnqueueThenDequeue(vs: seq<Value>)
    ensures PopMany(EnqueueAll([], vs), |vs|) == (vs, [])
  {
    EnqueueAllStores([], vs);
    assert Reversed(vs) + [] == [] + Reversed(vs);
    FirstInFirstOut(vs, []);
  }
}
