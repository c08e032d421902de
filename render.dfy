/** The text `__repr__` builds for a doubly-linked list. */
module Render {

  /** The decimal digit character for `d`. */
  function DigitChar(d: nat): (c: char)
    requires d < 10
    ensures '0' <= c <= '9' && c as int - '0' as int == d
  {
    ('0' as int + d) as char
  }

  /** Every character of `s` is a decimal digit. */
  ghost predicate IsDigits(s: string)
  {
    forall i :: 0 <= i < |s| ==> '0' <= s[i] <= '9'
  }

  /** The number a string of decimal digits denotes, most significant first. */
  ghost function ParseNat(s: string): nat
    requires IsDigits(s)
    decreases |s|
  {
    if s == [] then 0
    else ParseNat(s[..|s| - 1]) * 10 + (s[|s| - 1] as int - '0' as int)
  }

  /** The text of an integer literal: digits, after a '-' when negative. */
  ghost predicate IsDecimal(s: string)
  {
    || (s != [] && IsDigits(s))
    || (|s| > 1 && s[0] == '-' && IsDigits(s[1..]))
  }

  /** The integer an integer literal denotes. */
  ghost function ParseInt(s: string): int
    requires IsDecimal(s)
  {
    if s[0] == '-' then -(ParseNat(s[1..]) as int) else ParseNat(s)
  }

  /** The decimal digits of `n`, most significant first. */
  function NatToString(n: nat): string
    decreases n
  {
    if n < 10 then [DigitChar(n)] else NatToString(n / 10) + [DigitChar(n % 10)]
  }

  /** Python's `str` of an integer: its decimal digits, after a '-' when negative. */
  function IntToString(n: int): string
    decreases if n < 0 then 1 else 0
  {
    if n < 0 then "-" + IntToString(-n) else NatToString(n)
  }

  /** `Node.__repr__`: "Node(v)". */
  function NodeText(v: int): string
  {
    "Node(" + IntToString(v) + ")"
  }

  /** The digits of `n` are a non-empty digit string that reads back as `n`. */
  lemma {:induction false} NatToStringReadsBack(n: nat)
    ensures var s := NatToString(n); s != [] && IsDigits(s) && ParseNat(s) == n
    decreases n
  {
    if n >= 10 {
      var p, c := NatToString(n / 10), DigitChar(n % 10);
      NatToStringReadsBack(n / 10);
      assert (p + [c])[..|p|] == p;
    }
  }

  /** The text of an integer is an integer literal that reads back as it. */
  lemma IntToStringReadsBack(n: int)
    ensures IsDecimal(IntToString(n)) && ParseInt(IntToString(n)) == n
  {
    if n < 0 {
      var d := NatToString(-n);
      NatToStringReadsBack(-n);
      assert IntToString(n) == "-" + d;
      assert ("-" + d)[1..] == d;
    } else {
      NatToStringReadsBack(n);
    }
  }

  /** A node's text is "Node(", an integer literal, ")", and the literal reads
      back as the node's value. */
  lemma NodeTextReadsBack(v: int)
    ensures var t := NodeText(v);
      && |t| > 6 && t[..5] == "Node(" && t[|t| - 1] == ')'
      && IsDecimal(t[5..|t| - 1]) && ParseInt(t[5..|t| - 1]) == v
  {
    var x := IntToString(v);
    IntToStringReadsBack(v);
    assert NodeText(v)[5..|x| + 5] == x;
  }

  /** Different values have different node texts. */
  lemma NodeTextInjective(v: int, w: int)
    requires NodeText(v) == NodeText(w)
    ensures v == w
  {
    NodeTextReadsBack(v);
    NodeTextReadsBack(w);
  }

  /** What the repr loop appends while it visits the values `ws` in order: each
      node's text, then "]" after the visit at index `tailAt` (the tail) and " -> "
      after every other visit. */
  function Pieces(ws: seq<int>, tailAt: int): string
    decreases |ws|
  {
    if ws == [] then ""
    else Pieces(ws[..|ws| - 1], tailAt) + NodeText(ws[|ws| - 1])
         + (if |ws| - 1 == tailAt then "]" else " -> ")
  }

  /** What every repr starts with. */
  const Opening: string := "DLL=["

  /** The repr of a list whose values are `live`, when following `next` past the
      tail still visits removed nodes holding `stale` before reaching None. */
  function Repr(live: seq<int>, stale: seq<int>): string
  {
    if live == [] then Opening + "]" else Opening + Pieces(live + stale, |live| - 1)
  }

  /** The text the repr loop has built once it has visited all of `live + stale`. */
  lemma ReprOfWalk(live: seq<int>, stale: seq<int>, ws: seq<int>, text: string)
    requires live != [] && ws == live + stale && text == Opening + Pieces(ws, |live| - 1)
    ensures text == Repr(live, stale)
  {
  }

  /** Reference rendering: the node texts joined by " -> ". */
  function Join(vs: seq<int>): string
    requires vs != []
    decreases |vs|
  {
    if |vs| == 1 then NodeText(vs[0]) else NodeText(vs[0]) + " -> " + Join(vs[1..])
  }

  /** The pieces of a concatenation are the pieces of its parts, the tail index
      shifted for the second part. */
  lemma {:induction false} PiecesAppend(a: seq<int>, b: seq<int>, t: int)
    ensures Pieces(a + b, t) == Pieces(a, t) + Pieces(b, t - |a|)
    decreases |b|
  {
    if b == [] {
      assert a + b == a;
    } else {
      var b', x := b[..|b| - 1], b[|b| - 1];
      var piece := NodeText(x) + (if |b| - 1 == t - |a| then "]" else " -> ");
      assert Pieces(a + b, t) == Pieces(a + b', t) + piece by {
        assert (a + b)[..|a + b| - 1] == a + b';
        Assoc(Pieces(a + b', t), NodeText(x), if |b| - 1 == t - |a| then "]" else " -> ");
      }
      assert Pieces(b, t - |a|) == Pieces(b', t - |a|) + piece by {
        Assoc(Pieces(b', t - |a|), NodeText(x), if |b| - 1 == t - |a| then "]" else " -> ");
      }
      PiecesAppend(a, b', t);
      Assoc(Pieces(a, t), Pieces(b', t - |a|), piece);
    }
  }

  lemma Assoc<T>(a: seq<T>, b: seq<T>, c: seq<T>)
    ensures (a + b) + c == a + (b + c)
  {
  }

  /** Where no visit is the tail, only the arrow separator is used: the tail index
      no longer matters. */
  lemma {:induction false} PiecesWithoutTail(ws: seq<int>, t: int, t': int)
    requires t < 0 || t >= |ws|
    requires t' < 0 || t' >= |ws|
    ensures Pieces(ws, t) == Pieces(ws, t')
    decreases |ws|
  {
    if ws != [] {
      PiecesWithoutTail(ws[..|ws| - 1], t, t');
    }
  }

  /** Joining a sequence with one more value appends an arrow and that value's text. */
  lemma {:induction false} JoinSnoc(vs: seq<int>, x: int, t: int)
    requires t < 0
    ensures Join(vs + [x]) == Pieces(vs, t) + NodeText(x)
    decreases |vs|
  {
    if vs != [] {
      var a, r := vs[0], vs[1..];
      assert vs == [a] + r;
      assert (vs + [x])[0] == a && (vs + [x])[1..] == r + [x];
      assert Pieces([a], t) == NodeText(a) + " -> " by {
        assert [a][..0] == [];
      }
      calc {
        Join(vs + [x]);
        NodeText(a) + " -> " + Join(r + [x]);
        { JoinSnoc(r, x, t - 1); }
        NodeText(a) + " -> " + (Pieces(r, t - 1) + NodeText(x));
        (NodeText(a) + " -> " + Pieces(r, t - 1)) + NodeText(x);
        { PiecesAppend([a], r, t); }
        Pieces(vs, t) + NodeText(x);
      }
    }
  }

  /** When the tail's `next` is None the repr is "DLL=[" + the " -> "-joined node
      texts + "]", and "DLL=[]" for the empty list. */
  lemma ReprClosed(vs: seq<int>)
    ensures vs == [] ==> Repr(vs, []) == "DLL=[]"
    ensures vs != [] ==> Repr(vs, []) == "DLL=[" + Join(vs) + "]"
  {
    if vs != [] {
      var init := vs[..|vs| - 1];
      assert vs + [] == vs;
      assert vs == init + [vs[|vs| - 1]];
      PiecesWithoutTail(init, |vs| - 1, -1);
      JoinSnoc(init, vs[|vs| - 1], -1);
    }
  }

  /** With stale nodes past the tail, the repr is the correct one followed by the
      text of every stale node, each trailed by " -> ". */
  lemma ReprWithStale(live: seq<int>, stale: seq<int>)
    requires live != []
    ensures Repr(live, stale) == Repr(live, []) + Pieces(stale, -1)
  {
    assert live + [] == live;
    PiecesAppend(live, stale, |live| - 1);
    PiecesWithoutTail(stale, |live| - 1 - |live|, -1);
  }

  /** One more visit: the pieces of the first `k + 1` values are those of the
      first `k`, then the text of the value at `k` and its separator. */
  lemma PiecesSnoc(ws: seq<int>, k: nat, tailAt: int)
    requires k < |ws|
    ensures Pieces(ws[..k + 1], tailAt)
      == Pieces(ws[..k], tailAt) + NodeText(ws[k]) + (if k == tailAt then "]" else " -> ")
  {
    assert ws[..k + 1][..k] == ws[..k];
  }

  /** One turn of the repr loop: appending the text of the value at `k` and its
      separator to the text built so far gives the text of one more visit. */
  lemma ReprStep(ws: seq<int>, k: nat, tailAt: int, text: string)
    requires k < |ws| && text == Opening + Pieces(ws[..k], tailAt)
    ensures text + NodeText(ws[k]) + (if k == tailAt then "]" else " -> ")
      == Opening + Pieces(ws[..k + 1], tailAt)
  {
    PiecesSnoc(ws, k, tailAt);
  }

  /** The repr of the list holding only 1. */
  lemma ReprOne()
    ensures Repr([1], []) == "DLL=[Node(1)]"
  {
    assert [1] + [] == [1];
    assert [1][..0] == [];
    assert IntToString(1) == "1";
  }

  /** The repr of the list holding only 1 when a removed node holding 5 is still
      linked behind its tail. */
  lemma ReprOneStale()
    ensures Repr([1], [5]) == "DLL=[Node(1)]Node(5) -> "
  {
    ReprOne();
    ReprWithStale([1], [5]);
    assert Pieces([5], -1) == "Node(5) -> " by {
      assert [5][..0] == [];
      assert IntToString(5) == "5";
    }
  }
}
