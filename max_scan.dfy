/** The value `get_max` computes: a left-to-right scan that replaces the running
    maximum only when a strictly larger value appears. */
module MaxScan {

  /** The running maximum `m` carried over the rest `vs` of the scan. */
  function ScanFrom(m: int, vs: seq<int>): int
    decreases |vs|
  {
    if vs == [] then m else ScanFrom(if m < vs[0] then vs[0] else m, vs[1..])
  }

  /** The result of the scan over a non-empty sequence, started at its first element. */
  function Max(vs: seq<int>): int
    requires vs != []
  {
    ScanFrom(vs[0], vs[1..])
  }

  /** `m` is an element of `vs` that no element exceeds. */
  ghost predicate IsGreatest(m: int, vs: seq<int>)
  {
    m in vs && forall v :: v in vs ==> v <= m
  }

  lemma {:induction false} ScanFromBounds(m: int, vs: seq<int>)
    ensures ScanFrom(m, vs) == m || ScanFrom(m, vs) in vs
    ensures m <= ScanFrom(m, vs)
    ensures forall v :: v in vs ==> v <= ScanFrom(m, vs)
    decreases |vs|
  {
    if vs != [] {
      var m' := if m < vs[0] then vs[0] else m;
      ScanFromBounds(m', vs[1..]);
      assert vs == [vs[0]] + vs[1..];
    }
  }

  /** The scan finds the greatest element. */
  lemma MaxIsGreatest(vs: seq<int>)
    requires vs != []
    ensures IsGreatest(Max(vs), vs)
  {
    ScanFromBounds(vs[0], vs[1..]);
    assert vs == [vs[0]] + vs[1..];
  }

  /** A scan that also replaces the running maximum on a tie (`<=`). */
  function ScanFromOnTies(m: int, vs: seq<int>): int
    decreases |vs|
  {
    if vs == [] then m else ScanFromOnTies(if m <= vs[0] then vs[0] else m, vs[1..])
  }

  /** The strict `<` of `get_max` decides only which of several equal values is
      kept. Integers that are equal cannot be told apart, so replacing on ties
      too gives the same result on every input. */
  lemma {:induction false} TieRuleUnobservable(m: int, vs: seq<int>)
    ensures ScanFromOnTies(m, vs) == ScanFrom(m, vs)
    decreases |vs|
  {
    if vs != [] {
      assert (if m <= vs[0] then vs[0] else m) == (if m < vs[0] then vs[0] else m);
      TieRuleUnobservable(if m < vs[0] then vs[0] else m, vs[1..]);
    }
  }
}
