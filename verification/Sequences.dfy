module Sequences {

  predicate Distinct<T(==)>(s: seq<T>) {
    forall i, j | 0 <= i < j < |s| :: s[i] != s[j]
  }

  lemma {:induction false} DistinctCount<T>(s: seq<T>, elems: set<T>)
    requires Distinct(s) && forall x :: x in elems <==> x in s
    ensures |elems| == |s|
  {
    if s == [] {
      assert elems == {};
    } else {
      assert s == [s[0]] + s[1..];
      DistinctCount(s[1..], elems - {s[0]});
    }
  }

  /** The first position of `x` from `i` on; the length if there is none. */
  function PositionFrom<T(==)>(s: seq<T>, x: T, i: nat): (k: nat)
    requires i <= |s|
    ensures i <= k <= |s| && (k < |s| ==> s[k] == x)
    ensures forall j | i <= j < k :: s[j] != x
    decreases |s| - i
  {
    if i == |s| || s[i] == x then i else PositionFrom(s, x, i + 1)
  }
}
