/** Enumerating a set of record ids in ascending order. Query results in the
    store are sets of ids; a task that iterates over them or ships them in a
    job needs them as a sequence, and ascending id order is the one chosen
    here (the application relies on no particular order). */
module Ordered {

  predicate StrictlyIncreasing(xs: seq<nat>) {
    forall i, j :: 0 <= i < j < |xs| ==> xs[i] < xs[j]
  }

  /** Every non-empty set of naturals has a least element: descend from any
      member to a smaller one until none is left. */
  lemma MinExists(s: set<nat>)
    requires s != {}
    ensures exists m :: m in s && forall x :: x in s ==> m <= x
  {
    var k :| k in s;
    MinAtMost(s, k);
  }

  lemma {:induction false} MinAtMost(s: set<nat>, k: nat)
    requires k in s
    ensures exists m :: m in s && forall x :: x in s ==> m <= x
    decreases k
  {
    if !forall x :: x in s ==> k <= x {
      var y :| y in s && y < k;
      MinAtMost(s, y);
    }
  }

  /** The least element of a non-empty set. */
  function MinOf(s: set<nat>): (m: nat)
    requires s != {}
    ensures m in s
    ensures forall x :: x in s ==> m <= x
  {
    MinExists(s);
    var m :| m in s && forall x :: x in s ==> m <= x;
    m
  }

  /** The elements of `s`, each once, in ascending order. */
  function SortedSeq(s: set<nat>): (r: seq<nat>)
    ensures forall x :: x in s <==> x in r
    ensures StrictlyIncreasing(r)
    ensures |r| == |s|
    decreases |s|
  {
    if s == {} then []
    else
      var m := MinOf(s);
      var rest := SortedSeq(s - {m});
      ConsSorted(s, m, rest);
      [m] + rest
  }

  /** The least element of `s` followed by an enumeration of the others
      enumerates `s`. */
  lemma ConsSorted(s: set<nat>, m: nat, rest: seq<nat>)
    requires m in s && forall x :: x in s ==> m <= x
    requires forall x :: x in s - {m} <==> x in rest
    requires StrictlyIncreasing(rest) && |rest| == |s - {m}|
    ensures forall x :: x in s <==> x in [m] + rest
    ensures StrictlyIncreasing([m] + rest)
    ensures |[m] + rest| == |s|
  {
    forall k | 0 <= k < |rest| ensures m < rest[k] {
      assert rest[k] in s - {m};
    }
  }
}
