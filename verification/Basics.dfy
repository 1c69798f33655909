/** What several modules use. */
module Basics {
  datatype Option<+T> = None | Some(value: T)

  /** A nonempty set of integers has a member to pick. */
  lemma SomeMember(s: set<int>)
    ensures s != {} ==> exists i :: i in s
  {
    if forall i :: i !in s {
      assert s == {};
    }
  }

  lemma SubsetSize<T>(a: set<T>, b: set<T>)
    requires a <= b
    ensures |a| <= |b|
  {
    assert b == a + (b - a);
  }

  /** `all` is `rest` moved up by one, with or without zero. */
  lemma {:induction false} ShiftedSize(rest: set<nat>, all: set<nat>, first: bool)
    requires forall i: nat :: i in all <==> if i == 0 then first else i - 1 in rest
    ensures |all| == |rest| + if first then 1 else 0
    decreases rest
  {
    if rest == {} {
      assert all == if first then {0} else {};
    } else {
      var i: nat :| i in rest;
      ShiftedSize(rest - {i}, all - {i + 1}, first);
    }
  }
}
