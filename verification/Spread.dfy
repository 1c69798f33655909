/** _spread: rows in the order that one fixed seed gives, which depends on their number alone. */
module Spread {
  import opened Basics

  /** For each number of rows, where the shuffled list takes its rows from. */
  type Shuffler = nat -> seq<nat>

  ghost predicate IsOrder(order: seq<nat>, n: nat) {
    && |order| == n
    && (forall i :: 0 <= i < n ==> order[i] < n)
    && (forall i, j :: 0 <= i < j < n ==> order[i] != order[j])
  }

  ghost predicate IsShuffler(shuffle: Shuffler) {
    forall n: nat :: IsOrder(shuffle(n), n)
  }

  function Shuffled<T>(rows: seq<T>, order: seq<nat>): (r: seq<T>)
    requires IsOrder(order, |rows|)
    ensures |r| == |rows| && forall i :: 0 <= i < |r| ==> r[i] == rows[order[i]]
  {
    seq(|rows|, i requires 0 <= i < |rows| => rows[order[i]])
  }

  function Upto(n: nat): (s: set<nat>)
    ensures |s| == n && forall i: nat :: i in s <==> i < n
  {
    if n == 0 then {} else Upto(n - 1) + {n - 1}
  }

  lemma {:induction false} SizeOfDistinct(s: seq<nat>)
    requires forall i, j :: 0 <= i < j < |s| ==> s[i] != s[j]
    ensures |set i | 0 <= i < |s| :: s[i]| == |s|
    decreases |s|
  {
    if s != [] {
      var n := |s| - 1;
      SizeOfDistinct(s[..n]);
      var before, all := set i | 0 <= i < n :: s[..n][i], set i | 0 <= i < |s| :: s[i];
      assert forall i :: 0 <= i < n ==> s[..n][i] == s[i];
      assert all == before + {s[n]} && s[n] !in before;
    }
  }

  /** Every position is taken. */
  lemma EveryPosition(order: seq<nat>, n: nat, k: nat)
    requires IsOrder(order, n) && k < n
    ensures k in order
  {
    var taken := set i | 0 <= i < |order| :: order[i];
    SizeOfDistinct(order);
    assert taken <= Upto(n);
    if k !in taken {
      assert taken <= Upto(n) - {k};
      SubsetSize(taken, Upto(n) - {k});
    }
  }

  /** The shuffle neither loses nor adds a row, and repeats none. */
  lemma ShuffledKeepsRows<T>(rows: seq<T>, order: seq<nat>)
    requires IsOrder(order, |rows|)
    ensures forall row :: row in Shuffled(rows, order) <==> row in rows
    ensures (forall i, j :: 0 <= i < j < |rows| ==> rows[i] != rows[j]) ==>
              forall i, j :: 0 <= i < j < |rows| ==> Shuffled(rows, order)[i] != Shuffled(rows, order)[j]
  {
    var r := Shuffled(rows, order);
    forall row | row in rows
      ensures row in r
    {
      var k :| 0 <= k < |rows| && rows[k] == row;
      EveryPosition(order, |rows|, k);
      var i :| 0 <= i < |order| && order[i] == k;
      assert r[i] == row;
    }
  }

  /** s[:limit] */
  function Cut<T>(s: seq<T>, limit: nat): (r: seq<T>)
    ensures r <= s && |r| == if |s| < limit then |s| else limit
  {
    if |s| < limit then s else s[..limit]
  }
}
