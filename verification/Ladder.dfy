/** Word ladders over four-letter words: what distance and reachability mean. */
module LadderSpec {

  function Differ(a: char, b: char): nat { if a == b then 0 else 1 }

  /** Hamming distance of two four-letter words. */
  function Hamming(a: string, b: string): nat
    requires |a| == 4 && |b| == 4
  {
    Differ(a[0], b[0]) + Differ(a[1], b[1]) + Differ(a[2], b[2]) + Differ(a[3], b[3])
  }

  predicate Step(a: string, b: string) {
    |a| == 4 && |b| == 4 && Hamming(a, b) == 1
  }

  function Neighbours(nodes: set<string>, a: string): set<string> {
    set b | b in nodes && Step(a, b)
  }

  /** The words at most n steps from s. */
  ghost function Within(nodes: set<string>, s: string, n: nat): set<string> {
    if n == 0 then {s}
    else Within(nodes, s, n - 1) + set b | b in nodes && exists a :: a in Within(nodes, s, n - 1) && Step(a, b)
  }

  ghost predicate Reachable(nodes: set<string>, s: string, t: string) {
    exists n: nat :: t in Within(nodes, s, n)
  }

  ghost predicate IsDistance(nodes: set<string>, s: string, t: string, d: nat) {
    t in Within(nodes, s, d) && (d > 0 ==> t !in Within(nodes, s, d - 1))
  }

  /** A ladder: each word one step from the one before it. */
  ghost predicate IsLadder(nodes: set<string>, p: seq<string>) {
    && p != []
    && forall i :: 0 < i < |p| ==> p[i] in nodes && Step(p[i - 1], p[i])
  }

  // ---- Reachability is what it should be ----

  lemma {:induction false} LadderIsWithin(nodes: set<string>, p: seq<string>, n: nat)
    requires IsLadder(nodes, p) && |p| <= n + 1
    ensures p[|p| - 1] in Within(nodes, p[0], n)
    decreases n
  {
    if n > 0 {
      if |p| <= n {
        LadderIsWithin(nodes, p, n - 1);
      } else {
        LadderIsWithin(nodes, p[..|p| - 1], n - 1);
      }
    }
  }

  lemma {:induction false} WithinHasLadder(nodes: set<string>, s: string, t: string, n: nat) returns (p: seq<string>)
    requires t in Within(nodes, s, n)
    ensures IsLadder(nodes, p) && p[0] == s && p[|p| - 1] == t && |p| <= n + 1
    decreases n
  {
    if n == 0 {
      p := [s];
    } else if t in Within(nodes, s, n - 1) {
      p := WithinHasLadder(nodes, s, t, n - 1);
    } else {
      var a :| a in Within(nodes, s, n - 1) && Step(a, t);
      p := WithinHasLadder(nodes, s, a, n - 1);
      p := p + [t];
    }
  }

  /** d is the distance exactly when some ladder has d steps and none has fewer. */
  lemma DistanceIsShortest(nodes: set<string>, s: string, t: string, d: nat)
    ensures IsDistance(nodes, s, t, d) <==>
            && (exists p :: IsLadder(nodes, p) && p[0] == s && p[|p| - 1] == t && |p| == d + 1)
            && (forall p :: IsLadder(nodes, p) && p[0] == s && p[|p| - 1] == t ==> |p| >= d + 1)
  {
    if IsDistance(nodes, s, t, d) {
      forall p | IsLadder(nodes, p) && p[0] == s && p[|p| - 1] == t
        ensures |p| >= d + 1
      {
        if |p| < d + 1 {
          LadderIsWithin(nodes, p, d - 1);
        }
      }
      var p := WithinHasLadder(nodes, s, t, d);
      assert IsLadder(nodes, p) && p[0] == s && p[|p| - 1] == t && |p| == d + 1;
    }
    if (exists p :: IsLadder(nodes, p) && p[0] == s && p[|p| - 1] == t && |p| == d + 1)
       && (forall p :: IsLadder(nodes, p) && p[0] == s && p[|p| - 1] == t ==> |p| >= d + 1) {
      var p :| IsLadder(nodes, p) && p[0] == s && p[|p| - 1] == t && |p| == d + 1;
      LadderIsWithin(nodes, p, d);
      if d > 0 && t in Within(nodes, s, d - 1) {
        var _ := WithinHasLadder(nodes, s, t, d - 1);
      }
    }
  }

  lemma {:induction false} WithinMonotone(nodes: set<string>, s: string, m: nat, n: nat)
    requires m <= n
    ensures Within(nodes, s, m) <= Within(nodes, s, n)
    decreases n
  {
    if m < n {
      WithinMonotone(nodes, s, m, n - 1);
    }
  }

  lemma DistanceIsUnique(nodes: set<string>, s: string, t: string, d: nat, e: nat)
    requires IsDistance(nodes, s, t, d) && IsDistance(nodes, s, t, e)
    ensures d == e
  {
    if d < e { WithinMonotone(nodes, s, d, e - 1); }
    if e < d { WithinMonotone(nodes, s, e, d - 1); }
  }

  /** A set that contains s and is closed under steps contains everything reachable from s. */
  lemma {:induction false} ClosedContainsWithin(nodes: set<string>, s: string, closed: set<string>, n: nat)
    requires s in closed
    requires forall a :: a in closed ==> Neighbours(nodes, a) <= closed
    ensures Within(nodes, s, n) <= closed
  {
    if n > 0 {
      ClosedContainsWithin(nodes, s, closed, n - 1);
      forall b | b in Within(nodes, s, n)
        ensures b in closed
      {
        if b !in Within(nodes, s, n - 1) {
          var a :| a in Within(nodes, s, n - 1) && Step(a, b);
          assert b in Neighbours(nodes, a);
        }
      }
    }
  }

  /** The words reachable from s, as a set. */
  ghost function Component(nodes: set<string>, s: string): set<string> {
    set t | t in nodes + {s} && Reachable(nodes, s, t)
  }

  lemma ComponentIsClosed(nodes: set<string>, s: string, a: string)
    requires a in Component(nodes, s)
    ensures Neighbours(nodes, a) <= Component(nodes, s)
  {
    var n: nat :| a in Within(nodes, s, n);
    forall b | b in Neighbours(nodes, a)
      ensures b in Component(nodes, s)
    {
      assert b in Within(nodes, s, n + 1);
    }
  }

  lemma {:induction false} WithinAreNodes(nodes: set<string>, s: string, n: nat)
    ensures Within(nodes, s, n) <= nodes + {s}
  {
    if n > 0 { WithinAreNodes(nodes, s, n - 1); }
  }

  lemma {:induction false} ReachBack(nodes: set<string>, s: string, t: string, n: nat)
    requires s in nodes && t in Within(nodes, s, n)
    ensures Reachable(nodes, t, s)
    decreases n
  {
    if n == 0 {
      assert s in Within(nodes, t, 0);
    } else if t in Within(nodes, s, n - 1) {
      ReachBack(nodes, s, t, n - 1);
    } else {
      var a :| a in Within(nodes, s, n - 1) && Step(a, t);
      ReachBack(nodes, s, a, n - 1);
      WithinAreNodes(nodes, s, n - 1);
      assert a in Within(nodes, t, 1) by { assert t in Within(nodes, t, 0) && Step(t, a); }
      var m: nat :| s in Within(nodes, a, m);
      Chain(nodes, t, a, s, 1, m);
    }
  }

  lemma {:induction false} Chain(nodes: set<string>, s: string, a: string, t: string, m: nat, n: nat)
    requires a in Within(nodes, s, m) && t in Within(nodes, a, n)
    ensures t in Within(nodes, s, m + n)
    decreases n
  {
    if n > 0 {
      if t in Within(nodes, a, n - 1) {
        Chain(nodes, s, a, t, m, n - 1);
      } else {
        var b :| b in Within(nodes, a, n - 1) && Step(b, t);
        Chain(nodes, s, a, b, m, n - 1);
      }
    }
  }

  /** Components are equal or disjoint. */
  lemma ComponentsPartition(nodes: set<string>, s: string, t: string)
    requires s in nodes && t in nodes
    ensures t in Component(nodes, s) ==> Component(nodes, t) == Component(nodes, s)
    ensures t !in Component(nodes, s) ==> Component(nodes, t) !! Component(nodes, s)
  {
    if t in Component(nodes, s) {
      ComponentWithin(nodes, s, t);
      var n: nat :| t in Within(nodes, s, n);
      ReachBack(nodes, s, t, n);
      ComponentWithin(nodes, t, s);
    } else {
      forall u | u in Component(nodes, t)
        ensures u !in Component(nodes, s)
      {
        if u in Component(nodes, s) {
          var n: nat :| u in Within(nodes, t, n);
          ReachBack(nodes, t, u, n);
          ComponentWithin(nodes, s, u);
        }
      }
    }
  }

  lemma ComponentWithin(nodes: set<string>, s: string, t: string)
    requires s in nodes && t in Component(nodes, s)
    ensures Component(nodes, t) <= Component(nodes, s)
  {
    var m: nat :| t in Within(nodes, s, m);
    forall u | u in Component(nodes, t)
      ensures u in Component(nodes, s)
    {
      var n: nat :| u in Within(nodes, t, n);
      Chain(nodes, s, t, u, m, n);
    }
  }
}
