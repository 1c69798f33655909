/** What merging guarantees, and what the assignment read off it can lose. */
module ChainProofs {
  import opened Basics
  import opened ChainSpec

  /** r is kept with the group united into the chain at `at`, the first that subsumes it, or
      appended when none does. */
  ghost predicate PlacedAt(kept: seq<set<nat>>, group: set<nat>, ratio: real, r: seq<set<nat>>, at: nat) {
    && at <= |kept| && |r| == (if at == |kept| then |kept| + 1 else |kept|)
    && (forall k :: 0 <= k < |kept| ==> r[k] == if k == at then kept[k] + group else kept[k])
    && (at == |kept| ==> r[at] == group)
    && (forall k :: 0 <= k < at ==> !Subsumes(kept[k], group, ratio))
    && (at < |kept| ==> Subsumes(kept[at], group, ratio))
  }

  lemma {:induction false} PlaceFacts(kept: seq<set<nat>>, group: set<nat>, ratio: real) returns (at: nat)
    ensures PlacedAt(kept, group, ratio, Place(kept, group, ratio), at)
  {
    at := 0;
    if kept != [] && !Subsumes(kept[0], group, ratio) {
      var rest := PlaceFacts(kept[1..], group, ratio);
      at := rest + 1;
      PlacedFurther(kept, group, ratio, Place(kept[1..], group, ratio), rest);
    }
  }

  lemma PlacedFurther(kept: seq<set<nat>>, group: set<nat>, ratio: real, r: seq<set<nat>>, at: nat)
    requires kept != [] && !Subsumes(kept[0], group, ratio) && PlacedAt(kept[1..], group, ratio, r, at)
    ensures PlacedAt(kept, group, ratio, [kept[0]] + r, at + 1)
  {
    assert forall k :: 1 <= k < |kept| ==> kept[k] == kept[1..][k - 1];
  }

  /** Chains only grow, and keep their places. */
  lemma {:induction false} PlaceGrows(kept: seq<set<nat>>, group: set<nat>, ratio: real)
    ensures |Place(kept, group, ratio)| >= |kept|
    ensures forall k :: 0 <= k < |kept| ==> kept[k] <= Place(kept, group, ratio)[k]
    ensures Contained(Place(kept, group, ratio), group)
  {
    var at := PlaceFacts(kept, group, ratio);
    assert group <= Place(kept, group, ratio)[at];
  }

  /** Merging loses nobody: every group of at least two is contained in a kept chain. */
  lemma {:induction false} EveryGroupIsContained(groups: seq<set<nat>>, ratio: real, g: nat)
    requires g < |groups| && |groups[g]| >= 2
    ensures Contained(MergeAll(groups, ratio), groups[g])
  {
    var n := |groups| - 1;
    var before := MergeAll(groups[..n], ratio);
    if |groups[n]| >= 2 {
      PlaceGrows(before, groups[n], ratio);
    }
    if g < n {
      assert groups[..n][g] == groups[g];
      EveryGroupIsContained(groups[..n], ratio, g);
      var k :| 0 <= k < |before| && groups[g] <= before[k];
      assert groups[g] <= MergeAll(groups, ratio)[k];
    }
  }

  /** Nor does it invent anybody: each member of a kept chain comes from a group inside it. */
  lemma {:induction false} EveryMemberHasAGroup(groups: seq<set<nat>>, ratio: real, k: nat, i: nat) returns (g: nat)
    requires k < |MergeAll(groups, ratio)| && i in MergeAll(groups, ratio)[k]
    ensures g < |groups| && |groups[g]| >= 2 && i in groups[g] && groups[g] <= MergeAll(groups, ratio)[k]
  {
    var n := |groups| - 1;
    var before := MergeAll(groups[..n], ratio);
    if |groups[n]| >= 2 {
      var at := PlaceFacts(before, groups[n], ratio);
      if at == k && i in groups[n] {
        g := n;
        return;
      }
    }
    g := EveryMemberHasAGroup(groups[..n], ratio, k, i);
  }

  /** Every kept chain contains one of the groups processed so far. */
  lemma {:induction false} KeptContainsAGroup(groups: seq<set<nat>>, ratio: real, k: nat) returns (g: nat)
    requires k < |MergeAll(groups, ratio)|
    ensures g < |groups| && |groups[g]| >= 2 && groups[g] <= MergeAll(groups, ratio)[k]
  {
    var n := |groups| - 1;
    var before := MergeAll(groups[..n], ratio);
    if |groups[n]| >= 2 {
      var at := PlaceFacts(before, groups[n], ratio);
      if at == k {
        g := n;
        return;
      }
    }
    g := KeptContainsAGroup(groups[..n], ratio, k);
  }

  /** Small merges into large: when a group arrives, every kept chain is at least as large. */
  lemma KeptIsAtLeastAsLarge(groups: seq<set<nat>>, ratio: real, n: nat, k: nat)
    requires LargestFirst(groups) && n < |groups|
    requires k < |MergeAll(groups[..n], ratio)|
    ensures |MergeAll(groups[..n], ratio)[k]| >= |groups[n]|
  {
    var g := KeptContainsAGroup(groups[..n], ratio, k);
    SubsetSize(groups[..n][g], MergeAll(groups[..n], ratio)[k]);
  }

  // ---- Connectedness ----

  ghost predicate Meets(a: set<nat>, b: set<nat>) {
    exists i :: i in a && i in b
  }

  /** Some group of at least two, inside the chain, has members on both sides of the cut. */
  ghost predicate Crossed(groups: seq<set<nat>>, chain: set<nat>, side: set<nat>) {
    exists g :: 0 <= g < |groups| && |groups[g]| >= 2 && groups[g] <= chain
                && Meets(groups[g], side) && Meets(groups[g], chain - side)
  }

  /** A chain is connected under shared keys: no cut of it goes uncrossed. */
  ghost predicate Connected(groups: seq<set<nat>>, chain: set<nat>) {
    forall side: set<nat> :: side < chain && side != {} ==> Crossed(groups, chain, side)
  }

  lemma CrossedGrows(groups: seq<set<nat>>, group: set<nat>, chain: set<nat>, side: set<nat>, chain': set<nat>,
                     side': set<nat>)
    requires Crossed(groups, chain, side)
    requires chain <= chain' && side <= side' && chain - side <= chain' - side'
    ensures Crossed(groups + [group], chain', side')
  {
    var g :| 0 <= g < |groups| && |groups[g]| >= 2 && groups[g] <= chain
             && Meets(groups[g], side) && Meets(groups[g], chain - side);
    assert (groups + [group])[g] == groups[g];
    var i :| i in groups[g] && i in side;
    var j :| j in groups[g] && j in chain - side;
    assert i in side' && j in chain' - side';
  }

  lemma NewGroupCrosses(groups: seq<set<nat>>, group: set<nat>, chain: set<nat>, side: set<nat>)
    requires |group| >= 2 && group <= chain && Meets(group, side) && Meets(group, chain - side)
    ensures Crossed(groups + [group], chain, side)
  {
    assert (groups + [group])[|groups|] == group;
  }

  lemma GroupIsConnected(groups: seq<set<nat>>, group: set<nat>)
    requires |group| >= 2
    ensures Connected(groups + [group], group)
  {
    forall side: set<nat> | side < group && side != {}
      ensures Crossed(groups + [group], group, side)
    {
      SomeMember(side);
      SomeMember(group - side);
      NewGroupCrosses(groups, group, group, side);
    }
  }

  lemma UnionIsConnected(groups: seq<set<nat>>, chain: set<nat>, group: set<nat>)
    requires Connected(groups, chain) && |group| >= 2 && Meets(group, chain)
    ensures Connected(groups + [group], chain + group)
  {
    var whole := chain + group;
    var m :| m in group && m in chain;
    forall side: set<nat> | side < whole && side != {}
      ensures Crossed(groups + [group], whole, side)
    {
      var inner := side * chain;
      if inner != {} && inner < chain {
        CrossedGrows(groups, group, chain, inner, whole, side);
      } else {
        SomeMember(side);
        SomeMember(whole - side);
        if inner == {} {
          assert m !in inner;
          assert m in whole - side;
        } else {
          assert chain <= side;
          assert m in side;
        }
        NewGroupCrosses(groups, group, whole, side);
      }
    }
  }

  lemma ConnectedKeeps(groups: seq<set<nat>>, chain: set<nat>, group: set<nat>)
    requires Connected(groups, chain)
    ensures Connected(groups + [group], chain)
  {
    forall side: set<nat> | side < chain && side != {}
      ensures Crossed(groups + [group], chain, side)
    {
      CrossedGrows(groups, group, chain, side, chain, side);
    }
  }

  lemma SubsumesMeets(k: set<nat>, group: set<nat>, ratio: real)
    requires ratio > 0.0 && Subsumes(k, group, ratio)
    ensures Meets(group, k)
  {
    assert |group * k| > 0;
    SomeMember(group * k);
  }

  /** With a positive ratio every chain is connected under shared keys. */
  lemma {:induction false} ChainsAreConnected(groups: seq<set<nat>>, ratio: real, k: nat)
    requires ratio > 0.0
    requires k < |MergeAll(groups, ratio)|
    ensures Connected(groups, MergeAll(groups, ratio)[k])
    decreases |groups|
  {
    var n := |groups| - 1;
    var before := MergeAll(groups[..n], ratio);
    assert groups == groups[..n] + [groups[n]];
    if |groups[n]| < 2 {
      ChainsAreConnected(groups[..n], ratio, k);
      ConnectedKeeps(groups[..n], before[k], groups[n]);
    } else {
      var at := PlaceFacts(before, groups[n], ratio);
      if k < |before| {
        ChainsAreConnected(groups[..n], ratio, k);
        ConnectedKeeps(groups[..n], before[k], groups[n]);
      }
      if k == at && at < |before| {
        SubsumesMeets(before[at], groups[n], ratio);
        UnionIsConnected(groups[..n], before[at], groups[n]);
      } else if k == at {
        GroupIsConnected(groups[..n], groups[n]);
      }
    }
  }

  lemma AnySubsumes(k: set<nat>, group: set<nat>, ratio: real)
    requires ratio <= 0.0 && |group| >= 2
    ensures Subsumes(k, group, ratio)
  {
    var q := |group * k| as real / |group| as real;
    assert q * |group| as real == |group * k| as real;
  }

  /** With a ratio of zero or less every group is merged into the first chain, connected or
      not: there is at most one chain, the union of all groups of at least two. */
  lemma {:induction false} NonPositiveRatioMergesAll(groups: seq<set<nat>>, ratio: real)
    requires ratio <= 0.0
    ensures |MergeAll(groups, ratio)| <= 1
    ensures forall g :: 0 <= g < |groups| && |groups[g]| >= 2 ==>
              |MergeAll(groups, ratio)| == 1 && groups[g] <= MergeAll(groups, ratio)[0]
    decreases |groups|
  {
    if groups != [] {
      var n := |groups| - 1;
      NonPositiveRatioMergesAll(groups[..n], ratio);
      var before := MergeAll(groups[..n], ratio);
      if |groups[n]| >= 2 {
        var at := PlaceFacts(before, groups[n], ratio);
        if before != [] {
          AnySubsumes(before[0], groups[n], ratio);
        }
      }
      forall g | 0 <= g < n && |groups[g]| >= 2
        ensures |MergeAll(groups, ratio)| == 1 && groups[g] <= MergeAll(groups, ratio)[0]
      {
        assert groups[..n][g] == groups[g];
      }
    }
  }

  lemma DisjointGroupsDisconnected(a: set<nat>, b: set<nat>)
    requires |a| >= 2 && |b| >= 2 && a !! b
    ensures !Connected([a, b], a + b)
  {
    SomeMember(a);
    SomeMember(b);
    assert a < a + b;
    forall g | 0 <= g < 2
      ensures !(Meets([a, b][g], a) && Meets([a, b][g], a + b - a))
    {
      assert [a, b][g] == a || [a, b][g] == b;
    }
  }

  /** The groups that take part in merging, by position, and what a family of them covers. */
  ghost function Large(groups: seq<set<nat>>): set<nat> {
    set g: nat | g < |groups| && |groups[g]| >= 2
  }

  ghost function UnionOf(groups: seq<set<nat>>, family: set<nat>): set<nat> {
    set g, i | g in family && g < |groups| && i in groups[g] :: i
  }

  /** They fall into two families that have no member in common. */
  ghost predicate Splits(groups: seq<set<nat>>) {
    exists left :: SplitsAt(groups, left)
  }

  ghost predicate SplitsAt(groups: seq<set<nat>>, left: set<nat>) {
    left != {} && left < Large(groups) && UnionOf(groups, left) !! UnionOf(groups, Large(groups) - left)
  }

  lemma OneChainIsTheUnion(groups: seq<set<nat>>, ratio: real)
    requires ratio <= 0.0 && MergeAll(groups, ratio) != []
    ensures MergeAll(groups, ratio)[0] == UnionOf(groups, Large(groups))
  {
    var chain := MergeAll(groups, ratio)[0];
    NonPositiveRatioMergesAll(groups, ratio);
    forall i: nat | i in chain
      ensures i in UnionOf(groups, Large(groups))
    {
      var g := EveryMemberHasAGroup(groups, ratio, 0, i);
      assert g in Large(groups);
    }
  }

  /** With a ratio of zero or less the one chain is connected exactly when the groups do not
      split. */
  lemma OneChainIsConnectedExactlyWhen(groups: seq<set<nat>>, ratio: real)
    requires ratio <= 0.0 && MergeAll(groups, ratio) != []
    ensures Connected(groups, MergeAll(groups, ratio)[0]) <==> !Splits(groups)
  {
    var chain := UnionOf(groups, Large(groups));
    OneChainIsTheUnion(groups, ratio);
    if Splits(groups) {
      var left :| SplitsAt(groups, left);
      SplitIsUncrossed(groups, left);
    }
    if !Connected(groups, chain) {
      var side: set<nat> :| side < chain && side != {} && !Crossed(groups, chain, side);
      UncrossedSplits(groups, side);
    }
  }

  lemma Pick(s: set<nat>) returns (i: nat)
    requires s != {}
    ensures i in s
  {
    i :| i in s;
  }

  lemma PickOutside(a: set<nat>, b: set<nat>) returns (i: nat)
    requires a < b
    ensures i in b && i !in a
  {
    i :| i in b && i !in a;
  }

  lemma CoveredBy(groups: seq<set<nat>>, family: set<nat>, g: nat)
    requires g in family && g < |groups|
    ensures groups[g] <= UnionOf(groups, family)
  {
  }

  lemma SplitIsUncrossed(groups: seq<set<nat>>, left: set<nat>)
    requires SplitsAt(groups, left)
    ensures !Connected(groups, UnionOf(groups, Large(groups)))
  {
    var chain, side := UnionOf(groups, Large(groups)), UnionOf(groups, left);
    SplitIsProper(groups, left);
    forall g | 0 <= g < |groups| && |groups[g]| >= 2
      ensures !(Meets(groups[g], side) && Meets(groups[g], chain - side))
    {
      if g in left {
        CoveredBy(groups, left, g);
      } else {
        CoveredBy(groups, Large(groups) - left, g);
      }
    }
    assert !Crossed(groups, chain, side);
  }

  lemma SplitIsProper(groups: seq<set<nat>>, left: set<nat>)
    requires SplitsAt(groups, left)
    ensures UnionOf(groups, left) != {} && UnionOf(groups, left) < UnionOf(groups, Large(groups))
  {
    var l := Pick(left);
    var r := PickOutside(left, Large(groups));
    var i := Pick(groups[l]);
    var j := Pick(groups[r]);
    CoveredBy(groups, left, l);
    CoveredBy(groups, Large(groups) - left, r);
    CoveredBy(groups, Large(groups), r);
  }

  lemma UncrossedSplits(groups: seq<set<nat>>, side: set<nat>)
    requires side != {} && side < UnionOf(groups, Large(groups))
    requires !Crossed(groups, UnionOf(groups, Large(groups)), side)
    ensures Splits(groups)
  {
    var left := Within(groups, side);
    forall g: nat | g in Large(groups)
      ensures groups[g] <= side || groups[g] !! side
    {
      OneSideOnly(groups, g, side);
    }
    FamiliesApart(groups, side);
    var i := Pick(side);
    var j := PickOutside(side, UnionOf(groups, Large(groups)));
    var gi := GroupOf(groups, Large(groups), i);
    var gj := GroupOf(groups, Large(groups), j);
    assert gi in left && gj in Large(groups) - left;
    assert SplitsAt(groups, left);
  }

  ghost function Within(groups: seq<set<nat>>, side: set<nat>): set<nat> {
    set g: nat | g in Large(groups) && groups[g] <= side
  }

  lemma FamiliesApart(groups: seq<set<nat>>, side: set<nat>)
    requires forall g :: g in Large(groups) ==> groups[g] <= side || groups[g] !! side
    ensures UnionOf(groups, Within(groups, side)) <= side
    ensures UnionOf(groups, Large(groups) - Within(groups, side)) !! side
  {
  }

  lemma GroupOf(groups: seq<set<nat>>, family: set<nat>, i: nat) returns (g: nat)
    requires i in UnionOf(groups, family)
    ensures g in family && g < |groups| && i in groups[g]
  {
    g :| g in family && g < |groups| && i in groups[g];
  }

  lemma OneSideOnly(groups: seq<set<nat>>, g: nat, side: set<nat>)
    requires g in Large(groups) && !Crossed(groups, UnionOf(groups, Large(groups)), side)
    ensures groups[g] <= side || groups[g] !! side
  {
    var chain, group := UnionOf(groups, Large(groups)), groups[g];
    CoveredBy(groups, Large(groups), g);
    forall i, j | i in group && i in side && j in group
      ensures j in side
    {
      assert Meets(group, side);
      assert j !in side ==> j in chain - side;
      assert j !in side ==> Meets(group, chain - side);
    }
  }

  /** Two groups without a common member, merged into one chain that is not connected. */
  lemma ZeroRatioExample()
    ensures var groups: seq<set<nat>> := [{0, 1}, {2, 3}];
            && LargestFirst(groups) && MergeAll(groups, 0.0) == [{0, 1, 2, 3}]
            && !Connected(groups, {0, 1, 2, 3})
  {
    var a: set<nat>, b: set<nat> := {0, 1}, {2, 3};
    assert [a, b][..1] == [a] && [a][..0] == [];
    assert MergeAll([a], 0.0) == [a];
    assert Subsumes(a, b, 0.0);
    assert a + b == {0, 1, 2, 3};
    DisjointGroupsDisconnected(a, b);
  }

  // ---- The assignment ----

  lemma {:induction false} ChainOfFacts(kept: seq<set<nat>>, i: nat)
    ensures i in ChainOf(kept, i)
    ensures (forall k :: 0 <= k < |kept| ==> i !in kept[k]) ==> ChainOf(kept, i) == {i}
    ensures (exists k :: 0 <= k < |kept| && i in kept[k]) ==>
              exists k :: 0 <= k < |kept| && i in kept[k] && ChainOf(kept, i) == kept[k] && NotLater(kept, k, i)
  {
    if kept != [] {
      var n := |kept| - 1;
      if i !in kept[n] {
        ChainOfFacts(kept[..n], i);
        if exists k :: 0 <= k < |kept| && i in kept[k] {
          var k :| 0 <= k < |kept| && i in kept[k];
          assert kept[..n][k] == kept[k];
          var m :| 0 <= m < n && i in kept[..n][m] && ChainOf(kept[..n], i) == kept[..n][m]
                   && NotLater(kept[..n], m, i);
          assert i in kept[m] && ChainOf(kept, i) == kept[m];
          assert forall j :: m < j < n ==> kept[..n][j] == kept[j] && i !in kept[..n][j];
          assert NotLater(kept, m, i);
        }
      }
    }
  }

  ghost predicate NotLater(kept: seq<set<nat>>, k: nat, i: nat) {
    forall j :: k < j < |kept| ==> i !in kept[j]
  }

  /** Some member of the kept chain is in no later one. */
  ghost predicate HasLastMember(kept: seq<set<nat>>, k: nat)
    requires k < |kept|
  {
    exists i :: i in kept[k] && NotLater(kept, k, i)
  }

  /** A kept chain is some cluster's chain exactly when a copy of it has a member in no later
      chain. Otherwise the later chains have taken all its members, and the assignment, though
      not the merge, has lost it. */
  lemma ChainSurvivesExactlyWhen(kept: seq<set<nat>>, k: nat)
    requires k < |kept|
    ensures (exists i :: ChainOf(kept, i) == kept[k])
            <==> exists m :: 0 <= m < |kept| && kept[m] == kept[k] && HasLastMember(kept, m)
  {
    if i :| ChainOf(kept, i) == kept[k] {
      ChainOfFacts(kept, i);
      var m :| 0 <= m < |kept| && i in kept[m] && ChainOf(kept, i) == kept[m] && NotLater(kept, m, i);
      assert HasLastMember(kept, m);
    }
    if m :| 0 <= m < |kept| && kept[m] == kept[k] && HasLastMember(kept, m) {
      var i :| i in kept[m] && NotLater(kept, m, i);
      ChainOfFacts(kept, i);
      assert ChainOf(kept, i) == kept[k];
    }
  }

  /** A group of two or more is contained in some cluster's chain exactly when a kept chain that
      contains it has a member in no later chain. */
  lemma GroupSurvivesExactlyWhen(kept: seq<set<nat>>, g: set<nat>)
    requires |g| >= 2
    ensures (exists i: nat :: g <= ChainOf(kept, i))
            <==> exists k :: 0 <= k < |kept| && g <= kept[k] && HasLastMember(kept, k)
  {
    if i: nat :| g <= ChainOf(kept, i) {
      ChainOfFacts(kept, i);
      SubsetSizeOne(g, i);
      var k :| 0 <= k < |kept| && i in kept[k] && ChainOf(kept, i) == kept[k] && NotLater(kept, k, i);
      assert HasLastMember(kept, k);
    }
    if k :| 0 <= k < |kept| && g <= kept[k] && HasLastMember(kept, k) {
      var i :| i in kept[k] && NotLater(kept, k, i);
      ChainOfFacts(kept, i);
      assert g <= ChainOf(kept, i);
    }
  }

  lemma KeptApart(a: set<nat>, b: set<nat>, c: set<nat>, ratio: real)
    requires |a| >= 2 && |b| >= 2 && |c| >= 2
    requires !Subsumes(a, b, ratio) && !Subsumes(a, c, ratio) && !Subsumes(b, c, ratio)
    ensures MergeAll([a, b, c], ratio) == [a, b, c]
  {
    assert [a, b, c][..2] == [a, b] && [a, b][..1] == [a] && [a][..0] == [];
    assert MergeAll([a], ratio) == [a];
    assert [a][1..] == [] && [a, b][1..] == [b] && [b][1..] == [];
    assert Place([a], b, ratio) == [a] + Place([], b, ratio) == [a, b];
    assert MergeAll([a, b], ratio) == [a, b];
    assert Place([b], c, ratio) == [b, c];
    assert Place([a, b], c, ratio) == [a] + [b, c];
  }

  /** So a group can be lost from the assignment: when two later chains cover the largest
      group between them, no cluster's chain contains it. */
  lemma LargestGroupCanBeLost(a: set<nat>, b: set<nat>, c: set<nat>, ratio: real)
    requires |a| >= |b| >= |c| >= 2
    requires !Subsumes(a, b, ratio) && !Subsumes(a, c, ratio) && !Subsumes(b, c, ratio)
    requires a <= b + c && !(a <= b) && !(a <= c)
    ensures LargestFirst([a, b, c])
    ensures forall i: nat :: !(a <= ChainOf(MergeAll([a, b, c], ratio), i))
  {
    KeptApart(a, b, c, ratio);
    var kept := [a, b, c];
    assert kept[1] == b && kept[2] == c;
    forall i: nat
      ensures !(a <= ChainOf(kept, i))
    {
      ChainOfFacts(kept, i);
      assert i in a ==> i in kept[1] || i in kept[2];
      if ChainOf(kept, i) == {i} {
        assert forall x :: x in a && a <= {i} ==> x == i;
        SubsetSizeOne(a, i);
      }
    }
  }

  lemma SubsetSizeOne(a: set<nat>, i: nat)
    requires |a| >= 2
    ensures !(a <= {i})
  {
    if a <= {i} {
      SubsetSize(a, {i});
    }
  }

  // ---- What merging means, in counts of clusters ----

  /** Two groups become one chain exactly when they share the ratio's part of the second; if they
      do not, a cluster of both is assigned to the second. */
  lemma TwoGroups(g: set<nat>, h: set<nat>, ratio: real, i: nat)
    requires |g| >= 2 && |h| >= 2
    ensures var joined := |g * h| as real >= ratio * |h| as real; var kept := MergeAll([g, h], ratio);
            && kept == (if joined then [g + h] else [g, h])
            && (i in h ==> ChainOf(kept, i) == if joined then g + h else h)
            && (i in g && i !in h ==> ChainOf(kept, i) == if joined then g + h else g)
            && (i !in g && i !in h ==> ChainOf(kept, i) == {i})
  {
    assert [g, h][..1] == [g] && [g][..0] == [] && [g, h][..0] == [];
    assert MergeAll([g], ratio) == [g];
    SubsumesMeans(g, h, ratio);
    assert Place([g], h, ratio) == if Subsumes(g, h, ratio) then [g + h] + [] else [g] + [h];
    assert ChainOf([], i) == {i};
  }

  lemma SubsumesMeans(k: set<nat>, group: set<nat>, ratio: real)
    requires group != {}
    ensures Subsumes(k, group, ratio) <==> |group * k| as real >= ratio * |group| as real
    ensures group * k == k * group
  {
    var q, n := |group * k| as real / |group| as real, |group| as real;
    assert |group * k| as real == q * n;
    if q >= ratio {
      assert (q - ratio) * n >= 0.0;
    } else {
      assert (ratio - q) * n > 0.0;
    }
  }

  /** A group of one leaves no trace. */
  lemma GroupOfOne(groups: seq<set<nat>>, i: nat, ratio: real)
    ensures MergeAll(groups + [{i}], ratio) == MergeAll(groups, ratio)
  {
    assert (groups + [{i}])[..|groups|] == groups;
  }
}
