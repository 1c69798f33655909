/** An input of build_chains on which the assignment loses a topic group, whichever way ties
    between groups of equal size are broken. */
module ChainLoss {
  import opened Basics
  import opened ChainSpec
  import opened ChainProofs
  import opened ChainBuild
  import opened ChainRun

  // ---- Groups of which none subsumes another ----

  ghost predicate ApartUnder(groups: set<set<nat>>, ratio: real) {
    && (forall g :: g in groups ==> |g| >= 2 && Subsumes(g, g, ratio))
    && (forall g, h :: g in groups && h in groups && g != h ==> !Subsumes(g, h, ratio))
  }

  ghost predicate DrawnFrom(s: seq<set<nat>>, groups: set<set<nat>>) {
    forall k :: 0 <= k < |s| ==> s[k] in groups
  }

  ghost predicate NoCopies(s: seq<set<nat>>) {
    forall j, k :: 0 <= j < k < |s| ==> s[j] != s[k]
  }

  lemma {:induction false} PlaceApart(kept: seq<set<nat>>, group: set<nat>, groups: set<set<nat>>, ratio: real)
    requires ApartUnder(groups, ratio) && DrawnFrom(kept, groups) && group in groups
    ensures Place(kept, group, ratio) == if group in kept then kept else kept + [group]
  {
    if kept != [] {
      if kept[0] == group {
        assert kept[0] + group == kept[0] && [kept[0]] + kept[1..] == kept;
      } else {
        PlaceApart(kept[1..], group, groups, ratio);
        assert [kept[0]] + kept[1..] == kept;
        assert [kept[0]] + (kept[1..] + [group]) == kept + [group];
      }
    }
  }

  /** Merging such groups only drops copies. */
  lemma {:induction false} MergeApart(order: seq<set<nat>>, groups: set<set<nat>>, ratio: real)
    requires ApartUnder(groups, ratio) && DrawnFrom(order, groups)
    ensures var kept := MergeAll(order, ratio);
            && DrawnFrom(kept, groups) && NoCopies(kept)
            && (forall g :: g in kept <==> g in order)
            && (order != [] ==> kept != [] && kept[0] == order[0])
  {
    if order != [] {
      var n := |order| - 1;
      var before := MergeAll(order[..n], ratio);
      MergeApart(order[..n], groups, ratio);
      PlaceApart(before, order[n], groups, ratio);
      assert order == order[..n] + [order[n]];
    }
  }

  /** The cluster is in the group and in none of the others. */
  ghost predicate OwnMember(groups: set<set<nat>>, g: set<nat>, i: nat) {
    i in g && forall h :: h in groups && h != g ==> i !in h
  }

  ghost predicate IsLargest(groups: set<set<nat>>, g: set<nat>) {
    g in groups && forall h :: h in groups && h != g ==> |h| < |g|
  }

  /** The strictly largest of them comes first, so it survives exactly when it has a member of
      its own. */
  lemma LargestApartIsLostExactlyWhen(order: seq<set<nat>>, groups: set<set<nat>>, ratio: real, g: set<nat>)
    requires ApartUnder(groups, ratio) && LargestFirst(order) && (forall h :: h in order <==> h in groups)
    requires IsLargest(groups, g)
    ensures (exists i: nat :: g <= ChainOf(MergeAll(order, ratio), i)) <==> exists i :: OwnMember(groups, g, i)
  {
    var kept := MergeAll(order, ratio);
    assert forall k :: 0 <= k < |order| ==> order[k] in order;
    MergeApart(order, groups, ratio);
    LargestIsFirst(order, groups, g);
    GroupSurvivesExactlyWhen(kept, g);
    OnlyTheFirst(kept, groups, g);
    FirstHasLastMember(kept, groups, g);
  }

  lemma OnlyTheFirst(kept: seq<set<nat>>, groups: set<set<nat>>, g: set<nat>)
    requires kept != [] && kept[0] == g && NoCopies(kept) && DrawnFrom(kept, groups) && IsLargest(groups, g)
    ensures forall k :: 0 <= k < |kept| && g <= kept[k] ==> k == 0
  {
    forall k | 0 <= k < |kept| && g <= kept[k]
      ensures k == 0
    {
      SubsetSize(g, kept[k]);
    }
  }

  lemma FirstHasLastMember(kept: seq<set<nat>>, groups: set<set<nat>>, g: set<nat>)
    requires kept != [] && kept[0] == g && NoCopies(kept) && forall h :: h in kept <==> h in groups
    ensures HasLastMember(kept, 0) <==> exists i :: OwnMember(groups, g, i)
  {
    if HasLastMember(kept, 0) {
      var i :| i in kept[0] && NotLater(kept, 0, i);
      OthersComeLater(kept, groups, g, i);
      assert OwnMember(groups, g, i);
    }
    if i: nat :| OwnMember(groups, g, i) {
      OthersComeLater(kept, groups, g, i);
    }
  }

  lemma LargestIsFirst(order: seq<set<nat>>, groups: set<set<nat>>, g: set<nat>)
    requires LargestFirst(order) && (forall h :: h in order <==> h in groups) && IsLargest(groups, g)
    ensures order != [] && order[0] == g
  {
    assert g in order;
    var k :| 0 <= k < |order| && order[k] == g;
    assert order[0] in order;
  }

  lemma OthersComeLater(kept: seq<set<nat>>, groups: set<set<nat>>, g: set<nat>, i: nat)
    requires kept != [] && kept[0] == g && NoCopies(kept) && forall h :: h in kept <==> h in groups
    ensures NotLater(kept, 0, i) <==> forall h :: h in groups && h != g ==> i !in h
  {
    if NotLater(kept, 0, i) {
      forall h | h in groups && h != g
        ensures i !in h
      {
        assert h in kept;
        var k :| 0 <= k < |kept| && kept[k] == h;
      }
    }
    if forall h :: h in groups && h != g ==> i !in h {
      forall k | 0 < k < |kept|
        ensures i !in kept[k]
      {
        assert kept[k] in kept && kept[k] != kept[0];
      }
    }
  }

  // ---- The input ----

  /** Six clusters: "a" is a key of the first four, "b" and "c" of two of those and one more each. */
  function Clusters(): seq<ClusterRec> {
    [map["a" := false, "b" := false], map["a" := false, "b" := false],
     map["a" := false, "c" := false], map["a" := false, "c" := false],
     map["b" := false], map["c" := false]]
  }

  /** The rates of those keys, and of a common one that sets the cutoff. */
  function Rates(): map<string, real> {
    map["a" := 0.1, "b" := 0.1, "c" := 0.1, "x" := 0.9]
  }

  /** The defaults. */
  function Defaults(): Params {
    Params(0.95, true, true, 0.8, false, 0.15, 3)
  }

  lemma {:induction false} CountsBound(s: seq<real>, c: real)
    ensures Below(s, c) <= |s| && AtMost(s, c) <= |s|
    ensures Below(s, c) < |s| ==> exists i :: 0 <= i < |s| && s[i] >= c
    ensures AtMost(s, c) == |s| ==> forall i :: 0 <= i < |s| ==> s[i] <= c
  {
    if s != [] {
      CountsBound(s[1..], c);
      assert forall i :: 0 <= i < |s[1..]| ==> s[1..][i] == s[i + 1];
      assert forall i :: 0 < i < |s| ==> s[i] == s[1..][i - 1];
    }
  }

  /** The cutoff is the rate of the common key. */
  lemma CutoffIsTheCommonRate(cutoff: Option<real>)
    requires IsCutoff(Clusters(), Rates(), Defaults(), cutoff)
    ensures cutoff == Some(0.9)
  {
    var metric, values :| MetricOf(Clusters(), Rates(), Defaults(), metric) && IsListing(values, metric)
                          && cutoff == GenericCutoff(values, 0.95);
    assert "x" in Rates();
    FourRates();
    LastOfFour();
    var keys :| Lists(values, metric, keys);
    var k := ListedRates(values, metric, keys, "x");
    LastPositionIsTheMaximum(values, 0.95, k);
  }

  ghost predicate IsTop(rates: map<string, real>, top: string) {
    top in rates && forall key :: key in rates ==> rates[key] <= rates[top]
  }

  lemma RateAt(values: seq<real>, rates: map<string, real>, keys: seq<string>, i: nat)
    requires Lists(values, rates, keys) && i < |values|
    ensures keys[i] in rates && values[i] == rates[keys[i]]
  {
  }

  lemma ListedRates(values: seq<real>, rates: map<string, real>, keys: seq<string>, top: string) returns (k: nat)
    requires Lists(values, rates, keys) && IsTop(rates, top)
    ensures |values| == |rates| && k < |values| && values[k] == rates[top]
    ensures forall i :: 0 <= i < |values| ==> values[i] <= rates[top]
  {
    assert top in keys;
    k :| 0 <= k < |keys| && keys[k] == top;
    forall i | 0 <= i < |values|
      ensures values[i] <= rates[top]
    {
      RateAt(values, rates, keys, i);
    }
  }

  /** At the last position the cutoff is the greatest value. */
  lemma LastPositionIsTheMaximum(values: seq<real>, percentile: real, k: nat)
    requires k < |values| && forall i :: 0 <= i < |values| ==> values[i] <= values[k]
    requires CutoffPosition(|values|, percentile) == Some(|values| - 1)
    ensures GenericCutoff(values, percentile) == Some(values[k])
  {
    CutoffIsOrderStatistic(values, percentile);
    CountsBound(values, GenericCutoff(values, percentile).value);
  }

  lemma LastOfFour()
    ensures CutoffPosition(4, 0.95) == Some(3)
  {
  }

  lemma FourRates()
    ensures |Rates()| == 4 && forall key :: key in Rates() ==> Rates()[key] <= 0.9
  {
    assert Rates().Keys == {"a", "b", "c", "x"};
  }

  ghost predicate IsExample(r: Prepared, groups: seq<set<nat>>) {
    && IsCutoff(Clusters(), Rates(), Defaults(), Some(r.cutoff))
    && IsPrepared(Clusters(), Rates(), Defaults(), r)
    && IsMergeOrder(r.qualifying, r.institutions, groups)
  }

  lemma KeysSurvive(r: Prepared, i: nat)
    requires r.cutoff == 0.9 && IsPrepared(Clusters(), Rates(), Defaults(), r) && i < 6
    ensures r.qualifying[i] == Clusters()[i].Keys
  {
    forall key | key in Clusters()[i]
      ensures key in r.qualifying[i]
    {
      assert key == "a" || key == "b" || key == "c";
      assert key in Rates() && Rates()[key] == 0.1;
    }
  }

  function GroupA(): set<nat> { {0, 1, 2, 3} }
  function GroupB(): set<nat> { {0, 1, 4} }
  function GroupC(): set<nat> { {2, 3, 5} }

  lemma GroupsOfKeys(qualifying: seq<set<string>>)
    requires |qualifying| == 6 && forall i :: 0 <= i < 6 ==> qualifying[i] == Clusters()[i].Keys
    ensures Group(qualifying, "a") == GroupA()
    ensures Group(qualifying, "b") == GroupB()
    ensures Group(qualifying, "c") == GroupC()
    ensures forall key :: Group(qualifying, key) != {} ==> key in {"a", "b", "c"}
  {
    forall key | key in {"a", "b", "c"}
      ensures Group(qualifying, key) == if key == "a" then GroupA() else if key == "b" then GroupB() else GroupC()
    {
      forall i: nat
        ensures i in Group(qualifying, key) <==> i < 6 && key in Clusters()[i]
      {
      }
    }
    forall key | Group(qualifying, key) != {}
      ensures key in {"a", "b", "c"}
    {
      var i :| i in Group(qualifying, key);
      assert key in Clusters()[i];
    }
  }

  /** The topic groups are the three sets, and no others. */
  lemma OrdersOfTheExample(r: Prepared, groups: seq<set<nat>>)
    requires IsExample(r, groups)
    ensures LargestFirst(groups) && forall g :: g in groups <==> g in {GroupA(), GroupB(), GroupC()}
    ensures IsTopic(r.qualifying, r.institutions, "a") && Group(r.qualifying, "a") == GroupA()
  {
    CutoffIsTheCommonRate(Some(r.cutoff));
    forall i: nat | i < 6
      ensures r.qualifying[i] == Clusters()[i].Keys
    {
      KeysSurvive(r, i);
    }
    GroupsOfKeys(r.qualifying);
    assert 0 in GroupA() && 0 in GroupB() && 2 in GroupC();
    assert r.institutions == {};
    forall key | key in {"a", "b", "c"}
      ensures Group(r.qualifying, key) in groups
    {
      assert IsTopic(r.qualifying, r.institutions, key);
    }
    forall g | g in groups
      ensures g in {GroupA(), GroupB(), GroupC()}
    {
      var k :| 0 <= k < |groups| && groups[k] == g;
      assert IsGroup(r.qualifying, r.institutions, groups[k]);
      var key :| IsTopic(r.qualifying, r.institutions, key) && Group(r.qualifying, key) == g;
      assert key in {"a", "b", "c"};
    }
  }

  lemma SubsumesByCount(k: set<nat>, g: set<nat>, overlap: set<nat>, n: nat)
    requires g * k == overlap && |g| == n > 0
    ensures Subsumes(k, g, 0.8) <==> |overlap| as real >= 0.8 * n as real
  {
    assert g != {};
    Quotient(|overlap| as real, n as real);
  }

  lemma Quotient(x: real, n: real)
    requires n > 0.0
    ensures x / n >= 0.8 <==> x >= 0.8 * n
  {
    var q := x / n;
    assert q * n == x;
  }

  lemma NoSubsumption(a: set<nat>, b: set<nat>, overlap: set<nat>, m: nat, n: nat)
    requires a * b == overlap && |overlap| <= 2 && |a| == m >= 3 && |b| == n >= 3
    ensures !Subsumes(a, b, 0.8) && !Subsumes(b, a, 0.8)
  {
    assert b * a == overlap;
    SubsumesByCount(a, b, overlap, n);
    SubsumesByCount(b, a, overlap, m);
  }

  /** None of the three subsumes another at 0.8, and the last two cover the first. */
  lemma LostGroupExample()
    ensures var a, b, c := GroupA(), GroupB(), GroupC();
            && ApartUnder({a, b, c}, 0.8) && |b| < |a| && |c| < |a| && a <= b + c
  {
    var a, b, c := GroupA(), GroupB(), GroupC();
    Sizes();
    NoSubsumption(a, b, {0, 1}, 4, 3);
    NoSubsumption(a, c, {2, 3}, 4, 3);
    NoSubsumption(b, c, {}, 3, 3);
    ThreeApart(a, b, c);
  }

  lemma Sizes()
    ensures |GroupA()| == 4 && |GroupB()| == 3 && |GroupC()| == 3
  {
  }

  lemma ThreeApart(a: set<nat>, b: set<nat>, c: set<nat>)
    requires |a| >= 2 && |b| >= 2 && |c| >= 2
    requires !Subsumes(a, b, 0.8) && !Subsumes(b, a, 0.8) && !Subsumes(a, c, 0.8) && !Subsumes(c, a, 0.8)
    requires !Subsumes(b, c, 0.8) && !Subsumes(c, b, 0.8)
    ensures ApartUnder({a, b, c}, 0.8)
  {
    SubsumesItself(a);
    SubsumesItself(b);
    SubsumesItself(c);
  }

  lemma SubsumesItself(g: set<nat>)
    requires |g| >= 2
    ensures Subsumes(g, g, 0.8)
  {
    assert g * g == g;
    SubsumesByCount(g, g, g, |g|);
  }

  lemma CoveredIsLost(order: seq<set<nat>>, a: set<nat>, b: set<nat>, c: set<nat>, ratio: real, i: nat)
    requires LargestFirst(order) && (forall g :: g in order <==> g in {a, b, c})
    requires ApartUnder({a, b, c}, ratio) && |b| < |a| && |c| < |a| && a <= b + c
    ensures !(a <= ChainOf(MergeAll(order, ratio), i))
  {
    LargestApartIsLostExactlyWhen(order, {a, b, c}, ratio, a);
    assert b in {a, b, c} && c in {a, b, c};
  }

  lemma TheGroupIsLost(r: Prepared, groups: seq<set<nat>>, i: nat)
    requires IsExample(r, groups)
    ensures IsTopic(r.qualifying, r.institutions, "a") && Group(r.qualifying, "a") == GroupA()
    ensures !(GroupA() <= ChainOf(MergeAll(groups, 0.8), i))
  {
    OrdersOfTheExample(r, groups);
    LostGroupExample();
    CoveredIsLost(groups, GroupA(), GroupB(), GroupC(), 0.8, i);
  }

  /** On this input, with the default parameters, whatever build_chains returns, all six clusters
      are assigned and the four that share the surviving key "a" are together in no chain. */
  lemma BuildChainsLosesTheGroup(assignment: Option<map<nat, set<nat>>>)
    requires IsOutcome(Clusters(), Rates(), Defaults(), assignment)
    ensures assignment.Some? && forall i: nat :: i in assignment.value <==> i < 6
    ensures forall i: nat :: i in assignment.value ==> !({0, 1, 2, 3} <= assignment.value[i])
  {
    if assignment == None {
      CutoffIsTheCommonRate(None);
    } else {
      var r: Prepared :| IsCutoff(Clusters(), Rates(), Defaults(), Some(r.cutoff))
               && IsPrepared(Clusters(), Rates(), Defaults(), r) && IsAssembled(r, 0.8, assignment.value);
      var groups :| IsMergeOrder(r.qualifying, r.institutions, groups) && IsChaining(r, groups, 0.8, assignment.value);
      forall i: nat | i in assignment.value
        ensures !({0, 1, 2, 3} <= assignment.value[i])
      {
        TheGroupIsLost(r, groups, i);
      }
    }
  }
}
