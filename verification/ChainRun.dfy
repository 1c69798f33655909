/** build_chains as it is run: groups, kept chains and the assignment, grown in place. */
module ChainRun {
  import opened Basics
  import opened ChainSpec
  import opened ChainProofs
  import opened ChainBuild

  /** The clusters that carry the key. */
  ghost function Group(qualifying: seq<set<string>>, key: string): set<nat> {
    set i: nat | i < |qualifying| && key in qualifying[i]
  }

  ghost predicate IsTopic(qualifying: seq<set<string>>, institutions: set<string>, key: string) {
    key !in institutions && Group(qualifying, key) != {}
  }

  /** Is the set the group of some topic key. */
  ghost predicate IsGroup(qualifying: seq<set<string>>, institutions: set<string>, s: set<nat>) {
    exists key :: IsTopic(qualifying, institutions, key) && Group(qualifying, key) == s
  }

  /** The merge order: exactly the topic groups, in non-increasing size. Equal sizes may come in
      any order, as they do in the source. */
  ghost predicate IsMergeOrder(qualifying: seq<set<string>>, institutions: set<string>, groups: seq<set<nat>>) {
    && LargestFirst(groups)
    && (forall g :: 0 <= g < |groups| ==> IsGroup(qualifying, institutions, groups[g]))
    && (forall key :: IsTopic(qualifying, institutions, key) ==> Group(qualifying, key) in groups)
  }

  /** Clusters i and j share a surviving key that is not an institution. */
  ghost predicate Share(qualifying: seq<set<string>>, institutions: set<string>, i: nat, j: nat)
    requires i < |qualifying| && j < |qualifying|
  {
    exists key :: key in qualifying[i] && key in qualifying[j] && key !in institutions
  }

  ghost predicate SharesWithAnother(qualifying: seq<set<string>>, institutions: set<string>, i: nat)
    requires i < |qualifying|
  {
    exists j: nat :: j < |qualifying| && j != i && Share(qualifying, institutions, i, j)
  }

  /** A cluster's chain has two members or more exactly when it shares a surviving key with
      another cluster. */
  lemma ChainedExactlyWhenSharing(qualifying: seq<set<string>>, institutions: set<string>, groups: seq<set<nat>>,
                                  ratio: real, i: nat)
    requires IsMergeOrder(qualifying, institutions, groups) && i < |qualifying|
    ensures |ChainOf(MergeAll(groups, ratio), i)| >= 2 <==> SharesWithAnother(qualifying, institutions, i)
  {
    if |ChainOf(MergeAll(groups, ratio), i)| >= 2 {
      ChainedShares(qualifying, institutions, groups, ratio, i);
    }
    if SharesWithAnother(qualifying, institutions, i) {
      var j: nat :| j < |qualifying| && j != i && Share(qualifying, institutions, i, j);
      SharingChains(qualifying, institutions, groups, ratio, i, j);
    }
  }

  lemma ChainedShares(qualifying: seq<set<string>>, institutions: set<string>, groups: seq<set<nat>>, ratio: real,
                      i: nat)
    requires IsMergeOrder(qualifying, institutions, groups) && i < |qualifying|
    requires |ChainOf(MergeAll(groups, ratio), i)| >= 2
    ensures SharesWithAnother(qualifying, institutions, i)
  {
    var kept := MergeAll(groups, ratio);
    ChainOfFacts(kept, i);
    var k :| 0 <= k < |kept| && i in kept[k] && ChainOf(kept, i) == kept[k];
    var g := EveryMemberHasAGroup(groups, ratio, k, i);
    var j := OtherMember(groups[g], i);
    assert IsGroup(qualifying, institutions, groups[g]);
    var key :| IsTopic(qualifying, institutions, key) && Group(qualifying, key) == groups[g];
    assert i in Group(qualifying, key) && j in Group(qualifying, key);
    assert Share(qualifying, institutions, i, j);
  }

  lemma SharingChains(qualifying: seq<set<string>>, institutions: set<string>, groups: seq<set<nat>>, ratio: real,
                      i: nat, j: nat)
    requires IsMergeOrder(qualifying, institutions, groups)
    requires i < |qualifying| && j < |qualifying| && j != i && Share(qualifying, institutions, i, j)
    ensures |ChainOf(MergeAll(groups, ratio), i)| >= 2
  {
    var key :| key in qualifying[i] && key in qualifying[j] && key !in institutions;
    var group := Group(qualifying, key);
    assert i in group && j in group;
    assert IsTopic(qualifying, institutions, key);
    var g: nat :| g < |groups| && groups[g] == group;
    TwoMembers(group, i, j);
    EveryGroupIsContained(groups, ratio, g);
    InALargeChain(groups, ratio, i);
  }

  lemma InALargeChain(groups: seq<set<nat>>, ratio: real, i: nat)
    requires exists k :: 0 <= k < |MergeAll(groups, ratio)| && i in MergeAll(groups, ratio)[k]
    ensures |ChainOf(MergeAll(groups, ratio), i)| >= 2
  {
    var kept := MergeAll(groups, ratio);
    ChainOfFacts(kept, i);
    var k: nat :| k < |kept| && i in kept[k] && ChainOf(kept, i) == kept[k];
    var h := KeptContainsAGroup(groups, ratio, k);
    SubsetSize(groups[h], kept[k]);
  }

  lemma TwoMembers(s: set<nat>, i: nat, j: nat)
    requires i in s && j in s && i != j
    ensures |s| >= 2
  {
    SubsetSize({i, j}, s);
  }

  lemma OtherMember(s: set<nat>, i: nat) returns (j: nat)
    requires |s| >= 2
    ensures j in s && j != i
  {
    if forall j :: j in s ==> j == i {
      SubsetSize(s, {i});
    }
    j :| j in s && j != i;
  }

  // ---- The loops ----

  method GroupByKey(qualifying: seq<set<string>>, institutions: set<string>) returns (groups: map<string, set<nat>>)
    ensures forall key :: key in groups <==> IsTopic(qualifying, institutions, key)
    ensures forall key :: key in groups ==> groups[key] == Group(qualifying, key)
  {
    groups := map[];
    assert forall key :: Group(qualifying[..0], key) == {};
    for i := 0 to |qualifying|
      invariant forall key :: key in groups <==> IsTopic(qualifying[..i], institutions, key)
      invariant forall key :: key in groups ==> groups[key] == Group(qualifying[..i], key)
    {
      groups := AddTo(groups, qualifying[i], institutions, i);
      forall key
        ensures Group(qualifying[..i + 1], key)
                == Group(qualifying[..i], key) + if key in qualifying[i] then {i} else {}
      {
        GroupGrows(qualifying, i, key);
      }
    }
    assert qualifying[..|qualifying|] == qualifying;
  }

  lemma GroupGrows(qualifying: seq<set<string>>, i: nat, key: string)
    requires i < |qualifying|
    ensures Group(qualifying[..i + 1], key) == Group(qualifying[..i], key) + if key in qualifying[i] then {i} else {}
  {
  }

  /** The groups after i has joined the groups of the given keys. */
  ghost predicate Joined(groups: map<string, set<nat>>, keys: set<string>, i: nat, r: map<string, set<nat>>) {
    && r.Keys == groups.Keys + keys
    && forall key :: key in r ==>
         r[key] == if key in keys then (if key in groups then groups[key] + {i} else {i}) else groups[key]
  }

  method AddTo(groups: map<string, set<nat>>, keys: set<string>, institutions: set<string>, i: nat)
    returns (r: map<string, set<nat>>)
    ensures Joined(groups, keys - institutions, i, r)
  {
    r := groups;
    var rest := keys;
    while rest != {}
      invariant rest <= keys && Joined(groups, keys - rest - institutions, i, r)
      decreases rest
    {
      var key :| key in rest;
      ghost var done := keys - rest - institutions;
      rest := rest - {key};
      if key !in institutions {
        JoinOne(groups, done, i, r, key);
        assert keys - rest - institutions == done + {key};
        r := r[key := if key in r then r[key] + {i} else {i}];
      } else {
        assert keys - rest - institutions == done;
      }
    }
    assert keys - {} - institutions == keys - institutions;
  }

  lemma JoinOne(groups: map<string, set<nat>>, keys: set<string>, i: nat, r: map<string, set<nat>>, key: string)
    requires Joined(groups, keys, i, r)
    ensures Joined(groups, keys + {key}, i, r[key := if key in r then r[key] + {i} else {i}])
  {
  }

  ghost predicate IsValue(groups: map<string, set<nat>>, s: set<nat>) {
    exists key :: key in groups && groups[key] == s
  }

  /** sorted(groups.values(), key=len, reverse=True) */
  method BySize(groups: map<string, set<nat>>) returns (ordered: seq<set<nat>>)
    ensures LargestFirst(ordered)
    ensures forall g :: 0 <= g < |ordered| ==> IsValue(groups, ordered[g])
    ensures forall key :: key in groups ==> groups[key] in ordered
  {
    ordered := [];
    var rest := groups.Keys;
    while rest != {}
      invariant rest <= groups.Keys
      invariant LargestFirst(ordered)
      invariant forall g, key :: 0 <= g < |ordered| && key in rest ==> |ordered[g]| >= |groups[key]|
      invariant forall g :: 0 <= g < |ordered| ==> IsValue(groups, ordered[g])
      invariant forall key :: key in groups && key !in rest ==> groups[key] in ordered
      decreases rest
    {
      var key := Largest(groups, rest);
      ordered := ordered + [groups[key]];
      rest := rest - {key};
    }
  }

  method Largest(groups: map<string, set<nat>>, keys: set<string>) returns (largest: string)
    requires keys != {} && keys <= groups.Keys
    ensures largest in keys && forall key :: key in keys ==> |groups[key]| <= |groups[largest]|
  {
    largest :| largest in keys;
    var rest := keys;
    while rest != {}
      invariant rest <= keys && largest in keys
      invariant forall key :: key in keys - rest ==> |groups[key]| <= |groups[largest]|
      decreases rest
    {
      var key :| key in rest;
      rest := rest - {key};
      if |groups[key]| > |groups[largest]| {
        largest := key;
      }
    }
  }

  /** The inner merge loop: the first kept chain that subsumes the group absorbs it. */
  method PlaceGroup(kept: seq<set<nat>>, group: set<nat>, ratio: real) returns (r: seq<set<nat>>)
    requires group != {}
    ensures r == Place(kept, group, ratio)
  {
    for j := 0 to |kept|
      invariant Place(kept, group, ratio) == kept[..j] + Place(kept[j..], group, ratio)
    {
      PlaceFrom(kept, group, ratio, j);
      var overlap := |group * kept[j]|;
      if overlap as real / |group| as real >= ratio {
        return kept[j := kept[j] + group];
      }
    }
    assert kept[..|kept|] == kept;
    return kept + [group];
  }

  lemma PlaceFrom(kept: seq<set<nat>>, group: set<nat>, ratio: real, j: nat)
    requires j < |kept|
    requires Place(kept, group, ratio) == kept[..j] + Place(kept[j..], group, ratio)
    ensures if Subsumes(kept[j], group, ratio) then Place(kept, group, ratio) == kept[j := kept[j] + group]
            else Place(kept, group, ratio) == kept[..j + 1] + Place(kept[j + 1..], group, ratio)
  {
    assert kept[j..][1..] == kept[j + 1..] && kept[j..][0] == kept[j];
    if Subsumes(kept[j], group, ratio) {
      UpdateAt(kept, j, kept[j] + group);
    } else {
      SplitAt(kept, j, Place(kept[j + 1..], group, ratio));
    }
  }

  lemma UpdateAt(s: seq<set<nat>>, j: nat, v: set<nat>)
    requires j < |s|
    ensures s[..j] + ([v] + s[j + 1..]) == s[j := v]
  {
  }

  lemma SplitAt(s: seq<set<nat>>, j: nat, rest: seq<set<nat>>)
    requires j < |s|
    ensures s[..j] + ([s[j]] + rest) == s[..j + 1] + rest
  {
  }

  method MergeGroups(ordered: seq<set<nat>>, ratio: real) returns (kept: seq<set<nat>>)
    ensures kept == MergeAll(ordered, ratio)
  {
    kept := [];
    for n := 0 to |ordered|
      invariant kept == MergeAll(ordered[..n], ratio)
    {
      assert ordered[..n + 1][..n] == ordered[..n];
      if |ordered[n]| < 2 { continue; }
      kept := PlaceGroup(kept, ordered[n], ratio);
    }
    assert ordered[..|ordered|] == ordered;
  }

  ghost predicate AllBelow(kept: seq<set<nat>>, n: nat) {
    forall k: nat, i: nat :: k < |kept| && i in kept[k] ==> i < n
  }

  /** Later chains overwrite earlier ones. */
  method Assign(n: nat, kept: seq<set<nat>>) returns (assignment: map<nat, set<nat>>)
    requires AllBelow(kept, n)
    ensures forall i: nat :: i in assignment <==> i < n
    ensures forall i: nat :: i < n ==> assignment[i] == ChainOf(kept, i)
  {
    assignment := map i: nat | i < n :: {i};
    for k := 0 to |kept|
      invariant forall i: nat :: i in assignment <==> i < n
      invariant forall i: nat :: i < n ==> assignment[i] == ChainOf(kept[..k], i)
    {
      assert kept[..k + 1][..k] == kept[..k];
      ghost var before := assignment;
      var rest := kept[k];
      while rest != {}
        invariant rest <= kept[k]
        invariant forall i: nat :: i in assignment <==> i < n
        invariant forall i: nat :: i < n ==> assignment[i] == if i in kept[k] - rest then kept[k] else before[i]
        decreases rest
      {
        var i :| i in rest;
        assignment := assignment[i := kept[k]];
        rest := rest - {i};
      }
    }
    assert kept[..|kept|] == kept;
  }

  // ---- The pipeline ----

  ghost predicate Lists(values: seq<real>, m: map<string, real>, keys: seq<string>) {
    && |keys| == |values| == |m|
    && (forall key :: key in keys <==> key in m)
    && (forall i :: 0 <= i < |keys| ==> keys[i] in m && values[i] == m[keys[i]])
  }

  /** The values of the map, one for each key, in some order of the keys. */
  ghost predicate IsListing(values: seq<real>, m: map<string, real>) {
    exists keys :: Lists(values, m, keys)
  }

  method ListValues(m: map<string, real>) returns (values: seq<real>)
    ensures IsListing(values, m)
  {
    ghost var keys: seq<string> := [];
    values := [];
    var rest := m.Keys;
    while rest != {}
      invariant rest <= m.Keys
      invariant |keys| == |values| && |keys| + |rest| == |m|
      invariant forall key :: key in keys <==> key in m && key !in rest
      invariant forall i :: 0 <= i < |keys| ==> keys[i] in m && values[i] == m[keys[i]]
      decreases rest
    {
      var key :| key in rest;
      values, keys := values + [m[key]], keys + [key];
      rest := rest - {key};
    }
    assert Lists(values, m, keys);
  }

  /** The rates the cutoff is taken over: the baseline rates if that metric is asked for and
      there are any, else the in-set document frequencies. */
  ghost predicate MetricOf(clusters: seq<ClusterRec>, baseline: map<string, real>, p: Params, metric: map<string,
                           real>) {
    if p.byBaselineRate && baseline != map[] then metric == baseline
    else IsInSetDf(clusters, metric)
  }

  /** What build_chains works with, up to the topic groups. */
  datatype Prepared = Prepared(cutoff: real, qualifying: seq<set<string>>, institutions: set<string>)

  ghost predicate IsPrepared(clusters: seq<ClusterRec>, baseline: map<string, real>, p: Params, r: Prepared) {
    && |r.qualifying| == |clusters|
    && (forall i :: 0 <= i < |clusters| ==> r.qualifying[i] == Qualifying(clusters, baseline, p, r.cutoff, i))
    && (forall key :: key in r.institutions <==> p.useInstitutionFilter && IsInstitution(r.qualifying, p, key))
  }

  ghost predicate IsCutoff(clusters: seq<ClusterRec>, baseline: map<string, real>, p: Params,
                           cutoff: Option<real>)
  {
    exists metric, values :: MetricOf(clusters, baseline, p, metric) && IsListing(values, metric)
      && cutoff == GenericCutoff(values, p.genericPercentile)
  }

  ghost predicate IsInSetDf(clusters: seq<ClusterRec>, df: map<string, real>) {
    && (forall key :: key in df <==> Mentions(clusters, key) != {})
    && (forall key :: key in df ==> df[key] == InSetDf(clusters, key))
  }

  method InSetFrequencies(clusters: seq<ClusterRec>) returns (inSet: map<string, real>)
    ensures IsInSetDf(clusters, inSet)
  {
    var freq := DocFreq(clusters);
    inSet := map[];
    if |clusters| > 0 {
      inSet := map key | key in freq :: freq[key] as real / |clusters| as real;
    }
    NoClustersNoMentions(clusters);
  }

  method Cutoff(clusters: seq<ClusterRec>, baseline: map<string, real>, p: Params, inSet: map<string, real>)
    returns (cutoff: Option<real>)
    requires IsInSetDf(clusters, inSet)
    ensures IsCutoff(clusters, baseline, p, cutoff)
  {
    var metric := if p.byBaselineRate && baseline != map[] then baseline else inSet;
    var values := ListValues(metric);
    cutoff := GenericCutoff(values, p.genericPercentile);
    assert MetricOf(clusters, baseline, p, metric);
  }

  method Prepare(clusters: seq<ClusterRec>, baseline: map<string, real>, p: Params, cutoff: real, inSet: map<string,
                 real>)
    returns (r: Prepared)
    requires IsInSetDf(clusters, inSet)
    ensures IsPrepared(clusters, baseline, p, r) && r.cutoff == cutoff
  {
    var qualifying := Qualify(clusters, baseline, p, cutoff, inSet);
    var institutions: set<string> := {};
    if p.useInstitutionFilter {
      institutions := InstitutionKeys(qualifying, p);
    }
    r := Prepared(cutoff, qualifying, institutions);
  }

  lemma NoClustersNoMentions(clusters: seq<ClusterRec>)
    ensures clusters == [] ==> forall key :: Mentions(clusters, key) == {}
  {
  }

  method Qualify(clusters: seq<ClusterRec>, baseline: map<string, real>, p: Params, cutoff: real, inSet: map<string,
                 real>)
    returns (qualifying: seq<set<string>>)
    requires IsInSetDf(clusters, inSet)
    ensures |qualifying| == |clusters|
    ensures forall i :: 0 <= i < |clusters| ==> qualifying[i] == Qualifying(clusters, baseline, p, cutoff, i)
  {
    qualifying := [];
    for n := 0 to |clusters|
      invariant |qualifying| == n
      invariant forall i :: 0 <= i < n ==> qualifying[i] == Qualifying(clusters, baseline, p, cutoff, i)
    {
      var c := clusters[n];
      var keys := set key | key in c && !(p.useBackdropFilter && c[key])
                            && !Generic(baseline, p, cutoff, inSet, key);
      forall key
        ensures Generic(baseline, p, cutoff, inSet, key) <==> IsGeneric(clusters, baseline, p, cutoff, key)
      {
      }
      qualifying := qualifying + [keys];
    }
  }

  predicate Generic(baseline: map<string, real>, p: Params, cutoff: real, inSet: map<string, real>, key: string) {
    if p.byBaselineRate && key in baseline then baseline[key] >= cutoff
    else (if key in inSet then inSet[key] else 0.0) >= cutoff
  }

  /** Every cluster gets a chain it is in, read off the merged groups, of two members or more
      exactly when it shares a surviving key with another cluster. */
  ghost predicate IsChaining(r: Prepared, groups: seq<set<nat>>, ratio: real, assignment: map<nat, set<nat>>) {
    && (forall i: nat :: i in assignment <==> i < |r.qualifying|)
    && forall i: nat :: i in assignment ==>
         && assignment[i] == ChainOf(MergeAll(groups, ratio), i)
         && i in assignment[i]
         && i < |r.qualifying|
         && (|assignment[i]| >= 2 <==> SharesWithAnother(r.qualifying, r.institutions, i))
  }

  /** That holds for some merge order of the prepared groups. */
  ghost predicate IsAssembled(r: Prepared, ratio: real, assignment: map<nat, set<nat>>) {
    exists groups :: IsMergeOrder(r.qualifying, r.institutions, groups) && IsChaining(r, groups, ratio, assignment)
  }

  /** What build_chains may return: None for the indexing error, or the chains of the groups that
      survive the cutoff. */
  ghost predicate IsOutcome(clusters: seq<ClusterRec>, baseline: map<string, real>, p: Params,
                            assignment: Option<map<nat, set<nat>>>)
  {
    match assignment
    case None => IsCutoff(clusters, baseline, p, None)
    case Some(chains) =>
      exists r: Prepared :: IsCutoff(clusters, baseline, p, Some(r.cutoff)) && IsPrepared(clusters, baseline, p, r)
                  && IsAssembled(r, p.subsumptionRatio, chains)
  }

  /** build_chains, or None when the percentile reaches beyond the start of the rates. */
  method BuildChains(clusters: seq<ClusterRec>, baseline: map<string, real>, p: Params)
    returns (assignment: Option<map<nat, set<nat>>>)
    ensures IsOutcome(clusters, baseline, p, assignment)
  {
    var inSet := InSetFrequencies(clusters);
    var cutoff := Cutoff(clusters, baseline, p, inSet);
    if cutoff == None {
      return None;
    }
    var prepared := Prepare(clusters, baseline, p, cutoff.value, inSet);
    var chains := AssembleChains(prepared, p.subsumptionRatio);
    assignment := Some(chains);
  }

  method AssembleChains(r: Prepared, ratio: real) returns (assignment: map<nat, set<nat>>)
    ensures IsAssembled(r, ratio, assignment)
  {
    var byKey := GroupByKey(r.qualifying, r.institutions);
    var ordered := BySize(byKey);
    OrderIsMergeOrder(r.qualifying, r.institutions, byKey, ordered);
    var kept := MergeGroups(ordered, ratio);
    KeptAreClusters(r.qualifying, r.institutions, ordered, ratio);
    assignment := Assign(|r.qualifying|, kept);
    forall i: nat | i < |r.qualifying|
      ensures i in assignment[i]
      ensures |assignment[i]| >= 2 <==> SharesWithAnother(r.qualifying, r.institutions, i)
    {
      ChainOfFacts(kept, i);
      ChainedExactlyWhenSharing(r.qualifying, r.institutions, ordered, ratio, i);
    }
    assert IsChaining(r, ordered, ratio, assignment);
  }

  lemma OrderIsMergeOrder(qualifying: seq<set<string>>, institutions: set<string>, byKey: map<string, set<nat>>,
                          ordered: seq<set<nat>>)
    requires forall key :: key in byKey <==> IsTopic(qualifying, institutions, key)
    requires forall key :: key in byKey ==> byKey[key] == Group(qualifying, key)
    requires LargestFirst(ordered)
    requires forall g :: 0 <= g < |ordered| ==> IsValue(byKey, ordered[g])
    requires forall key :: key in byKey ==> byKey[key] in ordered
    ensures IsMergeOrder(qualifying, institutions, ordered)
  {
    forall g | 0 <= g < |ordered|
      ensures IsGroup(qualifying, institutions, ordered[g])
    {
      assert IsValue(byKey, ordered[g]);
      var key :| key in byKey && byKey[key] == ordered[g];
      assert IsTopic(qualifying, institutions, key);
    }
  }

  lemma KeptAreClusters(qualifying: seq<set<string>>, institutions: set<string>, groups: seq<set<nat>>, ratio: real)
    requires IsMergeOrder(qualifying, institutions, groups)
    ensures AllBelow(MergeAll(groups, ratio), |qualifying|)
  {
    forall k: nat, i: nat | k < |MergeAll(groups, ratio)| && i in MergeAll(groups, ratio)[k]
      ensures i < |qualifying|
    {
      KeptIsACluster(qualifying, institutions, groups, ratio, k, i);
    }
  }

  lemma KeptIsACluster(qualifying: seq<set<string>>, institutions: set<string>, groups: seq<set<nat>>, ratio: real,
                       k: nat, i: nat)
    requires IsMergeOrder(qualifying, institutions, groups)
    requires k < |MergeAll(groups, ratio)| && i in MergeAll(groups, ratio)[k]
    ensures i < |qualifying|
  {
    var g := EveryMemberHasAGroup(groups, ratio, k, i);
    assert IsGroup(qualifying, institutions, groups[g]);
    var key :| IsTopic(qualifying, institutions, key) && Group(qualifying, key) == groups[g];
    assert i in Group(qualifying, key);
  }
}
