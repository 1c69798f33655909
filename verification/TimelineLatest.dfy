/** Where a row's anchor stands in its story: no cluster of the narrative was first seen later. */
module TimelineLatest {
  import opened Basics
  import opened TimelineSpec
  import opened TimelineProofs

  /** When each cluster was first seen. The column is written once, so cycles agree on it. */
  type Seen = map<int, int>

  ghost predicate Loads(x: Cycle, seen: Seen) {
    forall i :: i in x.byId ==> i in seen && seen[i] == x.byId[i].firstSeen
  }

  /** Chains are built from the clusters that were loaded. */
  ghost predicate ChainsLoaded(x: Cycle) {
    forall k :: k in x.assignment ==> x.assignment[k] <= x.byId.Keys
  }

  ghost predicate AllLoaded(x: Cycle, log: seq<Attempt>) {
    forall a :: a in log ==> a.chain <= x.byId.Keys
  }

  /** Only one loaded member of the chain was first seen last, so its anchor is decided. */
  ghost predicate UniqueLatest(byId: map<int, Cluster>, chain: set<int>) {
    forall i, j :: IsAnchor(byId, chain, Some(i)) && IsAnchor(byId, chain, Some(j)) ==> i == j
  }

  ghost predicate NoTiedLatest(x: Cycle) {
    forall k :: k in x.assignment ==> UniqueLatest(x.byId, x.assignment[k])
  }

  ghost predicate AllUntied(x: Cycle, log: seq<Attempt>) {
    forall a :: a in log ==> UniqueLatest(x.byId, a.chain)
  }

  /** In particular when no two loaded clusters were first seen at the same time. */
  lemma DistinctTimesAreUntied(x: Cycle)
    requires forall i, j :: i in x.byId && j in x.byId && i != j ==> x.byId[i].firstSeen != x.byId[j].firstSeen
    ensures NoTiedLatest(x)
  {
  }

  /** A row with a narrative is anchored at a cluster first seen no earlier than any the
      narrative is about. After a failed regeneration the anchor may lie outside those. */
  ghost predicate LatestAnchored(seen: Seen, t: Table) {
    forall r, i :: r in t && t[r].generatedAt.Some? && i in t[r].clusterIds && i in seen && t[r].anchor in seen ==>
      seen[i] <= seen[t[r].anchor]
  }

  lemma AttemptKeepsLatest(x: Cycle, seen: Seen, stored: Table, used: set<int>, live: Table, a: Attempt)
    requires Loads(x, seen) && a.chain <= x.byId.Keys && LatestAnchored(seen, live)
    requires UniqueAnchors(stored) && UniqueAnchors(live) && Drift(stored, live, used)
    requires a.chain !! used && Legal(x, stored, live, a)
    ensures LatestAnchored(seen, Apply(x, live, a))
  {
    if a.anchor.Some? && a.llm.Some? {
      AttemptTargetIsFree(x, stored, used, live, a);
    }
  }

  /** Every run of legal attempts keeps it, failed generations included. */
  lemma {:induction false} LogKeepsLatest(x: Cycle, seen: Seen, stored: Table, used: set<int>, live: Table,
                                          log: seq<Attempt>)
    requires Loads(x, seen) && AllLoaded(x, log) && LatestAnchored(seen, live)
    requires UniqueAnchors(stored) && UniqueAnchors(live) && Drift(stored, live, used)
    requires LegalLog(x, stored, used, live, log)
    ensures LatestAnchored(seen, ApplyAll(x, live, log))
    decreases |log|
  {
    if log != [] {
      assert AllLoaded(x, log[1..]);
      AttemptKeepsLatest(x, seen, stored, used, live, log[0]);
      AttemptKeepsDrift(x, stored, used, live, log[0]);
      LogKeepsLatest(x, seen, stored, used + log[0].chain, Apply(x, live, log[0]), log[1..]);
    }
  }

  /** So the row an attempt ends with stands at the attempt's anchor, even if the narrative was
      kept: an unchanged chain has an unchanged latest member. */
  lemma AttemptStandsAtItsAnchor(x: Cycle, seen: Seen, stored: Table, used: set<int>, live: Table, a: Attempt)
    requires Loads(x, seen) && a.chain <= x.byId.Keys && LatestAnchored(seen, live) && UniqueLatest(x.byId, a.chain)
    requires UniqueAnchors(stored) && UniqueAnchors(live) && Drift(stored, live, used)
    requires a.chain !! used && Legal(x, stored, live, a) && a.anchor.Some?
    ensures a.target in Apply(x, live, a) && Apply(x, live, a)[a.target].anchor == a.anchor.value
  {
    AttemptTargetIsFree(x, stored, used, live, a);
    if a.llm.None? {
      var row := live[a.target];
      assert row.anchor in x.byId && a.anchor.value in row.clusterIds;
      assert seen[a.anchor.value] <= seen[row.anchor] <= seen[a.anchor.value];
      assert IsAnchor(x.byId, a.chain, Some(row.anchor));
    }
  }

  // ---- The chains a cycle attempts are assigned ones ----

  ghost predicate Assigned(x: Cycle, chain: set<int>) {
    exists k :: k in x.assignment && x.assignment[k] == chain
  }

  lemma {:induction false} EditorialAssigned(x: Cycle, stored: Table, picked: seq<nat>, used: set<int>, live: Table,
                                             log: seq<Attempt>)
    requires EditorialLog(x, stored, picked, used, live, log)
    ensures forall a :: a in log ==> Assigned(x, a.chain)
    decreases |picked|
  {
    if picked != [] {
      var chain := PickedChain(x, live, picked[0]);
      if |chain| <= 1 || !(chain !! used) {
        EditorialAssigned(x, stored, picked[1..], used, live, log);
      } else {
        EditorialAssigned(x, stored, picked[1..], used + chain, Apply(x, live, log[0]), log[1..]);
        assert Assigned(x, chain);
        assert forall a :: a in log ==> a == log[0] || a in log[1..];
      }
    }
  }

  lemma SelectionAssigned(x: Cycle, stored: Table, elog: seq<Attempt>, flog: seq<Attempt>)
    requires Selection(x, stored, elog, flog)
    ensures forall a :: a in elog + flog ==> Assigned(x, a.chain)
  {
    EditorialAssigned(x, stored, x.picked, {}, stored, elog);
    FallbackIsLegal(x, stored, x.ranked, Used(elog), x.slots - |elog|, 0, ApplyAll(x, stored, elog), flog);
    forall a | a in elog + flog
      ensures Assigned(x, a.chain)
    {
      assert a in elog || a in flog;
      if a in flog {
        assert a.chain in DistinctChains(x, stored);
      }
    }
  }

  lemma SelectionLoaded(x: Cycle, stored: Table, elog: seq<Attempt>, flog: seq<Attempt>)
    requires Selection(x, stored, elog, flog)
    ensures ChainsLoaded(x) ==> AllLoaded(x, elog + flog)
    ensures NoTiedLatest(x) ==> AllUntied(x, elog + flog)
  {
    SelectionAssigned(x, stored, elog, flog);
  }

  /** One cycle keeps the invariant. */
  lemma CycleKeepsLatest(x: Cycle, seen: Seen, stored: Table, elog: seq<Attempt>, flog: seq<Attempt>)
    requires Loads(x, seen) && ChainsLoaded(x) && LatestAnchored(seen, stored) && UniqueAnchors(stored)
    requires Selection(x, stored, elog, flog)
    ensures LatestAnchored(seen, EndOfCycle(x, stored, elog + flog))
  {
    SelectionLoaded(x, stored, elog, flog);
    SelectionIsLegal(x, stored, elog, flog);
    LogKeepsLatest(x, seen, stored, {}, stored, elog + flog);
  }
}
