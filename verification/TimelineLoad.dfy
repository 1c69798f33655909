/** How a cycle is set up: the editorial rows, the clusters of rejected narratives, and the
    ranking of the chains that are left. */
module TimelineLoad {
  import opened Basics
  import opened TimelineSpec
  import opened TimelineProofs
  import opened TimelineLatest
  import opened TimelineSession
  import opened TimelineRun

  /** What the ranking holds: every chain of two or more that shares no cluster with a narrative
      judged incoherent, once, the larger first, and of equal ones the more recently updated. */
  lemma RankingMeans(x: Cycle, table: Table)
    requires ValidInputs(x, table)
    ensures forall c :: c in x.ranked <==>
              && (exists k :: k in x.assignment && x.assignment[k] == c && |c| > 1)
              && forall r :: r in table && table[r].coherent == Some(false) ==> table[r].clusterIds !! c
    ensures forall i, j :: 0 <= i < j < |x.ranked| ==>
              && x.ranked[i] != x.ranked[j] && |x.ranked[i]| >= |x.ranked[j]|
              && (|x.ranked[i]| == |x.ranked[j]| ==>
                    forall m :: m in x.ranked[j] && m in x.byId ==>
                      exists n :: n in x.ranked[i] && n in x.byId && x.byId[n].lastUpdated >= x.byId[m].lastUpdated)
  {
    forall c
      ensures c in DistinctChains(x, table) <==>
                && (exists k :: k in x.assignment && x.assignment[k] == c && |c| > 1)
                && forall r :: r in table && table[r].coherent == Some(false) ==> table[r].clusterIds !! c
    {
      SharesNone(table, c);
    }
    forall i, j | 0 <= i < j < |x.ranked|
      ensures RanksAtLeast(x.ranked[i], x.ranked[j], x.byId)
    {
    }
  }

  lemma SharesNone(table: Table, c: set<int>)
    ensures c !! KnownIncoherent(table) <==>
              forall r :: r in table && table[r].coherent == Some(false) ==> table[r].clusterIds !! c
  {
    if !(c !! KnownIncoherent(table)) {
      var i :| i in c && i in KnownIncoherent(table);
      var r :| r in table && table[r].coherent == Some(false) && i in table[r].clusterIds;
      assert !(table[r].clusterIds !! c);
    } else {
      forall r | r in table && table[r].coherent == Some(false)
        ensures table[r].clusterIds !! c
      {
        forall i | i in table[r].clusterIds
          ensures i !in c
        {
          assert i in KnownIncoherent(table);
        }
      }
    }
  }

  /** The ids of every narrative that was judged incoherent. */
  method LoadRejected(table: Table) returns (ids: set<int>)
    ensures ids == KnownIncoherent(table)
  {
    ids := {};
    var rest := table.Keys;
    while rest != {}
      invariant rest <= table.Keys
      invariant forall i :: i in ids <==>
                  exists r :: r in table && r !in rest && table[r].coherent == Some(false) && i in table[r].clusterIds
      decreases rest
    {
      var r :| r in rest;
      ghost var before, left := ids, rest;
      if table[r].coherent == Some(false) {
        ids := ids + table[r].clusterIds;
      }
      rest := rest - {r};
      forall i
        ensures i in ids <==>
                exists q :: q in table && q !in rest && table[q].coherent == Some(false) && i in table[q].clusterIds
      {
        OneRowMore(table, left, r, before, ids, i);
      }
    }
    assert forall i :: i in ids <==> i in KnownIncoherent(table);
  }

  lemma OneRowMore(table: Table, rest: set<nat>, r: nat, before: set<int>, after: set<int>, i: int)
    requires r in rest && rest <= table.Keys
    requires i in before <==>
               exists q :: q in table && q !in rest && table[q].coherent == Some(false) && i in table[q].clusterIds
    requires after == if table[r].coherent == Some(false) then before + table[r].clusterIds else before
    ensures i in after <==>
              exists q :: q in table && q !in rest - {r} && table[q].coherent == Some(false) && i in table[q].clusterIds
  {
  }

  /** The editorial rows, in whatever order they come back. */
  method LoadPicks(table: Table) returns (picked: seq<nat>)
    ensures forall r :: r in picked <==> r in table && table[r].editorial
  {
    picked := [];
    var rest := table.Keys;
    while rest != {}
      invariant rest <= table.Keys
      invariant forall r :: r in picked <==> r in table && r !in rest && table[r].editorial
      decreases rest
    {
      var r :| r in rest;
      if table[r].editorial {
        picked := picked + [r];
      }
      rest := rest - {r};
    }
  }

  /** The assigned chains of two or more, each once, without those that share a rejected cluster. */
  method CollectChains(assignment: map<int, set<int>>, rejected: set<int>) returns (chains: set<set<int>>)
    ensures chains == set k | k in assignment && |assignment[k]| > 1 && assignment[k] !! rejected :: assignment[k]
  {
    chains := {};
    var rest := assignment.Keys;
    while rest != {}
      invariant rest <= assignment.Keys
      invariant chains == set k | k in assignment && k !in rest && |assignment[k]| > 1 && assignment[k] !! rejected
                            :: assignment[k]
      decreases rest
    {
      SomeMember(rest);
      var k :| k in rest;
      if |assignment[k]| > 1 && assignment[k] !! rejected {
        chains := chains + {assignment[k]};
      }
      rest := rest - {k};
    }
  }

  /** max(by_id[i].last_updated_at for i in ids if i in by_id) */
  method LastUpdate(chain: set<int>, byId: map<int, Cluster>) returns (latest: int)
    requires chain * byId.Keys != {}
    ensures exists i :: i in chain && i in byId && byId[i].lastUpdated == latest
    ensures forall i :: i in chain && i in byId ==> byId[i].lastUpdated <= latest
  {
    var rest := chain * byId.Keys;
    SomeMember(rest);
    var first :| first in rest;
    latest, rest := byId[first].lastUpdated, rest - {first};
    while rest != {}
      invariant rest <= chain * byId.Keys
      invariant exists i :: i in chain && i in byId && byId[i].lastUpdated == latest
      invariant forall i :: i in chain && i in byId && i !in rest ==> byId[i].lastUpdated <= latest
      decreases rest
    {
      SomeMember(rest);
      var i :| i in rest;
      if byId[i].lastUpdated > latest {
        latest := byId[i].lastUpdated;
      }
      rest := rest - {i};
    }
  }

  /** Does c go before d, by length and then by the last update? */
  method GoesBefore(c: set<int>, d: set<int>, byId: map<int, Cluster>) returns (b: bool)
    requires c * byId.Keys != {} && d * byId.Keys != {}
    ensures b ==> RanksAtLeast(c, d, byId)
    ensures !b ==> RanksAtLeast(d, c, byId)
  {
    if |c| != |d| {
      return |c| > |d|;
    }
    var mine, others;
    mine := LastUpdate(c, byId);
    others := LastUpdate(d, byId);
    b := mine >= others;
  }

  /** The ranking so far. */
  ghost predicate Ranked(ranked: seq<set<int>>, byId: map<int, Cluster>) {
    && (forall i, j :: 0 <= i < j < |ranked| ==> ranked[i] != ranked[j])
    && (forall i, j :: 0 <= i < j < |ranked| ==> RanksAtLeast(ranked[i], ranked[j], byId))
    && (forall i :: 0 <= i < |ranked| ==> ranked[i] * byId.Keys != {})
  }

  lemma RanksTransitive(a: set<int>, b: set<int>, c: set<int>, byId: map<int, Cluster>)
    requires RanksAtLeast(a, b, byId) && RanksAtLeast(b, c, byId)
    ensures RanksAtLeast(a, c, byId)
  {
  }

  lemma InsertedKeepsRanked(ranked: seq<set<int>>, c: set<int>, k: nat, byId: map<int, Cluster>)
    requires Ranked(ranked, byId) && k <= |ranked| && c !in ranked && c * byId.Keys != {}
    requires forall i :: 0 <= i < k ==> RanksAtLeast(ranked[i], c, byId)
    requires k < |ranked| ==> RanksAtLeast(c, ranked[k], byId)
    ensures Ranked(ranked[..k] + [c] + ranked[k..], byId)
    ensures forall d :: d in ranked[..k] + [c] + ranked[k..] <==> d == c || d in ranked
  {
    forall i | k <= i < |ranked|
      ensures RanksAtLeast(c, ranked[i], byId)
    {
      if i > k {
        RanksTransitive(c, ranked[k], ranked[i], byId);
      }
    }
    assert ranked[..k] + ranked[k..] == ranked;
    assert forall d :: d in ranked <==> d in ranked[..k] || d in ranked[k..];
  }

  /** Where c goes: behind everything that ranks no lower. */
  method PlaceOf(ranked: seq<set<int>>, c: set<int>, byId: map<int, Cluster>) returns (k: nat)
    requires Ranked(ranked, byId) && c * byId.Keys != {}
    ensures k <= |ranked|
    ensures forall i :: 0 <= i < k ==> RanksAtLeast(ranked[i], c, byId)
    ensures k < |ranked| ==> RanksAtLeast(c, ranked[k], byId)
  {
    k := 0;
    while k < |ranked|
      invariant k <= |ranked|
      invariant forall i :: 0 <= i < k ==> RanksAtLeast(ranked[i], c, byId)
    {
      var before := GoesBefore(ranked[k], c, byId);
      if !before {
        return;
      }
      k := k + 1;
    }
  }

  method RankChains(chains: set<set<int>>, byId: map<int, Cluster>) returns (ranked: seq<set<int>>)
    requires forall c :: c in chains ==> c * byId.Keys != {}
    ensures IsRanking(ranked, chains, byId)
  {
    ranked := [];
    var rest := chains;
    while rest != {}
      invariant rest <= chains
      invariant Ranked(ranked, byId)
      invariant forall c :: c in ranked <==> c in chains && c !in rest
      decreases rest
    {
      var c :| c in rest;
      var k := PlaceOf(ranked, c, byId);
      InsertedKeepsRanked(ranked, c, k, byId);
      ranked := ranked[..k] + [c] + ranked[k..];
      rest := rest - {c};
    }
  }

  lemma ChainsAreLoadable(x: Cycle, chains: set<set<int>>)
    requires ChainsLoaded(x)
    requires forall c :: c in chains ==> |c| > 1 && exists k :: k in x.assignment && x.assignment[k] == c
    ensures forall c :: c in chains ==> c * x.byId.Keys != {}
  {
    forall c | c in chains
      ensures c * x.byId.Keys != {}
    {
      assert c * x.byId.Keys == c;
    }
  }

  /** A whole cycle over what was loaded: its inputs are read off the table, ranked, and run. */
  method RunCycle(s: Session, byId: map<int, Cluster>, assignment: map<int, set<int>>, slots: int,
                  scanCap: Option<int>, now: int, narrate: set<int> -> Outcome)
    returns (report: Report, ghost x: Cycle, ghost elog: seq<Attempt>, ghost flog: seq<Attempt>)
    requires s.Valid() && s.stored == s.live && UniqueAnchors(s.stored)
    requires forall k :: k in assignment ==> assignment[k] <= byId.Keys
    modifies s
    ensures x == Cycle(byId, assignment, slots, scanCap, x.picked, x.ranked, now, s.autoflush)
    ensures s.Valid() && s.stored == s.live
    ensures Selection(x, old(s.stored), elog, flog)
    ensures s.stored == EndOfCycle(x, old(s.stored), elog + flog)
    ensures Answered(elog, narrate) && Answered(flog, narrate)
    ensures ReportIs(report, elog + flog,
                     if slots - |elog| - FillCount(flog) > 0 then slots - |elog| - FillCount(flog) else 0)
  {
    var rejected := LoadRejected(s.stored);
    var picked := LoadPicks(s.stored);
    var chains := CollectChains(assignment, rejected);
    var c := Cycle(byId, assignment, slots, scanCap, picked, [], now, s.autoflush);
    ChainsAreLoadable(c, chains);
    var ranked := RankChains(chains, byId);
    c := c.(ranked := ranked);
    x := c;
    report, elog, flog := Run(s, c, narrate);
  }
}
