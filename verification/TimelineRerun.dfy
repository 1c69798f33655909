/** A cycle that filled its slots can be run again for nothing. */
module TimelineRerun {
  import opened Basics
  import opened TimelineSpec
  import opened TimelineProofs
  import opened TimelineLatest
  import opened TimelineSlots
  import opened TimelineTop
  import opened TimelineHistory

  /** A second attempt on the chain, made on the table t, finds everything as this one left it:
      no narrative call, the same anchor, the same verdict. */
  ghost predicate Repeats(x: Cycle, t: Table, a: Attempt) {
    forall b: Attempt :: b.chain == a.chain && Legal(x, t, t, b) ==>
        b.llm.None? && b.verdict == a.verdict && b.anchor == a.anchor
  }

  ghost predicate Settled(t: Table, a: Attempt)
    requires a.anchor.Some?
  {
    && a.target in t
    && t[a.target].anchor in a.chain
    && t[a.target].coherent == a.verdict
    && t[a.target].clusterIds == a.chain
    && t[a.target].generatedAt.Some?
    && forall r :: IsExisting(t, t, a.chain, a.anchor.value, r) ==> r == Some(a.target)
  }

  lemma AttemptSettles(x: Cycle, seen: Seen, stored: Table, used: set<int>, live: Table, a: Attempt)
    requires Loads(x, seen) && a.chain <= x.byId.Keys && LatestAnchored(seen, live) && UniqueLatest(x.byId, a.chain)
    requires UniqueAnchors(stored) && UniqueAnchors(live) && Drift(stored, live, used)
    requires a.chain !! used && Legal(x, stored, live, a)
    requires a.anchor.Some? && a.llm != Some(Failed)
    ensures Settled(Apply(x, live, a), a)
  {
    var live' := Apply(x, live, a);
    AttemptStandsAtItsAnchor(x, seen, stored, used, live, a);
    AttemptKeepsDrift(x, stored, used, live, a);
    assert a.target in Matches(live', a.chain);
    forall r | IsExisting(live', live', a.chain, a.anchor.value, r)
      ensures r == Some(a.target)
    {
      assert r.Some? && r.value in live';
    }
  }

  lemma SettledDependsOnChain(t: Table, t': Table, a: Attempt)
    requires a.anchor.Some? && Settled(t, a)
    requires Matches(t', a.chain) == Matches(t, a.chain)
    requires forall r :: r in Matches(t, a.chain) ==> SameStory(t'[r], t[r])
    ensures Settled(t', a)
  {
    assert a.target in Matches(t, a.chain);
    forall r | IsExisting(t', t', a.chain, a.anchor.value, r)
      ensures r == Some(a.target)
    {
      assert IsExisting(t, t, a.chain, a.anchor.value, r);
    }
  }

  lemma {:induction false} CycleSettles(x: Cycle, seen: Seen, stored: Table, used: set<int>, live: Table,
                                        log: seq<Attempt>, k: nat)
    requires Loads(x, seen) && AllLoaded(x, log) && LatestAnchored(seen, live) && AllUntied(x, log)
    requires UniqueAnchors(stored) && UniqueAnchors(live) && Drift(stored, live, used)
    requires LegalLog(x, stored, used, live, log)
    requires k < |log| && log[k].anchor.Some? && log[k].llm != Some(Failed)
    ensures Settled(ApplyAll(x, live, log), log[k])
    decreases k
  {
    assert log[0] in log && AllLoaded(x, log[1..]) && AllUntied(x, log[1..]);
    AttemptKeepsDrift(x, stored, used, live, log[0]);
    AttemptKeepsLatest(x, seen, stored, used, live, log[0]);
    var used', live' := used + log[0].chain, Apply(x, live, log[0]);
    if k == 0 {
      AttemptSettles(x, seen, stored, used, live, log[0]);
      OwnedChainStays(x, stored, used', live', log[1..], log[0].chain);
      SettledDependsOnChain(live', ApplyAll(x, live, log), log[0]);
    } else {
      CycleSettles(x, seen, stored, used', live', log[1..], k - 1);
    }
  }

  lemma SettledRepeats(x: Cycle, t: Table, a: Attempt)
    requires UniqueLatest(x.byId, a.chain)
    requires IsAnchor(x.byId, a.chain, a.anchor)
    requires a.anchor.None? ==> a.verdict.None?
    requires a.anchor.Some? ==> Settled(t, a)
    ensures Repeats(x, t, a)
  {
    forall b: Attempt | b.chain == a.chain && Legal(x, t, t, b)
      ensures b.llm.None? && b.verdict == a.verdict && b.anchor == a.anchor
    {
      SameAnchor(x.byId, a.chain, a.anchor, b.anchor);
      if a.anchor.Some? {
        assert IsExisting(t, t, a.chain, a.anchor.value, b.existing);
      }
    }
  }

  lemma SameAnchor(byId: map<int, Cluster>, chain: set<int>, a: Option<int>, b: Option<int>)
    requires UniqueLatest(byId, chain) && IsAnchor(byId, chain, a) && IsAnchor(byId, chain, b)
    ensures a == b
  {
  }

  /** What a cycle adds to the rejected ids: the members of the chains it rejected. */
  lemma {:induction false} RejectedGrowBy(x: Cycle, stored: Table, used: set<int>, live: Table, log: seq<Attempt>,
                                          i: int)
    requires LegalLog(x, stored, used, live, log)
    requires i in KnownIncoherent(ApplyAll(x, live, log))
    ensures i in KnownIncoherent(live) || exists a :: a in log && a.verdict == Some(false) && i in a.chain
    decreases |log|
  {
    if log != [] {
      var live' := Apply(x, live, log[0]);
      RejectedGrowBy(x, stored, used + log[0].chain, live', log[1..], i);
      if i in KnownIncoherent(live') && i !in KnownIncoherent(live) {
        assert log[0] in log && log[0].verdict == Some(false) && i in log[0].chain;
      } else if i !in KnownIncoherent(live) {
        var a :| a in log[1..] && a.verdict == Some(false) && i in a.chain;
        assert a in log;
      }
    }
  }

  /** The chains that do not meet the given ids, in order. */
  function Clear(ranked: seq<set<int>>, known: set<int>): seq<set<int>> {
    if ranked == [] then []
    else if ranked[0] !! known then [ranked[0]] + Clear(ranked[1..], known)
    else Clear(ranked[1..], known)
  }

  function FilledChains(log: seq<Attempt>): seq<set<int>> {
    if log == [] then []
    else if Fills(log[0]) then [log[0].chain] + FilledChains(log[1..])
    else FilledChains(log[1..])
  }

  /** The second cycle, on the table t2, either no longer sees the attempted chain, which was
      rejected, or will repeat the attempt. */
  ghost predicate Replayable(x2: Cycle, t2: Table, a: Attempt) {
    && a.chain != {}
    && if a.verdict == Some(false) then a.chain <= KnownIncoherent(t2)
       else a.chain !! KnownIncoherent(t2) && Repeats(x2, t2, a)
  }

  ghost predicate AllReplayable(x2: Cycle, t2: Table, log: seq<Attempt>) {
    forall i :: 0 <= i < |log| ==> Replayable(x2, t2, log[i])
  }

  /** The second scan reaches a chain that the first one attempted. */
  lemma SecondScanRepeats(x2: Cycle, t2: Table, ranked: seq<set<int>>, used2: set<int>,
                          remaining: int, scanned2: nat, log2: seq<Attempt>, a: Attempt)
    requires ranked != [] && ranked[0] == a.chain && a.chain !! used2
    requires a.verdict != Some(false) && Replayable(x2, t2, a) && !a.editorial
    requires remaining > 0 && scanned2 < ScanCap(x2)
    requires FallbackLog(x2, t2, Clear(ranked, KnownIncoherent(t2)), used2, remaining, scanned2, t2, log2)
    ensures log2 != [] && log2[0].llm.None? && log2[0].chain == a.chain
    ensures Fills(log2[0]) == Fills(a) && log2[0].anchor == a.anchor
    ensures FallbackLog(x2, t2, Clear(ranked[1..], KnownIncoherent(t2)), used2 + a.chain,
                        remaining - (if Fills(a) then 1 else 0), scanned2 + 1, t2, log2[1..])
  {
    assert Clear(ranked, KnownIncoherent(t2))[1..] == Clear(ranked[1..], KnownIncoherent(t2));
  }

  lemma SecondScanSkips(x2: Cycle, t2: Table, ranked: seq<set<int>>, used2: set<int>,
                        remaining: int, scanned2: nat, log2: seq<Attempt>)
    requires ranked != [] && !(ranked[0] !! used2 + KnownIncoherent(t2))
    requires FallbackLog(x2, t2, Clear(ranked, KnownIncoherent(t2)), used2, remaining, scanned2, t2, log2)
    requires remaining > 0
    ensures FallbackLog(x2, t2, Clear(ranked[1..], KnownIncoherent(t2)), used2, remaining, scanned2, t2, log2)
  {
    var known := KnownIncoherent(t2);
    if ranked[0] !! known {
      assert Clear(ranked, known)[1..] == Clear(ranked[1..], known);
      assert !(ranked[0] !! used2);
    } else {
      assert Clear(ranked, known) == Clear(ranked[1..], known);
    }
  }

  /** The second log asks the narrative service nothing and fills the same chains and anchors. */
  ghost predicate RepeatsForFree(log1: seq<Attempt>, log2: seq<Attempt>) {
    && (forall i :: 0 <= i < |log2| ==> log2[i].llm.None?)
    && FilledChains(log2) == FilledChains(log1)
    && Filled(log2) == Filled(log1)
  }

  lemma FirstOnly(log1: seq<Attempt>, log2: seq<Attempt>)
    requires log1 != [] && !Fills(log1[0]) && RepeatsForFree(log1[1..], log2)
    ensures RepeatsForFree(log1, log2)
  {
    UsedCons(log1);
  }

  lemma BothAlike(log1: seq<Attempt>, log2: seq<Attempt>)
    requires log1 != [] && log2 != [] && RepeatsForFree(log1[1..], log2[1..])
    requires Fills(log1[0]) == Fills(log2[0]) && log1[0].chain == log2[0].chain && log1[0].anchor == log2[0].anchor
    requires log2[0].llm.None?
    ensures RepeatsForFree(log1, log2)
  {
    UsedCons(log1);
    UsedCons(log2);
  }

  /** The two scans side by side: the second one makes exactly the first one's attempts, minus
      the rejected ones, whose chains it no longer sees. */
  lemma {:induction false} ScansAgree(x1: Cycle, t1: Table, x2: Cycle, t2: Table, ranked: seq<set<int>>,
                                      used1: set<int>, used2: set<int>, remaining: int,
                                      scanned1: nat, scanned2: nat, live1: Table,
                                      log1: seq<Attempt>, log2: seq<Attempt>)
    requires FallbackLog(x1, t1, ranked, used1, remaining, scanned1, live1, log1)
    requires FallbackLog(x2, t2, Clear(ranked, KnownIncoherent(t2)), used2, remaining, scanned2, t2, log2)
    requires ScanCap(x1) == ScanCap(x2) && scanned2 <= scanned1
    requires remaining <= FillCount(log1)
    requires used2 <= used1 <= used2 + KnownIncoherent(t2)
    requires AllReplayable(x2, t2, log1)
    ensures RepeatsForFree(log1, log2)
    decreases |ranked|
  {
    if ranked == [] || remaining <= 0 || scanned1 >= ScanCap(x1) {
      assert log1 == [] && log2 == [];
    } else if !(ranked[0] !! used1) {
      OverlapGrows(ranked[0], used1, used2 + KnownIncoherent(t2));
      assert used1 + (used2 + KnownIncoherent(t2)) == used2 + KnownIncoherent(t2);
      SecondScanSkips(x2, t2, ranked, used2, remaining, scanned2, log2);
      ScansAgree(x1, t1, x2, t2, ranked[1..], used1, used2, remaining, scanned1, scanned2, live1, log1, log2);
    } else {
      var a, c := log1[0], ranked[0];
      assert Replayable(x2, t2, a);
      assert AllReplayable(x2, t2, log1[1..]);
      if a.verdict == Some(false) {
        SecondScanSkips(x2, t2, ranked, used2, remaining, scanned2, log2);
        ScansAgree(x1, t1, x2, t2, ranked[1..], used1 + c, used2, remaining, scanned1 + 1, scanned2,
                   Apply(x1, live1, a), log1[1..], log2);
        FirstOnly(log1, log2);
      } else {
        SecondScanRepeats(x2, t2, ranked, used2, remaining, scanned2, log2, a);
        ScansAgree(x1, t1, x2, t2, ranked[1..], used1 + c, used2 + c,
                   remaining - (if Fills(a) then 1 else 0), scanned1 + 1, scanned2 + 1,
                   Apply(x1, live1, a), log1[1..], log2[1..]);
        BothAlike(log1, log2);
      }
    }
  }

  lemma {:induction false} UnansweredLogWritesNothing(x: Cycle, live: Table, log: seq<Attempt>)
    requires forall i :: 0 <= i < |log| ==> log[i].llm.None?
    ensures ApplyAll(x, live, log) == live
    decreases |log|
  {
    if log != [] {
      UnansweredLogWritesNothing(x, live, log[1..]);
    }
  }

  /** The inputs of a cycle run again on the table t2 that the cycle x1 left: the same clusters,
      chains and limits, and the same order of the chains that are still ranked. */
  ghost predicate SameInputs(x1: Cycle, x2: Cycle, t2: Table) {
    && x2.byId == x1.byId && x2.assignment == x1.assignment
    && x2.slots == x1.slots && x2.scanCap == x1.scanCap
    && x2.ranked == Clear(x1.ranked, KnownIncoherent(t2))
  }

  /** Re-run is a no-op: without editorial picks, with no failed generation and with one
      latest member in every chain, a cycle that filled all its slots can be run again on the same inputs.
      The second run calls the narrative service for no chain, fills its slots with exactly the
      same chains and anchors, in the same order, and writes nothing but flags. */
  lemma RerunIsANoOp(x1: Cycle, seen: Seen, t1: Table, flog1: seq<Attempt>,
                     x2: Cycle, elog2: seq<Attempt>, flog2: seq<Attempt>)
    requires Anchored(x1, seen, t1) && NoPicks(t1)
    requires Selection(x1, t1, [], flog1)
    requires forall a :: a in flog1 ==> a.llm != Some(Failed)
    requires FillCount(flog1) >= x1.slots
    requires var t2 := EndOfCycle(x1, t1, flog1);
             SameInputs(x1, x2, t2) && Selection(x2, t2, elog2, flog2)
    ensures elog2 == []
    ensures RepeatsForFree(flog1, flog2)
    ensures var t2 := EndOfCycle(x1, t1, flog1); ApplyAll(x2, t2, flog2) == t2
  {
    var t2 := EndOfCycle(x1, t1, flog1);
    NoPicksAreLeft(x1, t1, flog1);
    FallbackSparesRejected(x2, t2, elog2, flog2);
    ScansOfTheRuns(x1, seen, t1, flog1, x2, t2, flog2);
    UnansweredLogWritesNothing(x2, t2, flog2);
  }

  lemma NoPicksAreLeft(x1: Cycle, t1: Table, flog1: seq<Attempt>)
    requires NoPicks(t1) && Selection(x1, t1, [], flog1)
    ensures NoPicks(EndOfCycle(x1, t1, flog1))
  {
    FallbackSparesRejected(x1, t1, [], flog1);
    NoPicksAppear(x1, t1, flog1);
    FlagsOnly(x1, t1, flog1);
  }

  lemma ScansOfTheRuns(x1: Cycle, seen: Seen, t1: Table, log1: seq<Attempt>, x2: Cycle, t2: Table, log2: seq<Attempt>)
    requires Anchored(x1, seen, t1) && NoPicks(t1)
    requires Selection(x1, t1, [], log1) && t2 == EndOfCycle(x1, t1, log1)
    requires forall a :: a in log1 ==> a.llm != Some(Failed)
    requires FillCount(log1) >= x1.slots
    requires SameInputs(x1, x2, t2) && Selection(x2, t2, [], log2)
    ensures RepeatsForFree(log1, log2)
  {
    FallbackLogOf(x1, t1, log1);
    FallbackLogOf(x2, t2, log2);
    FallbackSparesRejected(x1, t1, [], log1);
    SelectionIsLegal(x1, t1, [], log1);
    SelectionLoaded(x1, t1, [], log1);
    assert [] + log1 == log1;
    AttemptsAreReplayable(x1, seen, t1, log1, x2, t2);
    ScansAgree(x1, t1, x2, t2, x1.ranked, {}, {}, x1.slots, 0, 0, t1, log1, log2);
  }

  lemma FallbackLogOf(x: Cycle, t: Table, log: seq<Attempt>)
    requires Selection(x, t, [], log)
    ensures FallbackLog(x, t, x.ranked, {}, x.slots, 0, t, log)
  {
    assert Used([]) == {};
    assert ApplyAll(x, t, []) == t;
  }

  lemma AttemptsAreReplayable(x1: Cycle, seen: Seen, t1: Table, log: seq<Attempt>, x2: Cycle, t2: Table)
    requires Anchored(x1, seen, t1) && AllLoaded(x1, log) && AllUntied(x1, log)
    requires LegalLog(x1, t1, {}, t1, log)
    requires forall a :: a in log ==> a.llm != Some(Failed) && |a.chain| > 1
    requires Spares(log, KnownIncoherent(t1))
    requires t2 == EndOfCycle(x1, t1, log) && x2.byId == x1.byId
    ensures AllReplayable(x2, t2, log)
  {
    forall k | 0 <= k < |log|
      ensures Replayable(x2, t2, log[k])
    {
      AttemptIsReplayable(x1, seen, t1, log, x2, t2, k);
    }
  }

  lemma AttemptIsReplayable(x1: Cycle, seen: Seen, t1: Table, log: seq<Attempt>, x2: Cycle, t2: Table, k: nat)
    requires Anchored(x1, seen, t1) && AllLoaded(x1, log) && AllUntied(x1, log)
    requires LegalLog(x1, t1, {}, t1, log)
    requires forall a :: a in log ==> a.llm != Some(Failed) && |a.chain| > 1
    requires Spares(log, KnownIncoherent(t1))
    requires t2 == EndOfCycle(x1, t1, log) && x2.byId == x1.byId
    requires k < |log|
    ensures Replayable(x2, t2, log[k])
  {
    var a := log[k];
    var f := ApplyAll(x1, t1, log);
    assert a in log && |a.chain| > 1;
    FlagsOnly(x1, t1, log);
    LegalAt(x1, t1, {}, t1, log, k);
    if a.anchor.Some? {
      CycleSettles(x1, seen, t1, {}, t1, log, k);
      SettledDependsOnChain(f, t2, a);
      KnownContains(t2, a.target);
    }
    if a.verdict != Some(false) {
      SettledRepeats(x2, t2, a);
      forall i | i in a.chain
        ensures i !in KnownIncoherent(t2)
      {
        AcceptedChainIsNotRejected(x1, t1, log, t2, k, i);
      }
    }
  }

  lemma AcceptedChainIsNotRejected(x1: Cycle, t1: Table, log: seq<Attempt>, t2: Table, k: nat, i: int)
    requires LegalLog(x1, t1, {}, t1, log)
    requires Spares(log, KnownIncoherent(t1))
    requires t2 == EndOfCycle(x1, t1, log)
    requires k < |log| && log[k].verdict != Some(false) && i in log[k].chain
    ensures i !in KnownIncoherent(t2)
  {
    FlagsOnly(x1, t1, log);
    assert KnownIncoherent(t2) == KnownIncoherent(ApplyAll(x1, t1, log));
    assert log[k] in log && i !in KnownIncoherent(t1);
    forall j | 0 <= j < |log| && log[j].verdict == Some(false)
      ensures i !in log[j].chain
    {
      if j < k { ChainsDisjoint(x1, t1, {}, t1, log, j, k); }
      else { ChainsDisjoint(x1, t1, {}, t1, log, k, j); }
    }
    if i in KnownIncoherent(ApplyAll(x1, t1, log)) {
      RejectedGrowBy(x1, t1, {}, t1, log, i);
    }
  }

  lemma {:induction false} LegalAt(x: Cycle, stored: Table, used: set<int>, live: Table, log: seq<Attempt>, k: nat)
    requires LegalLog(x, stored, used, live, log) && k < |log|
    ensures IsAnchor(x.byId, log[k].chain, log[k].anchor)
    ensures log[k].anchor.None? ==> log[k].verdict.None?
    decreases k
  {
    if k > 0 {
      LegalAt(x, stored, used + log[0].chain, Apply(x, live, log[0]), log[1..], k - 1);
    }
  }

  lemma {:induction false} ClearElements(ranked: seq<set<int>>, known: set<int>)
    ensures forall c :: c in Clear(ranked, known) <==> c in ranked && c !! known
  {
    if ranked != [] {
      ClearElements(ranked[1..], known);
    }
  }

  /** c stands before every chain of rest. */
  ghost predicate Leads(c: set<int>, rest: seq<set<int>>, byId: map<int, Cluster>) {
    forall i :: 0 <= i < |rest| ==> c != rest[i] && RanksAtLeast(c, rest[i], byId)
  }

  ghost predicate InRankOrder(s: seq<set<int>>, byId: map<int, Cluster>) {
    forall i :: 0 <= i < |s| ==> Leads(s[i], s[i + 1..], byId)
  }

  lemma LeadsClear(c: set<int>, rest: seq<set<int>>, known: set<int>, byId: map<int, Cluster>)
    requires Leads(c, rest, byId)
    ensures Leads(c, Clear(rest, known), byId)
  {
    ClearElements(rest, known);
    var kept := Clear(rest, known);
    forall i | 0 <= i < |kept|
      ensures c != kept[i] && RanksAtLeast(c, kept[i], byId)
    {
      assert kept[i] in kept;
      var j :| 0 <= j < |rest| && rest[j] == kept[i];
    }
  }

  lemma {:induction false} ClearKeepsOrder(ranked: seq<set<int>>, known: set<int>, byId: map<int, Cluster>)
    requires InRankOrder(ranked, byId)
    ensures InRankOrder(Clear(ranked, known), byId)
  {
    if ranked != [] {
      var rest := Clear(ranked[1..], known);
      forall i | 0 <= i < |ranked[1..]|
        ensures Leads(ranked[1..][i], ranked[1..][i + 1..], byId)
      {
        assert ranked[1..][i + 1..] == ranked[i + 1 + 1..] && Leads(ranked[i + 1], ranked[i + 1 + 1..], byId);
      }
      ClearKeepsOrder(ranked[1..], known, byId);
      assert Leads(ranked[0], ranked[0 + 1..], byId);
      LeadsClear(ranked[0], ranked[1..], known, byId);
      var s := Clear(ranked, known);
      forall i | 0 <= i < |s|
        ensures Leads(s[i], s[i + 1..], byId)
      {
        if ranked[0] !! known {
          assert s[1..] == rest;
          if i > 0 {
            assert s[i + 1..] == rest[i..] && Leads(rest[i - 1], rest[i - 1 + 1..], byId);
          }
        } else {
          assert s == rest;
        }
      }
    }
  }

  lemma RankingInOrder(ranked: seq<set<int>>, chains: set<set<int>>, byId: map<int, Cluster>)
    ensures IsRanking(ranked, chains, byId) <==>
            InRankOrder(ranked, byId) && forall c :: c in ranked <==> c in chains
  {
    if InRankOrder(ranked, byId) {
      forall i, j | 0 <= i < j < |ranked|
        ensures ranked[i] != ranked[j] && RanksAtLeast(ranked[i], ranked[j], byId)
      {
        assert Leads(ranked[i], ranked[i + 1..], byId) && ranked[i + 1..][j - i - 1] == ranked[j];
      }
    }
  }

  /** The order assumed for the second run is a valid ranking of the chains it loads. */
  lemma ClearedRankingIsValid(x1: Cycle, t1: Table, x2: Cycle, t2: Table)
    requires ValidInputs(x1, t1) && SameInputs(x1, x2, t2)
    requires KnownIncoherent(t1) <= KnownIncoherent(t2)
    ensures IsRanking(x2.ranked, DistinctChains(x2, t2), x2.byId)
  {
    ClearElements(x1.ranked, KnownIncoherent(t2));
    RankingInOrder(x1.ranked, DistinctChains(x1, t1), x1.byId);
    ClearKeepsOrder(x1.ranked, KnownIncoherent(t2), x1.byId);
    RankingInOrder(x2.ranked, DistinctChains(x2, t2), x2.byId);
    forall c
      ensures c in x2.ranked <==> c in DistinctChains(x2, t2)
    {
      assert c in x2.ranked <==> c in DistinctChains(x1, t1) && c !! KnownIncoherent(t2);
    }
  }

  /** The second run's inputs are those a second run gets: the cycle rejects nothing back, so what
      was filtered out before is filtered out again, and there is still no pick. */
  lemma SecondRunIsValid(x1: Cycle, t1: Table, log1: seq<Attempt>, x2: Cycle, t2: Table)
    requires Healthy(t1) && Selection(x1, t1, [], log1) && t2 == EndOfCycle(x1, t1, log1)
    requires SameInputs(x1, x2, t2)
    ensures KnownIncoherent(t1) <= KnownIncoherent(t2)
    ensures ValidInputs(x2, t2) <==> x2.picked == []
  {
    RejectedStayKnown(x1, t1, log1, t2);
    ClearedRankingIsValid(x1, t1, x2, t2);
    NoPicksAreLeft(x1, t1, log1);
    HasMember(x2.picked);
  }

  lemma RejectedStayKnown(x: Cycle, t1: Table, log: seq<Attempt>, t2: Table)
    requires Healthy(t1) && Selection(x, t1, [], log) && t2 == EndOfCycle(x, t1, log)
    ensures KnownIncoherent(t1) <= KnownIncoherent(t2)
  {
    CycleWithoutPicks(x, t1, [], log);
    assert [] + log == log;
    forall i | i in KnownIncoherent(t1)
      ensures i in KnownIncoherent(t2)
    {
      var r :| r in t1 && t1[r].coherent == Some(false) && i in t1[r].clusterIds;
      KnownContains(t2, r);
    }
  }

  /** The re-run also leaves the flags right, even as deployed: it moves no row, so afterwards
      the rows in top are exactly the filled ones, whatever the first run left. */
  lemma RerunSettlesTheFlags(x2: Cycle, seen: Seen, t2: Table, flog2: seq<Attempt>)
    requires Anchored(x2, seen, t2)
    requires Selection(x2, t2, [], flog2)
    requires forall i :: 0 <= i < |flog2| ==> flog2[i].llm.None?
    ensures TopIsExactly(EndOfCycle(x2, t2, flog2), Filled(flog2))
  {
    assert [] + flog2 == flog2;
    UnansweredLogWritesNothing(x2, t2, flog2);
    EveryAttemptedAnchorHasARow(x2, seen, t2, [], flog2);
    if x2.autoflush {
      TopIsExactlyTheFilled(x2, seen, t2, [], flog2);
    } else {
      TopIsTheFilledExactlyWhen(x2, t2, [], flog2);
    }
  }

  lemma CycleKeepsAnchored(x: Cycle, seen: Seen, stored: Table, elog: seq<Attempt>, flog: seq<Attempt>)
    requires Anchored(x, seen, stored) && Selection(x, stored, elog, flog)
    ensures Anchored(x, seen, EndOfCycle(x, stored, elog + flog))
  {
    AnchorsUniqueAtTheEnd(x, stored, elog, flog);
    CycleKeepsLatest(x, seen, stored, elog, flog);
  }

  /** Both together: run again on the table it left, a full cycle settles the top view on what it
      filled the first time. */
  lemma RerunShowsTheFilled(x1: Cycle, seen: Seen, t1: Table, log1: seq<Attempt>, x2: Cycle, t2: Table,
                            log2: seq<Attempt>)
    requires Anchored(x1, seen, t1) && NoPicks(t1)
    requires Selection(x1, t1, [], log1) && t2 == EndOfCycle(x1, t1, log1)
    requires forall a :: a in log1 ==> a.llm != Some(Failed)
    requires FillCount(log1) >= x1.slots
    requires SameInputs(x1, x2, t2) && Selection(x2, t2, [], log2)
    ensures RepeatsForFree(log1, log2)
    ensures TopIsExactly(EndOfCycle(x2, t2, log2), Filled(log1))
  {
    assert [] + log1 == log1;
    ScansOfTheRuns(x1, seen, t1, log1, x2, t2, log2);
    CycleKeepsAnchored(x1, seen, t1, [], log1);
    RerunSettlesTheFlags(x2, seen, t2, log2);
  }

  /** And so it does on the table that any history has left, whichever way lookups read. */
  lemma RerunAfterAHistory(tables: seq<Table>, steps: seq<Step>, seen: Seen, x1: Cycle, log1: seq<Attempt>,
                           x2: Cycle, t2: Table, log2: seq<Attempt>)
    requires History(tables, steps) && AllFrom(steps, seen) && Healthy(tables[0]) && LatestAnchored(seen, tables[0])
    requires Loads(x1, seen) && ChainsLoaded(x1) && NoTiedLatest(x1)
    requires Selection(x1, tables[|steps|], [], log1) && t2 == EndOfCycle(x1, tables[|steps|], log1)
    requires forall a :: a in log1 ==> a.llm != Some(Failed)
    requires FillCount(log1) >= x1.slots
    requires SameInputs(x1, x2, t2) && Selection(x2, t2, [], log2)
    ensures RepeatsForFree(log1, log2)
    ensures TopIsExactly(EndOfCycle(x2, t2, log2), Filled(log1))
  {
    HistoryStaysHealthy(tables, steps, |steps|);
    HistoryKeepsLatest(tables, steps, seen, |steps|);
    RerunShowsTheFilled(x1, seen, tables[|steps|], log1, x2, t2, log2);
  }
}
