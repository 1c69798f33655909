/** Properties of whole histories of cycles: a rejected story stays rejected, anchors stay unique
    and at the latest member, and the top is what was filled. */
module TimelineHistory {
  import opened Basics
  import opened TimelineSpec
  import opened TimelineProofs
  import opened TimelineLatest
  import opened TimelineTop

  ghost predicate NoPicks(t: Table) {
    forall r :: r in t ==> !t[r].editorial
  }

  /** A row judged incoherent is anchored inside the chain that was judged. */
  ghost predicate RejectionsAnchored(t: Table) {
    forall r :: r in t && t[r].coherent == Some(false) ==> t[r].anchor in t[r].clusterIds
  }

  // ---- A rejected story stays rejected ----

  ghost predicate Spares(log: seq<Attempt>, ids: set<int>) {
    forall a :: a in log ==> a.chain !! ids
  }

  /** A row stored as rejected is not touched by attempts that avoid its members. */
  lemma {:induction false} RejectedRowStays(x: Cycle, stored: Table, used: set<int>, live: Table, log: seq<Attempt>,
                                            r: nat)
    requires LegalLog(x, stored, used, live, log)
    requires r in stored && r in live && live[r] == stored[r]
    requires stored[r].anchor in stored[r].clusterIds
    requires Spares(log, stored[r].clusterIds)
    ensures r in ApplyAll(x, live, log) && ApplyAll(x, live, log)[r] == stored[r]
    decreases |log|
  {
    if log != [] {
      assert log[0].chain !! stored[r].clusterIds;
      assert Spares(log[1..], stored[r].clusterIds);
      RejectedRowStays(x, stored, used + log[0].chain, Apply(x, live, log[0]), log[1..], r);
    }
  }

  lemma KnownContains(t: Table, r: nat)
    requires r in t
    ensures t[r].coherent == Some(false) ==> t[r].clusterIds <= KnownIncoherent(t)
  {
    forall i | t[r].coherent == Some(false) && i in t[r].clusterIds
      ensures i in KnownIncoherent(t)
    {
    }
  }

  /** New verdicts keep the anchor inside the judged chain. */
  lemma {:induction false} RejectionsStayAnchored(x: Cycle, stored: Table, used: set<int>, live: Table,
                                                  log: seq<Attempt>)
    requires UniqueAnchors(stored) && UniqueAnchors(live) && Drift(stored, live, used)
    requires LegalLog(x, stored, used, live, log)
    requires RejectionsAnchored(stored) && RejectionsAnchored(live)
    requires Spares(log, KnownIncoherent(stored))
    ensures RejectionsAnchored(ApplyAll(x, live, log))
    decreases |log|
  {
    if log != [] {
      var a := log[0];
      var live' := Apply(x, live, a);
      AttemptKeepsDrift(x, stored, used, live, a);
      assert Spares(log[1..], KnownIncoherent(stored));
      if a.anchor.Some? && a.llm.Some? {
        AttemptTargetIsFree(x, stored, used, live, a);
        assert a.chain !! KnownIncoherent(stored);
        if a.target in live {
          ReadingsAgree(x, stored, live, used, a.chain);
          assert a.target in Matches(stored, a.chain);
          KnownContains(stored, a.target);
          assert live[a.target].coherent != Some(false);
        }
      }
      RejectionsStayAnchored(x, stored, used + a.chain, live', log[1..]);
    }
  }

  lemma HasMember(s: seq<nat>)
    ensures s != [] ==> exists r :: r in s
  {
    assert s != [] ==> s[0] in s;
  }

  lemma FallbackSparesRejected(x: Cycle, stored: Table, elog: seq<Attempt>, flog: seq<Attempt>)
    requires Selection(x, stored, elog, flog) && NoPicks(stored)
    ensures elog == []
    ensures Spares(flog, KnownIncoherent(stored))
    ensures forall a :: a in flog ==> !a.editorial && |a.chain| > 1
  {
    HasMember(x.picked);
    FallbackIsLegal(x, stored, x.ranked, Used(elog), x.slots - |elog|, 0, ApplyAll(x, stored, elog), flog);
    forall a | a in flog
      ensures a.chain !! KnownIncoherent(stored) && |a.chain| > 1
    {
      assert a.chain in DistinctChains(x, stored);
    }
  }

  lemma {:induction false} NoPicksAppear(x: Cycle, live: Table, log: seq<Attempt>)
    requires NoPicks(live) && forall a :: a in log ==> !a.editorial
    ensures NoPicks(ApplyAll(x, live, log))
    decreases |log|
  {
    if log != [] {
      NoPicksAppear(x, Apply(x, live, log[0]), log[1..]);
    }
  }

  ghost predicate Healthy(t: Table) {
    UniqueAnchors(t) && NoPicks(t) && RejectionsAnchored(t)
  }

  /** One cycle without editorial picks. */
  lemma CycleWithoutPicks(x: Cycle, stored: Table, elog: seq<Attempt>, flog: seq<Attempt>)
    requires Selection(x, stored, elog, flog) && Healthy(stored)
    ensures Healthy(EndOfCycle(x, stored, elog + flog))
    ensures Spares(elog + flog, KnownIncoherent(stored))
    ensures forall r :: r in stored && stored[r].coherent == Some(false) ==>
              r in EndOfCycle(x, stored, elog + flog)
              && SameStory(EndOfCycle(x, stored, elog + flog)[r], stored[r])
  {
    var log := elog + flog;
    FallbackSparesRejected(x, stored, elog, flog);
    assert log == flog;
    SelectionIsLegal(x, stored, elog, flog);
    LogKeepsDrift(x, stored, {}, stored, log);
    RejectionsStayAnchored(x, stored, {}, stored, log);
    NoPicksAppear(x, stored, log);
    FlagsOnly(x, stored, log);
    forall r | r in stored && stored[r].coherent == Some(false)
      ensures r in ApplyAll(x, stored, log) && ApplyAll(x, stored, log)[r] == stored[r]
    {
      KnownContains(stored, r);
      assert Spares(log, stored[r].clusterIds);
      RejectedRowStays(x, stored, {}, stored, log, r);
    }
  }

  datatype Step = Step(x: Cycle, elog: seq<Attempt>, flog: seq<Attempt>)

  /** A history: each cycle starts from the table the previous one committed. The clusters, the
      chains and the narrative service's answers may change freely between cycles. */
  ghost predicate History(tables: seq<Table>, steps: seq<Step>) {
    && |tables| == |steps| + 1
    && forall k :: 0 <= k < |steps| ==> StepOf(tables[k], steps[k], tables[k + 1])
  }

  ghost predicate StepOf(before: Table, s: Step, after: Table) {
    Selection(s.x, before, s.elog, s.flog) && after == EndOfCycle(s.x, before, s.elog + s.flog)
  }

  lemma {:induction false} HistoryStaysHealthy(tables: seq<Table>, steps: seq<Step>, k: nat)
    requires History(tables, steps) && Healthy(tables[0]) && k <= |steps|
    ensures Healthy(tables[k])
  {
    if k > 0 {
      HistoryStaysHealthy(tables, steps, k - 1);
      assert StepOf(tables[k - 1], steps[k - 1], tables[k - 1 + 1]);
      CycleWithoutPicks(steps[k - 1].x, tables[k - 1], steps[k - 1].elog, steps[k - 1].flog);
    }
  }

  lemma RejectedOverOneCycle(tables: seq<Table>, steps: seq<Step>, k: nat, r: nat)
    requires History(tables, steps) && Healthy(tables[0])
    requires k < |steps| && r in tables[k] && tables[k][r].coherent == Some(false)
    ensures r in tables[k + 1] && SameStory(tables[k + 1][r], tables[k][r])
    ensures Spares(steps[k].elog + steps[k].flog, tables[k][r].clusterIds)
  {
    HistoryStaysHealthy(tables, steps, k);
    assert StepOf(tables[k], steps[k], tables[k + 1]);
    CycleWithoutPicks(steps[k].x, tables[k], steps[k].elog, steps[k].flog);
    KnownContains(tables[k], r);
  }

  /** Incoherence is permanent without editors: once a row is judged incoherent, no later
      cycle rewrites or re-points it, and no later attempt contains one of its members. */
  lemma {:induction false} IncoherenceIsPermanent(tables: seq<Table>, steps: seq<Step>, i: nat, j: nat, r: nat)
    requires History(tables, steps) && Healthy(tables[0])
    requires i <= j <= |steps|
    requires r in tables[i] && tables[i][r].coherent == Some(false)
    ensures r in tables[j] && SameStory(tables[j][r], tables[i][r])
    ensures j < |steps| ==> Spares(steps[j].elog + steps[j].flog, tables[i][r].clusterIds)
    decreases j
  {
    if j > i {
      IncoherenceIsPermanent(tables, steps, i, j - 1, r);
      RejectedOverOneCycle(tables, steps, j - 1, r);
    }
    if j < |steps| {
      RejectedOverOneCycle(tables, steps, j, r);
    }
  }

  /** Unique anchors and "in top means not dropped" survive every history, picks or not. */
  lemma {:induction false} HistoryInvariants(tables: seq<Table>, steps: seq<Step>, k: nat)
    requires History(tables, steps) && k <= |steps|
    requires UniqueAnchors(tables[0]) && TopIsNotDropped(tables[0])
    ensures UniqueAnchors(tables[k]) && TopIsNotDropped(tables[k])
  {
    if k > 0 {
      var s, before := steps[k - 1], tables[k - 1];
      HistoryInvariants(tables, steps, k - 1);
      assert StepOf(before, s, tables[k - 1 + 1]);
      DroppedMarksTheTransition(s.x, before, s.elog, s.flog);
      AnchorsUniqueAtTheEnd(s.x, before, s.elog, s.flog);
    }
  }

  /** Cycles whose chains are built from loaded clusters, each first seen at its one time. */
  ghost predicate AllFrom(steps: seq<Step>, seen: Seen) {
    forall k :: 0 <= k < |steps| ==> Loads(steps[k].x, seen) && ChainsLoaded(steps[k].x)
  }

  /** Anchors at the latest member survive every history, picks and failed generations
      included: it holds of every table that grew from an empty one. */
  lemma {:induction false} HistoryKeepsLatest(tables: seq<Table>, steps: seq<Step>, seen: Seen, k: nat)
    requires History(tables, steps) && k <= |steps| && AllFrom(steps, seen)
    requires UniqueAnchors(tables[0]) && LatestAnchored(seen, tables[0])
    ensures UniqueAnchors(tables[k]) && LatestAnchored(seen, tables[k])
  {
    if k > 0 {
      var s, before := steps[k - 1], tables[k - 1];
      HistoryKeepsLatest(tables, steps, seen, k - 1);
      assert StepOf(before, s, tables[k - 1 + 1]);
      AnchorsUniqueAtTheEnd(s.x, before, s.elog, s.flog);
      CycleKeepsLatest(s.x, seen, before, s.elog, s.flog);
    }
  }

  /** The flag theorem over all runs: with lookups that see pending writes, after each cycle of a
      history the rows in top are exactly the filled ones; under either reading every anchor
      attempted in it has a row. */
  lemma TopOverHistories(tables: seq<Table>, steps: seq<Step>, seen: Seen, k: nat)
    requires History(tables, steps) && k < |steps| && AllFrom(steps, seen)
    requires UniqueAnchors(tables[0]) && LatestAnchored(seen, tables[0])
    requires NoTiedLatest(steps[k].x)
    ensures steps[k].x.autoflush ==> TopIsExactly(tables[k + 1], Filled(steps[k].elog + steps[k].flog))
    ensures forall i :: i in Attempted(steps[k].elog + steps[k].flog) ==> HasRowAt(tables[k + 1], i)
  {
    var s, before := steps[k], tables[k];
    HistoryKeepsLatest(tables, steps, seen, k);
    assert StepOf(before, s, tables[k + 1]);
    assert Loads(s.x, seen) && ChainsLoaded(s.x);
    EveryAttemptedAnchorHasARow(s.x, seen, before, s.elog, s.flog);
    if s.x.autoflush {
      TopIsExactlyTheFilled(s.x, seen, before, s.elog, s.flog);
    }
  }
}
