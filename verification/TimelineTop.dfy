/** What the top flags and the dropped timestamps say after a cycle. */
module TimelineTop {
  import opened Basics
  import opened TimelineSpec
  import opened TimelineProofs
  import opened TimelineSlots
  import opened TimelineLatest

  /** Equal but for the top flags. */
  predicate SameStory(a: Row, b: Row) {
    && a.anchor == b.anchor && a.editorial == b.editorial && a.clusterIds == b.clusterIds
    && a.coherent == b.coherent && a.generatedAt == b.generatedAt && a.pickedAt == b.pickedAt
  }

  lemma FlagsOnly(x: Cycle, stored: Table, log: seq<Attempt>)
    ensures EndOfCycle(x, stored, log).Keys == ApplyAll(x, stored, log).Keys
    ensures forall r :: r in ApplyAll(x, stored, log) ==>
              SameStory(EndOfCycle(x, stored, log)[r], ApplyAll(x, stored, log)[r])
  {
  }

  // ---- Top flags ----

  lemma {:induction false} AttemptsLeaveFlags(x: Cycle, live: Table, log: seq<Attempt>)
    ensures live.Keys <= ApplyAll(x, live, log).Keys
    ensures forall r :: r in live ==>
              && ApplyAll(x, live, log)[r].inTop == live[r].inTop
              && ApplyAll(x, live, log)[r].droppedAt == live[r].droppedAt
    ensures forall r :: r in ApplyAll(x, live, log) && r !in live ==>
              ApplyAll(x, live, log)[r].inTop && ApplyAll(x, live, log)[r].droppedAt == None
    decreases |log|
  {
    if log != [] {
      AttemptsLeaveFlags(x, Apply(x, live, log[0]), log[1..]);
    }
  }

  /** A row whose anchor lies in a chain already used is not written again in the cycle. */
  lemma {:induction false} OwnedRowStays(x: Cycle, stored: Table, used: set<int>, live: Table, log: seq<Attempt>,
                                         r: nat)
    requires UniqueAnchors(stored) && UniqueAnchors(live) && Drift(stored, live, used)
    requires LegalLog(x, stored, used, live, log)
    requires r in live && live[r].anchor in used
    ensures r in ApplyAll(x, live, log) && ApplyAll(x, live, log)[r] == live[r]
    decreases |log|
  {
    if log != [] {
      AttemptKeepsDrift(x, stored, used, live, log[0]);
      ReadingsAgree(x, stored, live, used, log[0].chain);
      OwnedRowStays(x, stored, used + log[0].chain, Apply(x, live, log[0]), log[1..], r);
    }
  }

  /** A row stored at an attempted anchor is the row of that attempt, and it stays there. */
  lemma {:induction false} AttemptedAnchorIsKept(x: Cycle, stored: Table, used: set<int>, live: Table,
                                                 log: seq<Attempt>, r: nat)
    requires UniqueAnchors(stored) && UniqueAnchors(live) && Drift(stored, live, used)
    requires LegalLog(x, stored, used, live, log)
    requires r in stored && stored[r].anchor in Attempted(log)
    ensures r in ApplyAll(x, live, log) && ApplyAll(x, live, log)[r].anchor == stored[r].anchor
    decreases |log|
  {
    UsedCons(log);
    AttemptKeepsDrift(x, stored, used, live, log[0]);
    if log[0].anchor == Some(stored[r].anchor) {
      AttemptTargetIsFree(x, stored, used, live, log[0]);
      ReadingsAgree(x, stored, live, used, log[0].chain);
      assert r in Matches(stored, log[0].chain);
      OwnedRowStays(x, stored, used + log[0].chain, Apply(x, live, log[0]), log[1..], r);
    } else {
      AttemptedAnchorIsKept(x, stored, used + log[0].chain, Apply(x, live, log[0]), log[1..], r);
    }
  }

  /** What a chain's attempt left behind is not disturbed by later attempts of the cycle. */
  lemma OwnedChainStays(x: Cycle, stored: Table, used: set<int>, live: Table, log: seq<Attempt>, chain: set<int>)
    requires UniqueAnchors(stored) && UniqueAnchors(live) && Drift(stored, live, used)
    requires LegalLog(x, stored, used, live, log)
    requires chain <= used
    ensures Matches(ApplyAll(x, live, log), chain) == Matches(live, chain)
    ensures forall r :: r in Matches(live, chain) ==> ApplyAll(x, live, log)[r] == live[r]
  {
    var f := ApplyAll(x, live, log);
    FilledAnchorsAreDistinct(x, stored, used, live, log);
    AttemptsLeaveFlags(x, live, log);
    forall r | r in Matches(live, chain)
      ensures r in f && f[r] == live[r]
    {
      OwnedRowStays(x, stored, used, live, log, r);
    }
    forall r | r in Matches(f, chain)
      ensures r in Matches(live, chain)
    {
      if r in live {
        AnchorsComeFromAttempts(x, live, log, r);
      } else {
        NewRowsAreAttempted(x, live, log, r);
      }
    }
  }

  ghost predicate TopIsFilled(t: Table, filled: set<int>) {
    forall r :: r in t ==> (t[r].inTop <==> t[r].anchor in filled)
  }

  /** The rows in top are, by their anchors, exactly the filled ones. */
  ghost predicate TopIsExactly(t: Table, filled: set<int>) {
    (set r | r in t && t[r].inTop :: t[r].anchor) == filled
  }

  ghost predicate HasRowAt(t: Table, i: int) {
    exists r :: r in t && t[r].anchor == i
  }

  /** That is two things: every row's flag is right, and every filled anchor has a row. */
  lemma ExactlyIsFlagsAndRows(t: Table, filled: set<int>)
    requires UniqueAnchors(t)
    ensures TopIsExactly(t, filled) <==> TopIsFilled(t, filled) && forall i :: i in filled ==> HasRowAt(t, i)
  {
    var top := set r | r in t && t[r].inTop :: t[r].anchor;
    if TopIsExactly(t, filled) {
      forall r | r in t
        ensures t[r].inTop <==> t[r].anchor in filled
      {
        assert t[r].inTop ==> t[r].anchor in top;
        if t[r].anchor in top {
          var q :| q in t && t[q].inTop && t[q].anchor == t[r].anchor;
          assert q == r;
        }
      }
      forall i | i in filled
        ensures HasRowAt(t, i)
      {
        assert i in top;
      }
    }
    if TopIsFilled(t, filled) && forall i :: i in filled ==> HasRowAt(t, i) {
      forall i
        ensures i in top <==> i in filled
      {
        if i in filled {
          assert HasRowAt(t, i);
          var r :| r in t && t[r].anchor == i;
        }
      }
    }
  }

  /** An attempt that keeps the narrative finds its row at the chain's present anchor. */
  ghost predicate KeepsAtItsAnchor(stored: Table, a: Attempt) {
    a.anchor.Some? && a.llm.None? ==> a.target in stored && stored[a.target].anchor == a.anchor.value
  }

  ghost predicate FillsAtTheirAnchors(stored: Table, log: seq<Attempt>) {
    forall a :: a in log && Fills(a) ==> KeepsAtItsAnchor(stored, a)
  }

  /** An attempted anchor has a row afterwards exactly when the narrative was asked for, even in
      vain, or the row that was kept stands there. */
  lemma {:induction false} AttemptedHasRowExactlyWhen(x: Cycle, stored: Table, used: set<int>, live: Table,
                                                      log: seq<Attempt>, k: nat)
    requires UniqueAnchors(stored) && UniqueAnchors(live) && Drift(stored, live, used)
    requires LegalLog(x, stored, used, live, log) && k < |log| && log[k].anchor.Some?
    ensures HasRowAt(ApplyAll(x, live, log), log[k].anchor.value) <==> KeepsAtItsAnchor(stored, log[k])
    decreases k
  {
    var a, live' := log[0], Apply(x, live, log[0]);
    AttemptKeepsDrift(x, stored, used, live, a);
    if k > 0 {
      AttemptedHasRowExactlyWhen(x, stored, used + a.chain, live', log[1..], k - 1);
    } else {
      OwnedChainStays(x, stored, used + a.chain, live', log[1..], a.chain);
      RowAfterAttempt(x, stored, used, live, a);
      SameRowAt(live', ApplyAll(x, live, log), a.chain, a.anchor.value);
    }
  }

  lemma RowAfterAttempt(x: Cycle, stored: Table, used: set<int>, live: Table, a: Attempt)
    requires UniqueAnchors(stored) && UniqueAnchors(live) && Drift(stored, live, used)
    requires a.chain !! used && Legal(x, stored, live, a) && a.anchor.Some?
    ensures HasRowAt(Apply(x, live, a), a.anchor.value) <==> KeepsAtItsAnchor(stored, a)
  {
    AttemptTargetIsFree(x, stored, used, live, a);
    if a.llm.Some? {
      assert Apply(x, live, a)[a.target].anchor == a.anchor.value;
    } else if KeepsAtItsAnchor(stored, a) {
      assert live[a.target].anchor == a.anchor.value;
    }
  }

  lemma SameRowAt(t: Table, t': Table, chain: set<int>, i: int)
    requires i in chain && Matches(t', chain) == Matches(t, chain)
    requires forall r :: r in Matches(t, chain) ==> t'[r] == t[r]
    ensures HasRowAt(t', i) <==> HasRowAt(t, i)
  {
    if r :| r in t && t[r].anchor == i {
      assert r in Matches(t, chain) && r in Matches(t', chain);
    }
    if r :| r in t' && t'[r].anchor == i {
      assert r in Matches(t', chain) && r in Matches(t, chain);
    }
  }

  /** Every filled anchor has a row exactly when no filling attempt kept a row elsewhere. */
  lemma FilledHaveRowsExactlyWhen(x: Cycle, stored: Table, log: seq<Attempt>)
    requires UniqueAnchors(stored) && LegalLog(x, stored, {}, stored, log)
    ensures (forall i :: i in Filled(log) ==> HasRowAt(EndOfCycle(x, stored, log), i))
            <==> FillsAtTheirAnchors(stored, log)
  {
    var live, end := ApplyAll(x, stored, log), EndOfCycle(x, stored, log);
    FlagsOnly(x, stored, log);
    forall a | a in log && Fills(a)
      ensures HasRowAt(end, a.anchor.value) <==> KeepsAtItsAnchor(stored, a)
    {
      var k :| 0 <= k < |log| && log[k] == a;
      AttemptedHasRowExactlyWhen(x, stored, {}, stored, log, k);
      SameAnchorsSameRows(live, end, a.anchor.value);
    }
    if forall i :: i in Filled(log) ==> HasRowAt(end, i) {
      forall a | a in log && Fills(a)
        ensures KeepsAtItsAnchor(stored, a)
      {
        assert a.anchor.value in Filled(log);
      }
    }
  }

  lemma SameAnchorsSameRows(t: Table, t': Table, i: int)
    requires t'.Keys == t.Keys && forall r :: r in t ==> t'[r].anchor == t[r].anchor
    ensures HasRowAt(t', i) <==> HasRowAt(t, i)
  {
    if r :| r in t && t[r].anchor == i {
      assert t'[r].anchor == i;
    }
  }

  /** With lookups that see pending writes, every row's flag is right after every cycle. */
  lemma FlagsAreRight(x: Cycle, stored: Table, log: seq<Attempt>)
    requires x.autoflush
    ensures TopIsFilled(EndOfCycle(x, stored, log), Filled(log))
  {
    assert Filled(log) <= Attempted(log);
  }

  lemma AnchorsUniqueAtTheEnd(x: Cycle, stored: Table, elog: seq<Attempt>, flog: seq<Attempt>)
    requires UniqueAnchors(stored) && Selection(x, stored, elog, flog)
    ensures UniqueAnchors(EndOfCycle(x, stored, elog + flog))
  {
    SelectionIsLegal(x, stored, elog, flog);
    LogKeepsDrift(x, stored, {}, stored, elog + flog);
    FlagsOnly(x, stored, elog + flog);
  }

  /** With lookups that see pending writes, after every cycle the rows in top are exactly the
      filled ones if and only if no filling attempt kept a row that stands elsewhere. */
  lemma TopIsExactlyWhen(x: Cycle, stored: Table, elog: seq<Attempt>, flog: seq<Attempt>)
    requires x.autoflush && UniqueAnchors(stored)
    requires Selection(x, stored, elog, flog)
    ensures TopIsExactly(EndOfCycle(x, stored, elog + flog), Filled(elog + flog))
            <==> FillsAtTheirAnchors(stored, elog + flog)
  {
    SelectionIsLegal(x, stored, elog, flog);
    AnchorsUniqueAtTheEnd(x, stored, elog, flog);
    FlagsAreRight(x, stored, elog + flog);
    FilledHaveRowsExactlyWhen(x, stored, elog + flog);
    ExactlyIsFlagsAndRows(EndOfCycle(x, stored, elog + flog), Filled(elog + flog));
  }

  /** On a table whose rows are anchored at their latest members, every attempt, under either
      reading, keeps its narrative only at its anchor. */
  lemma {:induction false} LatestKeepAtTheirAnchors(x: Cycle, seen: Seen, stored: Table, used: set<int>, live: Table,
                                                    log: seq<Attempt>)
    requires Loads(x, seen) && AllLoaded(x, log) && LatestAnchored(seen, live) && AllUntied(x, log)
    requires UniqueAnchors(stored) && UniqueAnchors(live) && Drift(stored, live, used)
    requires LegalLog(x, stored, used, live, log)
    ensures forall a :: a in log ==> KeepsAtItsAnchor(stored, a)
    decreases |log|
  {
    if log != [] {
      var a := log[0];
      assert AllLoaded(x, log[1..]) && AllUntied(x, log[1..]) && a in log;
      AttemptKeepsLatest(x, seen, stored, used, live, a);
      AttemptKeepsDrift(x, stored, used, live, a);
      LatestKeepAtTheirAnchors(x, seen, stored, used + a.chain, Apply(x, live, a), log[1..]);
      if a.anchor.Some? {
        AttemptStandsAtItsAnchor(x, seen, stored, used, live, a);
        AttemptTargetIsFree(x, stored, used, live, a);
      }
      assert forall b :: b in log ==> b == a || b in log[1..];
    }
  }

  /** A table that a history of cycles can leave, as far as anchors go. */
  ghost predicate Anchored(x: Cycle, seen: Seen, stored: Table) {
    && UniqueAnchors(stored) && LatestAnchored(seen, stored)
    && Loads(x, seen) && ChainsLoaded(x) && NoTiedLatest(x)
  }

  /** Under either reading every attempted anchor then has a row when the cycle is over. */
  lemma EveryAttemptedAnchorHasARow(x: Cycle, seen: Seen, stored: Table, elog: seq<Attempt>, flog: seq<Attempt>)
    requires Anchored(x, seen, stored) && Selection(x, stored, elog, flog)
    ensures forall i :: i in Attempted(elog + flog) ==> HasRowAt(EndOfCycle(x, stored, elog + flog), i)
    ensures FillsAtTheirAnchors(stored, elog + flog)
  {
    var log := elog + flog;
    SelectionIsLegal(x, stored, elog, flog);
    SelectionLoaded(x, stored, elog, flog);
    LatestKeepAtTheirAnchors(x, seen, stored, {}, stored, log);
    FlagsOnly(x, stored, log);
    forall i | i in Attempted(log)
      ensures HasRowAt(EndOfCycle(x, stored, log), i)
    {
      var a :| a in log && a.anchor == Some(i);
      var k :| 0 <= k < |log| && log[k] == a;
      AttemptedHasRowExactlyWhen(x, stored, {}, stored, log, k);
      SameAnchorsSameRows(ApplyAll(x, stored, log), EndOfCycle(x, stored, log), i);
    }
  }

  /** So with lookups that see pending writes the rows in top are exactly the filled ones. */
  lemma TopIsExactlyTheFilled(x: Cycle, seen: Seen, stored: Table, elog: seq<Attempt>, flog: seq<Attempt>)
    requires x.autoflush && Anchored(x, seen, stored)
    requires Selection(x, stored, elog, flog)
    ensures TopIsExactly(EndOfCycle(x, stored, elog + flog), Filled(elog + flog))
  {
    EveryAttemptedAnchorHasARow(x, seen, stored, elog, flog);
    TopIsExactlyWhen(x, stored, elog, flog);
  }

  /** The row was created in this cycle, or re-pointed to another anchor. */
  ghost predicate MovedOrNew(stored: Table, live: Table, r: nat) {
    r in live && (r !in stored || stored[r].anchor != live[r].anchor)
  }

  /** Every row created in the cycle fills a slot, and every re-pointed row was in top before
      just when it fills one now. */
  ghost predicate MovedFlagsAgree(stored: Table, live: Table, filled: set<int>) {
    forall r :: MovedOrNew(stored, live, r) ==> ((r in stored ==> stored[r].inTop) <==> live[r].anchor in filled)
  }

  /** As deployed (lookups read the database, which still has the old anchors) the rows in top
      are exactly the filled ones if and only if no filling attempt kept a row that stands
      elsewhere and the flags that new and re-pointed rows bring along are already right. */
  lemma TopIsTheFilledExactlyWhen(x: Cycle, stored: Table, elog: seq<Attempt>, flog: seq<Attempt>)
    requires !x.autoflush && UniqueAnchors(stored)
    requires Selection(x, stored, elog, flog)
    ensures var log := elog + flog;
            TopIsExactly(EndOfCycle(x, stored, log), Filled(log))
            <==> FillsAtTheirAnchors(stored, log) && MovedFlagsAgree(stored, ApplyAll(x, stored, log), Filled(log))
  {
    var log := elog + flog;
    SelectionIsLegal(x, stored, elog, flog);
    AnchorsUniqueAtTheEnd(x, stored, elog, flog);
    FilledHaveRowsExactlyWhen(x, stored, log);
    ExactlyIsFlagsAndRows(EndOfCycle(x, stored, log), Filled(log));
    FlagsAsDeployedExactlyWhen(x, stored, log);
  }

  lemma FlagsAsDeployedExactlyWhen(x: Cycle, stored: Table, log: seq<Attempt>)
    requires !x.autoflush && UniqueAnchors(stored) && LegalLog(x, stored, {}, stored, log)
    ensures TopIsFilled(EndOfCycle(x, stored, log), Filled(log))
            <==> MovedFlagsAgree(stored, ApplyAll(x, stored, log), Filled(log))
  {
    var live, end := ApplyAll(x, stored, log), EndOfCycle(x, stored, log);
    forall r | r in live
      ensures FlagOutcome(stored, live, end, Filled(log), x.now, r)
    {
      FlagAsDeployed(x, stored, log, r);
    }
    FlagsOnly(x, stored, log);
    OutcomesDecideTop(stored, live, end, Filled(log), x.now);
  }

  /** What the deployed marking does to one row: it is set right unless it moved or is new,
      and then it keeps the flag and timestamp it had (new rows: the column default, in top). */
  ghost predicate FlagOutcome(stored: Table, live: Table, end: Table, filled: set<int>, now: int, r: nat)
    requires r in live
  {
    && r in end
    && end[r].anchor == live[r].anchor
    && if MovedOrNew(stored, live, r)
       then end[r].inTop == (if r in stored then stored[r].inTop else true) && end[r].droppedAt == live[r].droppedAt
       else end[r] == SetTop(live[r], live[r].anchor in filled, now)
  }

  lemma OutcomesDecideTop(stored: Table, live: Table, end: Table, filled: set<int>, now: int)
    requires end.Keys == live.Keys
    requires forall r :: r in live ==> FlagOutcome(stored, live, end, filled, now, r)
    ensures TopIsFilled(end, filled) <==> MovedFlagsAgree(stored, live, filled)
  {
  }

  lemma FlagAsDeployed(x: Cycle, stored: Table, log: seq<Attempt>, r: nat)
    requires !x.autoflush && UniqueAnchors(stored)
    requires LegalLog(x, stored, {}, stored, log)
    requires r in ApplyAll(x, stored, log)
    ensures FlagOutcome(stored, ApplyAll(x, stored, log), EndOfCycle(x, stored, log), Filled(log), x.now, r)
  {
    var live := ApplyAll(x, stored, log);
    AttemptsLeaveFlags(x, stored, log);
    assert Filled(log) <= Attempted(log);
    if r in stored {
      AnchorsComeFromAttempts(x, stored, log, r);
      if stored[r].anchor in Attempted(log) {
        AttemptedAnchorIsKept(x, stored, {}, stored, log, r);
      }
    } else {
      NewRowsAreAttempted(x, stored, log, r);
    }
  }

  lemma {:induction false} NewRowsAreAttempted(x: Cycle, live: Table, log: seq<Attempt>, r: nat)
    requires r !in live && r in ApplyAll(x, live, log)
    ensures ApplyAll(x, live, log)[r].anchor in Attempted(log)
    decreases |log|
  {
    UsedCons(log);
    if r !in Apply(x, live, log[0]) {
      NewRowsAreAttempted(x, Apply(x, live, log[0]), log[1..], r);
    } else {
      AnchorsComeFromAttempts(x, Apply(x, live, log[0]), log[1..], r);
    }
  }

  lemma {:induction false} AnchorsComeFromAttempts(x: Cycle, live: Table, log: seq<Attempt>, r: nat)
    requires r in live
    ensures r in ApplyAll(x, live, log)
    ensures var f := ApplyAll(x, live, log); f[r].anchor == live[r].anchor || f[r].anchor in Attempted(log)
    decreases |log|
  {
    if log != [] {
      UsedCons(log);
      AnchorsComeFromAttempts(x, Apply(x, live, log[0]), log[1..], r);
    }
  }

  /** As deployed, the equality does fail: one chain, an empty table, and a narrative that is
      judged incoherent leave a row in top although nothing was filled. */
  lemma RejectedNewRowStaysInTop(x: Cycle, a: Attempt)
    requires !x.autoflush
    requires x.byId.Keys == {1, 2} && x.byId[1].firstSeen < x.byId[2].firstSeen
    requires x.assignment == map[1 := {1, 2}, 2 := {1, 2}]
    requires x.slots == 5 && x.scanCap == None && x.picked == [] && x.ranked == [{1, 2}]
    requires a == Attempt({1, 2}, false, Some(2), None, 0, Some(Incoherent), Some(false))
    ensures Selection(x, map[], [], [a])
    ensures var end := EndOfCycle(x, map[], [] + [a]);
            0 in end && end[0].inTop && Filled([] + [a]) == {} && !TopIsExactly(end, Filled([] + [a]))
  {
    assert [] + [a] == [a] && [a][1..] == [];
    RejectedNewRowIsSelected(x, a);
    assert a in [a];
    assert Filled([a]) == {};
    assert 2 in Attempted([a]);
    var live := Apply(x, map[], a);
    assert ApplyAll(x, map[], [a]) == live by {
      assert ApplyAll(x, live, []) == live;
    }
    InTopUnfilled(EndOfCycle(x, map[], [a]), 0, {});
  }

  lemma InTopUnfilled(t: Table, r: nat, filled: set<int>)
    requires r in t && t[r].inTop && t[r].anchor !in filled
    ensures !TopIsExactly(t, filled)
  {
    assert t[r].anchor in set q | q in t && t[q].inTop :: t[q].anchor;
  }

  lemma RejectedNewRowIsSelected(x: Cycle, a: Attempt)
    requires !x.autoflush
    requires x.byId.Keys == {1, 2} && x.byId[1].firstSeen < x.byId[2].firstSeen
    requires x.assignment == map[1 := {1, 2}, 2 := {1, 2}]
    requires x.slots == 5 && x.scanCap == None && x.picked == [] && x.ranked == [{1, 2}]
    requires a == Attempt({1, 2}, false, Some(2), None, 0, Some(Incoherent), Some(false))
    ensures Selection(x, map[], [], [a])
  {
    assert [a][1..] == [] && [{1, 2}][1..] == [];
    assert Used([]) == {};
    assert |{1, 2}| == 2;
    assert DistinctChains(x, map[]) == {{1, 2}} by {
      assert KnownIncoherent(map[]) == {};
      assert x.assignment[1] in DistinctChains(x, map[]);
    }
    assert Matches(map[], {1, 2}) == {};
    assert Legal(x, map[], map[], a);
    var live := Apply(x, map[], a);
    assert FallbackLog(x, map[], [], {} + {1, 2}, 5, 1, live, []);
    assert FallbackLog(x, map[], [{1, 2}], {}, 5, 0, map[], [a]);
  }

  /** Nor does it hold, under either reading, when a narrative about clusters 1 and 2 is anchored
      at 1 and the chain's anchor is 2. The chain fills its slot as 2, where no row stands, and its
      own row is dropped from the top. If 2 was first seen later no history leaves such a table; if
      both were first seen at the same time one does, and the order of a hash set decides. */
  lemma RowKeptElsewhereLosesTheTop(x: Cycle, row: Row, a: Attempt)
    requires x.byId.Keys == {1, 2} && x.byId[1].firstSeen <= x.byId[2].firstSeen
    requires x.assignment == map[1 := {1, 2}, 2 := {1, 2}]
    requires x.slots == 5 && x.scanCap == None && x.picked == [] && x.ranked == [{1, 2}]
    requires row == Row(1, false, {1, 2}, Some(true), Some(0), 0, true, None)
    requires a == Attempt({1, 2}, false, Some(2), Some(0), 0, None, Some(true))
    ensures Selection(x, map[0 := row], [], [a]) && Filled([] + [a]) == {2}
    ensures !TopIsExactly(EndOfCycle(x, map[0 := row], [] + [a]), Filled([] + [a]))
  {
    var stored: Table := map[0 := row];
    assert [] + [a] == [a] && [a][1..] == [] && a in [a];
    RowKeptElsewhereIsSelected(x, stored, a);
    SelectionIsLegal(x, stored, [], [a]);
    assert Filled([a]) == {2};
    FilledHaveRowsExactlyWhen(x, stored, [a]);
    AnchorsUniqueAtTheEnd(x, stored, [], [a]);
    ExactlyIsFlagsAndRows(EndOfCycle(x, stored, [a]), {2});
    assert !KeepsAtItsAnchor(stored, a);
  }

  lemma RowKeptElsewhereIsSelected(x: Cycle, stored: Table, a: Attempt)
    requires x.byId.Keys == {1, 2} && x.byId[1].firstSeen <= x.byId[2].firstSeen
    requires x.assignment == map[1 := {1, 2}, 2 := {1, 2}]
    requires x.slots == 5 && x.scanCap == None && x.picked == [] && x.ranked == [{1, 2}]
    requires stored == map[0 := Row(1, false, {1, 2}, Some(true), Some(0), 0, true, None)]
    requires a == Attempt({1, 2}, false, Some(2), Some(0), 0, None, Some(true))
    ensures Selection(x, stored, [], [a])
  {
    assert [a][1..] == [] && [{1, 2}][1..] == [];
    assert Used([]) == {};
    assert |{1, 2}| == 2;
    assert DistinctChains(x, stored) == {{1, 2}} by {
      assert KnownIncoherent(stored) == {};
      assert x.assignment[1] in DistinctChains(x, stored);
    }
    assert Matches(stored, {1, 2}) == {0};
    assert Legal(x, stored, stored, a);
    assert FallbackLog(x, stored, [], {} + {1, 2}, 4, 1, stored, []);
    assert FallbackLog(x, stored, [{1, 2}], {}, 5, 0, stored, [a]);
  }

  // ---- The dropped timestamp ----

  ghost predicate TopIsNotDropped(t: Table) {
    forall r :: r in t && t[r].inTop ==> t[r].droppedAt == None
  }

  /** Under either reading, a row in top never carries a dropped timestamp, and over a cycle
      the timestamp of a row changes only by a stamp when it leaves the top or by clearing when
      it is in top; a row that leaves the top is always stamped. */
  lemma DroppedMarksTheTransition(x: Cycle, stored: Table, elog: seq<Attempt>, flog: seq<Attempt>)
    requires UniqueAnchors(stored) && TopIsNotDropped(stored)
    requires Selection(x, stored, elog, flog)
    ensures var end := EndOfCycle(x, stored, elog + flog);
            && TopIsNotDropped(end)
            && forall r :: r in stored ==>
                 && r in end
                 && (stored[r].inTop && !end[r].inTop ==> end[r].droppedAt == Some(x.now))
                 && (end[r].droppedAt != stored[r].droppedAt ==> stored[r].inTop != end[r].inTop)
  {
    var log := elog + flog;
    SelectionIsLegal(x, stored, elog, flog);
    AttemptsLeaveFlags(x, stored, log);
    forall r | r in ApplyAll(x, stored, log)
      ensures TimestampIsRight(stored, EndOfCycle(x, stored, log), x.now, r)
    {
      RowTimestamp(x, stored, log, r);
    }
  }

  ghost predicate TimestampIsRight(stored: Table, end: Table, now: int, r: nat) {
    && r in end
    && (end[r].inTop ==> end[r].droppedAt == None)
    && (r in stored ==>
          && (stored[r].inTop && !end[r].inTop ==> end[r].droppedAt == Some(now))
          && (end[r].droppedAt != stored[r].droppedAt ==> stored[r].inTop != end[r].inTop))
  }

  lemma RowTimestamp(x: Cycle, stored: Table, log: seq<Attempt>, r: nat)
    requires UniqueAnchors(stored) && TopIsNotDropped(stored)
    requires LegalLog(x, stored, {}, stored, log)
    requires r in ApplyAll(x, stored, log)
    ensures TimestampIsRight(stored, EndOfCycle(x, stored, log), x.now, r)
  {
    AttemptsLeaveFlags(x, stored, log);
    if x.autoflush {
      assert Filled(log) <= Attempted(log);
    } else {
      FlagAsDeployed(x, stored, log, r);
    }
  }
}
