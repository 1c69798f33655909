/** What a row picked by an editor is promised: the chain it stands for gets its attempt, whether
    or not the row has a narrative yet. */
module TimelinePicks {
  import opened Basics
  import opened TimelineSpec
  import opened TimelineProofs
  import opened TimelineDryRun

  /** The stored row stands in a chain of two or more. */
  ghost predicate InAChain(x: Cycle, stored: Table, r: nat) {
    r in stored && stored[r].anchor in x.assignment && |x.assignment[stored[r].anchor]| > 1
  }

  /** What the session holds of a picked row still names the stored row's chain, or that chain
      is in use already. */
  lemma PickNamesItsChain(x: Cycle, stored: Table, used: set<int>, live: Table, r: nat)
    requires Drift(stored, live, used) && SelfMember(x.assignment) && r in stored
    ensures var chain := PickedChain(x, live, r);
            |chain| > 1 && chain !! used ==> InAChain(x, stored, r) && chain == x.assignment[stored[r].anchor]
    ensures InAChain(x, stored, r) && x.assignment[stored[r].anchor] !! used ==>
              PickedChain(x, live, r) == x.assignment[stored[r].anchor]
  {
  }

  lemma {:induction false} PickIsReached(x: Cycle, stored: Table, picked: seq<nat>, used: set<int>, live: Table,
                                         log: seq<Attempt>, r: nat)
    requires UniqueAnchors(stored) && UniqueAnchors(live) && Drift(stored, live, used) && SelfMember(x.assignment)
    requires EditorialLog(x, stored, picked, used, live, log)
    requires r in picked && InAChain(x, stored, r)
    ensures !(x.assignment[stored[r].anchor] !! used + Used(log))
    decreases |picked|
  {
    var chain := PickedChain(x, live, picked[0]);
    PickNamesItsChain(x, stored, used, live, r);
    if |chain| <= 1 || !(chain !! used) {
      if picked[0] != r {
        PickIsReached(x, stored, picked[1..], used, live, log, r);
      }
    } else {
      UsedCons(log);
      if picked[0] != r {
        AttemptKeepsDrift(x, stored, used, live, log[0]);
        PickIsReached(x, stored, picked[1..], used + chain, Apply(x, live, log[0]), log[1..], r);
        assert used + chain + Used(log[1..]) == used + Used(log);
      } else {
        assert stored[r].anchor in used + Used(log);
      }
    }
  }

  lemma {:induction false} AttemptIsAPicks(x: Cycle, stored: Table, picked: seq<nat>, used: set<int>, live: Table,
                                           log: seq<Attempt>, k: nat)
    requires UniqueAnchors(stored) && UniqueAnchors(live) && Drift(stored, live, used) && SelfMember(x.assignment)
    requires EditorialLog(x, stored, picked, used, live, log) && k < |log|
    requires forall r :: r in picked ==> r in stored
    ensures exists r :: r in picked && InAChain(x, stored, r) && log[k].chain == x.assignment[stored[r].anchor]
    decreases |picked|
  {
    var chain := PickedChain(x, live, picked[0]);
    assert picked[0] in picked;
    PickNamesItsChain(x, stored, used, live, picked[0]);
    if |chain| <= 1 || !(chain !! used) {
      AttemptIsAPicks(x, stored, picked[1..], used, live, log, k);
    } else if k > 0 {
      AttemptKeepsDrift(x, stored, used, live, log[0]);
      AttemptIsAPicks(x, stored, picked[1..], used + chain, Apply(x, live, log[0]), log[1..], k - 1);
    }
  }

  /** No earlier pick stands in a chain that overlaps the chain of pick i. */
  ghost predicate FirstOfItsChain(x: Cycle, stored: Table, picked: seq<nat>, i: nat)
    requires i < |picked| && InAChain(x, stored, picked[i])
  {
    forall k :: 0 <= k < i && InAChain(x, stored, picked[k]) ==>
      x.assignment[stored[picked[k]].anchor] !! x.assignment[stored[picked[i]].anchor]
  }

  lemma {:induction false} FirstPickIsAttempted(x: Cycle, stored: Table, picked: seq<nat>, used: set<int>, live: Table,
                                                log: seq<Attempt>, i: nat)
    requires UniqueAnchors(stored) && UniqueAnchors(live) && Drift(stored, live, used) && SelfMember(x.assignment)
    requires EditorialLog(x, stored, picked, used, live, log)
    requires forall r :: r in picked ==> r in stored
    requires i < |picked| && InAChain(x, stored, picked[i]) && FirstOfItsChain(x, stored, picked, i)
    requires x.assignment[stored[picked[i]].anchor] !! used
    ensures exists k :: 0 <= k < |log| && log[k].chain == x.assignment[stored[picked[i]].anchor]
    decreases |picked|
  {
    var mine, chain := x.assignment[stored[picked[i]].anchor], PickedChain(x, live, picked[0]);
    assert picked[0] in picked;
    PickNamesItsChain(x, stored, used, live, picked[0]);
    if i == 0 {
      assert log[0].chain == mine;
    } else {
      assert picked[1..][i - 1] == picked[i];
      FirstAmongTheRest(x, stored, picked, i);
      if |chain| <= 1 || !(chain !! used) {
        FirstPickIsAttempted(x, stored, picked[1..], used, live, log, i - 1);
      } else {
        AttemptKeepsDrift(x, stored, used, live, log[0]);
        FirstPickIsAttempted(x, stored, picked[1..], used + chain, Apply(x, live, log[0]), log[1..], i - 1);
        var k :| 0 <= k < |log[1..]| && log[1..][k].chain == mine;
        assert log[k + 1].chain == mine;
      }
    }
  }

  lemma FirstAmongTheRest(x: Cycle, stored: Table, picked: seq<nat>, i: nat)
    requires 0 < i < |picked| && InAChain(x, stored, picked[i]) && FirstOfItsChain(x, stored, picked, i)
    ensures FirstOfItsChain(x, stored, picked[1..], i - 1)
  {
    forall k | 0 <= k < i - 1 && InAChain(x, stored, picked[1..][k])
      ensures x.assignment[stored[picked[1..][k]].anchor] !! x.assignment[stored[picked[i]].anchor]
    {
      assert picked[1..][k] == picked[k + 1];
    }
  }

  /** Every pick in a chain of two or more has that chain, or one that overlaps it, attempted. */
  lemma EveryPickIsReached(x: Cycle, stored: Table, elog: seq<Attempt>, flog: seq<Attempt>)
    requires UniqueAnchors(stored) && SelfMember(x.assignment) && Selection(x, stored, elog, flog)
    ensures forall r :: r in x.picked && stored[r].anchor in x.assignment && |x.assignment[stored[r].anchor]| > 1 ==>
              !(x.assignment[stored[r].anchor] !! Used(elog))
  {
    forall r | r in x.picked && InAChain(x, stored, r)
      ensures !(x.assignment[stored[r].anchor] !! Used(elog))
    {
      PickIsReached(x, stored, x.picked, {}, stored, elog, r);
      assert {} + Used(elog) == Used(elog);
    }
  }

  /** Every attempt before the fallback is an editorial one, of the chain of some picked row. */
  lemma EveryPickedAttemptHasAPick(x: Cycle, stored: Table, elog: seq<Attempt>, flog: seq<Attempt>)
    requires UniqueAnchors(stored) && SelfMember(x.assignment) && Selection(x, stored, elog, flog)
    ensures forall k :: 0 <= k < |elog| ==> elog[k].editorial
    ensures forall k :: 0 <= k < |elog| ==>
              exists r :: && r in x.picked && stored[r].anchor in x.assignment
                          && elog[k].chain == x.assignment[stored[r].anchor]
  {
    EditorialIsLegal(x, stored, x.picked, {}, stored, elog);
    forall k | 0 <= k < |elog|
      ensures elog[k].editorial
      ensures exists r :: r in x.picked && InAChain(x, stored, r) && elog[k].chain == x.assignment[stored[r].anchor]
    {
      assert elog[k] in elog;
      AttemptIsAPicks(x, stored, x.picked, {}, stored, elog, k);
    }
  }

  /** The first pick to stand in a chain is attempted as an editorial one with just that chain,
      and fills a slot whatever the verdict, if any cluster of the chain was loaded. */
  lemma FirstPickFillsASlot(x: Cycle, stored: Table, elog: seq<Attempt>, flog: seq<Attempt>, i: nat)
    requires UniqueAnchors(stored) && SelfMember(x.assignment) && Selection(x, stored, elog, flog)
    requires i < |x.picked| && InAChain(x, stored, x.picked[i]) && FirstOfItsChain(x, stored, x.picked, i)
    ensures var chain := x.assignment[stored[x.picked[i]].anchor];
            exists a :: a in elog && a.chain == chain && a.editorial
              && (chain * x.byId.Keys != {} ==> a.anchor.Some? && a.anchor.value in Filled(elog + flog))
  {
    var chain := x.assignment[stored[x.picked[i]].anchor];
    FirstPickIsAttempted(x, stored, x.picked, {}, stored, elog, i);
    var k :| 0 <= k < |elog| && elog[k].chain == chain;
    EditorialIsLegal(x, stored, x.picked, {}, stored, elog);
    LegalEditorialFills(x, stored, {}, stored, elog, k);
    assert elog[k] in elog && elog[k] in elog + flog;
  }

  lemma {:induction false} LegalEditorialFills(x: Cycle, stored: Table, used: set<int>, live: Table,
                                               log: seq<Attempt>, k: nat)
    requires LegalLog(x, stored, used, live, log) && k < |log| && log[k].editorial
    ensures log[k].chain * x.byId.Keys != {} ==> log[k].anchor.Some? && Fills(log[k])
    decreases |log|
  {
    if k > 0 {
      LegalEditorialFills(x, stored, used + log[0].chain, Apply(x, live, log[0]), log[1..], k - 1);
    } else {
      SomeMember(log[0].chain * x.byId.Keys);
    }
  }

  /** A row that an administrator has just picked has no narrative yet. Its chain of two is the
      one attempt of the cycle, an editorial one, and fills the slot even when it is judged
      incoherent; the row stays an editorial pick in the top view. */
  lemma NewPickFillsItsSlot(x: Cycle, stored: Table, elog: seq<Attempt>, flog: seq<Attempt>)
    requires stored == map[0 := Row(1, true, {}, None, None, 0, true, None)]
    requires x.assignment == map[1 := {1, 2}, 2 := {1, 2}] && x.byId.Keys == {1, 2} && x.picked == [0]
    requires Selection(x, stored, elog, flog)
    ensures |elog| == 1 && elog[0].chain == {1, 2} && elog[0].editorial && elog[0].llm.Some? && flog == []
    ensures elog[0].anchor.Some? && Filled(elog + flog) == {elog[0].anchor.value}
    ensures 0 in EndOfCycle(x, stored, elog + flog)
    ensures var row := EndOfCycle(x, stored, elog + flog)[0]; row.editorial && row.inTop
  {
    assert |{1, 2}| == 2;
    PickedAloneIsAttempted(x, stored, elog);
    NothingElseToScan(x, stored, elog, flog);
    FillsAlone(elog[0]);
    AppliedAlone(x, stored, elog[0]);
    assert 1 in {1, 2};
    assert elog + flog == elog == [elog[0]];
    assert 0 in Matches(stored, {1, 2});
  }

  lemma PickedAloneIsAttempted(x: Cycle, stored: Table, log: seq<Attempt>)
    requires x.picked == [0] && 0 in stored && stored[0].anchor in x.assignment
    requires |x.assignment[stored[0].anchor]| > 1
    requires EditorialLog(x, stored, x.picked, {}, stored, log)
    ensures |log| == 1 && log[0].chain == x.assignment[stored[0].anchor] && log[0].editorial
    ensures Legal(x, stored, stored, log[0])
  {
    assert x.picked[1..] == [];
  }

  lemma NothingElseToScan(x: Cycle, stored: Table, elog: seq<Attempt>, flog: seq<Attempt>)
    requires x.assignment == map[1 := {1, 2}, 2 := {1, 2}]
    requires Selection(x, stored, elog, flog) && |elog| == 1 && elog[0].chain == {1, 2}
    ensures flog == []
  {
    FallbackIsLegal(x, stored, x.ranked, Used(elog), x.slots - |elog|, 0, ApplyAll(x, stored, elog), flog);
    UsedCons(elog);
    assert forall a :: a in flog ==> a.chain == {1, 2};
  }

  lemma FillsAlone(a: Attempt)
    ensures Filled([a]) == (if Fills(a) then {a.anchor.value} else {})
    ensures Attempted([a]) == (if a.anchor.Some? then {a.anchor.value} else {})
  {
    UsedCons([a]);
    assert [a][1..] == [];
  }

  lemma AppliedAlone(x: Cycle, live: Table, a: Attempt)
    ensures ApplyAll(x, live, [a]) == Apply(x, live, a)
  {
    assert [a][1..] == [];
    assert ApplyAll(x, Apply(x, live, a), []) == Apply(x, live, a);
  }
}
