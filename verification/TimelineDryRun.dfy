/** A dry run calls the narrative service for what is new or changed but writes nothing, so its
    lookups always see the table the cycle started from. */
module TimelineDryRun {
  import opened TimelineSpec
  import opened TimelineProofs

  ghost predicate DryEditorial(x: Cycle, stored: Table, picked: seq<nat>, used: set<int>, log: seq<Attempt>) {
    if picked == [] then log == []
    else
      var chain := PickedChain(x, stored, picked[0]);
      if |chain| <= 1 || !(chain !! used) then DryEditorial(x, stored, picked[1..], used, log)
      else
        && log != [] && log[0].chain == chain && log[0].editorial
        && Legal(x, stored, stored, log[0])
        && DryEditorial(x, stored, picked[1..], used + chain, log[1..])
  }

  ghost predicate DryFallback(x: Cycle, stored: Table, ranked: seq<set<int>>, used: set<int>,
                              remaining: int, scanned: nat, log: seq<Attempt>)
  {
    if ranked == [] || remaining <= 0 || scanned >= ScanCap(x) then log == []
    else if !(ranked[0] !! used) then DryFallback(x, stored, ranked[1..], used, remaining, scanned, log)
    else
      && log != [] && log[0].chain == ranked[0] && !log[0].editorial
      && Legal(x, stored, stored, log[0])
      && DryFallback(x, stored, ranked[1..], used + ranked[0], remaining - (if Fills(log[0]) then 1 else 0),
                     scanned + 1, log[1..])
  }

  ghost predicate DrySelection(x: Cycle, stored: Table, elog: seq<Attempt>, flog: seq<Attempt>) {
    && ValidInputs(x, stored)
    && DryEditorial(x, stored, x.picked, {}, elog)
    && DryFallback(x, stored, x.ranked, Used(elog), x.slots - |elog|, 0, flog)
  }

  /** A cluster is in its own chain. */
  ghost predicate SelfMember(assignment: map<int, set<int>>) {
    forall i :: i in assignment ==> i in assignment[i]
  }

  lemma WritesDoNotMatter(x: Cycle, stored: Table, used: set<int>, live: Table, a: Attempt)
    requires Drift(stored, live, used) && a.chain !! used
    requires Legal(x, stored, live, a)
    ensures Legal(x, stored, stored, a)
  {
    ReadingsAgree(x, stored, live, used, a.chain);
  }

  lemma PickedChainUnchangedOrUsed(x: Cycle, stored: Table, used: set<int>, live: Table, r: nat)
    requires Drift(stored, live, used) && SelfMember(x.assignment) && r in stored
    ensures || PickedChain(x, live, r) == PickedChain(x, stored, r)
            || ((|PickedChain(x, live, r)| <= 1 || !(PickedChain(x, live, r) !! used))
                && (|PickedChain(x, stored, r)| <= 1 || !(PickedChain(x, stored, r) !! used)))
  {
  }

  lemma {:induction false} EditorialRunsDry(x: Cycle, stored: Table, picked: seq<nat>, used: set<int>, live: Table,
                                            log: seq<Attempt>)
    requires UniqueAnchors(stored) && UniqueAnchors(live) && Drift(stored, live, used)
    requires SelfMember(x.assignment) && forall i :: 0 <= i < |picked| ==> picked[i] in stored
    requires EditorialLog(x, stored, picked, used, live, log)
    ensures DryEditorial(x, stored, picked, used, log)
    decreases |picked|
  {
    if picked != [] {
      var chain := PickedChain(x, live, picked[0]);
      PickedChainUnchangedOrUsed(x, stored, used, live, picked[0]);
      if |chain| <= 1 || !(chain !! used) {
        EditorialRunsDry(x, stored, picked[1..], used, live, log);
      } else {
        AttemptKeepsDrift(x, stored, used, live, log[0]);
        WritesDoNotMatter(x, stored, used, live, log[0]);
        EditorialRunsDry(x, stored, picked[1..], used + chain, Apply(x, live, log[0]), log[1..]);
      }
    }
  }

  lemma {:induction false} FallbackRunsDry(x: Cycle, stored: Table, ranked: seq<set<int>>, used: set<int>,
                                           remaining: int, scanned: nat, live: Table, log: seq<Attempt>)
    requires UniqueAnchors(stored) && UniqueAnchors(live) && Drift(stored, live, used)
    requires FallbackLog(x, stored, ranked, used, remaining, scanned, live, log)
    ensures DryFallback(x, stored, ranked, used, remaining, scanned, log)
    decreases |ranked|
  {
    if ranked == [] || remaining <= 0 || scanned >= ScanCap(x) {
    } else if !(ranked[0] !! used) {
      FallbackRunsDry(x, stored, ranked[1..], used, remaining, scanned, live, log);
    } else {
      AttemptKeepsDrift(x, stored, used, live, log[0]);
      WritesDoNotMatter(x, stored, used, live, log[0]);
      FallbackRunsDry(x, stored, ranked[1..], used + ranked[0], remaining - (if Fills(log[0]) then 1 else 0),
                      scanned + 1, Apply(x, live, log[0]), log[1..]);
    }
  }

  /** A dry run predicts the real one: with the same answers from the narrative service it
      attempts the same chains with the same anchors and verdicts, though the real run's
      lookups may see its own pending writes and its editorial rows move under it. */
  lemma DryRunPredictsTheRun(x: Cycle, stored: Table, elog: seq<Attempt>, flog: seq<Attempt>)
    requires UniqueAnchors(stored) && SelfMember(x.assignment)
    requires Selection(x, stored, elog, flog)
    ensures DrySelection(x, stored, elog, flog)
  {
    assert forall i :: 0 <= i < |x.picked| ==> x.picked[i] in x.picked;
    EditorialRunsDry(x, stored, x.picked, {}, stored, elog);
    PicksKeepDrift(x, stored, elog);
    FallbackRunsDry(x, stored, x.ranked, Used(elog), x.slots - |elog|, 0, ApplyAll(x, stored, elog), flog);
  }

  // ---- The other way round ----

  /** The same attempts, but for the ids that new rows are given. */
  ghost predicate SameBesidesTarget(a: Attempt, b: Attempt) {
    && a.chain == b.chain && a.editorial == b.editorial && a.anchor == b.anchor && a.existing == b.existing
    && a.llm == b.llm && a.verdict == b.verdict && (a.existing.Some? ==> a.target == b.target)
  }

  ghost predicate Alike(a: seq<Attempt>, b: seq<Attempt>)
    decreases |a|
  {
    |a| == |b| && (a == [] || (SameBesidesTarget(a[0], b[0]) && Alike(a[1..], b[1..])))
  }

  lemma {:induction false} AlikeUsesTheSame(a: seq<Attempt>, b: seq<Attempt>)
    requires Alike(a, b)
    ensures Used(a) == Used(b)
    decreases |a|
  {
    if a != [] {
      UsedCons(a);
      UsedCons(b);
      AlikeUsesTheSame(a[1..], b[1..]);
    }
  }

  lemma FreshId(keys: set<nat>) returns (n: nat)
    ensures forall r :: r in keys ==> r < n
  {
    n := 0;
    if keys != {} {
      var r :| r in keys;
      var m := FreshId(keys - {r});
      n := if m > r then m else r + 1;
      assert forall q :: q in keys ==> q == r || q in keys - {r};
    }
  }

  lemma DryAttemptIsReal(x: Cycle, stored: Table, used: set<int>, live: Table, a: Attempt) returns (b: Attempt)
    requires Drift(stored, live, used) && a.chain !! used
    requires Legal(x, stored, stored, a)
    ensures Legal(x, stored, live, b) && SameBesidesTarget(a, b)
  {
    ReadingsAgree(x, stored, live, used, a.chain);
    b := a;
    if a.existing.None? {
      var n := FreshId(live.Keys);
      b := a.(target := n);
    }
  }

  lemma {:induction false} DryEditorialIsReal(x: Cycle, stored: Table, picked: seq<nat>, used: set<int>, live: Table,
                                              log: seq<Attempt>)
    returns (made: seq<Attempt>)
    requires UniqueAnchors(stored) && UniqueAnchors(live) && Drift(stored, live, used)
    requires SelfMember(x.assignment) && forall i :: 0 <= i < |picked| ==> picked[i] in stored
    requires DryEditorial(x, stored, picked, used, log)
    ensures EditorialLog(x, stored, picked, used, live, made) && Alike(log, made)
    decreases |picked|
  {
    made := [];
    if picked != [] {
      var chain := PickedChain(x, stored, picked[0]);
      PickedChainUnchangedOrUsed(x, stored, used, live, picked[0]);
      if |chain| <= 1 || !(chain !! used) {
        made := DryEditorialIsReal(x, stored, picked[1..], used, live, log);
      } else {
        var b := DryAttemptIsReal(x, stored, used, live, log[0]);
        AttemptKeepsDrift(x, stored, used, live, b);
        var rest := DryEditorialIsReal(x, stored, picked[1..], used + chain, Apply(x, live, b), log[1..]);
        made := [b] + rest;
      }
    }
  }

  lemma {:induction false} DryFallbackIsReal(x: Cycle, stored: Table, ranked: seq<set<int>>, used: set<int>,
                                             remaining: int, scanned: nat, live: Table, log: seq<Attempt>)
    returns (made: seq<Attempt>)
    requires UniqueAnchors(stored) && UniqueAnchors(live) && Drift(stored, live, used)
    requires DryFallback(x, stored, ranked, used, remaining, scanned, log)
    ensures FallbackLog(x, stored, ranked, used, remaining, scanned, live, made) && Alike(log, made)
    decreases |ranked|
  {
    made := [];
    if ranked == [] || remaining <= 0 || scanned >= ScanCap(x) {
    } else if !(ranked[0] !! used) {
      made := DryFallbackIsReal(x, stored, ranked[1..], used, remaining, scanned, live, log);
    } else {
      var b := DryAttemptIsReal(x, stored, used, live, log[0]);
      AttemptKeepsDrift(x, stored, used, live, b);
      var rest := DryFallbackIsReal(x, stored, ranked[1..], used + ranked[0],
                                    remaining - (if Fills(b) then 1 else 0), scanned + 1, Apply(x, live, b), log[1..]);
      made := [b] + rest;
    }
  }

  lemma PicksKeepDrift(x: Cycle, stored: Table, elog: seq<Attempt>)
    requires UniqueAnchors(stored) && EditorialLog(x, stored, x.picked, {}, stored, elog)
    ensures UniqueAnchors(ApplyAll(x, stored, elog)) && Drift(stored, ApplyAll(x, stored, elog), Used(elog))
  {
    EditorialIsLegal(x, stored, x.picked, {}, stored, elog);
    LogKeepsDrift(x, stored, {}, stored, elog);
    assert {} + Used(elog) == Used(elog);
  }

  /** Conversely a real run can make every dry one come true: whatever a dry run attempted, the
      real run can attempt, with the same answers, the same verdicts and the same rows, new ones
      under ids of their own. */
  lemma DryRunIsPossible(x: Cycle, stored: Table, elog: seq<Attempt>, flog: seq<Attempt>)
    returns (realE: seq<Attempt>, realF: seq<Attempt>)
    requires UniqueAnchors(stored) && SelfMember(x.assignment)
    requires DrySelection(x, stored, elog, flog)
    ensures Selection(x, stored, realE, realF)
    ensures Alike(elog, realE) && Alike(flog, realF)
  {
    assert forall i :: 0 <= i < |x.picked| ==> x.picked[i] in x.picked;
    realE := DryEditorialIsReal(x, stored, x.picked, {}, stored, elog);
    AlikeUsesTheSame(elog, realE);
    PicksKeepDrift(x, stored, realE);
    realF := DryFallbackIsReal(x, stored, x.ranked, Used(elog), x.slots - |elog|, 0, ApplyAll(x, stored, realE), flog);
  }
}
