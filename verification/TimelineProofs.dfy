/** Disjoint chains, honest lookups and unique anchors, for every log of legal attempts. */
module TimelineProofs {
  import opened TimelineSpec

  // ---- Any log of legal attempts on disjoint chains ----

  ghost predicate LegalLog(x: Cycle, stored: Table, used: set<int>, live: Table, log: seq<Attempt>)
    decreases |log|
  {
    log == [] ||
    (&& log[0].chain !! used
     && Legal(x, stored, live, log[0])
     && LegalLog(x, stored, used + log[0].chain, Apply(x, live, log[0]), log[1..]))
  }

  lemma UsedCons(log: seq<Attempt>)
    requires log != []
    ensures Used(log) == log[0].chain + Used(log[1..])
    ensures Attempted(log) == (if log[0].anchor.Some? then {log[0].anchor.value} else {}) + Attempted(log[1..])
    ensures Filled(log) == (if Fills(log[0]) then {log[0].anchor.value} else {}) + Filled(log[1..])
  {
    assert forall a :: a in log <==> a == log[0] || a in log[1..];
    forall i
      ensures i in Used(log) <==> i in log[0].chain + Used(log[1..])
    {
      if i in Used(log) {
        var a :| a in log && i in a.chain;
        assert a == log[0] || a in log[1..];
      }
    }
  }

  lemma {:induction false} EditorialIsLegal(x: Cycle, stored: Table, picked: seq<nat>, used: set<int>, live: Table,
                                            log: seq<Attempt>)
    requires EditorialLog(x, stored, picked, used, live, log)
    ensures LegalLog(x, stored, used, live, log)
    ensures forall a :: a in log ==> a.editorial && |a.chain| > 1
    ensures |log| <= |picked|
    decreases |picked|
  {
    if picked != [] {
      var chain := PickedChain(x, live, picked[0]);
      if |chain| <= 1 || !(chain !! used) {
        EditorialIsLegal(x, stored, picked[1..], used, live, log);
      } else {
        EditorialIsLegal(x, stored, picked[1..], used + chain, Apply(x, live, log[0]), log[1..]);
      }
    }
  }

  lemma {:induction false} FallbackIsLegal(x: Cycle, stored: Table, ranked: seq<set<int>>, used: set<int>,
                                           remaining: int, scanned: nat, live: Table, log: seq<Attempt>)
    requires FallbackLog(x, stored, ranked, used, remaining, scanned, live, log)
    ensures LegalLog(x, stored, used, live, log)
    ensures forall a :: a in log ==> !a.editorial && a.chain in ranked
    decreases |ranked|
  {
    if ranked == [] || remaining <= 0 || scanned >= ScanCap(x) {
    } else if !(ranked[0] !! used) {
      FallbackIsLegal(x, stored, ranked[1..], used, remaining, scanned, live, log);
    } else {
      FallbackIsLegal(x, stored, ranked[1..], used + ranked[0], remaining - (if Fills(log[0]) then 1 else 0),
                      scanned + 1, Apply(x, live, log[0]), log[1..]);
    }
  }

  lemma {:induction false} LegalConcat(x: Cycle, stored: Table, used: set<int>, live: Table, a: seq<Attempt>,
                                       b: seq<Attempt>)
    requires LegalLog(x, stored, used, live, a)
    requires LegalLog(x, stored, used + Used(a), ApplyAll(x, live, a), b)
    ensures LegalLog(x, stored, used, live, a + b)
    ensures ApplyAll(x, live, a + b) == ApplyAll(x, ApplyAll(x, live, a), b)
    decreases |a|
  {
    if a == [] {
      assert used + Used(a) == used && a + b == b;
    } else {
      UsedCons(a);
      assert used + Used(a) == used + a[0].chain + Used(a[1..]);
      LegalConcat(x, stored, used + a[0].chain, Apply(x, live, a[0]), a[1..], b);
      assert (a + b)[0] == a[0] && (a + b)[1..] == a[1..] + b;
    }
  }

  /** A selection is a legal log: its chains are pairwise disjoint and every lookup is honest. */
  lemma SelectionIsLegal(x: Cycle, stored: Table, elog: seq<Attempt>, flog: seq<Attempt>)
    requires Selection(x, stored, elog, flog)
    ensures LegalLog(x, stored, {}, stored, elog + flog)
    ensures ApplyAll(x, stored, elog + flog) == ApplyAll(x, ApplyAll(x, stored, elog), flog)
  {
    EditorialIsLegal(x, stored, x.picked, {}, stored, elog);
    FallbackIsLegal(x, stored, x.ranked, Used(elog), x.slots - |elog|, 0, ApplyAll(x, stored, elog), flog);
    assert {} + Used(elog) == Used(elog);
    LegalConcat(x, stored, {}, stored, elog, flog);
  }

  lemma {:induction false} LegalPrefix(x: Cycle, stored: Table, used: set<int>, live: Table, log: seq<Attempt>, n: nat)
    requires LegalLog(x, stored, used, live, log) && n <= |log|
    ensures LegalLog(x, stored, used, live, log[..n])
    decreases n
  {
    if n > 0 {
      LegalPrefix(x, stored, used + log[0].chain, Apply(x, live, log[0]), log[1..], n - 1);
      assert log[..n][0] == log[0] && log[..n][1..] == log[1..][..n - 1];
    }
  }

  /** Attempted chains are pairwise disjoint. */
  lemma {:induction false} ChainsDisjoint(x: Cycle, stored: Table, used: set<int>, live: Table, log: seq<Attempt>,
                                          i: nat, j: nat)
    requires LegalLog(x, stored, used, live, log) && i < j < |log|
    ensures log[i].chain !! log[j].chain
    ensures log[i].chain !! used && log[j].chain !! used
    decreases i
  {
    if i == 0 {
      LegalAvoidsUsed(x, stored, used + log[0].chain, Apply(x, live, log[0]), log[1..], j - 1);
    } else {
      ChainsDisjoint(x, stored, used + log[0].chain, Apply(x, live, log[0]), log[1..], i - 1, j - 1);
    }
  }

  lemma {:induction false} LegalAvoidsUsed(x: Cycle, stored: Table, used: set<int>, live: Table, log: seq<Attempt>,
                                           j: nat)
    requires LegalLog(x, stored, used, live, log) && j < |log|
    ensures log[j].chain !! used
    ensures log[j].anchor.Some? ==> log[j].anchor.value in log[j].chain
    decreases j
  {
    if j > 0 {
      LegalAvoidsUsed(x, stored, used + log[0].chain, Apply(x, live, log[0]), log[1..], j - 1);
    }
  }

  // ---- Anchor uniqueness ----

  ghost predicate UniqueAnchors(t: Table) {
    forall r, q :: r in t && q in t && r != q ==> t[r].anchor != t[q].anchor
  }

  /** How the session differs from the database: a row is as it was stored, or it was written
      or created, and then its anchors lie in chains already used and no other row was stored
      at the new one. */
  ghost predicate Drift(stored: Table, live: Table, used: set<int>) {
    && stored.Keys <= live.Keys
    && (forall r :: r in live ==>
          || (r in stored && live[r] == stored[r])
          || (&& live[r].anchor in used
              && (r in stored ==> stored[r].anchor in used)
              && forall q :: q in stored && q != r ==> stored[q].anchor != live[r].anchor))
  }

  /** Both readings of a lookup find the same rows: those stored at an anchor of the chain,
      and they are still as they were stored. */
  lemma ReadingsAgree(x: Cycle, stored: Table, live: Table, used: set<int>, chain: set<int>)
    requires Drift(stored, live, used) && chain !! used
    ensures Matches(stored, chain) == Matches(live, chain) == Matches(View(x, stored, live), chain)
    ensures forall r :: r in Matches(stored, chain) ==> r in live && live[r] == stored[r]
  {
  }

  /** The exact-match rule at work: no row but the one written stands at the anchor written,
      in the database or in the session. */
  lemma AttemptTargetIsFree(x: Cycle, stored: Table, used: set<int>, live: Table, a: Attempt)
    requires UniqueAnchors(stored) && UniqueAnchors(live) && Drift(stored, live, used)
    requires a.chain !! used && Legal(x, stored, live, a)
    requires a.anchor.Some?
    ensures forall q :: q in stored && q != a.target ==> stored[q].anchor != a.anchor.value
    ensures forall q :: q in live && q != a.target ==> live[q].anchor != a.anchor.value
    ensures a.existing.None? ==> a.target !in live
    ensures a.existing.Some? ==> a.target in stored && a.target in live && stored[a.target].anchor in a.chain
    ensures a.target in live ==> a.target in stored && live[a.target] == stored[a.target]
  {
    ReadingsAgree(x, stored, live, used, a.chain);
    var at := a.anchor.value;
    forall q | q in stored && stored[q].anchor == at
      ensures q == a.target
    {
      assert q in Matches(stored, a.chain) && live[q].anchor == at;
    }
    forall q | q in live && live[q].anchor == at
      ensures q == a.target
    {
      assert q in stored && stored[q].anchor == at;
    }
  }

  lemma AttemptKeepsDrift(x: Cycle, stored: Table, used: set<int>, live: Table, a: Attempt)
    requires UniqueAnchors(stored) && UniqueAnchors(live) && Drift(stored, live, used)
    requires a.chain !! used && Legal(x, stored, live, a)
    ensures Drift(stored, Apply(x, live, a), used + a.chain)
    ensures UniqueAnchors(Apply(x, live, a))
  {
    if a.anchor.Some? && a.llm.Some? {
      AttemptTargetIsFree(x, stored, used, live, a);
      MoveKeepsDrift(stored, used, live, a.target, Apply(x, live, a)[a.target], a.chain);
    }
  }

  lemma MoveKeepsDrift(stored: Table, used: set<int>, live: Table, target: nat, row: Row, chain: set<int>)
    requires UniqueAnchors(live) && Drift(stored, live, used)
    requires row.anchor in chain
    requires forall q :: q in stored && q != target ==> stored[q].anchor != row.anchor
    requires forall q :: q in live && q != target ==> live[q].anchor != row.anchor
    requires target in live ==> target in stored && stored[target].anchor in chain
    ensures Drift(stored, live[target := row], used + chain)
    ensures UniqueAnchors(live[target := row])
  {
  }

  lemma {:induction false} LogKeepsDrift(x: Cycle, stored: Table, used: set<int>, live: Table, log: seq<Attempt>)
    requires UniqueAnchors(stored) && UniqueAnchors(live) && Drift(stored, live, used)
    requires LegalLog(x, stored, used, live, log)
    ensures Drift(stored, ApplyAll(x, live, log), used + Used(log))
    ensures UniqueAnchors(ApplyAll(x, live, log))
    decreases |log|
  {
    if log == [] {
      assert used + Used(log) == used;
    } else {
      AttemptKeepsDrift(x, stored, used, live, log[0]);
      LogKeepsDrift(x, stored, used + log[0].chain, Apply(x, live, log[0]), log[1..]);
      UsedCons(log);
      assert used + Used(log) == used + log[0].chain + Used(log[1..]);
    }
  }

  /** A table in the middle of a flush: the rows in `written` have reached the database. */
  function MidFlush(stored: Table, live: Table, written: set<nat>): Table {
    map r | r in stored.Keys + live.Keys && (r in written ==> r in live) && (r !in written ==> r in stored)
      :: if r in written then live[r] else stored[r]
  }

  /** Anchor uniqueness. If anchors are unique when the cycle starts, then at every moment of
      it, and whichever subset of the changed rows has been flushed, no two rows of the
      database share an anchor: the UNIQUE constraint cannot fail, under either reading. */
  lemma AnchorsStayUnique(x: Cycle, stored: Table, elog: seq<Attempt>, flog: seq<Attempt>, n: nat, written: set<nat>)
    requires UniqueAnchors(stored) && Selection(x, stored, elog, flog)
    requires n <= |elog + flog|
    ensures UniqueAnchors(MidFlush(stored, ApplyAll(x, stored, (elog + flog)[..n]), written))
  {
    var log := (elog + flog)[..n];
    SelectionIsLegal(x, stored, elog, flog);
    LegalPrefix(x, stored, {}, stored, elog + flog, n);
    LogKeepsDrift(x, stored, {}, stored, log);
  }

  /** Each single create or re-point aims at an anchor that no other row owned when the cycle
      started and that no other attempt of the cycle aims at. */
  lemma TargetsAreFree(x: Cycle, stored: Table, elog: seq<Attempt>, flog: seq<Attempt>, i: nat)
    requires UniqueAnchors(stored) && Selection(x, stored, elog, flog)
    requires i < |elog + flog|
    requires var a := (elog + flog)[i]; a.anchor.Some? && a.llm.Some?
    ensures var a := (elog + flog)[i];
            && (forall q :: q in stored && q != a.target ==> stored[q].anchor != a.anchor.value)
            && (forall j :: 0 <= j < |elog + flog| && j != i ==> (elog + flog)[j].anchor != a.anchor)
            && (a.existing.None? ==> a.target !in stored)
  {
    var log := elog + flog;
    SelectionIsLegal(x, stored, elog, flog);
    LogKeepsDriftAt(x, stored, {}, stored, log, i);
    forall j | 0 <= j < |log| && j != i
      ensures log[j].anchor != log[i].anchor
    {
      LegalAvoidsUsed(x, stored, {}, stored, log, i);
      LegalAvoidsUsed(x, stored, {}, stored, log, j);
      if i < j { ChainsDisjoint(x, stored, {}, stored, log, i, j); }
      else { ChainsDisjoint(x, stored, {}, stored, log, j, i); }
    }
  }

  lemma {:induction false} LogKeepsDriftAt(x: Cycle, stored: Table, used: set<int>, live: Table, log: seq<Attempt>,
                                           i: nat)
    requires UniqueAnchors(stored) && UniqueAnchors(live) && Drift(stored, live, used)
    requires LegalLog(x, stored, used, live, log) && i < |log|
    ensures var a := log[i]; a.anchor.Some? && a.llm.Some? ==>
              && (forall q :: q in stored && q != a.target ==> stored[q].anchor != a.anchor.value)
              && (a.existing.None? ==> a.target !in stored)
    decreases i
  {
    if i == 0 {
      if log[0].anchor.Some? {
        AttemptTargetIsFree(x, stored, used, live, log[0]);
      }
    } else {
      AttemptKeepsDrift(x, stored, used, live, log[0]);
      LogKeepsDriftAt(x, stored, used + log[0].chain, Apply(x, live, log[0]), log[1..], i - 1);
    }
  }
}
