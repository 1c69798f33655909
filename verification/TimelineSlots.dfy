/** How many slots a cycle fills. */
module TimelineSlots {
  import opened TimelineSpec
  import opened TimelineProofs

  // ---- Slot accounting ----

  /** The scan cap was reached, or every ranked chain overlaps what was used. */
  ghost predicate Exhausted(x: Cycle, ranked: seq<set<int>>, used: set<int>, scanned: nat) {
    scanned >= ScanCap(x) || forall c :: c in ranked && c != {} ==> !(c !! used)
  }

  lemma OverlapGrows(c: set<int>, used: set<int>, more: set<int>)
    requires !(c !! used)
    ensures !(c !! (used + more))
  {
  }

  lemma StillExhausted(x: Cycle, ranked: seq<set<int>>, used: set<int>, scanned: nat)
    requires ranked != [] && Exhausted(x, ranked[1..], used, scanned)
    requires ranked[0] != {} ==> !(ranked[0] !! used)
    ensures Exhausted(x, ranked, used, scanned)
  {
    assert forall c :: c in ranked ==> c == ranked[0] || c in ranked[1..];
  }

  lemma {:induction false} FallbackAccounting(x: Cycle, stored: Table, ranked: seq<set<int>>, used: set<int>,
                                              remaining: int, scanned: nat, live: Table, log: seq<Attempt>)
    requires FallbackLog(x, stored, ranked, used, remaining, scanned, live, log)
    ensures log != [] ==> scanned + |log| <= ScanCap(x)
    ensures FillCount(log) <= if remaining > 0 then remaining else 0
    ensures remaining - FillCount(log) > 0 ==> Exhausted(x, ranked, used + Used(log), scanned + |log|)
    decreases |ranked|
  {
    if ranked == [] || remaining <= 0 || scanned >= ScanCap(x) {
    } else if !(ranked[0] !! used) {
      OverlapGrows(ranked[0], used, Used(log));
      FallbackAccounting(x, stored, ranked[1..], used, remaining, scanned, live, log);
      if remaining - FillCount(log) > 0 {
        StillExhausted(x, ranked, used + Used(log), scanned + |log|);
      }
    } else {
      FallbackAccounting(x, stored, ranked[1..], used + ranked[0], remaining - (if Fills(log[0]) then 1 else 0),
                         scanned + 1, Apply(x, live, log[0]), log[1..]);
      UsedCons(log);
      assert used + ranked[0] + Used(log[1..]) == used + Used(log);
      assert ranked[0] <= used + Used(log);
      if remaining - FillCount(log) > 0 {
        StillExhausted(x, ranked, used + Used(log), scanned + |log|);
      }
    }
  }

  /** Disjoint chains have distinct anchors, so filled anchors can be counted by attempts. */
  lemma {:induction false} FilledAnchorsAreDistinct(x: Cycle, stored: Table, used: set<int>, live: Table,
                                                    log: seq<Attempt>)
    requires LegalLog(x, stored, used, live, log)
    ensures |Filled(log)| == FillCount(log)
    ensures Filled(log) <= Attempted(log) <= Used(log)
    ensures Used(log) !! used
    decreases |log|
  {
    if log != [] {
      FilledAnchorsAreDistinct(x, stored, used + log[0].chain, Apply(x, live, log[0]), log[1..]);
      UsedCons(log);
    }
  }

  lemma {:induction false} FillCountConcat(a: seq<Attempt>, b: seq<Attempt>)
    ensures FillCount(a + b) == FillCount(a) + FillCount(b)
    ensures FillCount(a) <= |a|
  {
    if a == [] {
      assert a + b == b;
    } else {
      FillCountConcat(a[1..], b);
      assert (a + b)[1..] == a[1..] + b;
    }
  }

  /** The attempted chains of a cycle, editorial and fallback, are pairwise disjoint. */
  lemma AttemptedChainsAreDisjoint(x: Cycle, stored: Table, elog: seq<Attempt>, flog: seq<Attempt>)
    requires Selection(x, stored, elog, flog)
    ensures forall i, j :: 0 <= i < j < |elog + flog| ==> (elog + flog)[i].chain !! (elog + flog)[j].chain
  {
    var log := elog + flog;
    SelectionIsLegal(x, stored, elog, flog);
    forall i, j | 0 <= i < j < |log|
      ensures log[i].chain !! log[j].chain
    {
      ChainsDisjoint(x, stored, {}, stored, log, i, j);
    }
  }

  /** Slot accounting. The fallback makes at most scan_cap attempts; the filled rows are at
      most max(slots, editorial picks attempted); and when slots remain, the cap was reached or
      every ranked chain overlaps one that was attempted. */
  lemma SlotAccounting(x: Cycle, stored: Table, elog: seq<Attempt>, flog: seq<Attempt>)
    requires Selection(x, stored, elog, flog)
    ensures var cap := if x.scanCap.Some? && x.scanCap.value != 0 then x.scanCap.value else x.slots * 4;
            && |flog| <= (if cap > 0 then cap else 0)
            && (x.slots - |elog| - FillCount(flog) > 0 ==>
                  |flog| >= cap || forall c :: c in x.ranked && c != {} ==> !(c !! Used(elog + flog)))
    ensures |Filled(elog + flog)| <= if x.slots > |elog| then x.slots else |elog|
  {
    FallbackAccounting(x, stored, x.ranked, Used(elog), x.slots - |elog|, 0, ApplyAll(x, stored, elog), flog);
    SelectionIsLegal(x, stored, elog, flog);
    FilledAnchorsAreDistinct(x, stored, {}, stored, elog + flog);
    FillCountConcat(elog, flog);
    UsedConcat(elog, flog);
  }

  lemma UsedConcat(a: seq<Attempt>, b: seq<Attempt>)
    ensures Used(a) + Used(b) == Used(a + b)
  {
  }
}
