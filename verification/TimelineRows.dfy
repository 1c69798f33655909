/** What a cycle leaves in the rows it wrote, and in those it did not. */
module TimelineRows {
  import opened Basics
  import opened TimelineSpec
  import opened TimelineProofs
  import opened TimelineTop

  /** A chain finds a row exactly when one stands at one of its clusters. It is the row at the
      chain's anchor if there is one; otherwise no other was generated, or picked when never
      generated, after it. */
  lemma LookupMeans(view: Table, live: Table, chain: set<int>, anchor: int, row: Option<nat>)
    requires IsExisting(view, live, chain, anchor, row)
    ensures row == None <==> forall q :: q in view ==> view[q].anchor !in chain
    ensures row.Some? ==>
              var r := row.value;
              && r in view && r in live && view[r].anchor in chain
              && forall q :: q in view && q in live && view[q].anchor in chain ==>
                   if live[q].anchor == anchor then live[r].anchor == anchor
                   else live[r].anchor != anchor ==>
                     match (live[q].generatedAt, live[r].generatedAt)
                     case (Some(t), Some(u)) => t <= u
                     case (Some(t), None) => t <= live[r].pickedAt
                     case (None, Some(u)) => live[q].pickedAt <= u
                     case (None, None) => live[q].pickedAt <= live[r].pickedAt
  {
    if row == None {
      forall q | q in view
        ensures view[q].anchor !in chain
      {
        assert q !in Matches(view, chain);
      }
    } else {
      forall q | q in view && q in live && view[q].anchor in chain
        ensures q in Matches(view, chain)
      {
      }
    }
  }

  /** What the row that attempt a wrote holds. */
  ghost predicate RowIsWritten(x: Cycle, stored: Table, a: Attempt, row: Row)
    requires a.anchor.Some? && a.llm.Some?
  {
    && row.anchor == a.anchor.value && row.editorial == a.editorial
    && (a.llm.value == Coherent ==> row.coherent == Some(true))
    && (a.llm.value == Incoherent ==> row.coherent == Some(false))
    && (a.llm.value != Failed ==> row.clusterIds == a.chain && row.generatedAt == Some(x.now))
    && (a.target in stored ==> row.pickedAt == stored[a.target].pickedAt)
    && (a.target !in stored ==> row.pickedAt == x.now)
    && (a.llm.value == Failed && a.target in stored ==>
          && row.coherent == stored[a.target].coherent && row.clusterIds == stored[a.target].clusterIds
          && row.generatedAt == stored[a.target].generatedAt)
    && (a.llm.value == Failed && a.target !in stored ==>
          row.coherent == None && row.clusterIds == {} && row.generatedAt == None)
  }

  lemma {:induction false} WrittenRowStays(x: Cycle, stored: Table, used: set<int>, live: Table, log: seq<Attempt>,
                                           k: nat)
    requires UniqueAnchors(stored) && UniqueAnchors(live) && Drift(stored, live, used)
    requires LegalLog(x, stored, used, live, log)
    requires k < |log| && log[k].anchor.Some? && log[k].llm.Some?
    ensures log[k].target in ApplyAll(x, live, log)
    ensures RowIsWritten(x, stored, log[k], ApplyAll(x, live, log)[log[k].target])
    decreases |log|
  {
    AttemptKeepsDrift(x, stored, used, live, log[0]);
    if k > 0 {
      WrittenRowStays(x, stored, used + log[0].chain, Apply(x, live, log[0]), log[1..], k - 1);
    } else {
      AttemptTargetIsFree(x, stored, used, live, log[0]);
      OwnedRowStays(x, stored, used + log[0].chain, Apply(x, live, log[0]), log[1..], log[0].target);
    }
  }

  /** After the cycle, the row of every attempt that asked for a narrative stands at the chain's
      anchor with the flag of its attempt, and holds the verdict, the chain and the time, or what
      it held before if the service failed. */
  lemma RowsOfTheCycle(x: Cycle, stored: Table, elog: seq<Attempt>, flog: seq<Attempt>, k: nat)
    requires UniqueAnchors(stored) && Selection(x, stored, elog, flog)
    requires k < |elog + flog| && (elog + flog)[k].anchor.Some? && (elog + flog)[k].llm.Some?
    ensures var a, end := (elog + flog)[k], EndOfCycle(x, stored, elog + flog);
            a.target in end && RowIsWritten(x, stored, a, end[a.target])
  {
    SelectionIsLegal(x, stored, elog, flog);
    WrittenRowStays(x, stored, {}, stored, elog + flog, k);
    FlagsOnly(x, stored, elog + flog);
  }

  lemma {:induction false} OthersStay(x: Cycle, live: Table, log: seq<Attempt>, r: nat)
    requires forall a :: a in log && a.anchor.Some? && a.llm.Some? ==> a.target != r
    ensures r in ApplyAll(x, live, log) <==> r in live
    ensures r in live ==> ApplyAll(x, live, log)[r] == live[r]
    decreases |log|
  {
    if log != [] {
      OthersStay(x, Apply(x, live, log[0]), log[1..], r);
    }
  }

  /** Every other row is as it was, but for the top flag and the time it was dropped. */
  lemma OtherRowsOfTheCycle(x: Cycle, stored: Table, elog: seq<Attempt>, flog: seq<Attempt>, r: nat)
    requires forall a :: a in elog + flog && a.anchor.Some? && a.llm.Some? ==> a.target != r
    ensures var end := EndOfCycle(x, stored, elog + flog);
            && (r in end <==> r in stored)
            && (r in stored ==>
                  end[r] == stored[r].(inTop := end[r].inTop, droppedAt := end[r].droppedAt))
  {
    OthersStay(x, stored, elog + flog, r);
    FlagsOnly(x, stored, elog + flog);
  }
}
