/** The generation cycle as it is run: a database session whose objects are changed in memory
    and flushed once, after the anchors have been marked. */
module TimelineSession {
  import opened Basics
  import opened TimelineSpec
  import opened TimelineProofs

  /** What one cycle did: narratives written, judged incoherent, failed, and slots left empty. */
  datatype Report = Report(written: nat, rejected: nat, failed: nat, unfilled: nat)

  function Answers(log: seq<Attempt>, o: Outcome): nat {
    if log == [] then 0 else (if log[0].llm == Some(o) then 1 else 0) + Answers(log[1..], o)
  }

  lemma {:induction false} AnswersAppend(log: seq<Attempt>, a: Attempt, o: Outcome)
    ensures Answers(log + [a], o) == Answers(log, o) + if a.llm == Some(o) then 1 else 0
  {
    if log != [] {
      assert (log + [a])[1..] == log[1..] + [a];
      AnswersAppend(log[1..], a, o);
    } else {
      assert log + [a] == [a] && [a][1..] == [];
    }
  }

  lemma {:induction false} ApplyAppend(x: Cycle, live: Table, log: seq<Attempt>, a: Attempt)
    ensures ApplyAll(x, live, log + [a]) == Apply(x, ApplyAll(x, live, log), a)
    decreases |log|
  {
    if log == [] {
      assert log + [a] == [a] && [a][1..] == [];
      assert ApplyAll(x, Apply(x, live, a), []) == Apply(x, live, a);
    } else {
      assert (log + [a])[1..] == log[1..] + [a];
      ApplyAppend(x, Apply(x, live, log[0]), log[1..], a);
    }
  }

  lemma {:induction false} FillAppend(log: seq<Attempt>, a: Attempt)
    ensures FillCount(log + [a]) == FillCount(log) + if Fills(a) then 1 else 0
  {
    if log != [] {
      assert (log + [a])[1..] == log[1..] + [a];
      FillAppend(log[1..], a);
    } else {
      assert log + [a] == [a] && [a][1..] == [];
    }
  }

  lemma SetsAppend(log: seq<Attempt>, a: Attempt)
    ensures Used(log + [a]) == Used(log) + a.chain
    ensures Attempted(log + [a]) == Attempted(log) + if a.anchor.Some? then {a.anchor.value} else {}
    ensures Filled(log + [a]) == Filled(log) + if Fills(a) then {a.anchor.value} else {}
  {
    assert forall b :: b in log + [a] <==> b in log || b == a;
    forall i
      ensures i in Used(log + [a]) <==> i in Used(log) + a.chain
    {
      if i in Used(log + [a]) {
        var b :| b in log + [a] && i in b.chain;
        assert b in log || b == a;
      }
    }
  }

  class Session {
    /** The database, and the session's objects (pending new rows included). */
    var stored: Table
    var live: Table
    var nextId: nat
    const autoflush: bool

    ghost predicate Valid()
      reads this
    {
      && stored.Keys <= live.Keys
      && forall r :: r in live ==> r < nextId
    }

    constructor (table: Table, nextId: nat, autoflush: bool)
      requires forall r :: r in table ==> r < nextId
      ensures Valid() && stored == table && live == table && this.autoflush == autoflush
    {
      this.stored, this.live, this.nextId, this.autoflush := table, table, nextId, autoflush;
    }

    method Flush()
      requires Valid()
      modifies this`stored
      ensures Valid() && stored == live
    {
      stored := live;
    }

    /** Whatever runs a query: with autoflush, pending changes are written first. */
    method BeforeQuery()
      requires Valid()
      modifies this`stored
      ensures Valid() && stored == if autoflush then live else old(stored)
    {
      if autoflush {
        Flush();
      }
    }

    method FindExistingRow(chain: set<int>, anchor: int) returns (row: Option<nat>)
      requires Valid()
      modifies this`stored
      ensures Valid() && stored == if autoflush then live else old(stored)
      ensures IsExisting(stored, live, chain, anchor, row)
    {
      BeforeQuery();
      var matches := Matches(stored, chain);
      if matches == {} {
        return None;
      }
      var rest := matches;
      while rest != {}
        invariant rest <= matches
        invariant forall q :: q in matches && q !in rest ==> live[q].anchor != anchor
        decreases rest
      {
        var r :| r in rest;
        if live[r].anchor == anchor {
          return Some(r);
        }
        rest := rest - {r};
      }
      var latest :| latest in matches;
      rest := matches - {latest};
      while rest != {}
        invariant rest <= matches && latest in matches
        invariant forall q :: q in matches && q !in rest ==> RecencyKey(live[q]) <= RecencyKey(live[latest])
        decreases rest
      {
        var r :| r in rest;
        if RecencyKey(live[latest]) <= RecencyKey(live[r]) {
          latest := r;
        }
        rest := rest - {r};
      }
      return Some(latest);
    }

    /** The last member by first_seen_at, if any member is loaded. */
    static method LastMember(byId: map<int, Cluster>, chain: set<int>) returns (anchor: Option<int>)
      ensures IsAnchor(byId, chain, anchor)
    {
      anchor := None;
      var rest := chain;
      while rest != {}
        invariant rest <= chain
        invariant IsAnchor(byId, chain - rest, anchor)
        decreases rest
      {
        SomeMember(rest);
        var i :| i in rest;
        if i in byId && (anchor == None || byId[anchor.value].firstSeen <= byId[i].firstSeen) {
          anchor := Some(i);
        }
        rest := rest - {i};
      }
      assert chain - rest == chain;
    }

    /** generate_for_chain. `start` is the table the cycle began with. */
    method GenerateForChain(x: Cycle, ghost start: Table, chain: set<int>, editorial: bool,
                            narrate: set<int> -> Outcome, report: Report)
      returns (anchor: Option<int>, coherent: Option<bool>, report': Report, ghost a: Attempt)
      requires Valid() && x.autoflush == autoflush && (!autoflush ==> stored == start)
      modifies this
      ensures Valid() && (!autoflush ==> stored == start)
      ensures a.chain == chain && a.editorial == editorial && a.anchor == anchor && a.verdict == coherent
      ensures a.llm.Some? ==> a.llm.value == narrate(chain)
      ensures Legal(x, start, old(live), a)
      ensures live == Apply(x, old(live), a)
      ensures report' == Tally(report, a)
    {
      report' := report;
      anchor := LastMember(x.byId, chain);
      coherent := None;
      a := Attempt(chain, editorial, anchor, None, 0, None, None);
      if anchor == None {
        return;
      }
      var existing := FindExistingRow(chain, anchor.value);
      assert IsExisting(View(x, start, live), live, chain, anchor.value, existing);
      if existing.Some? && live[existing.value].generatedAt.Some? && live[existing.value].clusterIds == chain {
        coherent := live[existing.value].coherent;
        a := Attempt(chain, editorial, anchor, existing, existing.value, None, coherent);
        return;
      }
      var target, narrative;
      target, narrative, coherent := Regenerate(x, chain, editorial, anchor.value, existing, narrate);
      a := Attempt(chain, editorial, anchor, existing, target, Some(narrative), coherent);
      match narrative {
        case Failed => report' := report.(failed := report.failed + 1);
        case Coherent => report' := report.(written := report.written + 1);
        case Incoherent => report' := report.(rejected := report.rejected + 1);
      }
    }

    /** Create or re-point the row, ask for the narrative, and write it unless that failed. */
    method Regenerate(x: Cycle, chain: set<int>, editorial: bool, anchor: int, existing: Option<nat>,
                      narrate: set<int> -> Outcome)
      returns (target: nat, narrative: Outcome, coherent: Option<bool>)
      requires Valid() && (existing.Some? ==> existing.value in live)
      modifies this`live, this`nextId
      ensures Valid() && narrative == narrate(chain)
      ensures if existing.Some? then target == existing.value else target !in old(live)
      ensures coherent == if narrative == Failed then None else Some(narrative == Coherent)
      ensures live == Apply(x, old(live),
                            Attempt(chain, editorial, Some(anchor), existing, target, Some(narrative), coherent))
    {
      if existing == None {
        target := nextId;
        nextId := nextId + 1;
        live := live[target := NewRow(anchor, editorial, x.now)];
      } else {
        target := existing.value;
        live := live[target := live[target].(anchor := anchor, editorial := editorial)];
      }
      narrative := narrate(chain);
      if narrative == Failed {
        coherent := None;
        return;
      }
      coherent := Some(narrative == Coherent);
      live := live[target := live[target].(coherent := coherent, clusterIds := chain, generatedAt := Some(x.now))];
    }

    /** set_last_seen_in_top: the row found at the anchor, if any. */
    method SetLastSeenInTop(x: Cycle, ghost start: Table, anchor: int, value: bool)
      requires Valid() && x.autoflush == autoflush && (!autoflush ==> stored == start)
      requires UniqueAnchors(View(x, start, live))
      modifies this`live, this`stored
      ensures Valid() && (!autoflush ==> stored == start)
      ensures var view := View(x, start, old(live));
              live == map r | r in old(live) ::
                if r in view && view[r].anchor == anchor then SetTop(old(live)[r], value, x.now) else old(live)[r]
    {
      BeforeQuery();
      ghost var view := View(x, start, live);
      assert stored == view;
      var rest := stored.Keys;
      while rest != {}
        invariant rest <= stored.Keys
        invariant forall r :: r in stored && r !in rest ==> stored[r].anchor != anchor
        decreases rest
      {
        var r :| r in rest;
        if stored[r].anchor == anchor {
          live := live[r := SetTop(live[r], value, x.now)];
          return;
        }
        rest := rest - {r};
      }
    }

    method MarkAttempted(x: Cycle, ghost start: Table, attempted: set<int>, filled: set<int>, ghost log: seq<Attempt>)
      requires Valid() && x.autoflush == autoflush && (!autoflush ==> stored == start)
      requires UniqueAnchors(View(x, start, live))
      requires attempted == Attempted(log) && filled == Filled(log)
      modifies this`live, this`stored
      ensures Valid()
      ensures live == Marked(x, start, old(live), log)
    {
      ghost var live0, done := live, {};
      MarkingStarts(View(x, start, live0), live0, filled, x.now);
      var rest := attempted;
      while rest != {}
        invariant Valid() && (!autoflush ==> stored == start)
        invariant done + rest == attempted && done !! rest
        invariant MarkedSoFar(View(x, start, live0), live0, live, done, filled, x.now)
        invariant SameAnchors(View(x, start, live0), View(x, start, live))
        decreases rest
      {
        SomeMember(rest);
        var anchor :| anchor in rest;
        ghost var before := live;
        SetLastSeenInTop(x, start, anchor, anchor in filled);
        MarkOne(View(x, start, live0), View(x, start, before), live0, before, live, done, anchor, filled, x.now);
        rest, done := rest - {anchor}, done + {anchor};
      }
      MarkingEnds(x, start, live0, live, log);
    }

    /** Everything that was not attempted falls out of the top view. */
    method SweepOthers(x: Cycle, attempted: set<int>, ghost log: seq<Attempt>)
      requires Valid() && attempted == Attempted(log)
      modifies this`live
      ensures Valid()
      ensures live == Swept(x, old(live), log)
    {
      ghost var live0 := live;
      var rest := live.Keys;
      while rest != {}
        invariant Valid() && live.Keys == live0.Keys
        invariant rest <= live0.Keys
        invariant forall r :: r in live0 ==>
                    live[r] == if r in rest || live0[r].anchor in attempted then live0[r]
                               else SetTop(live0[r], false, x.now)
        decreases rest
      {
        var r :| r in rest;
        if live[r].anchor !in attempted {
          live := live[r := SetTop(live[r], false, x.now)];
        }
        rest := rest - {r};
      }
    }
  }

  ghost predicate SameAnchors(a: Table, b: Table) {
    a.Keys == b.Keys && forall r :: r in a ==> a[r].anchor == b[r].anchor
  }

  /** live is live0 with the rows found at the anchors in `done` marked. */
  ghost predicate MarkedSoFar(view: Table, live0: Table, live: Table, done: set<int>, filled: set<int>, now: int) {
    live == map r | r in live0 ::
      if r in view && view[r].anchor in done then SetTop(live0[r], view[r].anchor in filled, now) else live0[r]
  }

  lemma MarkingStarts(view: Table, live0: Table, filled: set<int>, now: int)
    ensures MarkedSoFar(view, live0, live0, {}, filled, now)
    ensures SameAnchors(view, view)
  {
  }

  lemma MarkingEnds(x: Cycle, stored: Table, live0: Table, live: Table, log: seq<Attempt>)
    requires MarkedSoFar(View(x, stored, live0), live0, live, Attempted(log), Filled(log), x.now)
    ensures live == Marked(x, stored, live0, log)
  {
  }

  lemma MarkOne(view: Table, view': Table, live0: Table, before: Table, after: Table, done: set<int>,
                anchor: int, filled: set<int>, now: int)
    requires MarkedSoFar(view, live0, before, done, filled, now) && anchor !in done
    requires SameAnchors(view, view')
    requires after == map r | r in before ::
               if r in view' && view'[r].anchor == anchor then SetTop(before[r], anchor in filled, now) else before[r]
    ensures MarkedSoFar(view, live0, after, done + {anchor}, filled, now)
    ensures SameAnchors(before, after)
  {
  }

  function Tally(r: Report, a: Attempt): Report {
    match a.llm
    case None => r
    case Some(Coherent) => r.(written := r.written + 1)
    case Some(Incoherent) => r.(rejected := r.rejected + 1)
    case Some(Failed) => r.(failed := r.failed + 1)
  }

  /** The report counts every call of the narrative service once. */
  ghost predicate ReportIs(report: Report, log: seq<Attempt>, unfilled: nat) {
    report == Report(Answers(log, Coherent), Answers(log, Incoherent), Answers(log, Failed), unfilled)
  }

  lemma TallyCounts(report: Report, log: seq<Attempt>, a: Attempt, unfilled: nat)
    requires ReportIs(report, log, unfilled)
    ensures ReportIs(Tally(report, a), log + [a], unfilled)
  {
    AnswersAppend(log, a, Coherent);
    AnswersAppend(log, a, Incoherent);
    AnswersAppend(log, a, Failed);
  }
}
