/** run(): editorial picks, then the fallback scan, then the flags. */
module TimelineRun {
  import opened Basics
  import opened TimelineSpec
  import opened TimelineProofs
  import opened TimelineTop
  import opened TimelineSession

  /** The picks that are left, run on from here, complete the log. */
  ghost predicate EditorialContinues(x: Cycle, start: Table, i: nat, live: Table, log: seq<Attempt>)
    requires i <= |x.picked|
  {
    forall rest :: EditorialLog(x, start, x.picked[i..], Used(log), live, rest)
                   ==> EditorialLog(x, start, x.picked, {}, start, log + rest)
  }

  lemma EditorialSkips(x: Cycle, start: Table, i: nat, live: Table, log: seq<Attempt>)
    requires i < |x.picked| && EditorialContinues(x, start, i, live, log)
    requires var chain := PickedChain(x, live, x.picked[i]); |chain| <= 1 || !(chain !! Used(log))
    ensures EditorialContinues(x, start, i + 1, live, log)
  {
    assert x.picked[i..][1..] == x.picked[i + 1..];
  }

  lemma EditorialCons(x: Cycle, start: Table, i: nat, used: set<int>, live: Table, a: Attempt, rest: seq<Attempt>)
    requires i < |x.picked|
    requires |a.chain| > 1 && a.chain !! used
    requires a.chain == PickedChain(x, live, x.picked[i]) && a.editorial && Legal(x, start, live, a)
    requires EditorialLog(x, start, x.picked[i + 1..], used + a.chain, Apply(x, live, a), rest)
    ensures EditorialLog(x, start, x.picked[i..], used, live, [a] + rest)
  {
    assert x.picked[i..][1..] == x.picked[i + 1..];
    assert ([a] + rest)[1..] == rest;
  }

  lemma EditorialConsAll(x: Cycle, start: Table, i: nat, used: set<int>, live: Table, a: Attempt)
    requires i < |x.picked|
    requires |a.chain| > 1 && a.chain !! used
    requires a.chain == PickedChain(x, live, x.picked[i]) && a.editorial && Legal(x, start, live, a)
    ensures forall rest :: EditorialLog(x, start, x.picked[i + 1..], used + a.chain, Apply(x, live, a), rest)
              ==> EditorialLog(x, start, x.picked[i..], used, live, [a] + rest)
  {
    forall rest | EditorialLog(x, start, x.picked[i + 1..], used + a.chain, Apply(x, live, a), rest)
      ensures EditorialLog(x, start, x.picked[i..], used, live, [a] + rest)
    {
      EditorialCons(x, start, i, used, live, a, rest);
    }
  }

  lemma EditorialAttempts(x: Cycle, start: Table, i: nat, live: Table, live': Table, log: seq<Attempt>, a: Attempt)
    requires i < |x.picked| && EditorialContinues(x, start, i, live, log)
    requires forall rest :: EditorialLog(x, start, x.picked[i + 1..], Used(log) + a.chain, live', rest)
               ==> EditorialLog(x, start, x.picked[i..], Used(log), live, [a] + rest)
    ensures EditorialContinues(x, start, i + 1, live', log + [a])
  {
    SetsAppend(log, a);
    forall rest | EditorialLog(x, start, x.picked[i + 1..], Used(log + [a]), live', rest)
      ensures EditorialLog(x, start, x.picked, {}, start, log + [a] + rest)
    {
      assert EditorialLog(x, start, x.picked[i..], Used(log), live, [a] + rest);
      assert log + ([a] + rest) == log + [a] + rest;
    }
  }

  ghost predicate Answered(log: seq<Attempt>, narrate: set<int> -> Outcome) {
    forall i :: 0 <= i < |log| && log[i].llm.Some? ==> log[i].llm.value == narrate(log[i].chain)
  }

  /** Where the editorial loop stands after i picks. */
  ghost predicate EditorialState(x: Cycle, start: Table, i: nat, live: Table, log: seq<Attempt>,
                                 used: set<int>, count: nat, attempted: set<int>, report: Report)
    requires i <= |x.picked|
  {
    && live == ApplyAll(x, start, log)
    && used == Used(log) && count == |log| && attempted == Attempted(log) == Filled(log)
    && ReportIs(report, log, 0)
    && EditorialContinues(x, start, i, live, log)
  }

  lemma EditorialStarts(x: Cycle, start: Table)
    ensures EditorialState(x, start, 0, start, [], {}, 0, {}, Report(0, 0, 0, 0))
  {
    assert x.picked[0..] == x.picked && Used([]) == {} && Attempted([]) == {} && Filled([]) == {};
    assert forall rest: seq<Attempt> :: [] + rest == rest;
  }

  lemma EditorialEnds(x: Cycle, start: Table, live: Table, log: seq<Attempt>)
    requires EditorialContinues(x, start, |x.picked|, live, log)
    ensures EditorialLog(x, start, x.picked, {}, start, log)
  {
    assert EditorialLog(x, start, x.picked[|x.picked|..], Used(log), live, []);
    assert log + [] == log;
  }

  lemma EditorialSkipped(x: Cycle, start: Table, i: nat, live: Table, log: seq<Attempt>,
                         used: set<int>, count: nat, attempted: set<int>, report: Report)
    requires i < |x.picked| && EditorialState(x, start, i, live, log, used, count, attempted, report)
    requires var chain := PickedChain(x, live, x.picked[i]); |chain| <= 1 || !(chain !! used)
    ensures EditorialState(x, start, i + 1, live, log, used, count, attempted, report)
  {
    EditorialSkips(x, start, i, live, log);
  }

  lemma EditorialStep(x: Cycle, start: Table, i: nat, live: Table, log: seq<Attempt>,
                      used: set<int>, count: nat, attempted: set<int>, report: Report, a: Attempt)
    requires i < |x.picked| && EditorialState(x, start, i, live, log, used, count, attempted, report)
    requires |a.chain| > 1 && a.chain !! used
    requires a.chain == PickedChain(x, live, x.picked[i]) && a.editorial && Legal(x, start, live, a)
    ensures EditorialState(x, start, i + 1, Apply(x, live, a), log + [a], used + a.chain, count + 1,
                           attempted + (if a.anchor.Some? then {a.anchor.value} else {}), Tally(report, a))
  {
    SetsAppend(log, a);
    ApplyAppend(x, start, log, a);
    TallyCounts(report, log, a, 0);
    EditorialConsAll(x, start, i, used, live, a);
    EditorialAttempts(x, start, i, live, Apply(x, live, a), log, a);
  }

  /** One pick: skipped, or attempted. */
  method EditorialTurn(s: Session, x: Cycle, ghost start: Table, narrate: set<int> -> Outcome, i: nat,
                       used: set<int>, count: nat, attempted: set<int>, report: Report, ghost log: seq<Attempt>)
    returns (used': set<int>, count': nat, attempted': set<int>, report': Report, ghost log': seq<Attempt>)
    requires i < |x.picked|
    requires s.Valid() && s.autoflush == x.autoflush && (!s.autoflush ==> s.stored == start)
    requires EditorialState(x, start, i, s.live, log, used, count, attempted, report) && Answered(log, narrate)
    modifies s
    ensures s.Valid() && (!s.autoflush ==> s.stored == start)
    ensures EditorialState(x, start, i + 1, s.live, log', used', count', attempted', report') && Answered(log', narrate)
  {
    used', count', attempted', report', log' := used, count, attempted, report, log;
    var r, chain := x.picked[i], {};
    if r in s.live && s.live[r].anchor in x.assignment {
      chain := x.assignment[s.live[r].anchor];
    }
    if |chain| <= 1 || !(chain !! used) {
      EditorialSkipped(x, start, i, s.live, log, used, count, attempted, report);
      return;
    }
    used', count', attempted', report', log' :=
      AttemptPick(s, x, start, narrate, i, chain, used, count, attempted, report, log);
  }

  method AttemptPick(s: Session, x: Cycle, ghost start: Table, narrate: set<int> -> Outcome, ghost i: nat,
                     chain: set<int>,
                     used: set<int>, count: nat, attempted: set<int>, report: Report, ghost log: seq<Attempt>)
    returns (used': set<int>, count': nat, attempted': set<int>, report': Report, ghost log': seq<Attempt>)
    requires i < |x.picked| && chain == PickedChain(x, s.live, x.picked[i]) && |chain| > 1 && chain !! used
    requires s.Valid() && s.autoflush == x.autoflush && (!s.autoflush ==> s.stored == start)
    requires EditorialState(x, start, i, s.live, log, used, count, attempted, report) && Answered(log, narrate)
    modifies s
    ensures s.Valid() && (!s.autoflush ==> s.stored == start)
    ensures EditorialState(x, start, i + 1, s.live, log', used', count', attempted', report') && Answered(log', narrate)
  {
    ghost var before, a := s.live, Attempt({}, true, None, None, 0, None, None);
    var anchor, coherent;
    attempted', used', count' := attempted, used + chain, count + 1;
    anchor, coherent, report', a := s.GenerateForChain(x, start, chain, true, narrate, report);
    if anchor.Some? {
      attempted' := attempted + {anchor.value};
    }
    log' := log + [a];
    EditorialStep(x, start, i, before, log, used, count, attempted, report, a);
    AnsweredSnoc(log, a, narrate);
  }

  lemma AnsweredSnoc(log: seq<Attempt>, a: Attempt, narrate: set<int> -> Outcome)
    requires Answered(log, narrate) && (a.llm.Some? ==> a.llm.value == narrate(a.chain))
    ensures Answered(log + [a], narrate)
  {
  }

  method RunEditorial(s: Session, x: Cycle, ghost start: Table, narrate: set<int> -> Outcome)
    returns (used: set<int>, count: nat, attempted: set<int>, report: Report, ghost log: seq<Attempt>)
    requires s.Valid() && s.autoflush == x.autoflush && s.stored == s.live == start
    modifies s
    ensures s.Valid() && (!s.autoflush ==> s.stored == start)
    ensures EditorialLog(x, start, x.picked, {}, start, log)
    ensures s.live == ApplyAll(x, start, log)
    ensures used == Used(log) && count == |log| && attempted == Attempted(log) == Filled(log)
    ensures Answered(log, narrate)
    ensures ReportIs(report, log, 0)
  {
    used, count, attempted, report, log := {}, 0, {}, Report(0, 0, 0, 0), [];
    EditorialStarts(x, start);
    var i := 0;
    while i < |x.picked|
      invariant i <= |x.picked|
      invariant s.Valid() && (!s.autoflush ==> s.stored == start)
      invariant Answered(log, narrate)
      invariant EditorialState(x, start, i, s.live, log, used, count, attempted, report)
    {
      used, count, attempted, report, log :=
        EditorialTurn(s, x, start, narrate, i, used, count, attempted, report, log);
      i := i + 1;
    }
    EditorialEnds(x, start, s.live, log);
  }

  ghost predicate FallbackContinues(x: Cycle, start: Table, elog: seq<Attempt>, live0: Table, i: nat,
                                    live: Table, log: seq<Attempt>)
    requires i <= |x.ranked|
  {
    forall rest ::
      FallbackLog(x, start, x.ranked[i..], Used(elog) + Used(log), x.slots - |elog| - FillCount(log), |log|, live, rest)
      ==> FallbackLog(x, start, x.ranked, Used(elog), x.slots - |elog|, 0, live0, log + rest)
  }

  lemma FallbackSkips(x: Cycle, start: Table, elog: seq<Attempt>, live0: Table, i: nat, live: Table, log: seq<Attempt>)
    requires i < |x.ranked| && FallbackContinues(x, start, elog, live0, i, live, log)
    requires !(x.ranked[i] !! Used(elog) + Used(log))
    requires x.slots - |elog| - FillCount(log) > 0 && |log| < ScanCap(x)
    ensures FallbackContinues(x, start, elog, live0, i + 1, live, log)
  {
    assert x.ranked[i..][1..] == x.ranked[i + 1..];
  }

  lemma FallbackCons(x: Cycle, start: Table, i: nat, used: set<int>, remaining: int, scanned: nat, live: Table,
                     a: Attempt, rest: seq<Attempt>)
    requires i < |x.ranked|
    requires a.chain == x.ranked[i] && a.chain !! used && !a.editorial
    requires remaining > 0 && scanned < ScanCap(x)
    requires Legal(x, start, live, a)
    requires FallbackLog(x, start, x.ranked[i + 1..], used + a.chain, remaining - (if Fills(a) then 1 else 0),
                         scanned + 1, Apply(x, live, a), rest)
    ensures FallbackLog(x, start, x.ranked[i..], used, remaining, scanned, live, [a] + rest)
  {
    assert x.ranked[i..][1..] == x.ranked[i + 1..];
    assert ([a] + rest)[1..] == rest;
  }

  lemma FallbackConsAll(x: Cycle, start: Table, i: nat, used: set<int>, remaining: int, scanned: nat, live: Table,
                        a: Attempt)
    requires i < |x.ranked|
    requires a.chain == x.ranked[i] && a.chain !! used && !a.editorial
    requires remaining > 0 && scanned < ScanCap(x)
    requires Legal(x, start, live, a)
    ensures forall rest ::
              FallbackLog(x, start, x.ranked[i + 1..], used + a.chain, remaining - (if Fills(a) then 1 else 0),
                          scanned + 1, Apply(x, live, a), rest)
              ==> FallbackLog(x, start, x.ranked[i..], used, remaining, scanned, live, [a] + rest)
  {
    forall rest | FallbackLog(x, start, x.ranked[i + 1..], used + a.chain, remaining - (if Fills(a) then 1 else 0),
                              scanned + 1, Apply(x, live, a), rest)
      ensures FallbackLog(x, start, x.ranked[i..], used, remaining, scanned, live, [a] + rest)
    {
      FallbackCons(x, start, i, used, remaining, scanned, live, a, rest);
    }
  }

  lemma FallbackAttempts(x: Cycle, start: Table, elog: seq<Attempt>, live0: Table, i: nat, live: Table, live': Table,
                         log: seq<Attempt>, a: Attempt, used: set<int>, remaining: int, remaining': int)
    requires i < |x.ranked| && FallbackContinues(x, start, elog, live0, i, live, log)
    requires used == Used(elog) + Used(log) && remaining == x.slots - |elog| - FillCount(log)
    requires remaining' == x.slots - |elog| - FillCount(log + [a])
    requires forall rest ::
               FallbackLog(x, start, x.ranked[i + 1..], used + a.chain, remaining', |log| + 1, live', rest)
               ==> FallbackLog(x, start, x.ranked[i..], used, remaining, |log|, live, [a] + rest)
    ensures FallbackContinues(x, start, elog, live0, i + 1, live', log + [a])
  {
    SetsAppend(log, a);
    assert used + a.chain == Used(elog) + Used(log + [a]);
    forall rest | FallbackLog(x, start, x.ranked[i + 1..], Used(elog) + Used(log + [a]),
                              x.slots - |elog| - FillCount(log + [a]), |log + [a]|, live', rest)
      ensures FallbackLog(x, start, x.ranked, Used(elog), x.slots - |elog|, 0, live0, log + [a] + rest)
    {
      assert FallbackLog(x, start, x.ranked[i..], used, remaining, |log|, live, [a] + rest);
      assert log + ([a] + rest) == log + [a] + rest;
    }
  }

  /** Where the scan stands after i ranked chains. */
  ghost predicate FallbackState(x: Cycle, start: Table, elog: seq<Attempt>, live0: Table, i: nat, live: Table,
                                log: seq<Attempt>, used: set<int>, remaining: int, scanned: nat,
                                attempted: set<int>, filled: set<int>, report: Report)
    requires i <= |x.ranked|
  {
    && live == ApplyAll(x, live0, log)
    && used == Used(elog) + Used(log) && scanned == |log|
    && remaining == x.slots - |elog| - FillCount(log)
    && attempted == Attempted(elog + log) && filled == Filled(elog + log)
    && ReportIs(report, elog + log, 0)
    && FallbackContinues(x, start, elog, live0, i, live, log)
  }

  lemma FallbackStarts(x: Cycle, start: Table, elog: seq<Attempt>, live0: Table, report: Report)
    requires Attempted(elog) == Filled(elog) && ReportIs(report, elog, 0)
    ensures FallbackState(x, start, elog, live0, 0, live0, [], Used(elog), x.slots - |elog|, 0,
                          Attempted(elog), Filled(elog), report)
  {
    assert elog + [] == elog && Used([]) == {} && x.ranked[0..] == x.ranked;
    assert Used(elog) + Used([]) == Used(elog);
    assert forall rest: seq<Attempt> :: [] + rest == rest;
  }

  lemma FallbackStep(x: Cycle, start: Table, elog: seq<Attempt>, live0: Table, i: nat, live: Table,
                     log: seq<Attempt>, used: set<int>, remaining: int, scanned: nat,
                     attempted: set<int>, filled: set<int>, report: Report, a: Attempt)
    requires i < |x.ranked|
    requires FallbackState(x, start, elog, live0, i, live, log, used, remaining, scanned, attempted, filled, report)
    requires a.chain == x.ranked[i] && a.chain !! used && !a.editorial
    requires remaining > 0 && scanned < ScanCap(x)
    requires Legal(x, start, live, a)
    ensures FallbackState(x, start, elog, live0, i + 1, Apply(x, live, a), log + [a], used + a.chain,
                          remaining - (if Fills(a) then 1 else 0), scanned + 1,
                          attempted + (if a.anchor.Some? then {a.anchor.value} else {}),
                          filled + (if Fills(a) then {a.anchor.value} else {}), Tally(report, a))
  {
    assert elog + log + [a] == elog + (log + [a]);
    SetsAppend(log, a);
    SetsAppend(elog + log, a);
    FillAppend(log, a);
    FallbackConsAll(x, start, i, used, remaining, scanned, live, a);
    FallbackAttempts(x, start, elog, live0, i, live, Apply(x, live, a), log, a, used, remaining,
                     remaining - (if Fills(a) then 1 else 0));
    ApplyAppend(x, live0, log, a);
    TallyCounts(report, elog + log, a, 0);
  }

  lemma FallbackSkipped(x: Cycle, start: Table, elog: seq<Attempt>, live0: Table, i: nat, live: Table,
                        log: seq<Attempt>, used: set<int>, remaining: int, scanned: nat,
                        attempted: set<int>, filled: set<int>, report: Report)
    requires i < |x.ranked| && !(x.ranked[i] !! used) && remaining > 0 && scanned < ScanCap(x)
    requires FallbackState(x, start, elog, live0, i, live, log, used, remaining, scanned, attempted, filled, report)
    ensures FallbackState(x, start, elog, live0, i + 1, live, log, used, remaining, scanned, attempted, filled, report)
  {
    FallbackSkips(x, start, elog, live0, i, live, log);
  }

  /** The scan is over: nothing is left to rank, to fill or to try. */
  lemma FallbackEnds(x: Cycle, start: Table, elog: seq<Attempt>, live0: Table, i: nat, live: Table,
                     log: seq<Attempt>, used: set<int>, remaining: int, scanned: nat,
                     attempted: set<int>, filled: set<int>, report: Report)
    requires i <= |x.ranked| && (i == |x.ranked| || remaining <= 0 || scanned >= ScanCap(x))
    requires FallbackState(x, start, elog, live0, i, live, log, used, remaining, scanned, attempted, filled, report)
    ensures FallbackLog(x, start, x.ranked, Used(elog), x.slots - |elog|, 0, live0, log)
  {
    assert FallbackLog(x, start, x.ranked[i..], Used(elog) + Used(log), remaining, scanned, live, []);
    assert log + [] == log;
  }

  /** One ranked chain: skipped, or attempted. */
  method FallbackTurn(s: Session, x: Cycle, ghost start: Table, narrate: set<int> -> Outcome, ghost elog: seq<Attempt>,
                      ghost live0: Table, i: nat, used: set<int>, remaining: int, scanned: nat,
                      attempted: set<int>, filled: set<int>, report: Report, ghost log: seq<Attempt>)
    returns (used': set<int>, remaining': int, scanned': nat, attempted': set<int>, filled': set<int>,
             report': Report, ghost log': seq<Attempt>)
    requires i < |x.ranked| && remaining > 0 && scanned < ScanCap(x)
    requires s.Valid() && s.autoflush == x.autoflush && (!s.autoflush ==> s.stored == start)
    requires FallbackState(x, start, elog, live0, i, s.live, log, used, remaining, scanned, attempted, filled, report)
    requires Answered(log, narrate)
    modifies s
    ensures s.Valid() && (!s.autoflush ==> s.stored == start)
    ensures FallbackState(x, start, elog, live0, i + 1, s.live, log',
                          used', remaining', scanned', attempted', filled', report')
    ensures Answered(log', narrate)
  {
    used', remaining', scanned', attempted', filled', report', log' :=
      used, remaining, scanned, attempted, filled, report, log;
    var chain := x.ranked[i];
    if !(chain !! used) {
      FallbackSkipped(x, start, elog, live0, i, s.live, log, used, remaining, scanned, attempted, filled, report);
      return;
    }
    ghost var before, a := s.live, Attempt({}, false, None, None, 0, None, None);
    var anchor, coherent;
    scanned' := scanned + 1;
    used' := used + chain;
    anchor, coherent, report', a := s.GenerateForChain(x, start, chain, false, narrate, report);
    if anchor.Some? {
      attempted' := attempted + {anchor.value};
      if coherent == Some(true) {
        filled' := filled + {anchor.value};
        remaining' := remaining - 1;
      }
    }
    log' := log + [a];
    FallbackStep(x, start, elog, live0, i, before, log, used, remaining, scanned, attempted, filled, report, a);
  }

  /** The scan proper; it starts from what the editorial phase used, attempted and reported. */
  method RunFallback(s: Session, x: Cycle, ghost start: Table, narrate: set<int> -> Outcome, ghost elog: seq<Attempt>,
                     used0: set<int>, remaining0: int, attempted0: set<int>, report0: Report)
    returns (remaining: int, attempted: set<int>, filled: set<int>, report: Report, ghost log: seq<Attempt>)
    requires s.Valid() && s.autoflush == x.autoflush && (!s.autoflush ==> s.stored == start)
    requires used0 == Used(elog) && remaining0 == x.slots - |elog|
    requires attempted0 == Attempted(elog) == Filled(elog)
    requires ReportIs(report0, elog, 0)
    modifies s
    ensures s.Valid() && (!s.autoflush ==> s.stored == start)
    ensures FallbackLog(x, start, x.ranked, Used(elog), x.slots - |elog|, 0, old(s.live), log)
    ensures s.live == ApplyAll(x, old(s.live), log)
    ensures remaining == x.slots - |elog| - FillCount(log)
    ensures attempted == Attempted(elog + log) && filled == Filled(elog + log)
    ensures Answered(log, narrate)
    ensures ReportIs(report, elog + log, 0)
  {
    ghost var live0 := s.live;
    var used, scanned: nat := used0, 0;
    remaining, attempted, filled, report, log := remaining0, attempted0, attempted0, report0, [];
    FallbackStarts(x, start, elog, live0, report);
    var cap := if x.scanCap.Some? && x.scanCap.value != 0 then x.scanCap.value else x.slots * 4;
    var i := 0;
    while i < |x.ranked| && remaining > 0 && scanned < cap
      invariant i <= |x.ranked|
      invariant s.Valid() && (!s.autoflush ==> s.stored == start)
      invariant Answered(log, narrate)
      invariant FallbackState(x, start, elog, live0, i, s.live, log,
                              used, remaining, scanned, attempted, filled, report)
    {
      used, remaining, scanned, attempted, filled, report, log :=
        FallbackTurn(s, x, start, narrate, elog, live0, i, used, remaining, scanned, attempted, filled, report, log);
      i := i + 1;
    }
    FallbackEnds(x, start, elog, live0, i, s.live, log, used, remaining, scanned, attempted, filled, report);
  }

  /** One cycle. The log is a selection that the specification allows, answered by the
      narrative service; the database ends as the specification says; and the report counts the
      service's answers and the empty slots. */
  method Run(s: Session, x: Cycle, narrate: set<int> -> Outcome)
    returns (report: Report, ghost elog: seq<Attempt>, ghost flog: seq<Attempt>)
    requires s.Valid() && s.autoflush == x.autoflush && s.stored == s.live
    requires UniqueAnchors(s.stored) && ValidInputs(x, s.stored)
    modifies s
    ensures s.Valid() && s.stored == s.live
    ensures Selection(x, old(s.stored), elog, flog)
    ensures s.stored == EndOfCycle(x, old(s.stored), elog + flog)
    ensures UniqueAnchors(s.stored)
    ensures Answered(elog, narrate) && Answered(flog, narrate)
    ensures ReportIs(report, elog + flog,
                     if x.slots - |elog| - FillCount(flog) > 0 then x.slots - |elog| - FillCount(flog) else 0)
  {
    ghost var start := s.stored;
    var used, count, attempted, filled, remaining;
    used, count, attempted, report, elog := RunEditorial(s, x, start, narrate);
    remaining, attempted, filled, report, flog :=
      RunFallback(s, x, start, narrate, elog, used, x.slots - count, attempted, report);
    report := report.(unfilled := if remaining > 0 then remaining else 0);
    FinishFlags(s, x, start, attempted, filled, elog, flog);
    AnchorsUniqueAtTheEnd(x, start, elog, flog);
  }

  method FinishFlags(s: Session, x: Cycle, ghost start: Table, attempted: set<int>, filled: set<int>,
                     ghost elog: seq<Attempt>, ghost flog: seq<Attempt>)
    requires s.Valid() && s.autoflush == x.autoflush && (!s.autoflush ==> s.stored == start)
    requires UniqueAnchors(start) && Selection(x, start, elog, flog)
    requires s.live == ApplyAll(x, ApplyAll(x, start, elog), flog)
    requires attempted == Attempted(elog + flog) && filled == Filled(elog + flog)
    modifies s
    ensures s.Valid() && s.stored == s.live == EndOfCycle(x, start, elog + flog)
  {
    ghost var log := elog + flog;
    SelectionIsLegal(x, start, elog, flog);
    LogKeepsDrift(x, start, {}, start, log);
    s.MarkAttempted(x, start, attempted, filled, log);
    s.Flush();
    s.SweepOthers(x, attempted, log);
    s.Flush();
  }
}
