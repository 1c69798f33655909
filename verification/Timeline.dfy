/** The timeline generation cycle: which chains are attempted, which rows they touch, and
    which rows end in the top view. The narrative service is an oracle; so is every choice the
    database or a hash set makes freely. Both are recorded in a log of attempts, and the
    lemmas speak of every log that the code could produce. */
module TimelineSpec {
  import opened Basics

  datatype Outcome = Coherent | Incoherent | Failed

  datatype Cluster = Cluster(firstSeen: int, lastUpdated: int)

  /** A story_timeline_features row. The stored id list is always sorted, so it is kept as a
      set; {} stands for the null list. */
  datatype Row = Row(anchor: int, editorial: bool, clusterIds: set<int>, coherent: Option<bool>,
                     generatedAt: Option<int>, pickedAt: int, inTop: bool, droppedAt: Option<int>)

  type Table = map<nat, Row>

  /** The inputs of one cycle. `picked` is the order in which the editorial rows come back,
      `ranked` the ranked fallback chains. With autoflush, lookups see pending writes; the
      deployed session has it off. */
  datatype Cycle = Cycle(byId: map<int, Cluster>, assignment: map<int, set<int>>,
                         slots: int, scanCap: Option<int>,
                         picked: seq<nat>, ranked: seq<set<int>>, now: int, autoflush: bool)

  /** One call of generate_for_chain: the row that was found, the row that was written, the
      answer of the narrative service (None: it was not called) and the verdict returned. */
  datatype Attempt = Attempt(chain: set<int>, editorial: bool, anchor: Option<int>,
                             existing: Option<nat>, target: nat,
                             llm: Option<Outcome>, verdict: Option<bool>)

  /** `scan_cap or slots * 4` */
  function ScanCap(x: Cycle): int {
    if x.scanCap.Some? && x.scanCap.value != 0 then x.scanCap.value else x.slots * 4
  }

  // ---- Loading ----

  function KnownIncoherent(table: Table): set<int> {
    set r, i | r in table && table[r].coherent == Some(false) && i in table[r].clusterIds :: i
  }

  function DistinctChains(x: Cycle, table: Table): set<set<int>> {
    set k | k in x.assignment && |x.assignment[k]| > 1
            && x.assignment[k] !! KnownIncoherent(table) :: x.assignment[k]
  }

  /** (len, max last_updated_at) of c is at least that of d. */
  ghost predicate RanksAtLeast(c: set<int>, d: set<int>, byId: map<int, Cluster>) {
    || |c| > |d|
    || (|c| == |d| && forall m :: m in d && m in byId ==>
          exists n :: n in c && n in byId && byId[n].lastUpdated >= byId[m].lastUpdated)
  }

  ghost predicate IsRanking(ranked: seq<set<int>>, chains: set<set<int>>, byId: map<int, Cluster>) {
    && (forall i, j :: 0 <= i < j < |ranked| ==> ranked[i] != ranked[j])
    && (forall c :: c in ranked <==> c in chains)
    && (forall i, j :: 0 <= i < j < |ranked| ==> RanksAtLeast(ranked[i], ranked[j], byId))
  }

  ghost predicate ValidInputs(x: Cycle, table: Table) {
    && (forall r :: r in x.picked <==> r in table && table[r].editorial)
    && IsRanking(x.ranked, DistinctChains(x, table), x.byId)
  }

  // ---- One chain ----

  /** What a lookup by anchor sees. */
  function View(x: Cycle, stored: Table, live: Table): Table {
    if x.autoflush then live else stored
  }

  /** The chain's member that was first seen last; ties may go either way. */
  ghost predicate IsAnchor(byId: map<int, Cluster>, chain: set<int>, anchor: Option<int>) {
    match anchor
    case None => forall i :: i in chain ==> i !in byId
    case Some(a) =>
      && a in chain && a in byId
      && forall i :: i in chain && i in byId ==> byId[i].firstSeen <= byId[a].firstSeen
  }

  function Matches(view: Table, chain: set<int>): set<nat> {
    set r | r in view && view[r].anchor in chain
  }

  function RecencyKey(row: Row): int {
    if row.generatedAt.Some? then row.generatedAt.value else row.pickedAt
  }

  /** The row that represents the chain: one at the target anchor if there is one, else the
      most recently generated match. The filter reads the database, the comparisons read the
      session's objects. */
  ghost predicate IsExisting(view: Table, live: Table, chain: set<int>, anchor: int, row: Option<nat>) {
    var matches := Matches(view, chain);
    match row
    case None => matches == {}
    case Some(r) =>
      && r in matches && r in live
      && if exists q :: q in matches && q in live && live[q].anchor == anchor
         then live[r].anchor == anchor
         else forall q :: q in matches && q in live ==> RecencyKey(live[q]) <= RecencyKey(live[r])
  }

  predicate NeedsGeneration(live: Table, row: Option<nat>, chain: set<int>) {
    row.None? || row.value !in live || live[row.value].generatedAt.None? || live[row.value].clusterIds != chain
  }

  ghost predicate Legal(x: Cycle, stored: Table, live: Table, a: Attempt) {
    && IsAnchor(x.byId, a.chain, a.anchor)
    && if a.anchor.None? then a.existing.None? && a.llm.None? && a.verdict.None?
       else
         && IsExisting(View(x, stored, live), live, a.chain, a.anchor.value, a.existing)
         && (a.existing.None? ==> a.target !in live)
         && (a.existing.Some? ==> a.target == a.existing.value)
         && (a.llm.Some? <==> NeedsGeneration(live, a.existing, a.chain))
         && a.verdict == match a.llm {
              case None => live[a.target].coherent
              case Some(Failed) => None
              case Some(o) => Some(o == Coherent)
            }
  }

  function NewRow(anchor: int, editorial: bool, now: int): Row {
    Row(anchor, editorial, {}, None, None, now, true, None)
  }

  /** The row after generation: re-pointed in any case, rewritten unless the service failed. */
  function Written(row: Row, a: Attempt, now: int): Row
    requires a.anchor.Some? && a.llm.Some?
  {
    var pointed := row.(anchor := a.anchor.value, editorial := a.editorial);
    if a.llm.value == Failed then pointed
    else pointed.(coherent := Some(a.llm.value == Coherent), clusterIds := a.chain, generatedAt := Some(now))
  }

  function Apply(x: Cycle, live: Table, a: Attempt): Table {
    if a.anchor.None? || a.llm.None? then live
    else
      var row := if a.target in live then live[a.target] else NewRow(a.anchor.value, a.editorial, x.now);
      live[a.target := Written(row, a, x.now)]
  }

  function ApplyAll(x: Cycle, live: Table, log: seq<Attempt>): Table
    decreases |log|
  {
    if log == [] then live else ApplyAll(x, Apply(x, live, log[0]), log[1..])
  }

  // ---- Selection ----

  /** An editorial attempt fills its slot whatever the verdict. */
  predicate Fills(a: Attempt) {
    a.anchor.Some? && (a.editorial || a.verdict == Some(true))
  }

  function FillCount(log: seq<Attempt>): nat {
    if log == [] then 0 else (if Fills(log[0]) then 1 else 0) + FillCount(log[1..])
  }

  function Used(log: seq<Attempt>): set<int> {
    set a, i | a in log && i in a.chain :: i
  }

  function Attempted(log: seq<Attempt>): set<int> {
    set a | a in log && a.anchor.Some? :: a.anchor.value
  }

  function Filled(log: seq<Attempt>): set<int> {
    set a | a in log && Fills(a) :: a.anchor.value
  }

  /** The chain an editorial row stands for now, read from the row as the session holds it. */
  function PickedChain(x: Cycle, live: Table, r: nat): set<int> {
    if r in live && live[r].anchor in x.assignment then x.assignment[live[r].anchor] else {}
  }

  /** Editorial picks in order; a pick without a chain, or overlapping an earlier one, is skipped. */
  ghost predicate EditorialLog(x: Cycle, stored: Table, picked: seq<nat>, used: set<int>, live: Table,
                               log: seq<Attempt>) {
    if picked == [] then log == []
    else
      var chain := PickedChain(x, live, picked[0]);
      if |chain| <= 1 || !(chain !! used) then EditorialLog(x, stored, picked[1..], used, live, log)
      else
        && log != [] && log[0].chain == chain && log[0].editorial
        && Legal(x, stored, live, log[0])
        && EditorialLog(x, stored, picked[1..], used + chain, Apply(x, live, log[0]), log[1..])
  }

  /** The fallback scan: skip what overlaps, stop when the slots are full or the cap is hit. */
  ghost predicate FallbackLog(x: Cycle, stored: Table, ranked: seq<set<int>>, used: set<int>,
                              remaining: int, scanned: nat, live: Table, log: seq<Attempt>)
  {
    if ranked == [] || remaining <= 0 || scanned >= ScanCap(x) then log == []
    else if !(ranked[0] !! used) then
      FallbackLog(x, stored, ranked[1..], used, remaining, scanned, live, log)
    else
      && log != [] && log[0].chain == ranked[0] && !log[0].editorial
      && Legal(x, stored, live, log[0])
      && FallbackLog(x, stored, ranked[1..], used + ranked[0], remaining - (if Fills(log[0]) then 1 else 0),
                     scanned + 1, Apply(x, live, log[0]), log[1..])
  }

  /** One whole selection: the session starts from the stored table. */
  ghost predicate Selection(x: Cycle, stored: Table, elog: seq<Attempt>, flog: seq<Attempt>) {
    && ValidInputs(x, stored)
    && EditorialLog(x, stored, x.picked, {}, stored, elog)
    && FallbackLog(x, stored, x.ranked, Used(elog), x.slots - |elog|, 0, ApplyAll(x, stored, elog), flog)
  }

  // ---- Flags ----

  function SetTop(row: Row, value: bool, now: int): Row {
    if value then row.(inTop := true, droppedAt := None)
    else if row.inTop then row.(inTop := false, droppedAt := Some(now))
    else row
  }

  /** Every attempted anchor is looked up and its row marked. */
  function Marked(x: Cycle, stored: Table, live: Table, log: seq<Attempt>): Table {
    var view := View(x, stored, live);
    map r | r in live ::
      if r in view && view[r].anchor in Attempted(log)
      then SetTop(live[r], view[r].anchor in Filled(log), x.now) else live[r]
  }

  /** After the flush, every row whose anchor was not attempted falls out of the top. */
  function Swept(x: Cycle, live: Table, log: seq<Attempt>): Table {
    map r | r in live ::
      if live[r].anchor in Attempted(log) then live[r] else SetTop(live[r], false, x.now)
  }

  function EndOfCycle(x: Cycle, stored: Table, log: seq<Attempt>): Table {
    var live := ApplyAll(x, stored, log);
    Swept(x, Marked(x, stored, live, log), log)
  }
}
