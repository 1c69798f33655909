/** What every replay guarantees. */
module ReplayProofs {
  import opened Basics
  import opened Similarity
  import opened ReplaySpec

  ghost predicate SortedByTime(articles: seq<Article>) {
    forall i, j :: 0 <= i < j < |articles| ==> articles[i].dt <= articles[j].dt
  }

  ghost predicate StrictlyByTime(articles: seq<Article>) {
    forall i, j :: 0 <= i < j < |articles| ==> articles[i].dt < articles[j].dt
  }

  // ---- Clusters partition the articles ----

  lemma {:induction false} MembersArePositions(assign: seq<nat>, c: nat)
    ensures forall k :: k in Members(assign, c) <==> 0 <= k < |assign| && assign[k] == c
  {
    if assign != [] {
      var last := |assign| - 1;
      MembersArePositions(assign[..last], c);
      forall k | 0 <= k < |assign| && assign[k] == c
        ensures k in Members(assign, c)
      {
        assert k < last ==> assign[..last][k] == c;
      }
    }
  }

  lemma {:induction false} MembersInTimeOrder(assign: seq<nat>, c: nat)
    ensures forall i :: 0 <= i < |Members(assign, c)| ==>
              Members(assign, c)[i] < |assign| && assign[Members(assign, c)[i]] == c
    ensures forall i, j :: 0 <= i < j < |Members(assign, c)| ==> Members(assign, c)[i] < Members(assign, c)[j]
  {
    if assign != [] {
      MembersInTimeOrder(assign[..|assign| - 1], c);
    }
  }

  /** Position k is the first of its cluster. */
  predicate Founds(assign: seq<nat>, k: nat)
    requires k < |assign|
  {
    forall m :: 0 <= m < k ==> assign[m] != assign[k]
  }

  lemma {:induction false} CountBounds(assign: seq<nat>)
    ensures forall k :: 0 <= k < |assign| ==> assign[k] < ClusterCount(assign)
  {
    if assign != [] {
      var k := |assign| - 1;
      CountBounds(assign[..k]);
      assert forall i :: 0 <= i < k ==> assign[i] == assign[..k][i];
    }
  }

  lemma ChooseIsFirstAccepting(x: Corpus, assign: seq<nat>, pool: seq<nat>) returns (i: nat)
    requires |assign| < |x.articles|
    ensures i <= |pool|
    ensures forall j :: 0 <= j < i ==> !Accepts(x, assign, pool[j])
    ensures i < |pool| ==> Choose(x, assign, pool) == pool[i] && Accepts(x, assign, pool[i])
    ensures i == |pool| ==> Choose(x, assign, pool) == ClusterCount(assign)
  {
    if pool == [] {
      i := 0;
    } else if Accepts(x, assign, pool[0]) {
      i := 0;
    } else {
      var i' := ChooseIsFirstAccepting(x, assign, pool[1..]);
      i := i' + 1;
      assert forall j :: 0 < j < i ==> pool[j] == pool[1..][j - 1];
    }
  }

  lemma {:induction false} KeepElements(s: seq<nat>, good: set<nat>)
    ensures forall c :: c in Keep(s, good) <==> c in s && c in good
    ensures Distinct(s) ==> Distinct(Keep(s, good))
  {
    if s != [] {
      KeepElements(s[1..], good);
    }
  }

  lemma PoolIsInWindow(x: Corpus, assign: seq<nat>, order: seq<nat>, c: nat)
    requires |assign| < |x.articles|
    requires c in Pool(x, assign, order)
    ensures c in order && c in WindowSet(x, assign)
  {
    KeepElements(order, WindowSet(x, assign));
  }

  /** Every legal step either founds the next cluster or joins a cluster in its pool. */
  lemma StepJoinsOrFounds(x: Corpus, assign: seq<nat>, order: seq<nat>, chosen: nat)
    requires |assign| < |x.articles|
    requires LegalStep(x, assign, order, chosen)
    ensures chosen <= ClusterCount(assign)
    ensures chosen < ClusterCount(assign) ==>
              && chosen in Pool(x, assign, order)
              && InWindow(x, assign, chosen)
              && Accepts(x, assign, chosen)
  {
    var pool := Pool(x, assign, order);
    var i := ChooseIsFirstAccepting(x, assign, pool);
    if i < |pool| {
      PoolIsInWindow(x, assign, order, pool[i]);
    }
  }

  /** Cluster numbers are handed out densely: every number below the count has members. */
  lemma {:induction false} EveryClusterHasMembers(x: Corpus, assign: seq<nat>, orders: seq<seq<nat>>, c: nat)
    requires ValidRun(x, assign, orders)
    requires c < ClusterCount(assign)
    ensures exists k :: 0 <= k < |assign| && assign[k] == c
  {
    var k := |assign| - 1;
    StepJoinsOrFounds(x, assign[..k], orders[k], assign[k]);
    if assign[k] != c {
      EveryClusterHasMembers(x, assign[..k], orders[..k], c);
      var i :| 0 <= i < k && assign[..k][i] == c;
      assert assign[i] == c;
    }
  }

  /** Every prefix of a replay is one, and every placement was legal when it was made. */
  lemma {:induction false} RunPrefix(x: Corpus, assign: seq<nat>, orders: seq<seq<nat>>, n: nat)
    requires ValidRun(x, assign, orders)
    requires n <= |assign|
    ensures ValidRun(x, assign[..n], orders[..n])
    ensures n < |assign| ==> LegalStep(x, assign[..n], orders[n], assign[n])
    decreases |assign|
  {
    var k := |assign| - 1;
    if n < k {
      RunPrefix(x, assign[..k], orders[..k], n);
      assert assign[..k][..n] == assign[..n] && orders[..k][..n] == orders[..n];
    } else if n == |assign| {
      assert assign[..n] == assign && orders[..n] == orders;
    }
  }

  /** A cluster accepts only through one of its members; the founder when only
      representatives are compared. */
  lemma AcceptingMember(x: Corpus, assign: seq<nat>, c: nat) returns (m: nat)
    requires |assign| < |x.articles| && Accepts(x, assign, c)
    ensures m < |assign| && assign[m] == c
    ensures x.Passes(|assign|, m)
    ensures !x.p.compareAllMembers ==> Founds(assign, m)
  {
    m :| m in Targets(x, assign, c) && x.Passes(|assign|, m);
    var ms := Members(assign, c);
    MembersArePositions(assign, c);
    assert m in ms;
    if !x.p.compareAllMembers {
      assert m == ms[0];
      FirstMemberFounds(assign, c);
    }
  }

  lemma FirstMemberFounds(assign: seq<nat>, c: nat)
    requires Members(assign, c) != []
    ensures Members(assign, c)[0] < |assign| && Founds(assign, Members(assign, c)[0])
  {
    var ms := Members(assign, c);
    MembersArePositions(assign, c);
    MembersInTimeOrder(assign, c);
    forall i | 0 <= i < ms[0]
      ensures assign[i] != c
    {
      assert i !in ms;
    }
  }

  lemma LastMemberDt(x: Corpus, assign: seq<nat>, c: nat, prev: nat)
    requires |assign| <= |x.articles|
    requires prev < |assign| && assign[prev] == c && c !in assign[prev + 1..]
    ensures var ms := Members(assign, c); ms != [] && ms[|ms| - 1] == prev
  {
    MembersArePositions(assign, c);
    MembersInTimeOrder(assign, c);
    var ms := Members(assign, c);
    assert prev in ms;
    forall i | prev < i < |assign|
      ensures assign[i] != c
    {
      assert assign[i] == assign[prev + 1..][i - prev - 1];
    }
  }

  /** Some earlier member of cluster c passes every gate with the article that follows the
      trace; the founder does, when only representatives are compared. */
  ghost predicate JoinsThroughGates(x: Corpus, before: seq<nat>, c: nat)
    requires |before| < |x.articles|
  {
    exists m :: 0 <= m < |before| && before[m] == c
      && x.Passes(|before|, m)
      && (!x.p.compareAllMembers ==> Founds(before, m))
  }

  /** The article that follows the trace is within the window of the latest member of c. */
  ghost predicate GapWithinWindow(x: Corpus, before: seq<nat>, c: nat)
    requires |before| < |x.articles|
  {
    forall prev :: x.p.window.Some? && 0 <= prev < |before| && before[prev] == c && c !in before[prev + 1..]
      ==> x.Dt(|before|) - x.Dt(prev) <= x.p.window.value
  }

  lemma NumbersInUse(x: Corpus, assign: seq<nat>, orders: seq<seq<nat>>)
    requires ValidRun(x, assign, orders)
    ensures forall c :: c in assign <==> 0 <= c < ClusterCount(assign)
  {
    CountBounds(assign);
    forall c: nat | c < ClusterCount(assign)
      ensures c in assign
    {
      EveryClusterHasMembers(x, assign, orders, c);
    }
  }

  lemma StepStructure(x: Corpus, before: seq<nat>, order: seq<nat>, c: nat)
    requires |before| < |x.articles|
    requires LegalStep(x, before, order, c)
    requires forall d :: d in before <==> 0 <= d < ClusterCount(before)
    ensures c in before || c == ClusterCount(before)
    ensures c in before ==> JoinsThroughGates(x, before, c)
    ensures GapWithinWindow(x, before, c)
  {
    StepJoinsOrFounds(x, before, order, c);
    if c in before {
      var m := AcceptingMember(x, before, c);
      InWindowBoundsGap(x, before, c);
    }
  }

  lemma InWindowBoundsGap(x: Corpus, before: seq<nat>, c: nat)
    requires |before| < |x.articles| && InWindow(x, before, c)
    ensures GapWithinWindow(x, before, c)
  {
    forall prev | x.p.window.Some? && 0 <= prev < |before| && before[prev] == c && c !in before[prev + 1..]
      ensures x.Dt(|before|) - x.Dt(prev) <= x.p.window.value
    {
      LastMemberDt(x, before, c, prev);
    }
  }

  /** Replay structure. Article k either founds a cluster, numbered next, or joins one that
      already has an earlier member passing every gate with it (the founder, when only
      representatives are compared), and the gap to the cluster's previous article is within
      the window. This holds for every order in which ties were broken. */
  lemma ReplayStructure(x: Corpus, assign: seq<nat>, orders: seq<seq<nat>>, k: nat)
    requires ValidRun(x, assign, orders)
    requires k < |assign|
    ensures forall c :: c in assign[..k] <==> 0 <= c < ClusterCount(assign[..k])
    ensures assign[k] in assign[..k] || assign[k] == ClusterCount(assign[..k])
    ensures assign[k] in assign[..k] ==> JoinsThroughGates(x, assign[..k], assign[k])
    ensures GapWithinWindow(x, assign[..k], assign[k])
  {
    RunPrefix(x, assign, orders, k);
    NumbersInUse(x, assign[..k], orders[..k]);
    StepStructure(x, assign[..k], orders[k], assign[k]);
  }

  // ---- The index refines the linear scan ----

  lemma {:induction false} WithoutElements(s: seq<nat>, c: nat)
    ensures forall d :: d in Without(s, c) <==> d in s && d != c
    ensures Distinct(s) ==> Distinct(Without(s, c))
  {
    if s != [] {
      WithoutElements(s[1..], c);
      assert Distinct(s) ==> s[0] !in s[1..];
    }
  }

  lemma {:induction false} TouchOrderElements(assign: seq<nat>)
    ensures forall c :: c in TouchOrder(assign) <==> c in assign
    ensures Distinct(TouchOrder(assign))
  {
    if assign != [] {
      var k := |assign| - 1;
      TouchOrderElements(assign[..k]);
      WithoutElements(TouchOrder(assign[..k]), assign[k]);
      assert assign == assign[..k] + [assign[k]];
      assert assign[k] !in Without(TouchOrder(assign[..k]), assign[k]);
    }
  }

  /** The position of the last member; the order of these is the recency order. */
  function LastPos(assign: seq<nat>, c: nat): int {
    if assign == [] then -1 else
      var k := |assign| - 1;
      if assign[k] == c then k else LastPos(assign[..k], c)
  }

  lemma {:induction false} LastPosIsLastMember(assign: seq<nat>, c: nat)
    ensures var ms := Members(assign, c);
            if ms == [] then LastPos(assign, c) == -1 else LastPos(assign, c) == ms[|ms| - 1]
    ensures LastPos(assign, c) < |assign|
  {
    if assign != [] {
      LastPosIsLastMember(assign[..|assign| - 1], c);
    }
  }

  ghost predicate DescendingBy(s: seq<nat>, assign: seq<nat>) {
    forall i, j :: 0 <= i < j < |s| ==> LastPos(assign, s[i]) > LastPos(assign, s[j])
  }

  lemma {:induction false} WithoutDescending(s: seq<nat>, c: nat, assign: seq<nat>)
    requires DescendingBy(s, assign)
    ensures DescendingBy(Without(s, c), assign)
  {
    if s != [] {
      WithoutDescending(s[1..], c, assign);
      WithoutElements(s[1..], c);
      forall d | d in s[1..]
        ensures LastPos(assign, s[0]) > LastPos(assign, d)
      {
      }
    }
  }

  lemma {:induction false} KeepDescending(s: seq<nat>, good: set<nat>, assign: seq<nat>)
    requires DescendingBy(s, assign)
    ensures DescendingBy(Keep(s, good), assign)
  {
    if s != [] {
      KeepDescending(s[1..], good, assign);
      KeepElements(s[1..], good);
      forall d | d in s[1..]
        ensures LastPos(assign, s[0]) > LastPos(assign, d)
      {
      }
    }
  }

  lemma {:induction false} TouchOrderDescending(assign: seq<nat>)
    ensures DescendingBy(TouchOrder(assign), assign)
  {
    if assign != [] {
      var k := |assign| - 1;
      var before := assign[..k];
      TouchOrderDescending(before);
      var rest := Without(TouchOrder(before), assign[k]);
      WithoutDescending(TouchOrder(before), assign[k], before);
      WithoutElements(TouchOrder(before), assign[k]);
      forall i | 0 <= i < |rest|
        ensures LastPos(assign, rest[i]) == LastPos(before, rest[i]) < k
      {
        assert rest[i] in rest;
        LastPosIsLastMember(before, rest[i]);
      }
    }
  }

  /** Two duplicate-free lists of the same clusters, both most recent first, are equal. */
  lemma {:induction false} DescendingIsUnique(s: seq<nat>, t: seq<nat>, assign: seq<nat>)
    requires DescendingBy(s, assign) && DescendingBy(t, assign)
    requires forall c :: c in s <==> c in t
    ensures s == t
  {
    assert s != [] ==> s[0] in t;
    assert t != [] ==> t[0] in s;
    if s != [] {
      assert s[0] == t[0];
      forall c
        ensures c in s[1..] <==> c in t[1..]
      {
        if c in s[1..] {
          var i :| 0 <= i < |s[1..]| && s[1..][i] == c;
          assert s[i + 1] == c && c in t && LastPos(assign, s[0]) > LastPos(assign, c);
          var j :| 0 <= j < |t| && t[j] == c;
          assert t[1..][j - 1] == c;
        }
        if c in t[1..] {
          var i :| 0 <= i < |t[1..]| && t[1..][i] == c;
          assert t[i + 1] == c && c in s && LastPos(assign, t[0]) > LastPos(assign, c);
          var j :| 0 <= j < |s| && s[j] == c;
          assert s[1..][j - 1] == c;
        }
      }
      DescendingIsUnique(s[1..], t[1..], assign);
    }
  }

  lemma {:induction false} LastPosIsMember(assign: seq<nat>, c: nat)
    requires c in assign
    ensures 0 <= LastPos(assign, c) < |assign| && assign[LastPos(assign, c)] == c
  {
    var k := |assign| - 1;
    if assign[k] != c {
      assert c in assign[..k];
      LastPosIsMember(assign[..k], c);
    }
  }

  lemma LastPosFacts(x: Corpus, assign: seq<nat>, c: nat)
    requires |assign| <= |x.articles| && c in assign
    ensures var k := LastPos(assign, c);
            0 <= k < |assign| && assign[k] == c && LastDt(x, assign, c) == x.Dt(k)
  {
    LastPosIsMember(assign, c);
    LastPosIsLastMember(assign, c);
  }

  lemma LastPosByDt(x: Corpus, assign: seq<nat>, a: nat, b: nat)
    requires |assign| <= |x.articles| && SortedByTime(x.articles)
    requires a in assign && b in assign
    requires LastDt(x, assign, a) > LastDt(x, assign, b)
    ensures LastPos(assign, a) > LastPos(assign, b)
  {
    LastPosFacts(x, assign, a);
    LastPosFacts(x, assign, b);
  }

  /** No two clusters that share enough with the next article were last touched at the same time. */
  ghost predicate TieFree(x: Corpus, assign: seq<nat>)
    requires |assign| < |x.articles|
  {
    forall a, b :: a in SharingSet(x, assign) && b in SharingSet(x, assign) && a != b ==>
      LastDt(x, assign, a) != LastDt(x, assign, b)
  }

  /** At no point of the run does a tie leave the order of the candidates open. */
  ghost predicate NeverTied(x: Corpus, assign: seq<nat>)
    requires |assign| <= |x.articles|
  {
    SortedByTime(x.articles) && forall k :: 0 <= k < |assign| ==> TieFree(x, assign[..k])
  }

  /** Distinct times rule ties out beforehand. */
  lemma DistinctTimesNeverTie(x: Corpus, assign: seq<nat>, orders: seq<seq<nat>>)
    requires ValidRun(x, assign, orders) && StrictlyByTime(x.articles)
    ensures NeverTied(x, assign)
  {
    forall k | 0 <= k < |assign|
      ensures TieFree(x, assign[..k])
    {
      RunPrefix(x, assign, orders, k);
      NumbersInUse(x, assign[..k], orders[..k]);
      NoTieAt(x, assign[..k]);
    }
  }

  lemma NoTieAt(x: Corpus, before: seq<nat>)
    requires |before| < |x.articles| && StrictlyByTime(x.articles)
    requires forall c :: c in before <==> 0 <= c < ClusterCount(before)
    ensures TieFree(x, before)
  {
    forall a, b | a in SharingSet(x, before) && b in SharingSet(x, before) && a != b
      ensures LastDt(x, before, a) != LastDt(x, before, b)
    {
      LastPosFacts(x, before, a);
      LastPosFacts(x, before, b);
    }
  }

  /** Without ties, sorting by last article time is the recency order. */
  lemma SharingOrderIsScanOrder(x: Corpus, assign: seq<nat>, order: seq<nat>)
    requires |assign| < |x.articles|
    requires SortedByTime(x.articles) && TieFree(x, assign)
    requires IsSharingOrder(x, assign, order)
    requires forall c :: c in SharingSet(x, assign) ==> c in assign
    ensures order == Keep(TouchOrder(assign), SharingSet(x, assign))
  {
    var good := SharingSet(x, assign);
    var scan := Keep(TouchOrder(assign), good);
    TouchOrderElements(assign);
    TouchOrderDescending(assign);
    KeepElements(TouchOrder(assign), good);
    KeepDescending(TouchOrder(assign), good, assign);
    forall i, j | 0 <= i < j < |order|
      ensures LastPos(assign, order[i]) > LastPos(assign, order[j])
    {
      assert order[i] in order && order[j] in order && order[i] != order[j];
      LastPosByDt(x, assign, order[i], order[j]);
    }
    DescendingIsUnique(order, scan, assign);
  }

  lemma LegalOrderIsScanOrder(x: Corpus, assign: seq<nat>, order: seq<nat>)
    requires |assign| < |x.articles|
    requires x.p.useBlocking ==> SortedByTime(x.articles) && TieFree(x, assign)
    requires LegalOrder(x, assign, order)
    requires forall c :: c in assign <==> 0 <= c < ClusterCount(assign)
    ensures order == ScanOrder(x, assign)
  {
    if x.p.useBlocking {
      SharingOrderIsScanOrder(x, assign, order);
    }
  }

  lemma StepIsScan(x: Corpus, assign: seq<nat>, orders: seq<seq<nat>>, k: nat)
    requires ValidRun(x, assign, orders) && k < |assign|
    requires x.p.useBlocking ==> NeverTied(x, assign)
    ensures assign[k] == ScanNext(x, assign[..k])
  {
    RunPrefix(x, assign, orders, k);
    NumbersInUse(x, assign[..k], orders[..k]);
    LegalOrderIsScanOrder(x, assign[..k], orders[k]);
  }

  lemma {:induction false} ScanUpTo(x: Corpus, assign: seq<nat>, orders: seq<seq<nat>>, n: nat)
    requires ValidRun(x, assign, orders) && n <= |assign|
    requires x.p.useBlocking ==> NeverTied(x, assign)
    ensures IsScanUpTo(x, assign, n)
  {
    if n > 0 {
      ScanUpTo(x, assign, orders, n - 1);
      StepIsScan(x, assign, orders, n - 1);
      ScanIsExtended(x, assign, n - 1);
    }
  }

  ghost predicate IsScanUpTo(x: Corpus, assign: seq<nat>, n: nat) {
    n <= |assign| <= |x.articles| && assign[..n] == LinearScan(x, n)
  }

  lemma ScanIsExtended(x: Corpus, assign: seq<nat>, n: nat)
    requires IsScanUpTo(x, assign, n) && n < |assign| && assign[n] == ScanNext(x, assign[..n])
    ensures IsScanUpTo(x, assign, n + 1)
  {
    ScanOneMore(x, assign[..n], assign[n]);
    TakeOneMore(assign, n);
  }

  lemma TakeOneMore(s: seq<nat>, n: nat)
    requires n < |s|
    ensures s[..n + 1] == s[..n] + [s[n]]
  {
  }

  lemma TakeAll(s: seq<nat>)
    ensures s[..|s|] == s
  {
  }

  /** Index refines scan: as long as no tie comes up, and none does when no two articles have the
      same time, every replay (blocked or not, with any candidate limit) makes exactly the
      placements of the linear scan. */
  lemma {:induction false} IndexRefinesScan(x: Corpus, assign: seq<nat>, orders: seq<seq<nat>>)
    requires ValidRun(x, assign, orders)
    requires x.p.useBlocking ==> NeverTied(x, assign)
    ensures assign == LinearScan(x, |assign|)
  {
    ScanUpTo(x, assign, orders, |assign|);
    TakeAll(assign);
  }

  lemma ScanOneMore(x: Corpus, before: seq<nat>, next: nat)
    requires |before| < |x.articles| && before == LinearScan(x, |before|) && next == ScanNext(x, before)
    ensures before + [next] == LinearScan(x, |before| + 1)
  {
  }

  lemma ScanOrderIsLegal(x: Corpus, assign: seq<nat>)
    requires |assign| < |x.articles| && SortedByTime(x.articles)
    requires forall c :: c in assign <==> 0 <= c < ClusterCount(assign)
    ensures LegalOrder(x, assign, ScanOrder(x, assign))
  {
    if x.p.useBlocking {
      var scan := ScanOrder(x, assign);
      TouchOrderElements(assign);
      TouchOrderDescending(assign);
      KeepElements(TouchOrder(assign), SharingSet(x, assign));
      KeepDescending(TouchOrder(assign), SharingSet(x, assign), assign);
      forall i, j | 0 <= i < j < |scan|
        ensures LastDt(x, assign, scan[i]) >= LastDt(x, assign, scan[j])
      {
        assert scan[i] in scan && scan[j] in scan;
        LastPosFacts(x, assign, scan[i]);
        LastPosFacts(x, assign, scan[j]);
      }
    }
  }

  ghost function ScanOrders(x: Corpus, n: nat): (orders: seq<seq<nat>>)
    requires n <= |x.articles|
    ensures |orders| == n
  {
    if n == 0 then [] else ScanOrders(x, n - 1) + [ScanOrder(x, LinearScan(x, n - 1))]
  }

  /** Conversely, equal times or not, the linear scan is one of the replays. */
  lemma {:induction false} LinearScanIsAReplay(x: Corpus, n: nat)
    requires n <= |x.articles| && SortedByTime(x.articles)
    ensures ValidRun(x, LinearScan(x, n), ScanOrders(x, n))
  {
    if n > 0 {
      var before := LinearScan(x, n - 1);
      LinearScanIsAReplay(x, n - 1);
      NumbersInUse(x, before, ScanOrders(x, n - 1));
      ScanOrderIsLegal(x, before);
      assert LinearScan(x, n)[..n - 1] == before && ScanOrders(x, n)[..n - 1] == ScanOrders(x, n - 1);
      assert LegalStep(x, before, ScanOrder(x, before), ScanNext(x, before));
    }
  }

  // ---- Blocking changes nothing when no token is common ----

  lemma {:induction false} ChooseIgnoresRejected(x: Corpus, assign: seq<nat>, s: seq<nat>, good: set<nat>)
    requires |assign| < |x.articles|
    requires forall c :: c in s && c !in good ==> !Accepts(x, assign, c)
    ensures Choose(x, assign, s) == Choose(x, assign, Keep(s, good))
  {
    if s != [] {
      ChooseIgnoresRejected(x, assign, s[1..], good);
      var kept := Keep(s, good);
      if s[0] in good {
        assert kept[0] == s[0] && kept[1..] == Keep(s[1..], good);
      } else {
        assert s[0] in s;
        assert kept == Keep(s[1..], good);
      }
    }
  }

  lemma {:induction false} KeepCommutes(s: seq<nat>, a: set<nat>, b: set<nat>)
    ensures Keep(Keep(s, a), b) == Keep(Keep(s, b), a)
  {
    if s != [] {
      KeepCommutes(s[1..], a, b);
      var sa, sb := Keep(s, a), Keep(s, b);
      assert sa == if s[0] in a then [s[0]] + Keep(s[1..], a) else Keep(s[1..], a);
      assert sb == if s[0] in b then [s[0]] + Keep(s[1..], b) else Keep(s[1..], b);
      assert s[0] in a ==> sa[1..] == Keep(s[1..], a);
      assert s[0] in b ==> sb[1..] == Keep(s[1..], b);
    }
  }

  ghost predicate NoCommonTokens(x: Corpus) {
    forall k :: 0 <= k < |x.articles| ==> x.Tokens(k) !! x.common
  }

  /** A cluster that accepts shares min_shared tokens with one of its members, hence with all. */
  lemma AcceptingClusterShares(x: Corpus, assign: seq<nat>, c: nat)
    requires |assign| < |x.articles|
    requires NoCommonTokens(x) && x.p.minShared >= 1
    requires c < ClusterCount(assign) && Accepts(x, assign, c)
    ensures c in SharingSet(x, assign)
  {
    var k := |assign|;
    var m :| m in Targets(x, assign, c) && x.Passes(k, m);
    var direct := x.Tokens(k) * x.Tokens(m);
    var viaIndex := x.Distinctive(k) * UnionTokens(x, assign, c);
    assert m in Members(assign, c);
    forall t | t in direct
      ensures t in viaIndex
    {
      assert t in x.Tokens(k) && t !in x.common;
    }
    assert direct <= viaIndex;
    SubsetSize(direct, viaIndex);
  }

  function Unblocked(x: Corpus): Corpus {
    x.(p := x.p.(useBlocking := false))
  }

  lemma BlockingKeepsChoice(x: Corpus, before: seq<nat>)
    requires |before| < |x.articles|
    requires NoCommonTokens(x) && x.p.minShared >= 1 && x.p.candidateLimit == None && x.p.useBlocking
    ensures ScanNext(x, before) == ScanNext(Unblocked(x), before)
  {
    var y := Unblocked(x);
    var touched, sharing, window := TouchOrder(before), SharingSet(x, before), WindowSet(x, before);
    SameUnderUnblocking(x, before);
    TouchOrderElements(before);
    CountBounds(before);
    KeepElements(touched, window);
    forall c | c in Keep(touched, window) && c !in sharing
      ensures !Accepts(y, before, c)
    {
      if Accepts(x, before, c) {
        AcceptingClusterShares(x, before, c);
      }
    }
    ChooseIgnoresRejected(y, before, Keep(touched, window), sharing);
    KeepCommutes(touched, window, sharing);
    ChooseSame(x, y, before, Keep(Keep(touched, sharing), window));
  }

  /** When no token of the fixture is common, the config without a candidate limit places
      every article exactly as the unblocked branch does. min_shared must be positive: below
      that the unblocked branch may match articles that share nothing. */
  lemma {:induction false} BlockingIsTransparent(x: Corpus, n: nat)
    requires n <= |x.articles|
    requires NoCommonTokens(x) && x.p.minShared >= 1 && x.p.candidateLimit == None && x.p.useBlocking
    ensures LinearScan(x, n) == LinearScan(Unblocked(x), n)
  {
    if n > 0 {
      BlockingIsTransparent(x, n - 1);
      BlockingKeepsChoice(x, LinearScan(x, n - 1));
    }
  }

  lemma SameUnderUnblocking(x: Corpus, assign: seq<nat>)
    requires |assign| < |x.articles|
    ensures var y := Unblocked(x);
            && WindowSet(x, assign) == WindowSet(y, assign)
            && forall c :: Accepts(x, assign, c) == Accepts(y, assign, c)
  {
    var y := Unblocked(x);
    assert forall c :: InWindow(x, assign, c) == InWindow(y, assign, c);
    forall c
      ensures Accepts(x, assign, c) == Accepts(y, assign, c)
    {
      assert Targets(x, assign, c) == Targets(y, assign, c);
      assert forall m :: m in Targets(x, assign, c) ==>
          x.Passes(|assign|, m) == y.Passes(|assign|, m);
    }
  }

  lemma {:induction false} ChooseSame(x: Corpus, y: Corpus, assign: seq<nat>, pool: seq<nat>)
    requires |assign| < |x.articles| == |y.articles|
    requires forall c :: Accepts(x, assign, c) == Accepts(y, assign, c)
    ensures Choose(x, assign, pool) == Choose(y, assign, pool)
  {
    if pool != [] {
      ChooseSame(x, y, assign, pool[1..]);
    }
  }

  // ---- The limit ----

  /** The blocked limit takes that many candidates from the front; a negative one leaves that
      many out at the end. */
  lemma LimitCutsThePool(x: Corpus, assign: seq<nat>, order: seq<nat>)
    requires |assign| < |x.articles| && x.p.useBlocking && x.p.candidateLimit.Some?
    ensures var inWindow, pool := Keep(order, WindowSet(x, assign)), Pool(x, assign, order);
            var n := x.p.candidateLimit.value;
            && pool <= inWindow
            && (n >= 0 ==> |pool| == if n <= |inWindow| then n else |inWindow|)
            && (n < 0 ==> |pool| == if |inWindow| + n >= 0 then |inWindow| + n else 0)
  {
  }
}
