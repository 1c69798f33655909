/** What the evaluator says of a related pair that was not merged, against what the replay did. */
module ReplayDiagnosis {
  import opened Basics
  import opened Similarity
  import opened ReplaySpec
  import opened ReplayProofs

  // ---- Where the diagnosis is right ----

  /** The cluster that was chosen comes earlier in the scan than cluster c, though c too would
      have accepted the article. */
  ghost predicate Overtaken(x: Corpus, before: seq<nat>, order: seq<nat>, chosen: nat, c: nat)
    requires |before| < |x.articles|
  {
    var pool := Pool(x, before, order);
    && Accepts(x, before, c)
    && Accepts(x, before, chosen)
    && chosen in before
    && ComesBefore(pool, chosen, c)
  }

  ghost predicate ComesBefore(pool: seq<nat>, a: nat, b: nat) {
    exists i, j :: 0 <= i < j < |pool| && pool[i] == a && pool[j] == b
  }

  /** If a separated pair is diagnosed "lost to ordering" (simhash off, no candidate limit, and
      either all members are compared or the earlier article is a representative), then the
      later article did see the earlier one's cluster as an accepting candidate; it did not
      found a cluster, but joined one scanned before it. This holds in every replay. */
  lemma DiagnosisIsSound(x: Corpus, assign: seq<nat>, orders: seq<seq<nat>>, i: nat, j: nat)
    requires ValidRun(x, assign, orders) && SortedByTime(x.articles)
    requires !x.p.useSimhash && x.p.candidateLimit == None
    requires x.p.useBlocking ==> x.p.minShared >= 1
    requires i < j < |assign| && assign[i] != assign[j]
    requires x.p.compareAllMembers || Founds(assign, i)
    requires Diagnose(x.articles[i], x.articles[j], x.p, x.w, x.common) == LostToOrdering
    ensures Overtaken(x, assign[..j], orders[j], assign[j], assign[i])
  {
    DiagnosisIsSoundExactlyWhen(x, assign, orders, i, j);
    if x.p.useBlocking {
      DiagnosedPairShares(x, assign[..j], i);
    }
  }

  /** The same for every min_shared: the diagnosis is right exactly when blocking is off or the
      earlier article's cluster shares enough distinctive tokens, and at least one, with the
      later article. */
  lemma DiagnosisIsSoundExactlyWhen(x: Corpus, assign: seq<nat>, orders: seq<seq<nat>>, i: nat, j: nat)
    requires ValidRun(x, assign, orders) && SortedByTime(x.articles)
    requires !x.p.useSimhash && x.p.candidateLimit == None
    requires i < j < |assign| && assign[i] != assign[j]
    requires x.p.compareAllMembers || Founds(assign, i)
    requires Diagnose(x.articles[i], x.articles[j], x.p, x.w, x.common) == LostToOrdering
    ensures Overtaken(x, assign[..j], orders[j], assign[j], assign[i])
            <==> (x.p.useBlocking ==> assign[i] in SharingSet(x, assign[..j]))
  {
    RunPrefix(x, assign, orders, j);
    NumbersInUse(x, assign[..j], orders[..j]);
    SeparatedPair(x, assign[..j], orders[j], assign[j], i);
  }

  lemma SeparatedPair(x: Corpus, before: seq<nat>, order: seq<nat>, chosen: nat, i: nat)
    requires |before| < |x.articles| && SortedByTime(x.articles)
    requires LegalStep(x, before, order, chosen)
    requires forall d :: d in before <==> 0 <= d < ClusterCount(before)
    requires !x.p.useSimhash && x.p.candidateLimit == None
    requires i < |before| && before[i] != chosen
    requires x.p.compareAllMembers || Founds(before, i)
    requires Diagnose(x.articles[i], x.articles[|before|], x.p, x.w, x.common) == LostToOrdering
    ensures Overtaken(x, before, order, chosen, before[i])
            <==> (x.p.useBlocking ==> before[i] in SharingSet(x, before))
  {
    OfferedExactlyWhen(x, before, order, before[i]);
    LaterMembersStayInWindow(x, before, i);
    if before[i] in order {
      OfferedIsInPool(x, before, order, before[i]);
      DiagnosedPairAccepts(x, before, i);
      CandidateIsOvertaken(x, before, order, chosen, before[i]);
    } else {
      NotOfferedIsNotInPool(x, before, order, before[i]);
    }
  }

  lemma OfferedExactlyWhen(x: Corpus, before: seq<nat>, order: seq<nat>, c: nat)
    requires |before| < |x.articles| && LegalOrder(x, before, order)
    requires x.p.candidateLimit == None && c in before
    ensures c in order <==> (x.p.useBlocking ==> c in SharingSet(x, before))
  {
    TouchOrderElements(before);
  }

  lemma OfferedIsInPool(x: Corpus, before: seq<nat>, order: seq<nat>, c: nat)
    requires |before| < |x.articles| && x.p.candidateLimit == None
    requires c in order && c < ClusterCount(before) && InWindow(x, before, c)
    ensures c in Pool(x, before, order)
  {
    KeepElements(order, WindowSet(x, before));
  }

  lemma NotOfferedIsNotInPool(x: Corpus, before: seq<nat>, order: seq<nat>, c: nat)
    requires |before| < |x.articles| && x.p.candidateLimit == None && c !in order
    ensures c !in Pool(x, before, order)
  {
    KeepElements(order, WindowSet(x, before));
  }

  lemma DiagnosedPairAccepts(x: Corpus, before: seq<nat>, i: nat)
    requires |before| < |x.articles|
    requires !x.p.useSimhash
    requires i < |before|
    requires x.p.compareAllMembers || Founds(before, i)
    requires Diagnose(x.articles[i], x.articles[|before|], x.p, x.w, x.common) == LostToOrdering
    ensures Accepts(x, before, before[i])
  {
    var c := before[i];
    var ms := Members(before, c);
    DiagnosisIsSymmetric(x.articles[i], x.articles[|before|], x.p, x.w, x.common);
    MembersArePositions(before, c);
    MembersInTimeOrder(before, c);
    assert i in ms;
    if !x.p.compareAllMembers {
      assert before[ms[0]] == c && ms[0] <= i;
    }
    assert i in Targets(x, before, c);
  }

  lemma LaterMembersStayInWindow(x: Corpus, before: seq<nat>, i: nat)
    requires |before| < |x.articles| && SortedByTime(x.articles)
    requires i < |before|
    requires x.p.window.Some? ==> x.Dt(|before|) - x.Dt(i) <= x.p.window.value
    ensures InWindow(x, before, before[i])
  {
    MembersArePositions(before, before[i]);
    MembersInTimeOrder(before, before[i]);
    var ms := Members(before, before[i]);
    assert i in ms;
    assert ms[|ms| - 1] >= i;
  }

  lemma DiagnosedPairShares(x: Corpus, before: seq<nat>, i: nat)
    requires |before| < |x.articles| && i < |before|
    requires x.p.useBlocking && x.p.minShared >= 1
    requires Diagnose(x.articles[i], x.articles[|before|], x.p, x.w, x.common) == LostToOrdering
    ensures before[i] in SharingSet(x, before)
  {
    MembersArePositions(before, before[i]);
    CountBounds(before);
    var direct := x.Tokens(i) * x.Tokens(|before|) - x.common;
    var viaIndex := x.Distinctive(|before|) * UnionTokens(x, before, before[i]);
    assert i in Members(before, before[i]);
    assert forall t :: t in direct ==> t in viaIndex;
    SubsetSize(direct, viaIndex);
  }

  /** For every configuration and every separated pair, diagnosed or not: the later article's
      cluster overtook the earlier one's if and only if the earlier one's was among the
      candidates and one of its compared members passed every gate. */
  lemma OvertakenExactlyWhen(x: Corpus, assign: seq<nat>, orders: seq<seq<nat>>, i: nat, j: nat)
    requires ValidRun(x, assign, orders)
    requires i < j < |assign| && assign[i] != assign[j]
    ensures Overtaken(x, assign[..j], orders[j], assign[j], assign[i])
            <==> assign[i] in Pool(x, assign[..j], orders[j])
                 && exists m :: m in Targets(x, assign[..j], assign[i]) && x.Passes(j, m)
  {
    var before := assign[..j];
    RunPrefix(x, assign, orders, j);
    NumbersInUse(x, before, orders[..j]);
    if assign[i] in Pool(x, before, orders[j]) && Accepts(x, before, assign[i]) {
      CandidateIsOvertaken(x, before, orders[j], assign[j], assign[i]);
    }
  }

  lemma CandidateIsOvertaken(x: Corpus, before: seq<nat>, order: seq<nat>, chosen: nat, c: nat)
    requires |before| < |x.articles| && LegalStep(x, before, order, chosen) && c != chosen
    requires forall d :: d in before <==> 0 <= d < ClusterCount(before)
    requires c in Pool(x, before, order) && Accepts(x, before, c)
    ensures Overtaken(x, before, order, chosen, c)
  {
    ChosenComesFirst(x, before, Pool(x, before, order), c);
    PoolIsInWindow(x, before, order, chosen);
  }

  lemma ChosenComesFirst(x: Corpus, before: seq<nat>, pool: seq<nat>, c: nat)
    requires |before| < |x.articles| && c in pool && Accepts(x, before, c) && Choose(x, before, pool) != c
    ensures var chosen := Choose(x, before, pool);
            chosen in pool && Accepts(x, before, chosen) && ComesBefore(pool, chosen, c)
  {
    var joinedAt := ChooseIsFirstAccepting(x, before, pool);
    var at :| 0 <= at < |pool| && pool[at] == c;
    assert joinedAt < at;
  }

  // ---- The configurations the error analysis runs ----

  /** What shipped: CURRENT_PARAMS is the older baseline, SHIPPED_PARAMS the present one. The
      command takes either, with any threshold. */
  function CurrentParams(threshold: real): Params {
    Params(true, 18, MetricJaccard, false, threshold, 2, false, false, None, Some(100), false, true)
  }

  function ShippedParams(threshold: real, hours48: int): Params {
    Params(false, 18, MetricJaccard, true, threshold, 3, true, true, Some(hours48), None, true, true)
  }

  /** For the shipped configuration the diagnosis is always right. */
  lemma ShippedDiagnosisIsSound(x: Corpus, assign: seq<nat>, orders: seq<seq<nat>>, i: nat, j: nat,
                                threshold: real, hours48: int)
    requires x.p == ShippedParams(threshold, hours48)
    requires ValidRun(x, assign, orders) && SortedByTime(x.articles)
    requires i < j < |assign| && assign[i] != assign[j]
    requires Diagnose(x.articles[i], x.articles[j], x.p, x.w, x.common) == LostToOrdering
    ensures Overtaken(x, assign[..j], orders[j], assign[j], assign[i])
  {
    DiagnosisIsSound(x, assign, orders, i, j);
  }

  // ---- Where it fails: the simhash gate ----

  /** The simhash gate stands between the two articles. */
  predicate Vetoed(a: Article, b: Article, p: Params, w: World) {
    p.useSimhash && (a.simhash == 0 || b.simhash == 0 || w.hamming(a.simhash, b.simhash) > p.simhashMaxDistance)
  }

  /** The diagnosis does not look at simhashes, so with that gate on it blames the ordering for
      what the gate did. */
  lemma DiagnosisIgnoresSimhash(x: Corpus)
    requires |x.articles| == 2 && Vetoed(x.articles[1], x.articles[0], x.p, x.w)
    requires Diagnose(x.articles[0], x.articles[1], x.p, x.w, x.common) == LostToOrdering
    ensures LinearScan(x, 2) == [0, 1] && !Accepts(x, [0], 0)
  {
    assert !x.Passes(1, 0);
    ScanOfRejected(x);
  }

  lemma NoMemberPasses(x: Corpus, c: nat)
    requires |x.articles| >= 2 && !x.Passes(1, 0)
    ensures !Accepts(x, [0], c)
  {
    MembersArePositions([0], c);
    forall m | m in Targets(x, [0], c)
      ensures m == 0
    {
      assert m in Members([0], c);
    }
  }

  /** An article that does not pass the first founds the second cluster. */
  lemma ScanOfRejected(x: Corpus)
    requires |x.articles| >= 2 && !x.Passes(1, 0)
    ensures LinearScan(x, 2) == [0, 1] && !Accepts(x, [0], 0)
  {
    FirstFounds(x);
    assert LinearScan(x, 0) == [];
    assert LinearScan(x, 1) == [0];
    NoMemberPasses(x, 0);
    var pool := Pool(x, [0], ScanOrder(x, [0]));
    var i := ChooseIsFirstAccepting(x, [0], pool);
    if i < |pool| {
      NoMemberPasses(x, pool[i]);
    }
    TraceOfOne();
  }

  /** An article of the examples: three words, a simhash, and a category that is no region. */
  function Example(id: int, simhash: int, title: set<Token>): Article {
    Article(id, id, id, "national", title, title, simhash)
  }

  function TwoArticles(near: int, far: int): seq<Article> {
    [Example(1, near, {"court", "ruling", "water"}), Example(2, far, {"court", "ruling", "river"})]
  }

  lemma TwoSharedOfFour()
    ensures var a: set<Token>, b: set<Token> := {"court", "ruling", "water"}, {"court", "ruling", "river"};
            |a * b| == 2 && |a + b| == 4 && a != {} && b != {}
  {
    var a: set<Token>, b: set<Token> := {"court", "ruling", "water"}, {"court", "ruling", "river"};
    assert a * b == {"court", "ruling"};
    assert a + b == {"court", "ruling", "water", "river"};
  }

  /** On two articles that share two of four words the baseline configuration, at its own
      threshold, finds the pair lost to ordering; it is their simhashes that keep them apart. */
  lemma BaselineBlamesTheOrdering(w: World, common: set<Token>, near: int, far: int)
    requires "national" !in w.geo && near != 0 && far != 0 && w.hamming(far, near) > 18
    ensures var x := Corpus(TwoArticles(near, far), CurrentParams(0.25), w, common);
            && LinearScan(x, 2) == [0, 1]
            && Diagnose(x.articles[0], x.articles[1], x.p, x.w, x.common) == LostToOrdering
            && !Accepts(x, [0], 0)
  {
    var x := Corpus(TwoArticles(near, far), CurrentParams(0.25), w, common);
    TwoSharedOfFour();
    SharingHalfIsLost(x.articles[0], x.articles[1], x.w, x.common);
    DiagnosisIgnoresSimhash(x);
  }

  lemma SharingHalfIsLost(a: Article, b: Article, w: World, common: set<Token>)
    requires a.both != {} && b.both != {} && |a.both * b.both| == 2 && |a.both + b.both| == 4
    requires !GeoClash(a, b, w)
    ensures Diagnose(a, b, CurrentParams(0.25), w, common) == LostToOrdering
  {
    assert Jaccard(a.both, b.both) == 2.0 / 4.0;
  }

  // ---- Where it fails: only representatives are compared ----

  /** Of three articles the second joins the first and the third passes with the second but not
      with the first, the representative. It founds its own cluster: nothing overtook it. */
  lemma DiagnosisIgnoresRepresentatives(x: Corpus)
    requires |x.articles| == 3 && !x.p.compareAllMembers && !x.p.useBlocking && x.p.window == None
    requires x.Passes(1, 0) && !x.Passes(2, 0) && x.Passes(2, 1)
    ensures LinearScan(x, 3) == [0, 0, 1]
    ensures Diagnose(x.articles[1], x.articles[2], x.p, x.w, x.common) == LostToOrdering
    ensures !Accepts(x, [0, 0], 0)
  {
    FirstFounds(x);
    SecondJoins(x);
    ThirdFounds(x);
    ScanOfThree(x, 0, 0, 1);
    DiagnosisIsSymmetric(x.articles[1], x.articles[2], x.p, x.w, x.common);
  }

  lemma ScanOfThree(x: Corpus, a: nat, b: nat, c: nat)
    requires |x.articles| == 3
    requires ScanNext(x, []) == a && ScanNext(x, [a]) == b && ScanNext(x, [a, b]) == c
    ensures LinearScan(x, 3) == [a, b, c]
  {
    assert LinearScan(x, 0) == [];
    ScanOneMore(x, [], a);
    assert [] + [a] == [a];
    ScanOneMore(x, [a], b);
    ScanOneMore(x, [a, b], c);
    assert [a, b] + [c] == [a, b, c];
  }

  lemma OnlyCluster(x: Corpus, assign: seq<nat>)
    requires |assign| < |x.articles| && !x.p.useBlocking && x.p.window == None
    requires TouchOrder(assign) == [0] && ClusterCount(assign) == 1
    ensures Pool(x, assign, ScanOrder(x, assign)) == [0]
  {
    assert LimitScan([0], x.p.candidateLimit) == [0];
    assert 0 in WindowSet(x, assign);
    assert [0][1..] == [];
    assert Keep([0], WindowSet(x, assign)) == [0];
  }

  lemma SecondJoins(x: Corpus)
    requires |x.articles| == 3 && !x.p.useBlocking && x.p.window == None && x.Passes(1, 0)
    ensures ScanNext(x, [0]) == 0
  {
    TraceOfOne();
    OnlyCluster(x, [0]);
    assert 0 in Targets(x, [0], 0);
  }

  lemma TraceOfTwo()
    ensures Members([0, 0], 0) == [0, 1] && TouchOrder([0, 0]) == [0] && ClusterCount([0, 0]) == 1
  {
    TraceOfOne();
    assert [0, 0][..1] == [0];
    assert Without([0], 0) == [];
  }

  lemma ThirdFounds(x: Corpus)
    requires |x.articles| == 3 && !x.p.compareAllMembers && !x.p.useBlocking && x.p.window == None
    requires !x.Passes(2, 0)
    ensures ScanNext(x, [0, 0]) == 1
    ensures !Accepts(x, [0, 0], 0)
  {
    TraceOfTwo();
    OnlyCluster(x, [0, 0]);
    assert Targets(x, [0, 0], 0) == [0];
    RepresentativeRejects(x, [0, 0]);
    var i := ChooseIsFirstAccepting(x, [0, 0], [0]);
  }

  lemma RepresentativeRejects(x: Corpus, assign: seq<nat>)
    requires |assign| < |x.articles| && Targets(x, assign, 0) == [0] && !x.Passes(|assign|, 0)
    ensures !Accepts(x, assign, 0)
  {
  }

  function ThreeArticles(hash: int): seq<Article> {
    [Example(1, hash, {"court", "ruling", "water"}),
     Example(2, hash, {"court", "ruling", "river"}),
     Example(3, hash, {"river", "court", "delta"})]
  }

  /** The baseline configuration on three articles with one simhash: the third shares half its
      words with the second, one in five with the first, and is said to be lost to ordering. */
  lemma BaselineBlamesTheOrderingOfThree(w: World, common: set<Token>, hash: int)
    requires "national" !in w.geo && hash != 0 && w.hamming(hash, hash) <= 18
    ensures var x := Corpus(ThreeArticles(hash), CurrentParams(0.25), w, common);
            && LinearScan(x, 3) == [0, 0, 1]
            && Diagnose(x.articles[1], x.articles[2], x.p, x.w, x.common) == LostToOrdering
            && !Accepts(x, [0, 0], 0)
  {
    var x := Corpus(ThreeArticles(hash), CurrentParams(0.25), w, common);
    SharedWordsOfThree();
    HalfPasses(x.articles[1], x.articles[0], w);
    HalfPasses(x.articles[2], x.articles[1], w);
    DiagnosisIgnoresRepresentatives(x);
  }

  lemma SharedWordsOfThree()
    ensures var a := ThreeArticles(0);
            && |a[1].both * a[0].both| == 2 && |a[1].both + a[0].both| == 4
            && |a[2].both * a[1].both| == 2 && |a[2].both + a[1].both| == 4
            && |a[2].both * a[0].both| == 1
            && a[0].both != {} && a[1].both != {} && a[2].both != {}
  {
    var a := ThreeArticles(0);
    assert a[1].both * a[0].both == {"court", "ruling"} && a[2].both * a[1].both == {"court", "river"};
    assert a[1].both + a[0].both == {"court", "ruling", "water", "river"};
    assert a[2].both + a[1].both == {"court", "ruling", "river", "delta"};
    assert a[2].both * a[0].both == {"court"};
  }

  lemma HalfPasses(a: Article, b: Article, w: World)
    requires a.both != {} && b.both != {} && |a.both * b.both| == 2 && |a.both + b.both| == 4
    requires a.simhash != 0 && b.simhash != 0 && w.hamming(a.simhash, b.simhash) <= 18 && !GeoClash(a, b, w)
    ensures PassesGates(a, b, CurrentParams(0.25), w)
  {
    assert Jaccard(a.both, b.both) == 2.0 / 4.0;
  }

  // ---- Where it fails: the candidate limit ----

  /** The trace in which every article founds a cluster, and its clusters, latest first. */
  function Upto(n: nat): (s: seq<nat>)
    ensures |s| == n
  {
    seq(n, i requires 0 <= i < n => i)
  }

  function Downfrom(n: nat): (s: seq<nat>)
    ensures |s| == n
  {
    seq(n, i requires 0 <= i < n => n - 1 - i)
  }

  lemma {:induction false} TraceOfFounders(n: nat)
    ensures TouchOrder(Upto(n)) == Downfrom(n) && ClusterCount(Upto(n)) == n
  {
    if n > 0 {
      TraceOfFounders(n - 1);
      assert Upto(n)[..n - 1] == Upto(n - 1);
      NotWithin(Downfrom(n - 1), n - 1);
      DownfromStep(n);
    }
  }

  lemma DownfromStep(n: nat)
    requires n > 0
    ensures Downfrom(n) == [n - 1] + Downfrom(n - 1)
  {
  }

  lemma {:induction false} NotWithin(s: seq<nat>, c: nat)
    requires c !in s
    ensures Without(s, c) == s
  {
    if s != [] {
      NotWithin(s[1..], c);
    }
  }

  lemma FounderRejects(x: Corpus, k: nat, c: nat)
    requires k < |x.articles| && (c < k ==> !x.Passes(k, c))
    ensures !Accepts(x, Upto(k), c)
  {
    MembersArePositions(Upto(k), c);
    forall m | m in Targets(x, Upto(k), c)
      ensures m == c && c < k
    {
      assert m in Members(Upto(k), c);
    }
  }

  /** An article that passes with no founder of the clusters in its pool founds the next one. */
  lemma RejectedFounds(x: Corpus, k: nat)
    requires k < |x.articles|
    requires forall c :: c in Pool(x, Upto(k), ScanOrder(x, Upto(k))) && c < k ==> !x.Passes(k, c)
    ensures ScanNext(x, Upto(k)) == k
  {
    var pool := Pool(x, Upto(k), ScanOrder(x, Upto(k)));
    TraceOfFounders(k);
    var i := ChooseIsFirstAccepting(x, Upto(k), pool);
    if i < |pool| {
      FounderRejects(x, k, pool[i]);
    }
  }

  lemma OneMoreFounder(x: Corpus, k: nat)
    requires k < |x.articles| && LinearScan(x, k) == Upto(k) && ScanNext(x, Upto(k)) == k
    ensures LinearScan(x, k + 1) == Upto(k + 1)
  {
    ScanOneMore(x, Upto(k), k);
    UptoStep(k + 1);
  }

  lemma StrangerFounds(x: Corpus, k: nat)
    requires k < |x.articles| && LinearScan(x, k) == Upto(k) && forall m :: 0 <= m < k ==> !x.Passes(k, m)
    ensures LinearScan(x, k + 1) == Upto(k + 1)
  {
    RejectedFounds(x, k);
    OneMoreFounder(x, k);
  }

  lemma {:induction false} AllFound(x: Corpus, k: nat)
    requires k <= |x.articles| && forall i, m :: 0 <= m < i < k ==> !x.Passes(i, m)
    ensures LinearScan(x, k) == Upto(k)
  {
    if k > 0 {
      AllFound(x, k - 1);
      StrangerFounds(x, k - 1);
    }
  }

  lemma UptoStep(n: nat)
    requires n > 0
    ensures Upto(n) == Upto(n - 1) + [n - 1]
  {
  }

  /** With n + 1 clusters in the list and a limit of n the oldest is not compared. */
  lemma OldestIsCut(x: Corpus, n: nat)
    requires n >= 1 && |x.articles| > n + 1 && !x.p.useBlocking && x.p.candidateLimit == Some(n)
    ensures 0 !in Pool(x, Upto(n + 1), ScanOrder(x, Upto(n + 1)))
  {
    TraceOfFounders(n + 1);
    LimitDropsTheLast(n);
    KeepElements(LimitScan(Downfrom(n + 1), Some(n)), WindowSet(x, Upto(n + 1)));
  }

  lemma LimitDropsTheLast(n: nat)
    requires n >= 1
    ensures 0 !in LimitScan(Downfrom(n + 1), Some(n))
  {
  }

  /** n + 2 articles, a limit of n clusters: the last passes with the first alone, whose cluster
      n others have pushed off the list. It founds its own cluster: nothing overtook it. */
  lemma DiagnosisIgnoresTheLimit(x: Corpus, n: nat)
    requires n >= 1 && |x.articles| == n + 2
    requires !x.p.useBlocking && x.p.window == None && x.p.candidateLimit == Some(n)
    requires forall k, m :: 0 <= m < k <= n + 1 && (k, m) != (n + 1, 0) ==> !x.Passes(k, m)
    requires x.Passes(n + 1, 0)
    ensures LinearScan(x, n + 2) == Upto(n + 2)
    ensures Diagnose(x.articles[0], x.articles[n + 1], x.p, x.w, x.common) == LostToOrdering
    ensures 0 !in Pool(x, Upto(n + 1), ScanOrder(x, Upto(n + 1)))
  {
    LimitedFounds(x, n);
    PassingIsLost(x.articles[0], x.articles[n + 1], x.p, x.w, x.common);
  }

  lemma PassingIsLost(a: Article, b: Article, p: Params, w: World, common: set<Token>)
    requires !p.useBlocking && p.window == None && PassesGates(b, a, p, w)
    ensures Diagnose(a, b, p, w, common) == LostToOrdering
  {
    DiagnosisIsSymmetric(a, b, p, w, common);
  }

  lemma LimitedFounds(x: Corpus, n: nat)
    requires n >= 1 && |x.articles| == n + 2
    requires !x.p.useBlocking && x.p.window == None && x.p.candidateLimit == Some(n)
    requires forall k, m :: 0 <= m < k <= n + 1 && (k, m) != (n + 1, 0) ==> !x.Passes(k, m)
    ensures LinearScan(x, n + 2) == Upto(n + 2)
    ensures 0 !in Pool(x, Upto(n + 1), ScanOrder(x, Upto(n + 1)))
  {
    AllFound(x, n + 1);
    OldestIsCut(x, n);
    RejectedFounds(x, n + 1);
    OneMoreFounder(x, n + 1);
  }

  /** n articles on something else between two on the same thing. */
  function ManyBetween(n: nat, hash: int): (s: seq<Article>)
    ensures |s| == n + 2 && forall i :: 0 <= i < n + 2 ==> s[i] == OneOf(n, hash, i)
  {
    seq(n + 2, i requires 0 <= i < n + 2 => OneOf(n, hash, i))
  }

  function OneOf(n: nat, hash: int, i: int): Article {
    Example(i, hash, if i == 0 || i == n + 1 then {"court", "ruling"} else {"delta"})
  }

  /** The baseline configuration with its limit of a hundred clusters. */
  lemma BaselineBlamesTheOrderingOfMany(w: World, common: set<Token>, hash: int)
    requires "national" !in w.geo && hash != 0 && w.hamming(hash, hash) <= 18
    ensures var x := Corpus(ManyBetween(100, hash), CurrentParams(0.25), w, common);
            && LinearScan(x, 102) == Upto(102)
            && Diagnose(x.articles[0], x.articles[101], x.p, x.w, x.common) == LostToOrdering
            && 0 !in Pool(x, Upto(101), ScanOrder(x, Upto(101)))
  {
    var x := Corpus(ManyBetween(100, hash), CurrentParams(0.25), w, common);
    EndsPass(x, 100, hash);
    DiagnosisIgnoresTheLimit(x, 100);
  }

  lemma EndsPass(x: Corpus, n: nat, hash: int)
    requires x.articles == ManyBetween(n, hash) && x.p == CurrentParams(0.25)
    requires "national" !in x.w.geo && hash != 0 && x.w.hamming(hash, hash) <= 18
    ensures forall k: nat, m: nat :: m < k <= n + 1 ==> (x.Passes(k, m) <==> (k, m) == (n + 1, 0))
  {
    forall k: nat, m: nat | m < k <= n + 1
      ensures x.Passes(k, m) <==> (k, m) == (n + 1, 0)
    {
      OnlyTheEndsPass(x.articles[k], x.articles[m], x.w);
    }
  }

  lemma OnlyTheEndsPass(a: Article, b: Article, w: World)
    requires a.both == {"court", "ruling"} || a.both == {"delta"}
    requires b.both == {"court", "ruling"} || b.both == {"delta"}
    requires a.simhash != 0 && b.simhash != 0 && w.hamming(a.simhash, b.simhash) <= 18 && !GeoClash(a, b, w)
    ensures PassesGates(a, b, CurrentParams(0.25), w) <==> a.both == b.both == {"court", "ruling"}
  {
    var two: set<Token>, one: set<Token> := {"court", "ruling"}, {"delta"};
    assert |two| == 2 && |one| == 1 && two != one && two * two == two && two + two == two;
    assert two * one == {} && one * two == {} && one * one == one;
    assert "court" in two && "court" !in one;
  }

  // ---- Where it fails: min_shared and threshold at or below zero ----

  /** With min_shared and threshold at or below 0 the condition fails: of two articles that
      share no token, the diagnosis finds no gate in the way, yet blocking never offers the
      first one's cluster, so the second founds its own. */
  lemma DiagnosisNeedsPositiveMinShared(x: Corpus)
    requires |x.articles| == 2
    requires x.Tokens(0) != {} && x.Tokens(1) != {} && x.Tokens(0) * x.Tokens(1) == {}
    requires x.p.minShared <= 0 && x.p.threshold <= 0.0 && x.p.metric != MetricIdfOverlap
    requires x.p.useBlocking && x.p.candidateLimit == None && x.p.window == None
    requires !x.p.sameSourceGuard && !x.p.geoGuard
    ensures LinearScan(x, 2) == [0, 1]
    ensures Diagnose(x.articles[0], x.articles[1], x.p, x.w, x.common) == LostToOrdering
  {
    ScanOfTwo(x);
    NothingInTheWay(x.articles[0], x.articles[1], x.p, x.w, x.common);
  }

  lemma NothingInTheWay(a: Article, b: Article, p: Params, w: World, common: set<Token>)
    requires Field(a, p) != {} && Field(b, p) != {} && Field(a, p) * Field(b, p) == {}
    requires p.minShared <= 0 && p.threshold <= 0.0 && p.metric != MetricIdfOverlap
    requires p.window == None && !p.sameSourceGuard && !p.geoGuard
    ensures Diagnose(a, b, p, w, common) == LostToOrdering
  {
    assert |Field(a, p) * Field(b, p)| == 0;
  }

  lemma ScanOfTwo(x: Corpus)
    requires |x.articles| == 2 && x.p.useBlocking && x.p.candidateLimit == None
    requires x.Tokens(0) * x.Tokens(1) == {}
    ensures LinearScan(x, 2) == [0, 1]
  {
    FirstFounds(x);
    SecondFounds(x);
    assert LinearScan(x, 0) == [];
    assert LinearScan(x, 1) == [0];
  }

  lemma FirstFounds(x: Corpus)
    requires |x.articles| > 0
    ensures ScanNext(x, []) == 0
  {
    assert TouchOrder([]) == [];
  }

  lemma TraceOfOne()
    ensures Members([0], 0) == [0] && TouchOrder([0]) == [0] && ClusterCount([0]) == 1
  {
    assert [0][..0] == [];
  }

  lemma SecondFounds(x: Corpus)
    requires |x.articles| == 2 && x.p.useBlocking && x.p.candidateLimit == None
    requires x.Tokens(0) * x.Tokens(1) == {}
    ensures ScanNext(x, [0]) == 1
  {
    TraceOfOne();
    assert x.Distinctive(1) * UnionTokens(x, [0], 0) == {};
    assert SharingSet(x, [0]) == {};
    assert [0][1..] == [];
    assert Keep([0], {}) == [];
    assert ScanOrder(x, [0]) == [];
    assert Pool(x, [0], []) == [];
  }

  // ---- What the two configurations merge ----

  /** The shipped gates, spelled out. */
  lemma ShippedGates(a: Article, b: Article, w: World, threshold: real, hours48: int)
    ensures PassesGates(a, b, ShippedParams(threshold, hours48), w) <==>
              && a.title != {} && b.title != {} && |a.title * b.title| >= 3 && a.source != b.source
              && |a.title * b.title| as real >= threshold * |a.title + b.title| as real
              && !(a.category in w.geo && b.category in w.geo && a.category != b.category)
  {
    ConfirmsByJaccard(a, b, ShippedParams(threshold, hours48), w);
  }

  /** The baseline gates: title and snippet, and the simhashes within 18 bits. */
  lemma BaselineGates(a: Article, b: Article, w: World, threshold: real)
    ensures PassesGates(a, b, CurrentParams(threshold), w) <==>
              && a.simhash != 0 && b.simhash != 0 && w.hamming(a.simhash, b.simhash) <= 18
              && a.both != {} && b.both != {} && |a.both * b.both| >= 2
              && |a.both * b.both| as real >= threshold * |a.both + b.both| as real
              && !(a.category in w.geo && b.category in w.geo && a.category != b.category)
  {
    ConfirmsByJaccard(a, b, CurrentParams(threshold), w);
  }

  /** With the shipped parameters, and no common token, two articles share a cluster exactly when
      their titles share three tokens and enough of all, their sources and regions allow it, and
      the second comes within the window. */
  lemma ShippedPairJoinsExactlyWhen(x: Corpus, threshold: real, hours48: int)
    requires |x.articles| == 2 && x.p == ShippedParams(threshold, hours48) && x.common == {}
    ensures var a, b := x.articles[0], x.articles[1];
            LinearScan(x, 2) == [0, 0] <==>
              && |a.title * b.title| >= 3 && a.source != b.source
              && |a.title * b.title| as real >= threshold * |a.title + b.title| as real
              && !(a.category in x.w.geo && b.category in x.w.geo && a.category != b.category)
              && b.dt - a.dt <= hours48
  {
    ShippedGates(x.articles[1], x.articles[0], x.w, threshold, hours48);
    SwappedTitles(x.articles[0], x.articles[1]);
    SecondOfPair(x);
    SecondDecides(x, ScanNext(x, [0]));
  }

  lemma SecondDecides(x: Corpus, next: nat)
    requires |x.articles| >= 2 && next == ScanNext(x, [0])
    ensures LinearScan(x, 2) == [0, next]
    ensures LinearScan(x, 2) == [0, 0] <==> next == 0
  {
    FirstFounds(x);
    assert LinearScan(x, 0) == [];
    assert LinearScan(x, 1) == [0];
    ScanOneMore(x, [0], next);
    assert [0] + [next] == [0, next] && [0, next][1] == next;
  }

  lemma SwappedTitles(a: Article, b: Article)
    ensures b.title * a.title == a.title * b.title && b.title + a.title == a.title + b.title
    ensures |a.title * b.title| > 0 ==> a.title != {} && b.title != {}
  {
  }

  lemma SecondOfPair(x: Corpus)
    requires |x.articles| == 2 && x.p.useBlocking && x.p.minShared >= 1 && x.p.candidateLimit == None && x.common == {}
    ensures ScanNext(x, [0]) == 0 <==> x.Passes(1, 0) && InWindow(x, [0], 0)
    ensures InWindow(x, [0], 0) <==> (x.p.window.Some? ==> x.articles[1].dt - x.articles[0].dt <= x.p.window.value)
  {
    TraceOfOne();
    OneMember(x);
    PoolOfPair(x);
    if x.Passes(1, 0) {
      PassingShares(x);
    }
    ChoiceOfOne(x, Pool(x, [0], ScanOrder(x, [0])));
  }

  lemma ChoiceOfOne(x: Corpus, pool: seq<nat>)
    requires |x.articles| == 2 && forall c :: c in pool ==> c == 0
    ensures Choose(x, [0], pool) == 0 <==> 0 in pool && Accepts(x, [0], 0)
  {
    TraceOfOne();
    var i := ChooseIsFirstAccepting(x, [0], pool);
    assert forall j :: 0 <= j < |pool| ==> pool[j] in pool;
  }

  lemma PoolOfPair(x: Corpus)
    requires |x.articles| == 2 && x.p.useBlocking && x.p.candidateLimit == None
    ensures var pool := Pool(x, [0], ScanOrder(x, [0]));
            && (0 in pool <==> 0 in SharingSet(x, [0]) && InWindow(x, [0], 0))
            && forall c :: c in pool ==> c == 0
  {
    TraceOfOne();
    ScanPoolElements(x, [0]);
  }

  lemma ScanPoolElements(x: Corpus, assign: seq<nat>)
    requires |assign| < |x.articles| && x.p.useBlocking && x.p.candidateLimit == None
    ensures forall c :: c in Pool(x, assign, ScanOrder(x, assign))
                        <==> c in TouchOrder(assign) && c in SharingSet(x, assign) && c in WindowSet(x, assign)
  {
    KeepElements(TouchOrder(assign), SharingSet(x, assign));
    KeepElements(ScanOrder(x, assign), WindowSet(x, assign));
  }

  lemma OneMember(x: Corpus)
    requires |x.articles| == 2
    ensures Accepts(x, [0], 0) <==> x.Passes(1, 0)
  {
    TraceOfOne();
    assert Targets(x, [0], 0) == [0];
  }

  lemma PassingShares(x: Corpus)
    requires |x.articles| == 2 && x.p.minShared >= 1 && x.common == {} && x.Passes(1, 0)
    ensures 0 in SharingSet(x, [0])
  {
    TraceOfOne();
    assert UnionTokens(x, [0], 0) == x.Tokens(0);
    assert x.Distinctive(1) == x.Tokens(1);
  }
}
