/** The single-pass greedy clusterer, described by the trace it leaves: assign[k] is the
    cluster that the k-th article (in time order) was put into. Everything else that the
    replay keeps (member lists, postings, recency list) is a function of that trace. */
module ReplaySpec {
  import opened Basics
  import opened Similarity

  datatype Corpus = Corpus(articles: seq<Article>, p: Params, w: World, common: set<Token>) {
    function Tokens(k: nat): set<Token> {
      if k < |articles| then Field(articles[k], p) else {}
    }

    /** The tokens of the k-th article that may be used as blocking keys. */
    function Distinctive(k: nat): set<Token> {
      Tokens(k) - common
    }

    function Dt(k: nat): int {
      if k < |articles| then articles[k].dt else 0
    }

    /** The m-th article passes every gate as a target of the k-th. */
    predicate Passes(k: nat, m: nat) {
      k < |articles| && m < |articles| && PassesGates(articles[k], articles[m], p, w)
    }
  }

  /** The positions put into cluster c, earliest first; the first one founded the cluster. */
  function Members(assign: seq<nat>, c: nat): seq<nat> {
    if assign == [] then [] else
      var k := |assign| - 1;
      if assign[k] == c then Members(assign[..k], c) + [k] else Members(assign[..k], c)
  }

  /** How many clusters exist after the trace. */
  function ClusterCount(assign: seq<nat>): nat {
    if assign == [] then 0 else
      var k := |assign| - 1;
      if assign[k] < ClusterCount(assign[..k]) then ClusterCount(assign[..k]) else assign[k] + 1
  }

  function Without(s: seq<nat>, c: nat): seq<nat> {
    if s == [] then []
    else if s[0] == c then Without(s[1..], c)
    else [s[0]] + Without(s[1..], c)
  }

  /** The clusters, most recently touched first (move-to-front). */
  function TouchOrder(assign: seq<nat>): seq<nat> {
    if assign == [] then [] else
      var k := |assign| - 1;
      [assign[k]] + Without(TouchOrder(assign[..k]), assign[k])
  }

  /** The subsequence of s whose elements are in good. */
  function Keep(s: seq<nat>, good: set<nat>): seq<nat> {
    if s == [] then []
    else if s[0] in good then [s[0]] + Keep(s[1..], good)
    else Keep(s[1..], good)
  }

  /** A Python slice s[:n]: a negative n counts from the end. */
  function PySliceTo(s: seq<nat>, n: int): seq<nat> {
    if n >= |s| then s
    else if n >= 0 then s[..n]
    else if |s| + n >= 0 then s[..|s| + n]
    else []
  }

  /** The recency scan stops after appending, so it always takes at least one cluster. */
  function LimitScan(s: seq<nat>, limit: Option<int>): seq<nat> {
    match limit
    case None => s
    case Some(n) => if |s| <= 1 || n >= |s| then s else if n <= 1 then s[..1] else s[..n]
  }

  /** All tokens of the members of cluster c. */
  ghost function UnionTokens(x: Corpus, assign: seq<nat>, c: nat): set<Token>
    requires |assign| <= |x.articles|
  {
    set m, t | m in Members(assign, c) && t in x.Tokens(m) :: t
  }

  /** How many distinctive tokens the next article shares with the members of cluster c. */
  ghost function SharedCount(x: Corpus, assign: seq<nat>, c: nat): nat
    requires |assign| < |x.articles|
  {
    |x.Distinctive(|assign|) * UnionTokens(x, assign, c)|
  }

  ghost function SharingSet(x: Corpus, assign: seq<nat>): set<nat>
    requires |assign| < |x.articles|
  {
    set c: nat | c < ClusterCount(assign) && SharedCount(x, assign, c) >= 1
                 && SharedCount(x, assign, c) >= x.p.minShared
  }

  predicate InWindow(x: Corpus, assign: seq<nat>, c: nat)
    requires |assign| < |x.articles|
  {
    var ms := Members(assign, c);
    x.p.window.Some? ==>
      ms != [] && x.Dt(ms[|ms| - 1]) >= x.Dt(|assign|) - x.p.window.value
  }

  function WindowSet(x: Corpus, assign: seq<nat>): set<nat>
    requires |assign| < |x.articles|
  {
    set c: nat | c < ClusterCount(assign) && InWindow(x, assign, c)
  }

  /** The clusters that are compared, in order, once the content or recency stage has
      produced `order`: the time window first, the blocked limit last. */
  function Pool(x: Corpus, assign: seq<nat>, order: seq<nat>): seq<nat>
    requires |assign| < |x.articles|
  {
    var inWindow := Keep(order, WindowSet(x, assign));
    if x.p.useBlocking && x.p.candidateLimit.Some?
    then PySliceTo(inWindow, x.p.candidateLimit.value) else inWindow
  }

  /** The members of cluster c that a new article is compared with. */
  function Targets(x: Corpus, assign: seq<nat>, c: nat): seq<nat> {
    var ms := Members(assign, c);
    if x.p.compareAllMembers || ms == [] then ms else ms[..1]
  }

  ghost predicate Accepts(x: Corpus, assign: seq<nat>, c: nat)
    requires |assign| < |x.articles|
  {
    exists m :: m in Targets(x, assign, c) && x.Passes(|assign|, m)
  }

  /** First match wins; otherwise a new cluster is founded. */
  ghost function Choose(x: Corpus, assign: seq<nat>, pool: seq<nat>): nat
    requires |assign| < |x.articles|
  {
    if pool == [] then ClusterCount(assign)
    else if Accepts(x, assign, pool[0]) then pool[0]
    else Choose(x, assign, pool[1..])
  }

  function LastDt(x: Corpus, assign: seq<nat>, c: nat): int
    requires |assign| <= |x.articles|
  {
    var ms := Members(assign, c);
    if ms == [] then 0 else x.Dt(ms[|ms| - 1])
  }

  predicate Distinct(s: seq<nat>) {
    forall i, j :: 0 <= i < j < |s| ==> s[i] != s[j]
  }

  /** The blocked candidates: exactly the clusters that share enough distinctive tokens, most
      recent last article first. Equal times may come in any order, as they do in the source,
      where that order is the iteration order of a hash set. */
  ghost predicate IsSharingOrder(x: Corpus, assign: seq<nat>, order: seq<nat>)
    requires |assign| < |x.articles|
  {
    && Distinct(order)
    && (forall c :: c in order <==> c in SharingSet(x, assign))
    && (forall i, j :: 0 <= i < j < |order| ==> LastDt(x, assign, order[i]) >= LastDt(x, assign, order[j]))
  }

  ghost predicate LegalOrder(x: Corpus, assign: seq<nat>, order: seq<nat>)
    requires |assign| < |x.articles|
  {
    if x.p.useBlocking then IsSharingOrder(x, assign, order)
    else order == LimitScan(TouchOrder(assign), x.p.candidateLimit)
  }

  /** One legal placement of the next article. */
  ghost predicate LegalStep(x: Corpus, assign: seq<nat>, order: seq<nat>, chosen: nat)
    requires |assign| < |x.articles|
  {
    && LegalOrder(x, assign, order)
    && chosen == Choose(x, assign, Pool(x, assign, order))
  }

  /** A replay of the first |assign| articles: every placement is legal after the ones before. */
  ghost predicate ValidRun(x: Corpus, assign: seq<nat>, orders: seq<seq<nat>>)
    decreases |assign|
  {
    && |assign| == |orders| <= |x.articles|
    && (assign == [] ||
        var k := |assign| - 1;
        ValidRun(x, assign[..k], orders[..k]) && LegalStep(x, assign[..k], orders[k], assign[k]))
  }

  /** The simple form: walk the clusters in recency order, keep those that qualify by
      comparing token sets directly, and take the first that accepts. No index, no sorting. */
  ghost function ScanOrder(x: Corpus, assign: seq<nat>): seq<nat>
    requires |assign| < |x.articles|
  {
    if x.p.useBlocking then Keep(TouchOrder(assign), SharingSet(x, assign))
    else LimitScan(TouchOrder(assign), x.p.candidateLimit)
  }

  ghost function ScanNext(x: Corpus, assign: seq<nat>): nat
    requires |assign| < |x.articles|
  {
    Choose(x, assign, Pool(x, assign, ScanOrder(x, assign)))
  }

  ghost function LinearScan(x: Corpus, n: nat): (assign: seq<nat>)
    requires n <= |x.articles|
    ensures |assign| == n
  {
    if n == 0 then [] else
      var before := LinearScan(x, n - 1);
      before + [ScanNext(x, before)]
  }

  /** The map from article id to cluster that the replay returns. */
  function AsMap(articles: seq<Article>, assign: seq<nat>): map<int, nat>
    requires |assign| <= |articles|
  {
    if assign == [] then map[] else
      var k := |assign| - 1;
      AsMap(articles, assign[..k])[articles[k].id := assign[k]]
  }
}
