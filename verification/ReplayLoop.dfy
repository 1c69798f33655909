/** The replay as it is run: an inverted index, a drifting recency list, growing member
    lists and an assignment map, updated one article at a time. */
module ReplayLoop {
  import opened Basics
  import opened Similarity
  import opened ReplaySpec
  import opened ReplayProofs

  // ---- The blocking index ----

  /** The positions of the articles that contain t. */
  function Positions(articles: seq<Article>, p: Params, t: Token): seq<nat> {
    if articles == [] then [] else
      var k := |articles| - 1;
      if t in Field(articles[k], p) then Positions(articles[..k], p, t) + [k] else Positions(articles[..k], p, t)
  }

  /** max(int(n * 0.02), 50) */
  function CommonCap(n: nat): nat {
    if n / 50 > 50 then n / 50 else 50
  }

  /** The tokens found in more articles than the cap allows; they are no blocking keys. */
  ghost function CommonTokens(articles: seq<Article>, p: Params): set<Token> {
    set k, t | 0 <= k < |articles| && t in Field(articles[k], p)
               && |Positions(articles, p, t)| > CommonCap(|articles|) :: t
  }

  lemma {:induction false} PositionsBounds(articles: seq<Article>, p: Params, t: Token)
    ensures |Positions(articles, p, t)| <= |articles|
    ensures Positions(articles, p, t) != [] <==> exists k :: 0 <= k < |articles| && t in Field(articles[k], p)
  {
    if articles != [] {
      var k := |articles| - 1;
      PositionsBounds(articles[..k], p, t);
      if i :| 0 <= i < |articles| && t in Field(articles[i], p) {
        assert i < k ==> articles[..k][i] == articles[i];
      }
    }
  }

  /** A fixture of at most 50 articles has no common tokens, so on it blocking is transparent. */
  lemma SmallCorpusBlockingIsTransparent(x: Corpus)
    requires |x.articles| <= 50 && x.common == CommonTokens(x.articles, x.p)
    requires x.p.useBlocking && x.p.minShared >= 1 && x.p.candidateLimit == None
    ensures LinearScan(x, |x.articles|) == LinearScan(Unblocked(x), |x.articles|)
  {
    forall t
      ensures t !in x.common
    {
      PositionsBounds(x.articles, x.p, t);
    }
    BlockingIsTransparent(x, |x.articles|);
  }

  method BlockingIndex(articles: seq<Article>, p: Params)
    returns (postings: map<Token, seq<nat>>, common: set<Token>)
    ensures forall t :: t in postings <==> Positions(articles, p, t) != []
    ensures forall t :: t in postings ==> postings[t] == Positions(articles, p, t)
    ensures common == CommonTokens(articles, p)
  {
    postings := map[];
    for i := 0 to |articles|
      invariant forall t :: t in postings <==> Positions(articles[..i], p, t) != []
      invariant forall t :: t in postings ==> postings[t] == Positions(articles[..i], p, t)
    {
      ghost var before := postings;
      var tokens := Field(articles[i], p);
      var rest := tokens;
      assert articles[..i + 1][..i] == articles[..i];
      while rest != {}
        invariant rest <= tokens
        invariant forall t :: t in postings <==> t in before || t in tokens - rest
        invariant forall t :: t in postings ==>
            postings[t] == if t in tokens - rest then Positions(articles[..i], p, t) + [i]
                           else Positions(articles[..i], p, t)
        decreases rest
      {
        var tok :| tok in rest;
        postings := postings[tok := (if tok in postings then postings[tok] else []) + [i]];
        rest := rest - {tok};
      }
      assert forall t :: Positions(articles[..i + 1], p, t)
                         == if t in tokens then Positions(articles[..i], p, t) + [i]
                            else Positions(articles[..i], p, t);
    }
    assert articles[..|articles|] == articles;
    common := set t | t in postings && |postings[t]| > CommonCap(|articles|);
    forall t
      ensures t in common <==> t in CommonTokens(articles, p)
    {
      PositionsBounds(articles, p, t);
    }
  }

  // ---- Candidate lookup through the index ----

  ghost predicate Posted(postings: map<Token, set<nat>>, t: Token, c: nat) {
    t in postings && c in postings[t]
  }

  /** The tokens whose posting set contains c. */
  ghost function HitTokens(tokens: set<Token>, postings: map<Token, set<nat>>, c: nat): set<Token> {
    set t | t in tokens && Posted(postings, t, c)
  }

  lemma HitTokensGrow(done: set<Token>, tok: Token, postings: map<Token, set<nat>>, c: nat)
    requires tok !in done
    ensures |HitTokens(done + {tok}, postings, c)| ==
            |HitTokens(done, postings, c)| + if tok in postings && c in postings[tok] then 1 else 0
  {
    var old', new' := HitTokens(done, postings, c), HitTokens(done + {tok}, postings, c);
    if tok in postings && c in postings[tok] {
      assert new' == old' + {tok};
    } else {
      assert new' == old';
    }
  }

  method CountHits(tokens: set<Token>, common: set<Token>, postings: map<Token, set<nat>>)
    returns (hits: map<nat, nat>)
    ensures forall c :: c in hits <==> HitTokens(tokens - common, postings, c) != {}
    ensures forall c :: c in hits ==> hits[c] == |HitTokens(tokens - common, postings, c)|
  {
    hits := map[];
    var rest := tokens;
    while rest != {}
      invariant rest <= tokens
      invariant forall c :: c in hits <==> |HitTokens(tokens - rest - common, postings, c)| > 0
      invariant forall c :: c in hits ==> hits[c] == |HitTokens(tokens - rest - common, postings, c)|
      decreases rest
    {
      var tok :| tok in rest;
      ghost var done := tokens - rest - common;
      rest := rest - {tok};
      if tok in common {
        assert tokens - rest - common == done;
        continue;
      }
      assert tokens - rest - common == done + {tok};
      if tok in postings {
        hits := AddOne(hits, postings[tok]);
      }
      forall c: nat
        ensures |HitTokens(done + {tok}, postings, c)| ==
                |HitTokens(done, postings, c)| + if tok in postings && c in postings[tok] then 1 else 0
      {
        HitTokensGrow(done, tok, postings, c);
      }
    }
    assert tokens - rest - common == tokens - common;
  }

  /** hits[idx] += 1 for every idx of a posting set. */
  method AddOne(hits: map<nat, nat>, clusters: set<nat>) returns (r: map<nat, nat>)
    ensures r.Keys == hits.Keys + clusters
    ensures forall c :: c in r ==>
              r[c] == (if c in hits then hits[c] else 0) + if c in clusters then 1 else 0
  {
    r := hits;
    var rest := clusters;
    while rest != {}
      invariant rest <= clusters
      invariant r.Keys == hits.Keys + (clusters - rest)
      invariant forall c :: c in r ==>
                  r[c] == (if c in hits then hits[c] else 0) + if c in clusters - rest then 1 else 0
      decreases rest
    {
      var c :| c in rest;
      r := r[c := (if c in r then r[c] else 0) + 1];
      rest := rest - {c};
    }
  }

  predicate SortedDescending(s: seq<nat>, key: seq<int>) {
    && (forall i :: 0 <= i < |s| ==> s[i] < |key|)
    && forall i, j :: 0 <= i < j < |s| ==> key[s[i]] >= key[s[j]]
  }

  function InsertDescending(s: seq<nat>, c: nat, key: seq<int>): (r: seq<nat>)
    requires c < |key| && forall i :: 0 <= i < |s| ==> s[i] < |key|
    ensures forall d :: d in r <==> d in s || d == c
  {
    if s == [] then [c]
    else if key[c] >= key[s[0]] then [c] + s
    else [s[0]] + InsertDescending(s[1..], c, key)
  }

  lemma {:induction false} InsertKeepsOrder(s: seq<nat>, c: nat, key: seq<int>)
    requires SortedDescending(s, key) && Distinct(s) && c < |key| && c !in s
    ensures SortedDescending(InsertDescending(s, c, key), key) && Distinct(InsertDescending(s, c, key))
  {
    var r := InsertDescending(s, c, key);
    if s != [] && key[c] < key[s[0]] {
      InsertKeepsOrder(s[1..], c, key);
      var rest := InsertDescending(s[1..], c, key);
      forall i | 0 <= i < |rest|
        ensures rest[i] != s[0] && rest[i] < |key| && key[s[0]] >= key[rest[i]]
      {
        assert rest[i] in rest;
        assert rest[i] in s[1..] || rest[i] == c;
      }
    }
  }

  /** The clusters hit often enough, latest last article first. */
  method SharingCandidates(hits: map<nat, nat>, minShared: int, key: seq<int>) returns (order: seq<nat>)
    requires forall c :: c in hits ==> c < |key|
    ensures SortedDescending(order, key) && Distinct(order)
    ensures forall c :: c in order <==> c in hits && hits[c] >= minShared
  {
    order := [];
    var rest := hits.Keys;
    while rest != {}
      invariant rest <= hits.Keys
      invariant SortedDescending(order, key) && Distinct(order)
      invariant forall c :: c in order <==> c in hits && c !in rest && hits[c] >= minShared
      decreases rest
    {
      var c :| c in rest;
      rest := rest - {c};
      if hits[c] >= minShared {
        InsertKeepsOrder(order, c, key);
        order := InsertDescending(order, c, key);
      }
    }
  }

  // ---- Candidate lookup through the recency list ----

  function Reverse(s: seq<nat>): seq<nat> {
    if s == [] then [] else [s[|s| - 1]] + Reverse(s[..|s| - 1])
  }

  /** s without the later copies of its elements. */
  function Dedup(s: seq<nat>): seq<nat> {
    if s == [] then [] else
      var n := |s| - 1;
      var r := Dedup(s[..n]);
      if s[n] in r then r else r + [s[n]]
  }

  lemma {:induction false} WithoutAppend(s: seq<nat>, d: nat, c: nat)
    ensures Without(s + [d], c) == if d == c then Without(s, c) else Without(s, c) + [d]
  {
    if s != [] {
      assert (s + [d])[1..] == s[1..] + [d];
      WithoutAppend(s[1..], d, c);
    }
  }

  lemma DedupSnoc(s: seq<nat>, a: nat)
    ensures Dedup(s + [a]) == if a in Dedup(s) then Dedup(s) else Dedup(s) + [a]
  {
    assert (s + [a])[..|s|] == s;
  }

  lemma {:induction false} DedupCons(c: nat, s: seq<nat>)
    ensures Dedup([c] + s) == [c] + Without(Dedup(s), c)
  {
    if s != [] {
      var t, a := s[..|s| - 1], s[|s| - 1];
      DedupCons(c, t);
      assert s == t + [a];
      DedupConsSnoc(c, t, a);
    } else {
      DedupSnoc([], c);
      assert [] + [c] == [c] == [c] + s;
    }
  }

  lemma ConsSnoc(c: nat, t: seq<nat>, a: nat)
    ensures [c] + (t + [a]) == [c] + t + [a]
  {
  }

  lemma DedupConsSnoc(c: nat, t: seq<nat>, a: nat)
    requires Dedup([c] + t) == [c] + Without(Dedup(t), c)
    ensures Dedup([c] + (t + [a])) == [c] + Without(Dedup(t + [a]), c)
  {
    var d := Dedup(t);
    ConsSnoc(c, t, a);
    DedupSnoc([c] + t, a);
    DedupSnoc(t, a);
    WithoutElements(d, c);
    WithoutAppend(d, a, c);
    ConsSnoc(c, Without(d, c), a);
  }

  /** Scanning the recency list and skipping stale duplicates visits the clusters in
      move-to-front order. */
  lemma {:induction false} RecencyListIsTouchOrder(assign: seq<nat>)
    ensures Dedup(Reverse(assign)) == TouchOrder(assign)
  {
    if assign != [] {
      var k := |assign| - 1;
      RecencyListIsTouchOrder(assign[..k]);
      DedupCons(assign[k], Reverse(assign[..k]));
    }
  }

  lemma {:induction false} DedupPrefix(s: seq<nat>, n: nat)
    requires n <= |s|
    ensures Dedup(s[..n]) <= Dedup(s)
  {
    if n < |s| {
      DedupPrefix(s[..|s| - 1], n);
      assert s[..|s| - 1][..n] == s[..n];
    } else {
      assert s[..n] == s;
    }
  }

  method RecentCandidates(recent: seq<nat>, limit: Option<int>) returns (order: seq<nat>)
    ensures order == LimitScan(Dedup(recent), limit)
  {
    order := [];
    var seen: set<nat> := {};
    for i := 0 to |recent|
      invariant order == Dedup(recent[..i])
      invariant forall c :: c in seen <==> c in order
      invariant limit.Some? && order != [] ==> |order| < limit.value
    {
      assert recent[..i + 1][..i] == recent[..i];
      if recent[i] in seen { continue; }
      seen := seen + {recent[i]};
      order := order + [recent[i]];
      DedupPrefix(recent, i + 1);
      if limit.Some? && |order| >= limit.value {
        return;
      }
    }
    assert recent[..|recent|] == recent;
  }

  // ---- Matching ----

  method FilterWindow(x: Corpus, ghost assign: seq<nat>, clusters: seq<seq<nat>>, k: nat, order: seq<nat>)
    returns (kept: seq<nat>)
    requires k == |assign| < |x.articles|
    requires |clusters| == ClusterCount(assign)
    requires forall c :: 0 <= c < |clusters| ==> clusters[c] == Members(assign, c) && clusters[c] != []
    requires forall i :: 0 <= i < |order| ==> order[i] < |clusters|
    ensures kept == Keep(order, WindowSet(x, assign))
  {
    kept := [];
    for i := 0 to |order|
      invariant kept + Keep(order[i..], WindowSet(x, assign)) == Keep(order, WindowSet(x, assign))
    {
      var c := order[i];
      assert order[i..][1..] == order[i + 1..];
      var ms := clusters[c];
      assert c in WindowSet(x, assign) <==> InWindow(x, assign, c);
      if x.p.window.None? || x.Dt(ms[|ms| - 1]) >= x.Dt(k) - x.p.window.value {
        kept := kept + [c];
      }
    }
  }

  method PassesAny(x: Corpus, k: nat, targets: seq<nat>) returns (found: bool)
    requires k < |x.articles|
    ensures found <==> exists m :: m in targets && x.Passes(k, m)
  {
    for j := 0 to |targets|
      invariant forall i :: 0 <= i < j ==> !x.Passes(k, targets[i])
    {
      if x.Passes(k, targets[j]) {
        assert targets[j] in targets;
        return true;
      }
    }
    return false;
  }

  method FindMatch(x: Corpus, ghost assign: seq<nat>, clusters: seq<seq<nat>>, k: nat, pool: seq<nat>)
    returns (matched: Option<nat>)
    requires k == |assign| < |x.articles|
    requires forall c :: 0 <= c < |clusters| ==> clusters[c] == Members(assign, c) && clusters[c] != []
    requires forall i :: 0 <= i < |pool| ==> pool[i] < |clusters|
    ensures Choose(x, assign, pool) == if matched.Some? then matched.value else ClusterCount(assign)
    ensures matched.Some? ==> matched.value in pool
  {
    for i := 0 to |pool|
      invariant Choose(x, assign, pool[i..]) == Choose(x, assign, pool)
    {
      assert pool[i..][1..] == pool[i + 1..];
      var targets := if x.p.compareAllMembers then clusters[pool[i]] else [clusters[pool[i]][0]];
      assert targets == Targets(x, assign, pool[i]);
      var found := PassesAny(x, k, targets);
      if found {
        return Some(pool[i]);
      }
    }
    return None;
  }

  ghost predicate HasToken(x: Corpus, assign: seq<nat>, t: Token, c: nat)
    requires |assign| <= |x.articles|
  {
    exists m :: 0 <= m < |assign| && assign[m] == c && t in x.Tokens(m)
  }

  /** The index holds exactly the distinctive tokens of the members. */
  ghost predicate Indexes(x: Corpus, assign: seq<nat>, postings: map<Token, set<nat>>)
    requires |assign| <= |x.articles|
  {
    forall t: Token, c: nat :: Posted(postings, t, c) <==> t !in x.common && HasToken(x, assign, t, c)
  }

  lemma HitsAreSharedTokens(x: Corpus, assign: seq<nat>, postings: map<Token, set<nat>>, c: nat)
    requires |assign| < |x.articles| && Indexes(x, assign, postings)
    ensures HitTokens(x.Distinctive(|assign|), postings, c)
         == x.Distinctive(|assign|) * UnionTokens(x, assign, c)
  {
    MembersArePositions(assign, c);
    forall t | t in x.Distinctive(|assign|)
      ensures Posted(postings, t, c) <==> t in UnionTokens(x, assign, c)
    {
      if HasToken(x, assign, t, c) {
        var m :| 0 <= m < |assign| && assign[m] == c && t in x.Tokens(m);
        assert m in Members(assign, c);
      }
      if t in UnionTokens(x, assign, c) {
        var m :| m in Members(assign, c) && t in x.Tokens(m);
        assert HasToken(x, assign, t, c);
      }
    }
  }

  lemma HasTokenGrows(x: Corpus, assign: seq<nat>, c: nat, t: Token, d: nat)
    requires |assign| < |x.articles|
    ensures HasToken(x, assign + [c], t, d)
            <==> HasToken(x, assign, t, d) || (d == c && t in x.Tokens(|assign|))
  {
    var assign' := assign + [c];
    assert assign'[|assign|] == c;
    if HasToken(x, assign, t, d) {
      var m :| 0 <= m < |assign| && assign[m] == d && t in x.Tokens(m);
      assert assign'[m] == d;
    }
    if HasToken(x, assign', t, d) {
      var m :| 0 <= m < |assign'| && assign'[m] == d && t in x.Tokens(m);
      assert m < |assign| ==> assign[m] == d;
    }
  }

  method AddPostings(x: Corpus, ghost assign: seq<nat>, postings: map<Token, set<nat>>, k: nat, c: nat)
    returns (r: map<Token, set<nat>>)
    requires k == |assign| < |x.articles| && Indexes(x, assign, postings)
    ensures Indexes(x, assign + [c], r)
  {
    r := postings;
    var rest := Field(x.articles[k], x.p);
    while rest != {}
      invariant rest <= x.Tokens(k)
      invariant forall t: Token, d: nat :: Posted(r, t, d) <==>
                  Posted(postings, t, d) || (t !in x.common && d == c && t in x.Tokens(k) - rest)
      decreases rest
    {
      var tok :| tok in rest;
      ghost var before := r;
      if tok !in x.common {
        r := r[tok := (if tok in r then r[tok] else {}) + {c}];
      }
      assert forall t: Token, d: nat :: Posted(r, t, d) <==>
                  Posted(before, t, d) || (t !in x.common && d == c && t == tok);
      rest := rest - {tok};
    }
    forall t: Token, d: nat
      ensures HasToken(x, assign + [c], t, d) <==> HasToken(x, assign, t, d) || (d == c && t in x.Tokens(k))
    {
      HasTokenGrows(x, assign, c, t, d);
    }
  }

  ghost predicate Bookkeeping(x: Corpus, assign: seq<nat>, clusters: seq<seq<nat>>, recent: seq<nat>,
                              postings: map<Token, set<nat>>)
  {
    && |assign| <= |x.articles|
    && |clusters| == ClusterCount(assign)
    && (forall c :: 0 <= c < |clusters| ==> clusters[c] == Members(assign, c) && clusters[c] != [])
    && recent == Reverse(assign)
    && Indexes(x, assign, postings)
  }

  lemma HitsAreBounded(x: Corpus, assign: seq<nat>, postings: map<Token, set<nat>>, c: nat)
    requires |assign| < |x.articles| && Indexes(x, assign, postings)
    ensures HitTokens(x.Distinctive(|assign|), postings, c) != {} ==> c < ClusterCount(assign)
    ensures |HitTokens(x.Distinctive(|assign|), postings, c)| == SharedCount(x, assign, c)
  {
    CountBounds(assign);
    HitsAreSharedTokens(x, assign, postings, c);
    if t :| t in HitTokens(x.Distinctive(|assign|), postings, c) {
      assert HasToken(x, assign, t, c);
    }
  }

  /** The candidates through the index, before the window. */
  method IndexedCandidates(x: Corpus, ghost assign: seq<nat>, clusters: seq<seq<nat>>, ghost recent: seq<nat>,
                           postings: map<Token, set<nat>>, k: nat)
    returns (order: seq<nat>)
    requires k == |assign| < |x.articles|
    requires Bookkeeping(x, assign, clusters, recent, postings)
    ensures IsSharingOrder(x, assign, order)
  {
    var hits := CountHits(Field(x.articles[k], x.p), x.common, postings);
    var key := seq(|clusters|, c requires 0 <= c < |clusters| => LastDtOf(x, clusters[c]));
    forall c: nat
      ensures c in hits ==> c < |clusters|
      ensures c in hits <==> SharedCount(x, assign, c) >= 1
      ensures c in hits ==> hits[c] == SharedCount(x, assign, c)
    {
      HitsAreBounded(x, assign, postings, c);
    }
    order := SharingCandidates(hits, x.p.minShared, key);
    forall c: nat
      ensures c in order <==> c in SharingSet(x, assign)
    {
      HitsAreBounded(x, assign, postings, c);
    }
  }

  /** The candidates of one article, before the window: through the index, or the recency list. */
  method Candidates(x: Corpus, ghost assign: seq<nat>, clusters: seq<seq<nat>>, recent: seq<nat>,
                    postings: map<Token, set<nat>>, k: nat)
    returns (order: seq<nat>)
    requires k == |assign| < |x.articles|
    requires Bookkeeping(x, assign, clusters, recent, postings)
    ensures LegalOrder(x, assign, order)
    ensures forall i :: 0 <= i < |order| ==> order[i] < |clusters|
  {
    if x.p.useBlocking {
      order := IndexedCandidates(x, assign, clusters, recent, postings, k);
      assert forall i :: 0 <= i < |order| ==> order[i] in order;
    } else {
      order := RecentCandidates(recent, x.p.candidateLimit);
      RecencyListIsTouchOrder(assign);
      OrderIsBounded(assign, x.p.candidateLimit);
    }
  }

  lemma OrderIsBounded(assign: seq<nat>, limit: Option<int>)
    ensures var order := LimitScan(TouchOrder(assign), limit);
            forall i :: 0 <= i < |order| ==> order[i] < ClusterCount(assign)
  {
    var order := LimitScan(TouchOrder(assign), limit);
    TouchOrderElements(assign);
    CountBounds(assign);
    forall i | 0 <= i < |order|
      ensures order[i] < ClusterCount(assign)
    {
      assert order[i] == TouchOrder(assign)[i] && order[i] in TouchOrder(assign);
    }
  }

  function LastDtOf(x: Corpus, ms: seq<nat>): int {
    if ms == [] then 0 else x.Dt(ms[|ms| - 1])
  }

  /** The cluster of the next article: the first accepting candidate, or the next number. */
  method ChooseCluster(x: Corpus, ghost assign: seq<nat>, clusters: seq<seq<nat>>, recent: seq<nat>,
                       postings: map<Token, set<nat>>, k: nat)
    returns (c: nat, ghost order: seq<nat>)
    requires k == |assign| < |x.articles|
    requires Bookkeeping(x, assign, clusters, recent, postings)
    ensures LegalStep(x, assign, order, c)
    ensures c <= |clusters|
  {
    var candidates := Candidates(x, assign, clusters, recent, postings, k);
    order := candidates;
    var pool := FilterWindow(x, assign, clusters, k, candidates);
    if x.p.useBlocking && x.p.candidateLimit.Some? {
      pool := PySliceTo(pool, x.p.candidateLimit.value);
    }
    assert forall i :: 0 <= i < |pool| ==> pool[i] in candidates by {
      KeepElements(order, WindowSet(x, assign));
      assert forall i :: 0 <= i < |pool| ==> pool[i] in Keep(order, WindowSet(x, assign));
    }
    var matched := FindMatch(x, assign, clusters, k, pool);
    c := if matched == None then |clusters| else matched.value;
  }

  lemma BookkeepingGrows(x: Corpus, assign: seq<nat>, clusters: seq<seq<nat>>, recent: seq<nat>,
                         postings: map<Token, set<nat>>, c: nat,
                         clusters': seq<seq<nat>>, postings': map<Token, set<nat>>)
    requires |assign| < |x.articles|
    requires Bookkeeping(x, assign, clusters, recent, postings)
    requires c <= |clusters|
    requires clusters' == if c == |clusters| then clusters + [[|assign|]]
                          else clusters[c := clusters[c] + [|assign|]]
    requires Indexes(x, assign + [c], postings')
    ensures Bookkeeping(x, assign + [c], clusters', [c] + recent, postings')
  {
    MembersGrow(assign, c);
    assert (assign + [c])[..|assign|] == assign;
  }

  /** The map is that of some valid run over all articles. */
  ghost predicate IsReplay(x: Corpus, assignment: map<int, nat>) {
    exists assign, orders :: IsWholeRun(x, assign, orders) && assignment == AsMap(x.articles, assign)
  }

  ghost predicate IsWholeRun(x: Corpus, assign: seq<nat>, orders: seq<seq<nat>>) {
    |assign| == |x.articles| && ValidRun(x, assign, orders)
  }

  /** The replay: whatever order hash sets are iterated in, the map it returns is that of a valid
      run; and when the times are distinct it is the linear scan's. */
  method Replay(articles: seq<Article>, p: Params, w: World) returns (assignment: map<int, nat>)
    ensures var x := Corpus(articles, p, w, CommonTokens(articles, p));
            && IsReplay(x, assignment)
            && (StrictlyByTime(articles) ==> assignment == AsMap(articles, LinearScan(x, |articles|)))
  {
    var _, common := BlockingIndex(articles, p);
    assignment := PlaceAll(Corpus(articles, p, w, common));
  }

  /** The loop over the articles. */
  method PlaceAll(x: Corpus) returns (assignment: map<int, nat>)
    ensures IsReplay(x, assignment)
    ensures StrictlyByTime(x.articles) ==> assignment == AsMap(x.articles, LinearScan(x, |x.articles|))
  {
    var articles := x.articles;
    var clusters: seq<seq<nat>> := [];
    var recent: seq<nat> := [];
    var postings: map<Token, set<nat>> := map[];
    ghost var assign: seq<nat>, orders: seq<seq<nat>> := [], [];
    assignment := map[];
    for k := 0 to |articles|
      invariant |assign| == k
      invariant Bookkeeping(x, assign, clusters, recent, postings)
      invariant ValidRun(x, assign, orders)
      invariant assignment == AsMap(articles, assign)
    {
      var c, order := ChooseCluster(x, assign, clusters, recent, postings, k);
      ghost var clusters0, postings0 := clusters, postings;
      if c == |clusters| {
        clusters := clusters + [[k]];
      } else {
        clusters := clusters[c := clusters[c] + [k]];
      }
      postings := AddPostings(x, assign, postings, k, c);
      BookkeepingGrows(x, assign, clusters0, recent, postings0, c, clusters, postings);
      assignment := assignment[articles[k].id := c];
      recent := [c] + recent;
      Extend(x, assign, orders, order, c);
      assert (assign + [c])[..k] == assign;
      assign, orders := assign + [c], orders + [order];
    }
    WholeRunIsReplay(x, assign, orders);
  }

  lemma WholeRunIsReplay(x: Corpus, assign: seq<nat>, orders: seq<seq<nat>>)
    requires IsWholeRun(x, assign, orders)
    ensures IsReplay(x, AsMap(x.articles, assign))
    ensures StrictlyByTime(x.articles) ==> assign == LinearScan(x, |x.articles|)
  {
    if StrictlyByTime(x.articles) {
      DistinctTimesNeverTie(x, assign, orders);
      IndexRefinesScan(x, assign, orders);
    }
  }

  lemma Extend(x: Corpus, assign: seq<nat>, orders: seq<seq<nat>>, order: seq<nat>, c: nat)
    requires ValidRun(x, assign, orders) && |assign| < |x.articles|
    requires LegalStep(x, assign, order, c)
    ensures ValidRun(x, assign + [c], orders + [order])
  {
    assert (assign + [c])[..|assign|] == assign && (orders + [order])[..|assign|] == orders;
  }

  lemma NumberFreeMeansEmpty(assign: seq<nat>, c: nat)
    ensures c == ClusterCount(assign) ==> Members(assign, c) == []
  {
    CountBounds(assign);
    MembersInTimeOrder(assign, c);
    var ms := Members(assign, c);
    assert ms != [] ==> ms[0] < |assign| && assign[ms[0]] == c;
  }

  lemma MembersGrow(assign: seq<nat>, c: nat)
    ensures forall d :: Members(assign + [c], d)
                        == if d == c then Members(assign, d) + [|assign|] else Members(assign, d)
    ensures ClusterCount(assign + [c]) == if c < ClusterCount(assign) then ClusterCount(assign) else c + 1
    ensures Reverse(assign + [c]) == [c] + Reverse(assign)
    ensures c == ClusterCount(assign) ==> Members(assign, c) == []
  {
    assert (assign + [c])[..|assign|] == assign;
    NumberFreeMeansEmpty(assign, c);
  }

  /** With distinct ids the returned map loses nothing: it is the trace, keyed by article. */
  lemma {:induction false} AsMapIsTheTrace(articles: seq<Article>, assign: seq<nat>)
    requires |assign| <= |articles|
    requires forall i, j :: 0 <= i < j < |articles| ==> articles[i].id != articles[j].id
    ensures AsMap(articles, assign).Keys == set k | 0 <= k < |assign| :: articles[k].id
    ensures forall k :: 0 <= k < |assign| ==> AsMap(articles, assign)[articles[k].id] == assign[k]
  {
    if assign != [] {
      AsMapIsTheTrace(articles, assign[..|assign| - 1]);
    }
  }

  // ---- Common tokens ----

  ghost function Holders(articles: seq<Article>, p: Params, t: Token): set<nat> {
    set k: nat | k < |articles| && t in if p.titleOnly then articles[k].title else articles[k].both
  }

  lemma {:induction false} PositionsAreHolders(articles: seq<Article>, p: Params, t: Token)
    ensures |Positions(articles, p, t)| == |Holders(articles, p, t)|
  {
    if articles == [] {
      assert Holders(articles, p, t) == {};
    } else {
      var k := |articles| - 1;
      var before, all := Holders(articles[..k], p, t), Holders(articles, p, t);
      PositionsAreHolders(articles[..k], p, t);
      if t in Field(articles[k], p) {
        assert all == before + {k};
      } else {
        assert all == before;
      }
    }
  }

  /** A token is common when it is in more than 50 articles and in more than one of fifty. */
  lemma CommonMeans(articles: seq<Article>, p: Params, t: Token)
    ensures t in CommonTokens(articles, p)
            <==> |Holders(articles, p, t)| > 50 && 50 * |Holders(articles, p, t)| > |articles|
  {
    PositionsAreHolders(articles, p, t);
    PositionsBounds(articles, p, t);
  }
}
