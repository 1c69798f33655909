/** GET /clusters: keyset pages over an order the database computes and the cursor recomputes. */
module StoryFeed {
  import opened Basics
  import opened Keyset

  datatype Cluster = Cluster(id: int, headline: real, updated: real, sources: seq<int>, promoted: bool)

  /** All Stories is ranked by boosted score, the other tabs by recency. */
  datatype Order = ByScore(weights: map<int, real>) | ByRecency

  const PROMOTED_BOOST: real := 4.0

  function Weight(weights: map<int, real>, source: int): real {
    if source in weights then weights[source] else 1.0
  }

  function ExploreBoost(c: Cluster): real {
    if c.promoted then PROMOTED_BOOST else 1.0
  }

  // ---- The database's key ----

  /** func.max over the cluster's articles, grouped by cluster: no group without articles. */
  ghost predicate IsGroupMax(weights: map<int, real>, sources: seq<int>, b: real) {
    && (exists i :: 0 <= i < |sources| && b == Weight(weights, sources[i]))
    && (forall i :: 0 <= i < |sources| ==> Weight(weights, sources[i]) <= b)
  }

  /** The order key: without weights no boost is joined in, without articles the outer join
      finds no group and the boost is coalesced to 1. */
  ghost predicate IsSqlKey(order: Order, c: Cluster, k: Key) {
    match order
    case ByRecency => k == Key(c.updated, 0.0, c.id)
    case ByScore(weights) =>
      if weights == map[] then k == Key(c.headline * ExploreBoost(c), 0.0, c.id)
      else if c.sources == [] then k == Key(c.headline * 1.0 * ExploreBoost(c), 0.0, c.id)
      else exists b :: IsGroupMax(weights, c.sources, b) && k == Key(c.headline * b * ExploreBoost(c), 0.0, c.id)
  }

  // ---- The recomputed key ----

  /** max((weights.get(source, 1.0) for each article), default=1.0) */
  function Boost(weights: map<int, real>, sources: seq<int>): real {
    if sources == [] then 1.0
    else if |sources| == 1 then Weight(weights, sources[0])
    else
      var rest := Boost(weights, sources[1..]);
      if rest > Weight(weights, sources[0]) then rest else Weight(weights, sources[0])
  }

  function RecomputedKey(order: Order, c: Cluster): Key {
    match order
    case ByRecency => Key(c.updated, 0.0, c.id)
    case ByScore(weights) => Key(c.headline * Boost(weights, c.sources) * ExploreBoost(c), 0.0, c.id)
  }

  lemma {:induction false} BoostIsMax(weights: map<int, real>, sources: seq<int>)
    requires sources != []
    ensures IsGroupMax(weights, sources, Boost(weights, sources))
  {
    if |sources| > 1 {
      var rest := sources[1..];
      BoostIsMax(weights, rest);
      var i :| 0 <= i < |rest| && Boost(weights, rest) == Weight(weights, rest[i]);
      assert sources[i + 1] == rest[i];
      forall j | 0 <= j < |sources|
        ensures Weight(weights, sources[j]) <= Boost(weights, sources)
      {
        assert j > 0 ==> sources[j] == rest[j - 1];
      }
      assert || Boost(weights, sources) == Weight(weights, sources[0])
             || Boost(weights, sources) == Weight(weights, sources[i + 1]);
    } else {
      assert sources[0] == sources[|sources| - 1];
    }
  }

  lemma {:induction false} NoWeightsNoBoost(sources: seq<int>)
    ensures Boost(map[], sources) == 1.0
  {
    if |sources| > 1 {
      NoWeightsNoBoost(sources[1..]);
    }
  }

  /** For every weight map, article list and promotion state the key the cursor recomputes is
      the key the database ordered by. */
  lemma RecomputedKeyIsTheOrderKey(order: Order, c: Cluster, k: Key)
    ensures IsSqlKey(order, c, k) <==> k == RecomputedKey(order, c)
  {
    if order.ByScore? {
      if order.weights == map[] {
        NoWeightsNoBoost(c.sources);
      } else if c.sources != [] {
        BoostIsMax(order.weights, c.sources);
        forall b | IsGroupMax(order.weights, c.sources, b)
          ensures b == Boost(order.weights, c.sources)
        {
          SameMax(order.weights, c.sources, b, Boost(order.weights, c.sources));
        }
      }
    }
  }

  lemma SameMax(weights: map<int, real>, sources: seq<int>, a: real, b: real)
    requires IsGroupMax(weights, sources, a) && IsGroupMax(weights, sources, b)
    ensures a == b
  {
    var i :| 0 <= i < |sources| && a == Weight(weights, sources[i]);
    var j :| 0 <= j < |sources| && b == Weight(weights, sources[j]);
  }

  // ---- The query ----

  function Items(s: seq<Entry<Cluster>>): seq<Cluster> {
    seq(|s|, i requires 0 <= i < |s| => s[i].item)
  }

  function Take<T>(s: seq<T>, n: nat): seq<T> {
    if n < |s| then s[..n] else s
  }

  /** The rows, each with the key the database gives it. */
  ghost predicate Keyed(rows: seq<Cluster>, order: Order, entries: seq<Entry<Cluster>>) {
    && |entries| == |rows|
    && forall i :: 0 <= i < |rows| ==> entries[i].item == rows[i] && IsSqlKey(order, rows[i], entries[i].key)
  }

  /** SELECT ... [WHERE key < cursor] ORDER BY key DESC LIMIT n over the eligible rows. */
  ghost predicate IsQueryResult(rows: seq<Cluster>, order: Order, cursor: Option<Key>, n: nat, result: seq<Cluster>) {
    exists entries :: Keyed(rows, order, entries)
      && result == Items(Take(SortDesc(if cursor.Some? then BelowCursor(entries, cursor.value) else entries), n))
  }

  function Entries(rows: seq<Cluster>, order: Order): seq<Entry<Cluster>> {
    seq(|rows|, i requires 0 <= i < |rows| => Entry(RecomputedKey(order, rows[i]), rows[i]))
  }

  /** The whole feed: every eligible row, in order. */
  function Feed(rows: seq<Cluster>, order: Order): seq<Entry<Cluster>> {
    SortDesc(Entries(rows, order))
  }

  ghost predicate DistinctRows(rows: seq<Cluster>) {
    forall i, j :: 0 <= i < j < |rows| ==> rows[i].id != rows[j].id
  }

  lemma FeedFacts(rows: seq<Cluster>, order: Order)
    requires DistinctRows(rows)
    ensures Descending(Feed(rows, order))
    ensures multiset(Feed(rows, order)) == multiset(Entries(rows, order))
  {
    SortDescends(Entries(rows, order));
    SortPermutes(Entries(rows, order));
  }

  lemma KeyedIsEntries(rows: seq<Cluster>, order: Order, entries: seq<Entry<Cluster>>)
    requires Keyed(rows, order, entries)
    ensures entries == Entries(rows, order)
  {
    forall i | 0 <= i < |rows|
      ensures entries[i] == Entry(RecomputedKey(order, rows[i]), rows[i])
    {
      RecomputedKeyIsTheOrderKey(order, rows[i], entries[i].key);
    }
  }

  /** Each query reads the feed from its cursor's position. */
  lemma QueryReadsTheFeed(rows: seq<Cluster>, order: Order, cursor: Option<Key>, n: nat, result: seq<Cluster>)
    requires DistinctRows(rows) && IsQueryResult(rows, order, cursor, n, result)
    ensures result == Items(Take(Feed(rows, order)[Start(Feed(rows, order), cursor)..], n))
  {
    var entries :| Keyed(rows, order, entries)
                   && result == Items(Take(SortDesc(if cursor.Some? then BelowCursor(entries, cursor.value)
                                                    else entries), n));
    KeyedIsEntries(rows, order, entries);
    FeedFacts(rows, order);
    if cursor.Some? {
      FilterThenSort(entries, cursor.value);
      BelowIsSuffix(Feed(rows, order), cursor.value);
    }
  }

  // ---- One request ----

  /** The weight the page shuffle gives a story: the weights are empty outside All Stories. */
  function ItemWeight(order: Order, c: Cluster): real {
    c.headline * Boost(if order.ByScore? then order.weights else map[], c.sources) * ExploreBoost(c)
  }

  /** What one page of the endpoint is made of, and what is cached of it. */
  datatype Envelope = Envelope(items: seq<Cluster>, weights: seq<real>, next: Option<Key>, hasMore: bool)

  function WeightsOf(order: Order, items: seq<Cluster>): seq<real> {
    seq(|items|, i requires 0 <= i < |items| => ItemWeight(order, items[i]))
  }

  function EnvelopeAt(order: Order, feed: seq<Entry<Cluster>>, r: Request): Envelope {
    var page := PageAt(feed, r);
    Envelope(Items(page), WeightsOf(order, Items(page)),
             if MoreAfter(feed, r) && page != [] then Some(page[|page| - 1].key) else None,
             MoreAfter(feed, r))
  }

  ghost predicate KeysRecomputed(order: Order, s: seq<Entry<Cluster>>) {
    forall i :: 0 <= i < |s| ==> s[i].key == RecomputedKey(order, s[i].item)
  }

  lemma FeedKeys(rows: seq<Cluster>, order: Order)
    requires DistinctRows(rows)
    ensures KeysRecomputed(order, Feed(rows, order))
  {
    FeedFacts(rows, order);
    var feed, entries := Feed(rows, order), Entries(rows, order);
    forall i | 0 <= i < |feed|
      ensures feed[i].key == RecomputedKey(order, feed[i].item)
    {
      SameMembers(feed, entries, feed[i]);
    }
  }

  /** In All Stories the shuffle weights are the scores the page was ordered by. */
  lemma ShuffleWeightIsTheScore(rows: seq<Cluster>, order: Order, i: nat)
    requires DistinctRows(rows) && order.ByScore? && i < |Feed(rows, order)|
    ensures ItemWeight(order, Feed(rows, order)[i].item) == Feed(rows, order)[i].key.major
  {
    FeedKeys(rows, order);
  }

  /** The page built from the database's answer to a query for limit + 1 rows. */
  method ListStories(ghost rows: seq<Cluster>, order: Order, cursor: Option<Key>, limit: nat, result: seq<Cluster>)
    returns (e: Envelope)
    requires limit >= 1 && DistinctRows(rows)
    requires IsQueryResult(rows, order, cursor, limit + 1, result)
    ensures e == EnvelopeAt(order, Feed(rows, order), Request(cursor, limit))
  {
    var more := |result| > limit;
    var items := Take(result, limit);
    ResultIsThePage(rows, order, Request(cursor, limit), result);
    var next := None;
    if more && items != [] {
      next := Some(RecomputedKey(order, items[|items| - 1]));
    }
    e := Envelope(items, WeightsOf(order, items), next, more);
  }

  /** The page is the result without its extra row, and its last item gives the last key. */
  lemma ResultIsThePage(rows: seq<Cluster>, order: Order, r: Request, result: seq<Cluster>)
    requires r.limit >= 1 && DistinctRows(rows)
    requires IsQueryResult(rows, order, r.cursor, r.limit + 1, result)
    ensures |result| > r.limit <==> MoreAfter(Feed(rows, order), r)
    ensures Take(result, r.limit) == Items(PageAt(Feed(rows, order), r))
    ensures LastKeyIs(order, PageAt(Feed(rows, order), r), Take(result, r.limit))
  {
    var feed := Feed(rows, order);
    QueryReadsTheFeed(rows, order, r.cursor, r.limit + 1, result);
    FeedKeys(rows, order);
    PageOfResult(feed, r, result, order);
  }

  ghost predicate LastKeyIs(order: Order, page: seq<Entry<Cluster>>, items: seq<Cluster>) {
    && |items| == |page|
    && (page != [] ==> RecomputedKey(order, items[|items| - 1]) == page[|page| - 1].key)
  }

  lemma PageOfResult(feed: seq<Entry<Cluster>>, r: Request, result: seq<Cluster>, order: Order)
    requires r.limit >= 1 && result == Items(Take(feed[Start(feed, r.cursor)..], r.limit + 1))
    requires KeysRecomputed(order, feed)
    ensures |result| > r.limit <==> MoreAfter(feed, r)
    ensures Take(result, r.limit) == Items(PageAt(feed, r))
    ensures LastKeyIs(order, PageAt(feed, r), Take(result, r.limit))
  {
    var page := PageAt(feed, r);
    assert page != [] ==> page[|page| - 1] == feed[Start(feed, r.cursor) + |page| - 1];
  }

  // ---- A scroll ----

  /** The client sends back each next_cursor, with any limit of one or more. */
  ghost predicate Scroll(order: Order, feed: seq<Entry<Cluster>>, run: seq<Request>)
    requires run != []
  {
    var n := |run| - 1;
    && run[n].limit >= 1
    && (n == 0 || (Scroll(order, feed, run[..n]) && EnvelopeAt(order, feed, run[n - 1]).next.Some?
                   && run[n].cursor == EnvelopeAt(order, feed, run[n - 1]).next))
  }

  lemma {:induction false} ScrollFollows(order: Order, feed: seq<Entry<Cluster>>, run: seq<Request>)
    requires run != [] && Scroll(order, feed, run)
    ensures Follows(feed, run)
  {
    var n := |run| - 1;
    if n > 0 {
      ScrollFollows(order, feed, run[..n]);
    }
  }

  function ShownItems(order: Order, feed: seq<Entry<Cluster>>, run: seq<Request>): seq<Cluster> {
    if run == [] then []
    else ShownItems(order, feed, run[..|run| - 1]) + EnvelopeAt(order, feed, run[|run| - 1]).items
  }

  lemma {:induction false} ShownIsServed(order: Order, feed: seq<Entry<Cluster>>, run: seq<Request>)
    ensures ShownItems(order, feed, run) == Items(Served(feed, run))
  {
    if run != [] {
      ShownIsServed(order, feed, run[..|run| - 1]);
      ItemsAppend(Served(feed, run[..|run| - 1]), PageAt(feed, run[|run| - 1]));
    }
  }

  lemma ItemsAppend(a: seq<Entry<Cluster>>, b: seq<Entry<Cluster>>)
    ensures Items(a + b) == Items(a) + Items(b)
  {
  }

  /** Over an unchanged table a scroll from the top shows a prefix of the feed, whatever the
      limits; once there is no next cursor it has shown every eligible cluster, in order. */
  lemma {:induction false} ScrollEnumeratesTheFeed(rows: seq<Cluster>, order: Order, run: seq<Request>)
    requires DistinctRows(rows) && run != [] && run[0].cursor == None
    requires Scroll(order, Feed(rows, order), run)
    ensures var feed := Feed(rows, order); var end := End(feed, run[|run| - 1]);
            && |run| - 1 <= end && ShownItems(order, feed, run) == Items(feed)[..end]
            && (EnvelopeAt(order, feed, run[|run| - 1]).next == None <==> end == |feed|)
  {
    var feed := Feed(rows, order);
    FeedFacts(rows, order);
    ScrollFollows(order, feed, run);
    ShownIsServed(order, feed, run);
    FollowingReadsASlice(feed, run);
    PrefixItems(feed, End(feed, run[|run| - 1]));
  }

  lemma PrefixItems(s: seq<Entry<Cluster>>, end: nat)
    requires end <= |s|
    ensures Items(s[..end]) == Items(s)[..end] && |Items(s)| == |s|
  {
  }

  /** Exactly once: the finished scroll is a permutation of the eligible rows. */
  lemma {:induction false} FinishedScrollIsEveryRowOnce(rows: seq<Cluster>, order: Order, run: seq<Request>)
    requires DistinctRows(rows) && run != [] && run[0].cursor == None
    requires Scroll(order, Feed(rows, order), run)
    requires EnvelopeAt(order, Feed(rows, order), run[|run| - 1]).next == None
    ensures multiset(ShownItems(order, Feed(rows, order), run)) == multiset(rows)
  {
    ScrollEnumeratesTheFeed(rows, order, run);
    TakeAll(Items(Feed(rows, order)));
    FeedPermutesTheRows(rows, order);
  }

  lemma TakeAll<T>(s: seq<T>)
    ensures s[..|s|] == s
  {
  }

  lemma FeedPermutesTheRows(rows: seq<Cluster>, order: Order)
    requires DistinctRows(rows)
    ensures multiset(Items(Feed(rows, order))) == multiset(rows)
  {
    FeedFacts(rows, order);
    ItemsPermute(Feed(rows, order), Entries(rows, order));
    assert Items(Entries(rows, order)) == rows;
  }

  lemma {:induction false} ItemsPermute(a: seq<Entry<Cluster>>, b: seq<Entry<Cluster>>)
    requires multiset(a) == multiset(b)
    ensures multiset(Items(a)) == multiset(Items(b))
  {
    if a == [] {
      assert multiset(b) == multiset{};
      assert b == [];
    } else {
      SameMembers(a, b, a[0]);
      var i :| 0 <= i < |b| && b[i] == a[0];
      Uncons(a);
      Removed(b, i);
      assert multiset(a[1..]) == multiset(a) - multiset{a[0]};
      assert multiset(Without(b, i)) == multiset(b) - multiset{a[0]};
      ItemsPermute(a[1..], Without(b, i));
      ItemsCons(a);
      ItemsWithout(b, i);
    }
  }

  function Without<T>(s: seq<T>, i: nat): seq<T>
    requires i < |s|
  {
    s[..i] + s[i + 1..]
  }

  lemma ItemsCons(s: seq<Entry<Cluster>>)
    requires s != []
    ensures multiset(Items(s)) == multiset{s[0].item} + multiset(Items(s[1..]))
  {
    assert Items(s) == [s[0].item] + Items(s[1..]);
  }

  lemma ItemsWithout(s: seq<Entry<Cluster>>, i: nat)
    requires i < |s|
    ensures multiset(Items(s)) == multiset{s[i].item} + multiset(Items(Without(s, i)))
  {
    assert Items(Without(s, i)) == Without(Items(s), i);
    Removed(Items(s), i);
  }

  lemma Removed<T>(s: seq<T>, i: nat)
    requires i < |s|
    ensures multiset(s) == multiset{s[i]} + multiset(Without(s, i))
  {
    assert s == s[..i] + ([s[i]] + s[i + 1..]);
  }

  // ---- What the score is ----

  /** Some source gives the boost, and no source more. */
  lemma BoostMeans(weights: map<int, real>, sources: seq<int>)
    requires sources != []
    ensures exists s :: s in sources && Boost(weights, sources) == if s in weights then weights[s] else 1.0
    ensures forall s :: s in sources && s in weights ==> weights[s] <= Boost(weights, sources)
    ensures forall s :: s in sources && s !in weights ==> 1.0 <= Boost(weights, sources)
  {
    BoostIsMax(weights, sources);
    var i :| 0 <= i < |sources| && Boost(weights, sources) == Weight(weights, sources[i]);
    assert sources[i] in sources;
    forall s | s in sources
      ensures Weight(weights, s) <= Boost(weights, sources)
    {
      var k :| 0 <= k < |sources| && sources[k] == s;
      assert Weight(weights, sources[k]) <= Boost(weights, sources);
    }
  }

  /** The score a story has through one of its sources. */
  ghost predicate IsScoreThrough(weights: map<int, real>, c: Cluster, s: int, score: real) {
    var h := if c.promoted then c.headline * 4.0 else c.headline;
    && s in c.sources
    && (s in weights ==> score == h * weights[s])
    && (s !in weights ==> score == h)
  }

  /** The score of a story is its headline score times the greatest weight among its sources, 1
      for a source without a weight, and times 4 if it was promoted. */
  lemma ScoreMeans(weights: map<int, real>, c: Cluster)
    ensures var k := RecomputedKey(ByScore(weights), c);
            && k.minor == 0.0 && k.id == c.id
            && (c.sources == [] ==> k.major == if c.promoted then c.headline * 4.0 else c.headline)
            && (c.sources != [] ==> exists s :: IsScoreThrough(weights, c, s, k.major))
  {
    if c.sources != [] {
      var b := Boost(weights, c.sources);
      BoostMeans(weights, c.sources);
      var s :| s in c.sources && b == if s in weights then weights[s] else 1.0;
      Commute(c.headline, b, ExploreBoost(c));
      assert IsScoreThrough(weights, c, s, c.headline * b * ExploreBoost(c));
    }
  }

  lemma Commute(h: real, b: real, f: real)
    ensures h * b * f == h * f * b
  {
    assert b * f == f * b;
  }

  lemma ScoreThrough(weights: map<int, real>, c: Cluster, s: int, score: real)
    requires IsScoreThrough(weights, c, s, score)
    ensures score == c.headline * ExploreBoost(c) * Weight(weights, s)
  {
  }

  lemma NoSourceScoresMore(weights: map<int, real>, c: Cluster, s: int, score: real)
    requires c.headline >= 0.0 && IsScoreThrough(weights, c, s, score)
    ensures score <= RecomputedKey(ByScore(weights), c).major
  {
    var major := RecomputedKey(ByScore(weights), c).major;
    ScoreThrough(weights, c, s, score);
    BoostMeans(weights, c.sources);
    LargerFactor(c.headline, Weight(weights, s), Boost(weights, c.sources), ExploreBoost(c), score, major);
  }

  lemma LargerFactor(h: real, small: real, large: real, f: real, lower: real, upper: real)
    requires h >= 0.0 && small <= large && f >= 0.0 && lower == h * f * small && upper == h * large * f
    ensures lower <= upper
  {
    assert h * f >= 0.0;
    assert h * f * (large - small) >= 0.0;
    Commute(h, large, f);
  }

  /** The other tabs go by the time of the last update, and shuffle by the unweighted score. */
  lemma RecencyMeans(c: Cluster)
    ensures RecomputedKey(ByRecency, c) == Key(c.updated, 0.0, c.id)
    ensures ItemWeight(ByRecency, c) == if c.promoted then c.headline * 4.0 else c.headline
  {
    NoWeightsNoBoost(c.sources);
  }

  /** In the feed a higher score comes first, and of equal scores the higher id. */
  lemma HigherComesFirst(rows: seq<Cluster>, order: Order, i: nat, j: nat)
    requires DistinctRows(rows) && i < |Feed(rows, order)| && j < |Feed(rows, order)|
    ensures var a := RecomputedKey(order, Feed(rows, order)[i].item);
            var b := RecomputedKey(order, Feed(rows, order)[j].item);
            a.major > b.major || (a.major == b.major && a.id > b.id) ==> i < j
  {
    var feed := Feed(rows, order);
    FeedFacts(rows, order);
    FeedKeys(rows, order);
    if j < i {
      DescendingMeans(feed, j, i);
    }
  }

  /** Of two stories of one source each, neither promoted, the larger product of headline score
      and source weight comes first. */
  lemma HeavierSourceComesFirst(rows: seq<Cluster>, weights: map<int, real>, i: nat, j: nat, s: int, t: int)
    requires DistinctRows(rows) && i < |Feed(rows, ByScore(weights))| && j < |Feed(rows, ByScore(weights))|
    requires var a, b := Feed(rows, ByScore(weights))[i].item, Feed(rows, ByScore(weights))[j].item;
             && a.sources == [s] && b.sources == [t] && !a.promoted && !b.promoted && s in weights && t in weights
             && a.headline * weights[s] > b.headline * weights[t]
    ensures i < j
  {
    var a, b := Feed(rows, ByScore(weights))[i].item, Feed(rows, ByScore(weights))[j].item;
    OneSource(weights, a, s);
    OneSource(weights, b, t);
    HigherComesFirst(rows, ByScore(weights), i, j);
  }

  lemma OneSource(weights: map<int, real>, c: Cluster, s: int)
    requires c.sources == [s] && !c.promoted && s in weights
    ensures RecomputedKey(ByScore(weights), c).major == c.headline * weights[s]
  {
    ScoreMeans(weights, c);
  }

  /** With the weight 3 on source 7 a story of score 1 from there leads one of score 2 from another
      source; its key, its shuffle weight and the cursor after it are 3. */
  lemma WeightedExample()
    ensures var a, b := Cluster(1, 1.0, 0.0, [7], false), Cluster(2, 2.0, 0.0, [5], false);
            var order := ByScore(map[7 := 3.0]); var e := EnvelopeAt(order, Feed([a, b], order), Request(None, 1));
            e.items == [a] && e.weights == [3.0] && e.next == Some(Key(3.0, 0.0, 1))
  {
    var a, b := Cluster(1, 1.0, 0.0, [7], false), Cluster(2, 2.0, 0.0, [5], false);
    var order := ByScore(map[7 := 3.0]);
    var s := [Entry(Key(3.0, 0.0, 1), a), Entry(Key(2.0, 0.0, 2), b)];
    assert Entries([a, b], order) == s;
    SortedStays(s);
  }
}
