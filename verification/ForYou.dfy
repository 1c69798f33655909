/** GET /clusters/for-you: a ranking is snapshotted on the first page and sliced by later ones. */
module ForYou {
  import opened Basics
  import opened Keyset

  // ---- The ranking ----

  datatype Candidate<+T> = Candidate(id: int, headline: real, item: T)

  function Affinity(scores: map<int, real>, id: int): real {
    if id in scores then scores[id] else 0.0
  }

  function Entries<T>(candidates: seq<Candidate<T>>, scores: map<int, real>): seq<Entry<T>> {
    seq(|candidates|, i requires 0 <= i < |candidates| =>
      var c := candidates[i]; Entry(Key(Affinity(scores, c.id), c.headline, c.id), c.item))
  }

  function Rank<T>(candidates: seq<Candidate<T>>, scores: map<int, real>): seq<Entry<T>> {
    SortDesc(Entries(candidates, scores))
  }

  ghost predicate DistinctCandidates<T>(candidates: seq<Candidate<T>>) {
    forall i, j :: 0 <= i < j < |candidates| ==> candidates[i].id != candidates[j].id
  }

  /** The ranking holds exactly the candidates, and no two of its keys are equal. */
  lemma RankingIsStrict<T>(candidates: seq<Candidate<T>>, scores: map<int, real>)
    requires DistinctCandidates(candidates)
    ensures Descending(Rank(candidates, scores))
    ensures multiset(Rank(candidates, scores)) == multiset(Entries(candidates, scores))
  {
    SortDescends(Entries(candidates, scores));
    SortPermutes(Entries(candidates, scores));
  }

  /** The candidates query's own order: headline score, then id, both descending. */
  ghost predicate InQueryOrder<T>(candidates: seq<Candidate<T>>) {
    forall i, j :: 0 <= i < j < |candidates| ==>
      candidates[j].headline < candidates[i].headline
      || (candidates[j].headline == candidates[i].headline && candidates[j].id < candidates[i].id)
  }

  /** A reader without history scores 0 everywhere and gets the query's own order. */
  lemma ColdStartKeepsTheQueryOrder<T>(candidates: seq<Candidate<T>>, scores: map<int, real>)
    requires InQueryOrder(candidates)
    requires forall i :: 0 <= i < |candidates| ==> Affinity(scores, candidates[i].id) == 0.0
    ensures Rank(candidates, scores) == Entries(candidates, scores)
  {
    SortedStays(Entries(candidates, scores));
  }

  // ---- One request ----

  /** "<snapshot_token>:<page>:<score>:<headline_score>:<id>", parsed. A cursor that does not
      parse is treated like an absent one. */
  datatype Cursor = Cursor(token: string, page: int, at: Key)

  /** What a request meets: the snapshots that can be read now, the ranking a re-score would
      give, the token a new session would get, and whether saving its snapshot succeeds. */
  datatype World<T> = World(snapshots: map<string, seq<Entry<T>>>, ranking: seq<Entry<T>>, token: string, saved: bool)

  datatype Reply<T> = Reply(items: seq<Entry<T>>, next: Option<Cursor>, hasMore: bool)

  predicate Live<T>(w: World<T>, cursor: Option<Cursor>) {
    cursor.Some? && cursor.value.token != "" && cursor.value.token in w.snapshots
  }

  /** The ranking the request is served from. */
  function Ranked<T>(w: World<T>, cursor: Option<Cursor>): seq<Entry<T>> {
    if Live(w, cursor) then w.snapshots[cursor.value.token] else w.ranking
  }

  function At(cursor: Option<Cursor>): Option<Key> {
    if cursor.Some? then Some(cursor.value.at) else None
  }

  /** The reply as slices of the ranking: the position is the cursor's even when its snapshot
      is gone, while the page number starts again. */
  function Answer<T>(w: World<T>, cursor: Option<Cursor>, limit: nat, maxPages: int): Reply<T> {
    var ranked := Ranked(w, cursor);
    var r := Request(At(cursor), limit);
    var page := if Live(w, cursor) then cursor.value.page else 0;
    var token := if Live(w, cursor) then cursor.value.token else w.token;
    var items := PageAt(ranked, r);
    var more := MoreAfter(ranked, r) && page + 1 < maxPages;
    Reply(items, if more && items != [] then Some(Cursor(token, page + 1, items[|items| - 1].key)) else None, more)
  }

  /** list_for_you_clusters, after authentication. */
  method ListForYou<T>(w: World<T>, cursor: Option<Cursor>, limit: nat, maxPages: int)
    returns (reply: Reply<T>, snapshots: map<string, seq<Entry<T>>>)
    ensures reply == Answer(w, cursor, limit, maxPages)
    ensures snapshots == if !Live(w, cursor) && w.saved then w.snapshots[w.token := w.ranking] else w.snapshots
  {
    var ranked, token, page;
    ranked, token, page, snapshots := FindSnapshot(w, cursor);
    var start := 0;
    if cursor.Some? {
      start := ScanForStart(ranked, cursor.value.at);
    }
    var items, moreInSnapshot := CutPage(ranked, start, limit);
    var nextPage := page + 1;
    var hasMore := moreInSnapshot && nextPage < maxPages;
    var next := None;
    if hasMore && items != [] {
      next := Some(Cursor(token, nextPage, items[|items| - 1].key));
    }
    reply := Reply(items, next, hasMore);
  }

  method FindSnapshot<T>(w: World<T>, cursor: Option<Cursor>)
    returns (ranked: seq<Entry<T>>, token: string, page: int, snapshots: map<string, seq<Entry<T>>>)
    ensures ranked == Ranked(w, cursor)
    ensures page == (if Live(w, cursor) then cursor.value.page else 0)
    ensures token == if Live(w, cursor) then cursor.value.token else w.token
    ensures snapshots == if !Live(w, cursor) && w.saved then w.snapshots[w.token := w.ranking] else w.snapshots
  {
    snapshots := w.snapshots;
    token, page := "", 0;
    if cursor.Some? {
      token, page := cursor.value.token, cursor.value.page;
    }
    if token != "" && token in snapshots {
      ranked := snapshots[token];
    } else {
      page := 0;
      token := w.token;
      ranked := w.ranking;
      if w.saved {
        snapshots := snapshots[token := ranked];
      }
    }
  }

  /** One entry more than the limit tells whether more follow. */
  method CutPage<T>(ranked: seq<Entry<T>>, start: nat, limit: nat) returns (items: seq<Entry<T>>, more: bool)
    requires start <= |ranked|
    ensures items == PageFrom(ranked, start, limit) && (more <==> start + limit < |ranked|)
  {
    var pageSlice := ranked[start..if start + limit + 1 < |ranked| then start + limit + 1 else |ranked|];
    more := |pageSlice| > limit;
    items := if more then pageSlice[..limit] else pageSlice;
  }

  method ScanForStart<T>(ranked: seq<Entry<T>>, at: Key) returns (start: nat)
    ensures start == FirstBelow(ranked, at)
  {
    start := 0;
    while start < |ranked| && !Less(ranked[start].key, at)
      invariant start <= |ranked| && FirstBelow(ranked, at) == start + FirstBelow(ranked[start..], at)
    {
      assert ranked[start..][1..] == ranked[start + 1..];
      start := start + 1;
    }
  }

  // ---- A scroll ----

  datatype Exchange<T> = Exchange(world: World<T>, cursor: Option<Cursor>, limit: nat)

  function AnswerTo<T>(e: Exchange<T>, maxPages: int): Reply<T> {
    Answer(e.world, e.cursor, e.limit, maxPages)
  }

  function RequestOf<T>(e: Exchange<T>): Request {
    Request(At(e.cursor), e.limit)
  }

  /** The client sends back the cursor of the page before, with any limit of one or more. */
  ghost predicate Scroll<T>(run: seq<Exchange<T>>, maxPages: int)
    requires run != []
  {
    var n := |run| - 1;
    && run[n].limit >= 1
    && (n == 0 || (Scroll(run[..n], maxPages) && AnswerTo(run[n - 1], maxPages).next.Some?
                   && run[n].cursor == AnswerTo(run[n - 1], maxPages).next))
  }

  function Shown<T>(run: seq<Exchange<T>>, maxPages: int): seq<Entry<T>> {
    if run == [] then [] else Shown(run[..|run| - 1], maxPages) + AnswerTo(run[|run| - 1], maxPages).items
  }

  ghost predicate ServedFrom<T>(run: seq<Exchange<T>>, ranking: seq<Entry<T>>) {
    forall i :: 0 <= i < |run| ==> Ranked(run[i].world, run[i].cursor) == ranking
  }

  function Requests<T>(run: seq<Exchange<T>>): seq<Request> {
    if run == [] then [] else Requests(run[..|run| - 1]) + [RequestOf(run[|run| - 1])]
  }

  lemma {:induction false} RequestsAre<T>(run: seq<Exchange<T>>)
    ensures |Requests(run)| == |run|
    ensures forall i :: 0 <= i < |run| ==> Requests(run)[i] == RequestOf(run[i])
  {
    if run != [] {
      RequestsAre(run[..|run| - 1]);
    }
  }

  /** A scroll over one ranking is a keyset scroll over it. */
  lemma {:induction false} ScrollFollows<T>(run: seq<Exchange<T>>, ranking: seq<Entry<T>>, maxPages: int)
    requires run != [] && Scroll(run, maxPages) && ServedFrom(run, ranking)
    ensures Requests(run) != [] && Follows(ranking, Requests(run))
    ensures Shown(run, maxPages) == Served(ranking, Requests(run))
  {
    var n := |run| - 1;
    var requests := Requests(run);
    RequestsAre(run);
    assert Requests(run)[..n] == Requests(run[..n]);
    assert Ranked(run[n].world, run[n].cursor) == ranking;
    if n > 0 {
      assert ServedFrom(run[..n], ranking) by {
        assert forall i :: 0 <= i < n ==> run[..n][i] == run[i];
      }
      ScrollFollows(run[..n], ranking, maxPages);
      assert Ranked(run[n - 1].world, run[n - 1].cursor) == ranking;
      Resumes(run[n - 1], run[n], ranking, maxPages);
    }
  }

  lemma Resumes<T>(e: Exchange<T>, next: Exchange<T>, ranking: seq<Entry<T>>, maxPages: int)
    requires Ranked(e.world, e.cursor) == ranking
    requires AnswerTo(e, maxPages).next.Some? && next.cursor == AnswerTo(e, maxPages).next
    ensures MoreAfter(ranking, RequestOf(e)) && ResumesAfter(ranking, RequestOf(e), RequestOf(next))
  {
  }

  /** The first request opens the session; every later one still finds its snapshot. */
  ghost predicate SnapshotLives<T>(run: seq<Exchange<T>>) {
    && run != [] && !Live(run[0].world, run[0].cursor) && run[0].world.token != ""
    && forall i :: 0 < i < |run| ==> Holds(run[i].world, run[0].world.token, run[0].world.ranking)
  }

  ghost predicate Holds<T>(w: World<T>, token: string, ranking: seq<Entry<T>>) {
    token in w.snapshots && w.snapshots[token] == ranking
  }

  /** How many requests ago the session last had no snapshot, that request included. */
  function Age<T>(run: seq<Exchange<T>>): nat {
    if run == [] then 0
    else
      var e := run[|run| - 1];
      if Live(e.world, e.cursor) then Age(run[..|run| - 1]) + 1 else 1
  }

  /** The page cap, exactly: in a scroll that did not start in the middle of a session there is a
      next cursor if and only if more of the ranking in use follows and fewer than maxPages
      pages were served since a snapshot was last missing. That number is the next page's. */
  lemma {:induction false} CapCountsFromTheLastLoss<T>(run: seq<Exchange<T>>, maxPages: int)
    requires run != [] && Scroll(run, maxPages) && !Live(run[0].world, run[0].cursor)
    ensures var last := run[|run| - 1]; var reply := AnswerTo(last, maxPages);
            && (reply.hasMore <==> MoreAfter(Ranked(last.world, last.cursor), RequestOf(last)) && Age(run) < maxPages)
            && (reply.next.Some? <==> reply.hasMore)
            && (reply.next.Some? ==> reply.next.value.page == Age(run))
  {
    var n := |run| - 1;
    LastPageHasItems(run[n], Ranked(run[n].world, run[n].cursor), maxPages);
    if n > 0 {
      var before := run[..n];
      assert before[0] == run[0] && before[n - 1] == run[n - 1];
      CapCountsFromTheLastLoss(before, maxPages);
    }
  }

  /** A scroll is longer than the cap only if a snapshot was missing on the way. */
  lemma LongScrollsLostASnapshot<T>(run: seq<Exchange<T>>, maxPages: int)
    requires run != [] && Scroll(run, maxPages) && !Live(run[0].world, run[0].cursor)
    requires |run| > 1 && |run| > maxPages
    ensures exists i :: 0 < i < |run| && !Live(run[i].world, run[i].cursor)
  {
    if forall i :: 0 < i < |run| ==> Live(run[i].world, run[i].cursor) {
      var n := |run| - 1;
      AgeWhenLive(run, n);
      assert run[..n][0] == run[0] && run[..n][n - 1] == run[n - 1];
      CapCountsFromTheLastLoss(run[..n], maxPages);
    }
  }

  lemma {:induction false} AgeWhenLive<T>(run: seq<Exchange<T>>, n: nat)
    requires 0 < n <= |run| && !Live(run[0].world, run[0].cursor)
    requires forall i :: 0 < i < n ==> Live(run[i].world, run[i].cursor)
    ensures Age(run[..n]) == n
  {
    assert run[..n][n - 1] == run[n - 1];
    if n > 1 {
      AgeWhenLive(run, n - 1);
      assert run[..n][..n - 1] == run[..n - 1];
    }
  }

  /** While the snapshot lives every page is served from it, under its token. */
  lemma {:induction false} LivePagesAreServedFromIt<T>(run: seq<Exchange<T>>, maxPages: int)
    requires SnapshotLives(run) && Scroll(run, maxPages)
    ensures ServedFrom(run, run[0].world.ranking)
    ensures forall i :: 0 < i < |run| ==> Live(run[i].world, run[i].cursor)
    ensures var reply := AnswerTo(run[|run| - 1], maxPages);
            reply.next.Some? ==> reply.next.value.token == run[0].world.token
  {
    var n := |run| - 1;
    if n > 0 {
      var before := run[..n];
      assert before[0] == run[0] && before[n - 1] == run[n - 1];
      assert SnapshotLives(before) by {
        assert forall i :: 0 < i < n ==> before[i] == run[i];
      }
      LivePagesAreServedFromIt(before, maxPages);
      assert Holds(run[n].world, run[0].world.token, run[0].world.ranking);
      forall i | 0 <= i < |run|
        ensures Ranked(run[i].world, run[i].cursor) == run[0].world.ranking
        ensures i > 0 ==> Live(run[i].world, run[i].cursor)
      {
        assert i < n ==> before[i] == run[i];
      }
    }
  }

  /** So its pages are numbered, and at most maxPages. */
  lemma PagesAreNumbered<T>(run: seq<Exchange<T>>, maxPages: int)
    requires SnapshotLives(run) && Scroll(run, maxPages)
    ensures |run| > 1 ==> |run| <= maxPages
    ensures var last := run[|run| - 1];
            AnswerTo(last, maxPages).hasMore <==> MoreAfter(run[0].world.ranking, RequestOf(last)) && |run| < maxPages
  {
    var n := |run| - 1;
    LivePagesAreServedFromIt(run, maxPages);
    AgeWhenLive(run, |run|);
    assert run[..|run|] == run;
    CapCountsFromTheLastLoss(run, maxPages);
    assert Ranked(run[n].world, run[n].cursor) == run[0].world.ranking;
    if |run| > 1 && |run| > maxPages {
      LongScrollsLostASnapshot(run, maxPages);
    }
  }

  /** While the snapshot lives, following cursors shows consecutive slices of the ranking that
      join without skip or repeat, whatever the limits, and stops within maxPages pages: at the
      end of the ranking, or at the cap. A session opened without a cursor shows a prefix. */
  lemma {:induction false} LiveScrollReadsASlice<T>(run: seq<Exchange<T>>, maxPages: int)
    requires SnapshotLives(run) && Scroll(run, maxPages)
    requires Descending(run[0].world.ranking)
    ensures var ranking := run[0].world.ranking; var from := Start(ranking, At(run[0].cursor));
            var end := End(ranking, RequestOf(run[|run| - 1]));
            && from + |run| - 1 <= end && Shown(run, maxPages) == ranking[from..end]
            && (run[0].cursor == None ==> from == 0)
            && (AnswerTo(run[|run| - 1], maxPages).next == None <==> end == |ranking| || |run| >= maxPages)
    ensures |run| > 1 ==> |run| <= maxPages
  {
    var ranking := run[0].world.ranking;
    PagesAreNumbered(run, maxPages);
    LivePagesAreServedFromIt(run, maxPages);
    ScrollFollows(run, ranking, maxPages);
    RequestsAre(run);
    FollowingReadsASlice(ranking, Requests(run));
    LastPageHasItems(run[|run| - 1], ranking, maxPages);
  }

  lemma LastPageHasItems<T>(e: Exchange<T>, ranking: seq<Entry<T>>, maxPages: int)
    requires Ranked(e.world, e.cursor) == ranking && e.limit >= 1
    ensures AnswerTo(e, maxPages).next.Some? <==> AnswerTo(e, maxPages).hasMore
    ensures MoreAfter(ranking, RequestOf(e)) <==> End(ranking, RequestOf(e)) < |ranking|
  {
  }

  /** A scroll in which snapshots may be found or lost at any request, as long as the rankings in
      use agree, skips and repeats nothing; it ends at the end of the ranking or maxPages pages
      after the last loss. */
  lemma {:induction false} MixedScrollReadsASlice<T>(run: seq<Exchange<T>>, ranking: seq<Entry<T>>, maxPages: int)
    requires run != [] && Scroll(run, maxPages) && !Live(run[0].world, run[0].cursor)
    requires ServedFrom(run, ranking) && Descending(ranking)
    ensures var from := Start(ranking, At(run[0].cursor)); var end := End(ranking, RequestOf(run[|run| - 1]));
            && from + |run| - 1 <= end && Shown(run, maxPages) == ranking[from..end]
            && (AnswerTo(run[|run| - 1], maxPages).next == None <==> end == |ranking| || Age(run) >= maxPages)
  {
    var n := |run| - 1;
    assert Ranked(run[n].world, run[n].cursor) == ranking;
    ScrollFollows(run, ranking, maxPages);
    RequestsAre(run);
    FollowingReadsASlice(ranking, Requests(run));
    CapCountsFromTheLastLoss(run, maxPages);
    LastPageHasItems(run[n], ranking, maxPages);
  }

  /** If no snapshot is ever found, and every re-score gives the same ranking, the cap of two or
      more is never reached: following cursors runs to the end of the ranking. */
  lemma {:induction false} LostSnapshotsLiftTheCap<T>(run: seq<Exchange<T>>, ranking: seq<Entry<T>>, maxPages: int)
    requires run != [] && Scroll(run, maxPages) && maxPages >= 2
    requires forall i :: 0 <= i < |run| ==> !Live(run[i].world, run[i].cursor) && run[i].world.ranking == ranking
    requires Descending(ranking)
    ensures var from := Start(ranking, At(run[0].cursor)); var end := End(ranking, RequestOf(run[|run| - 1]));
            && from + |run| - 1 <= end && Shown(run, maxPages) == ranking[from..end]
            && (AnswerTo(run[|run| - 1], maxPages).next == None <==> end == |ranking|)
  {
    assert Age(run) == 1;
    MixedScrollReadsASlice(run, ranking, maxPages);
  }

  // ---- A scroll longer than the cap ----

  /** n candidates with the ids n - 1 down to 0. */
  function Countdown(n: nat): seq<Entry<string>> {
    seq(n, i requires 0 <= i < n => Entry(Key(0.0, 0.0, n - 1 - i), ""))
  }

  /** The k-th request for one item each, when snapshots cannot be saved. */
  function LossyRequest(n: nat, k: nat): Exchange<string>
    requires k < n
  {
    Exchange(World(map[], Countdown(n), "t", false),
             if k == 0 then None else Some(Cursor("t", 1, Countdown(n)[k - 1].key)), 1)
  }

  function LossyRun(n: nat, k: nat): seq<Exchange<string>>
    requires k <= n
  {
    seq(k, i requires 0 <= i < k => LossyRequest(n, i))
  }

  /** With the cache down a scroll over n stories can take n pages, however small the cap. */
  lemma {:induction false} LossyRunIsAScroll(n: nat, k: nat, maxPages: int)
    requires 0 < k <= n && maxPages >= 2
    ensures Scroll(LossyRun(n, k), maxPages) && |LossyRun(n, k)| == k
    ensures forall i :: 0 <= i < k ==> !Live(LossyRun(n, k)[i].world, LossyRun(n, k)[i].cursor)
  {
    if k > 1 {
      LossyRunIsAScroll(n, k - 1, maxPages);
      LossyAnswer(n, k - 2, maxPages);
      LossyRunGrows(n, k);
      OneMoreRequest(LossyRun(n, k - 1), LossyRequest(n, k - 1), maxPages);
    }
  }

  lemma LossyRunGrows(n: nat, k: nat)
    requires 1 < k <= n
    ensures LossyRun(n, k) == LossyRun(n, k - 1) + [LossyRequest(n, k - 1)]
    ensures LossyRun(n, k - 1)[k - 2] == LossyRequest(n, k - 2)
  {
  }

  lemma OneMoreRequest<T>(run: seq<Exchange<T>>, e: Exchange<T>, maxPages: int)
    requires run != [] && Scroll(run, maxPages) && e.limit >= 1
    requires e.cursor.Some? && e.cursor == AnswerTo(run[|run| - 1], maxPages).next
    ensures Scroll(run + [e], maxPages)
  {
    assert (run + [e])[..|run|] == run;
  }

  lemma LossyAnswer(n: nat, k: nat, maxPages: int)
    requires k < n && maxPages >= 2
    ensures k + 1 < n ==> AnswerTo(LossyRequest(n, k), maxPages).next == LossyRequest(n, k + 1).cursor
  {
    var s := Countdown(n);
    assert Descending(s);
    if k > 0 {
      CursorResumes(s, k - 1);
    }
    assert Start(s, At(LossyRequest(n, k).cursor)) == k;
  }

  // ---- An expired snapshot ----

  /** A request whose snapshot is gone is answered like a fresh page 1 exactly when the new
      ranking is empty or lies wholly below the old cursor. */
  lemma {:induction false} ExpiredPageIsFreshExactlyWhen<T>(w: World<T>, c: Cursor, limit: nat, maxPages: int)
    requires !Live(w, Some(c)) && Descending(w.ranking) && limit >= 1
    ensures Answer(w, Some(c), limit, maxPages) == Answer(w, None, limit, maxPages)
            <==> w.ranking == [] || Less(w.ranking[0].key, c.at)
    ensures Answer(w, Some(c), limit, maxPages).items == Answer(w, None, limit, maxPages).items
            <==> w.ranking == [] || Less(w.ranking[0].key, c.at)
  {
    var s := w.ranking;
    if s != [] && !Less(s[0].key, c.at) {
      var at := FirstBelow(s, c.at);
      assert at >= 1;
      assert PageAt(s, Request(None, limit))[0] == s[0];
      var page := PageAt(s, Request(Some(c.at), limit));
      assert page != [] ==> page[0] == s[at] && Less(s[at].key, s[0].key);
    }
  }

  /** An entry of the new ranking is out of reach of that session exactly when it is not below
      the old cursor: the pages that follow read on from there and never go back. */
  lemma {:induction false} ExpiredSessionSkipsExactly<T>(run: seq<Exchange<T>>, maxPages: int, i: nat)
    requires SnapshotLives(run) && Scroll(run, maxPages) && Descending(run[0].world.ranking)
    requires run[0].cursor.Some? && i < |run[0].world.ranking|
    requires End(run[0].world.ranking, RequestOf(run[|run| - 1])) == |run[0].world.ranking|
    ensures run[0].world.ranking[i] in Shown(run, maxPages)
            <==> Less(run[0].world.ranking[i].key, run[0].cursor.value.at)
  {
    var s, c := run[0].world.ranking, run[0].cursor.value.at;
    LiveScrollToTheEnd(run, maxPages);
    CursorCuts(s, c, i);
    SuffixMembers(s, FirstBelow(s, c), i);
  }

  lemma {:induction false} LiveScrollToTheEnd<T>(run: seq<Exchange<T>>, maxPages: int)
    requires SnapshotLives(run) && Scroll(run, maxPages) && Descending(run[0].world.ranking)
    requires End(run[0].world.ranking, RequestOf(run[|run| - 1])) == |run[0].world.ranking|
    ensures Shown(run, maxPages) == run[0].world.ranking[Start(run[0].world.ranking, At(run[0].cursor))..]
  {
    LiveScrollReadsASlice(run, maxPages);
  }

  lemma SuffixMembers<T>(s: seq<Entry<T>>, from: nat, i: nat)
    requires Descending(s) && from <= |s| && i < |s|
    ensures s[i] in s[from..] <==> from <= i
  {
    if from <= i {
      assert s[from..][i - from] == s[i];
    } else {
      forall j | from <= j < |s|
        ensures s[j] != s[i]
      {
        assert Less(s[j].key, s[i].key);
      }
    }
  }

  /** The shortest case: two entries, the first page held the first, the snapshot expired and
      nothing changed. The fresh page 1 would show both again. */
  lemma ExpiredPageExample()
    ensures var s := [Entry(Key(0.0, 2.0, 7), "a"), Entry(Key(0.0, 1.0, 9), "b")];
            var w := World(map[], s, "new", true); var c := Cursor("old", 1, s[0].key);
            && Descending(s) && !Live(w, Some(c))
            && Answer(w, Some(c), 20, 4).items == [s[1]] && Answer(w, None, 20, 4).items == s
  {
    var s := [Entry(Key(0.0, 2.0, 7), "a"), Entry(Key(0.0, 1.0, 9), "b")];
    CursorResumes(s, 0);
  }

  // ---- What the ranking is ----

  /** The entry of a candidate: its affinity, 0 without one, then its headline score, then its id. */
  ghost predicate IsEntryOf<T>(e: Entry<T>, c: Candidate<T>, scores: map<int, real>) {
    && e.item == c.item && e.key.id == c.id && e.key.minor == c.headline
    && (c.id in scores ==> e.key.major == scores[c.id]) && (c.id !in scores ==> e.key.major == 0.0)
  }

  /** Every ranked entry is a candidate's and every candidate has one, and they stand by falling
      affinity, then headline score, then id. */
  lemma RankingMeans<T>(candidates: seq<Candidate<T>>, scores: map<int, real>)
    requires DistinctCandidates(candidates)
    ensures var r := Rank(candidates, scores);
            && (forall i :: 0 <= i < |r| ==> exists c :: c in candidates && IsEntryOf(r[i], c, scores))
            && (forall c :: c in candidates ==> exists e :: e in r && IsEntryOf(e, c, scores))
            && forall i, j :: 0 <= i < j < |r| ==>
                 || r[i].key.major > r[j].key.major
                 || (r[i].key.major == r[j].key.major && r[i].key.minor > r[j].key.minor)
                 || (r[i].key.major == r[j].key.major && r[i].key.minor == r[j].key.minor && r[i].key.id > r[j].key.id)
  {
    var r, entries := Rank(candidates, scores), Entries(candidates, scores);
    RankingIsStrict(candidates, scores);
    forall i | 0 <= i < |r|
      ensures exists c :: c in candidates && IsEntryOf(r[i], c, scores)
    {
      SameMembers(r, entries, r[i]);
      var k :| 0 <= k < |entries| && entries[k] == r[i];
      assert candidates[k] in candidates && IsEntryOf(r[i], candidates[k], scores);
    }
    forall c | c in candidates
      ensures exists e :: e in r && IsEntryOf(e, c, scores)
    {
      var k :| 0 <= k < |candidates| && candidates[k] == c;
      SameMembers(entries, r, entries[k]);
      assert entries[k] in r && IsEntryOf(entries[k], c, scores);
    }
    forall i, j | 0 <= i < j < |r|
      ensures || r[i].key.major > r[j].key.major
              || (r[i].key.major == r[j].key.major && r[i].key.minor > r[j].key.minor)
              || (r[i].key.major == r[j].key.major && r[i].key.minor == r[j].key.minor && r[i].key.id > r[j].key.id)
    {
      DescendingMeans(r, i, j);
    }
  }
}
