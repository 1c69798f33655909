/** What happens to a page of GET /clusters after it is chosen: shuffle, splice, dedupe. */
module FeedDisplay {
  import opened Basics
  import opened Keyset
  import opened StoryFeed

  /** The explore slot, counted from 1. */
  const EXPLORE_SLOT_POSITION: nat := 2

  ghost predicate HasId(s: seq<Cluster>, id: int) {
    exists i :: 0 <= i < |s| && s[i].id == id
  }

  // ---- Shuffle ----

  /** A story and the sort key drawn for it. */
  datatype Drawn = Drawn(cluster: Cluster, draw: real)

  function InsertDrawn(s: seq<Drawn>, d: Drawn): seq<Drawn> {
    if s == [] then [d]
    else if s[0].draw <= d.draw then [d] + s
    else [s[0]] + InsertDrawn(s[1..], d)
  }

  /** sorted(items, key=draw, reverse=True): equal draws keep their order. */
  function SortDrawn(s: seq<Drawn>): seq<Drawn> {
    if s == [] then [] else InsertDrawn(SortDrawn(s[1..]), s[0])
  }

  function Stories(s: seq<Drawn>): seq<Cluster> {
    seq(|s|, i requires 0 <= i < |s| => s[i].cluster)
  }

  function Shuffled(page: seq<Cluster>, draws: seq<real>): seq<Cluster>
    requires |draws| == |page|
  {
    Stories(SortDrawn(seq(|page|, i requires 0 <= i < |page| => Drawn(page[i], draws[i]))))
  }

  lemma {:induction false} InsertDrawnPermutes(s: seq<Drawn>, d: Drawn)
    ensures multiset(Stories(InsertDrawn(s, d))) == multiset(Stories(s)) + multiset{d.cluster}
  {
    if s == [] || s[0].draw <= d.draw {
      StoriesCons(d, s);
    } else {
      InsertDrawnPermutes(s[1..], d);
      StoriesCons(s[0], InsertDrawn(s[1..], d));
      StoriesCons(s[0], s[1..]);
      assert s == [s[0]] + s[1..];
    }
  }

  lemma StoriesCons(d: Drawn, s: seq<Drawn>)
    ensures multiset(Stories([d] + s)) == multiset{d.cluster} + multiset(Stories(s))
  {
    assert Stories([d] + s) == [d.cluster] + Stories(s);
  }

  lemma {:induction false} SortDrawnPermutes(s: seq<Drawn>)
    ensures multiset(Stories(SortDrawn(s))) == multiset(Stories(s))
  {
    if s != [] {
      SortDrawnPermutes(s[1..]);
      InsertDrawnPermutes(SortDrawn(s[1..]), s[0]);
      StoriesCons(s[0], s[1..]);
      assert s == [s[0]] + s[1..];
    }
  }

  /** The shuffle only reorders the page. */
  lemma ShufflePermutes(page: seq<Cluster>, draws: seq<real>)
    requires |draws| == |page|
    ensures multiset(Shuffled(page, draws)) == multiset(page) && |Shuffled(page, draws)| == |page|
  {
    var drawn := seq(|page|, i requires 0 <= i < |page| => Drawn(page[i], draws[i]));
    SortDrawnPermutes(drawn);
    assert Stories(drawn) == page;
    assert |multiset(page)| == |page|;
    assert |multiset(Shuffled(page, draws))| == |Shuffled(page, draws)|;
  }

  ghost predicate DrawsDescend(s: seq<Drawn>) {
    forall i, j :: 0 <= i < j < |s| ==> s[i].draw >= s[j].draw
  }

  ghost predicate DrawsAtMost(s: seq<Drawn>, draw: real) {
    forall i :: 0 <= i < |s| ==> s[i].draw <= draw
  }

  lemma {:induction false} InsertDrawnAtMost(s: seq<Drawn>, d: Drawn, draw: real)
    requires DrawsAtMost(s, draw) && d.draw <= draw
    ensures DrawsAtMost(InsertDrawn(s, d), draw)
  {
    if s != [] && s[0].draw > d.draw {
      InsertDrawnAtMost(s[1..], d, draw);
    }
  }

  lemma {:induction false} InsertDrawnDescends(s: seq<Drawn>, d: Drawn)
    requires DrawsDescend(s)
    ensures DrawsDescend(InsertDrawn(s, d))
  {
    if s != [] && s[0].draw > d.draw {
      InsertDrawnDescends(s[1..], d);
      InsertDrawnAtMost(s[1..], d, s[0].draw);
    }
  }

  /** The highest draw is shown first. */
  lemma {:induction false} SortDrawnDescends(s: seq<Drawn>)
    ensures DrawsDescend(SortDrawn(s))
  {
    if s != [] {
      SortDrawnDescends(s[1..]);
      InsertDrawnDescends(SortDrawn(s[1..]), s[0]);
    }
  }

  /** One story comes before the other. */
  ghost predicate ComesFirst<T>(s: seq<T>, x: T, y: T) {
    exists m, n :: 0 <= m < n < |s| && s[m] == x && s[n] == y
  }

  lemma FirstOfTail<T>(head: T, s: seq<T>, x: T, y: T)
    requires ComesFirst(s, x, y)
    ensures ComesFirst([head] + s, x, y)
  {
    var m, n :| 0 <= m < n < |s| && s[m] == x && s[n] == y;
    assert ([head] + s)[m + 1] == x && ([head] + s)[n + 1] == y;
  }

  lemma HeadFirst<T>(head: T, s: seq<T>, q: nat)
    requires q < |s|
    ensures ComesFirst([head] + s, head, s[q])
  {
    assert ([head] + s)[0] == head && ([head] + s)[q + 1] == s[q];
  }

  /** A drawn story is inserted before the first that drew no more, and nothing else moves. */
  lemma {:induction false} InsertedAt(s: seq<Drawn>, d: Drawn, q: nat)
    requires DrawsDescend(s) && q < |s|
    ensures s[q].draw <= d.draw ==> ComesFirst(InsertDrawn(s, d), d, s[q])
    ensures s[q].draw > d.draw ==> ComesFirst(InsertDrawn(s, d), s[q], d)
    ensures forall r :: 0 <= r < q ==> ComesFirst(InsertDrawn(s, d), s[r], s[q])
  {
    if s[0].draw <= d.draw {
      HeadFirst(d, s, q);
      forall r | 0 <= r < q
        ensures ComesFirst([d] + s, s[r], s[q])
      {
        assert ComesFirst(s, s[r], s[q]);
        FirstOfTail(d, s, s[r], s[q]);
      }
    } else {
      var rest := InsertDrawn(s[1..], d);
      InsertedMember(s[1..], d);
      if q > 0 {
        InsertedAt(s[1..], d, q - 1);
        assert s[1..][q - 1] == s[q];
        forall r | 0 <= r < q
          ensures ComesFirst([s[0]] + rest, s[r], s[q])
        {
          if r > 0 {
            assert s[1..][r - 1] == s[r];
            FirstOfTail(s[0], rest, s[r], s[q]);
          } else {
            InsertedMember2(s[1..], d, q - 1);
            var k :| 0 <= k < |rest| && rest[k] == s[q];
            HeadFirst(s[0], rest, k);
          }
        }
        if s[q].draw <= d.draw {
          FirstOfTail(s[0], rest, d, s[q]);
        } else {
          FirstOfTail(s[0], rest, s[q], d);
        }
      } else {
        var k :| 0 <= k < |rest| && rest[k] == d;
        HeadFirst(s[0], rest, k);
      }
    }
  }

  lemma {:induction false} InsertedMember(s: seq<Drawn>, d: Drawn)
    ensures d in InsertDrawn(s, d)
  {
    if s != [] && s[0].draw > d.draw {
      InsertedMember(s[1..], d);
    }
  }

  lemma {:induction false} InsertedMember2(s: seq<Drawn>, d: Drawn, q: nat)
    requires q < |s|
    ensures s[q] in InsertDrawn(s, d)
  {
    if s[0].draw > d.draw && q > 0 {
      InsertedMember2(s[1..], d, q - 1);
    }
  }

  /** The sort puts the higher draw first, and of equal draws the one that came first. */
  lemma {:induction false} SortedByDraw(s: seq<Drawn>, i: nat, j: nat)
    requires i < |s| && j < |s| && (s[i].draw > s[j].draw || (s[i].draw == s[j].draw && i < j))
    ensures ComesFirst(SortDrawn(s), s[i], s[j])
    decreases |s|
  {
    var rest := SortDrawn(s[1..]);
    SortDrawnDescends(s[1..]);
    if i == 0 {
      SortedMember(s[1..], j - 1);
      var q :| 0 <= q < |rest| && rest[q] == s[j];
      InsertedAt(rest, s[0], q);
    } else if j == 0 {
      SortedMember(s[1..], i - 1);
      var q :| 0 <= q < |rest| && rest[q] == s[i];
      InsertedAt(rest, s[0], q);
    } else {
      SortedByDraw(s[1..], i - 1, j - 1);
      var m, n :| 0 <= m < n < |rest| && rest[m] == s[i] && rest[n] == s[j];
      InsertedAt(rest, s[0], n);
    }
  }

  lemma {:induction false} SortedMember(s: seq<Drawn>, q: nat)
    requires q < |s|
    ensures s[q] in SortDrawn(s)
    decreases |s|
  {
    var rest := SortDrawn(s[1..]);
    if q == 0 {
      InsertedMember(rest, s[0]);
    } else {
      SortedMember(s[1..], q - 1);
      var k :| 0 <= k < |rest| && rest[k] == s[q];
      InsertedMember2(rest, s[0], k);
    }
  }

  /** So of two stories of the page the one with the higher draw is shown first, and with equal
      draws the one fetched first. */
  lemma HigherDrawShownFirst(page: seq<Cluster>, draws: seq<real>, i: nat, j: nat)
    requires |draws| == |page| && i < |page| && j < |page|
    requires draws[i] > draws[j] || (draws[i] == draws[j] && i < j)
    ensures ComesFirst(Shuffled(page, draws), page[i], page[j])
  {
    var s := seq(|page|, k requires 0 <= k < |page| => Drawn(page[k], draws[k]));
    assert s[i] == Drawn(page[i], draws[i]) && s[j] == Drawn(page[j], draws[j]);
    SortedByDraw(s, i, j);
    var t := SortDrawn(s);
    var m, n :| 0 <= m < n < |t| && t[m] == s[i] && t[n] == s[j];
    assert Stories(t)[m] == page[i] && Stories(t)[n] == page[j];
  }

  // ---- Splice ----

  ghost function Spliced(s: seq<Cluster>, candidate: Option<Cluster>): seq<Cluster> {
    if candidate.None? || s == [] || HasId(s, candidate.value.id) then s
    else
      var at := if EXPLORE_SLOT_POSITION - 1 <= |s| then EXPLORE_SLOT_POSITION - 1 else |s|;
      s[..at] + [candidate.value] + s[at..]
  }

  // ---- Dedupe ----

  /** The items whose id no earlier item has. */
  ghost function Firsts(s: seq<Cluster>): seq<Cluster> {
    if s == [] then [] else
      var n := |s| - 1;
      if HasId(s[..n], s[n].id) then Firsts(s[..n]) else Firsts(s[..n]) + [s[n]]
  }

  lemma LastOrBefore(s: seq<Cluster>, id: int)
    requires s != []
    ensures HasId(s, id) <==> HasId(s[..|s| - 1], id) || s[|s| - 1].id == id
  {
    var n := |s| - 1;
    if i :| 0 <= i < |s| && s[i].id == id {
      assert i < n ==> s[..n][i].id == id;
    }
    if HasId(s[..n], id) {
      var i :| 0 <= i < |s[..n]| && s[..n][i].id == id;
      assert s[i].id == id;
    }
  }

  lemma {:induction false} FirstsKeepIds(s: seq<Cluster>, id: int)
    ensures HasId(Firsts(s), id) <==> HasId(s, id)
  {
    if s != [] {
      var n := |s| - 1;
      FirstsKeepIds(s[..n], id);
      LastOrBefore(s, id);
      if !HasId(s[..n], s[n].id) {
        var r := Firsts(s);
        assert r[..|r| - 1] == Firsts(s[..n]);
        LastOrBefore(r, id);
      }
    }
  }

  lemma {:induction false} FirstsAreDistinct(s: seq<Cluster>)
    ensures DistinctRows(Firsts(s))
  {
    if s != [] {
      var n := |s| - 1;
      FirstsAreDistinct(s[..n]);
      FirstsKeepIds(s[..n], s[n].id);
    }
  }

  lemma {:induction false} DistinctStays(s: seq<Cluster>)
    requires DistinctRows(s)
    ensures Firsts(s) == s
  {
    if s != [] {
      var n := |s| - 1;
      DistinctStays(s[..n]);
      assert !HasId(s[..n], s[n].id);
      assert s == s[..n] + [s[n]];
    }
  }

  method Dedupe(items: seq<Cluster>) returns (r: seq<Cluster>)
    ensures r == Firsts(items)
  {
    r := [];
    var seen: set<int> := {};
    for i := 0 to |items|
      invariant r == Firsts(items[..i])
      invariant forall id :: id in seen <==> HasId(items[..i], id)
    {
      assert items[..i + 1][..i] == items[..i];
      forall id
        ensures HasId(items[..i + 1], id) <==> HasId(items[..i], id) || items[i].id == id
      {
        LastOrBefore(items[..i + 1], id);
      }
      if items[i].id in seen { continue; }
      seen := seen + {items[i].id};
      r := r + [items[i]];
    }
    assert items[..|items|] == items;
  }

  // ---- The page as shown ----

  /** A first page without a cursor; draws when a seed came with it, a candidate when the caller
      is a known user and one was picked. */
  datatype Visit = Visit(firstPage: bool, draws: Option<seq<real>>, candidate: Option<Cluster>)

  ghost predicate ValidVisit(page: seq<Cluster>, v: Visit) {
    v.draws.Some? ==> |v.draws.value| == |page|
  }

  function Arranged(page: seq<Cluster>, order: Order, v: Visit): seq<Cluster>
    requires ValidVisit(page, v)
  {
    if order.ByScore? && v.firstPage && v.draws.Some? then Shuffled(page, v.draws.value) else page
  }

  ghost function Display(page: seq<Cluster>, order: Order, v: Visit): seq<Cluster>
    requires ValidVisit(page, v)
  {
    var arranged := Arranged(page, order, v);
    Firsts(if order.ByScore? && v.firstPage then Spliced(arranged, v.candidate) else arranged)
  }

  ghost predicate Exposes(page: seq<Cluster>, order: Order, v: Visit) {
    order.ByScore? && v.firstPage && page != [] && v.candidate.Some? && !HasId(page, v.candidate.value.id)
  }

  /** The tail of list_story_clusters; exposed tells whether an exposure is recorded. */
  method ShowPage(page: seq<Cluster>, order: Order, v: Visit) returns (shown: seq<Cluster>, exposed: bool)
    requires ValidVisit(page, v)
    ensures shown == Display(page, order, v)
    ensures exposed <==> Exposes(page, order, v)
  {
    var items := page;
    if order.ByScore? && v.firstPage && v.draws.Some? && page != [] {
      items := Shuffled(page, v.draws.value);
    }
    NothingToShuffle(page, order, v);
    ArrangedPermutes(page, order, v);
    exposed := false;
    if order.ByScore? && v.firstPage && items != [] && v.candidate.Some? {
      var candidate := v.candidate.value;
      var ids := set c | c in items :: c.id;
      SameIds(items, page, candidate.id);
      if candidate.id !in ids {
        assert !HasId(items, candidate.id);
        var at := if EXPLORE_SLOT_POSITION - 1 <= |items| then EXPLORE_SLOT_POSITION - 1 else |items|;
        items := items[..at] + [candidate] + items[at..];
        exposed := true;
      }
    }
    shown := Dedupe(items);
  }

  lemma NothingToShuffle(page: seq<Cluster>, order: Order, v: Visit)
    requires ValidVisit(page, v)
    ensures page == [] ==> Arranged(page, order, v) == page
  {
    ArrangedPermutes(page, order, v);
  }

  lemma ArrangedPermutes(page: seq<Cluster>, order: Order, v: Visit)
    requires ValidVisit(page, v)
    ensures multiset(Arranged(page, order, v)) == multiset(page) && |Arranged(page, order, v)| == |page|
  {
    if v.draws.Some? {
      ShufflePermutes(page, v.draws.value);
    }
  }

  lemma SameIds(a: seq<Cluster>, b: seq<Cluster>, id: int)
    requires multiset(a) == multiset(b)
    ensures HasId(a, id) <==> HasId(b, id)
  {
    if i :| 0 <= i < |a| && a[i].id == id {
      SameMembers(a, b, a[i]);
    }
    if i :| 0 <= i < |b| && b[i].id == id {
      SameMembers(b, a, b[i]);
    }
  }

  lemma PermutedStaysDistinct(a: seq<Cluster>, b: seq<Cluster>)
    requires multiset(a) == multiset(b) && DistinctRows(b)
    ensures DistinctRows(a)
  {
    forall i, j | 0 <= i < j < |a|
      ensures a[i].id != a[j].id
    {
      SameMembers(a, b, a[i]);
      SameMembers(a, b, a[j]);
      if a[i].id == a[j].id {
        assert a[i] == a[j];
        TwoInMultiset(a, i, j);
        OnceInDistinct(b, a[i]);
      }
    }
  }

  lemma TwoInMultiset(s: seq<Cluster>, i: nat, j: nat)
    requires i < j < |s| && s[i] == s[j]
    ensures multiset(s)[s[i]] >= 2
  {
    Removed(s, i);
    assert Without(s, i)[j - 1] == s[j];
  }

  lemma OnceInDistinct(s: seq<Cluster>, c: Cluster)
    requires DistinctRows(s) && c in s
    ensures multiset(s)[c] == 1
  {
    var i :| 0 <= i < |s| && s[i] == c;
    Removed(s, i);
    forall k | 0 <= k < |Without(s, i)|
      ensures Without(s, i)[k] != c
    {
    }
    assert c !in Without(s, i);
  }

  // ---- What the display keeps ----

  /** On a page of distinct ids the display permutes it, with all ids distinct and at most one
      story more: the candidate, in the second place. */
  lemma DisplayPermutesThePage(page: seq<Cluster>, order: Order, v: Visit)
    requires DistinctRows(page) && ValidVisit(page, v)
    ensures var shown := Display(page, order, v);
            && DistinctRows(shown)
            && if Exposes(page, order, v)
               then && |shown| >= 2 && shown[1] == v.candidate.value
                    && multiset(shown) == multiset(page) + multiset{v.candidate.value}
               else multiset(shown) == multiset(page)
  {
    var arranged := Arranged(page, order, v);
    ArrangedPermutes(page, order, v);
    PermutedStaysDistinct(arranged, page);
    if Exposes(page, order, v) {
      var c := v.candidate.value;
      SameIds(arranged, page, c.id);
      var spliced := arranged[..1] + [c] + arranged[1..];
      SplicePermutes(arranged, c);
      OneMore(arranged, c);
      PermutedStaysDistinct(spliced, [c] + arranged);
      DistinctStays(spliced);
    } else {
      if v.candidate.Some? {
        SameIds(arranged, page, v.candidate.value.id);
      }
      DistinctStays(arranged);
    }
  }

  lemma SplicePermutes(s: seq<Cluster>, c: Cluster)
    requires s != []
    ensures multiset(s[..1] + [c] + s[1..]) == multiset([c] + s) == multiset(s) + multiset{c}
  {
    assert s == s[..1] + s[1..];
  }

  lemma OneMore(s: seq<Cluster>, c: Cluster)
    requires DistinctRows(s) && !HasId(s, c.id)
    ensures DistinctRows([c] + s)
  {
  }

  /** Only the first page of All Stories is rearranged: any other is shown as it was fetched. */
  lemma OtherPagesStay(page: seq<Cluster>, order: Order, v: Visit)
    requires DistinctRows(page) && ValidVisit(page, v) && (order == ByRecency || !v.firstPage)
    ensures Display(page, order, v) == page
  {
    DistinctStays(page);
  }

  /** And it is shuffled exactly as drawn when no story is spliced in. */
  lemma FirstPageIsShuffled(page: seq<Cluster>, order: Order, v: Visit)
    requires DistinctRows(page) && ValidVisit(page, v) && order != ByRecency && v.firstPage && v.candidate == None
    ensures Display(page, order, v) == if v.draws == None then page else Shuffled(page, v.draws.value)
  {
    ArrangedPermutes(page, order, v);
    PermutedStaysDistinct(Arranged(page, order, v), page);
    DistinctStays(Arranged(page, order, v));
  }

  /** Across pages the spliced story is the only possible repeat: the displayed page and the
      rest of the feed share an id exactly when the candidate is also in that rest. */
  lemma RepeatsExactlyWhen(page: seq<Cluster>, rest: seq<Cluster>, order: Order, v: Visit)
    requires DistinctRows(page + rest) && ValidVisit(page, v)
    ensures DistinctRows(Display(page, order, v) + rest)
            <==> !(Exposes(page, order, v) && HasId(rest, v.candidate.value.id))
  {
    PrefixIsDistinct(page, rest);
    DisplayPermutesThePage(page, order, v);
    if Exposes(page, order, v) {
      OneMoreRepeats(page, rest, Display(page, order, v), v.candidate.value);
    } else {
      AppendPermuted(Display(page, order, v), page, rest);
      PermutedStaysDistinct(Display(page, order, v) + rest, page + rest);
    }
  }

  lemma PrefixIsDistinct(a: seq<Cluster>, b: seq<Cluster>)
    requires DistinctRows(a + b)
    ensures DistinctRows(a)
  {
    assert forall i :: 0 <= i < |a| ==> (a + b)[i] == a[i];
  }

  lemma AppendPermuted(a: seq<Cluster>, b: seq<Cluster>, rest: seq<Cluster>)
    requires multiset(a) == multiset(b)
    ensures multiset(a + rest) == multiset(b + rest)
  {
  }

  lemma OneMoreRepeats(page: seq<Cluster>, rest: seq<Cluster>, shown: seq<Cluster>, c: Cluster)
    requires DistinctRows(page + rest) && !HasId(page, c.id)
    requires multiset(shown) == multiset(page) + multiset{c} && |shown| >= 2 && shown[1] == c
    ensures DistinctRows(shown + rest) <==> !HasId(rest, c.id)
  {
    if HasId(rest, c.id) {
      var k :| 0 <= k < |rest| && rest[k].id == c.id;
      assert (shown + rest)[1] == c && (shown + rest)[|shown| + k] == rest[k];
    } else {
      Either(page, rest, c.id);
      OneMore(page + rest, c);
      assert multiset([c] + page) == multiset(page) + multiset{c};
      AppendPermuted(shown, [c] + page, rest);
      assert [c] + page + rest == [c] + (page + rest);
      PermutedStaysDistinct(shown + rest, [c] + (page + rest));
    }
  }

  lemma Either(a: seq<Cluster>, b: seq<Cluster>, id: int)
    ensures HasId(a + b, id) <==> HasId(a, id) || HasId(b, id)
  {
    if i :| 0 <= i < |a| && a[i].id == id {
      assert (a + b)[i].id == id;
    }
    if i :| 0 <= i < |b| && b[i].id == id {
      assert (a + b)[|a| + i].id == id;
    }
  }

  /** The items of the pages after the first, which are shown as they come. */
  function LaterItems(order: Order, feed: seq<Entry<Cluster>>, run: seq<Request>): seq<Cluster> {
    if |run| <= 1 then []
    else LaterItems(order, feed, run[..|run| - 1]) + EnvelopeAt(order, feed, run[|run| - 1]).items
  }

  lemma {:induction false} FirstAndLater(order: Order, feed: seq<Entry<Cluster>>, run: seq<Request>)
    requires run != []
    ensures ShownItems(order, feed, run) == EnvelopeAt(order, feed, run[0]).items + LaterItems(order, feed, run)
  {
    var n := |run| - 1;
    if n > 0 {
      assert run[..n][0] == run[0];
      FirstAndLater(order, feed, run[..n]);
    } else {
      assert ShownItems(order, feed, run[..0]) == [];
    }
  }

  /** A finished scroll whose first page was displayed shows some story twice exactly when the
      explore candidate was spliced in and is itself an eligible row: its own page comes later. */
  lemma {:induction false} SplicedStoryRepeatsExactlyWhen(rows: seq<Cluster>, order: Order, run: seq<Request>, v: Visit)
    requires DistinctRows(rows) && run != [] && run[0].cursor == None
    requires Scroll(order, Feed(rows, order), run)
    requires EnvelopeAt(order, Feed(rows, order), run[|run| - 1]).next == None
    requires ValidVisit(EnvelopeAt(order, Feed(rows, order), run[0]).items, v)
    ensures var page := EnvelopeAt(order, Feed(rows, order), run[0]).items;
            DistinctRows(Display(page, order, v) + LaterItems(order, Feed(rows, order), run))
            <==> !(Exposes(page, order, v) && HasId(rows, v.candidate.value.id))
  {
    var page, rest := EnvelopeAt(order, Feed(rows, order), run[0]).items, LaterItems(order, Feed(rows, order), run);
    var all := ShownItems(order, Feed(rows, order), run);
    FirstAndLater(order, Feed(rows, order), run);
    FinishedScrollIsEveryRowOnce(rows, order, run);
    PermutedStaysDistinct(all, rows);
    RepeatsExactlyWhen(page, rest, order, v);
    if v.candidate.Some? {
      SameIds(all, rows, v.candidate.value.id);
      Either(page, rest, v.candidate.value.id);
    }
  }

  // ---- A scroll that repeats the candidate ----

  /** Two stories of two sources each, which makes both eligible and both possible candidates. */
  function TwoStories(): seq<Cluster> {
    [Cluster(1, 2.0, 0.0, [10, 11], false), Cluster(2, 1.0, 0.0, [10, 12], false)]
  }

  function Unweighted(): Order {
    ByScore(map[])
  }

  function PageByPage(): seq<Request> {
    [Request(None, 1), Request(Some(Key(2.0, 0.0, 1)), 1)]
  }

  function SecondSpliced(): Visit {
    Visit(true, None, Some(TwoStories()[1]))
  }

  lemma FeedOfTwo()
    ensures Feed(TwoStories(), Unweighted())
            == [Entry(Key(2.0, 0.0, 1), TwoStories()[0]), Entry(Key(1.0, 0.0, 2), TwoStories()[1])]
  {
    NoWeightsNoBoost([10, 11]);
    NoWeightsNoBoost([10, 12]);
    var s := [Entry(Key(2.0, 0.0, 1), TwoStories()[0]), Entry(Key(1.0, 0.0, 2), TwoStories()[1])];
    assert Entries(TwoStories(), Unweighted()) == s;
    SortedStays(s);
  }

  lemma PagesOfTwo()
    ensures var feed := Feed(TwoStories(), Unweighted()); var run := PageByPage();
            && EnvelopeAt(Unweighted(), feed, run[0]).items == [TwoStories()[0]]
            && EnvelopeAt(Unweighted(), feed, run[0]).next == run[1].cursor
            && EnvelopeAt(Unweighted(), feed, run[1]).items == [TwoStories()[1]]
            && EnvelopeAt(Unweighted(), feed, run[1]).next == None
  {
    FeedOfTwo();
    CursorResumes(Feed(TwoStories(), Unweighted()), 0);
  }

  /** Read one story a page, with the second spliced into the first page: it comes twice. */
  lemma SplicedStoryExample()
    ensures var rows, order, run := TwoStories(), Unweighted(), PageByPage(); var feed := Feed(rows, order);
            && DistinctRows(rows) && Scroll(order, feed, run) && EnvelopeAt(order, feed, run[1]).next == None
            && !DistinctRows(Display(EnvelopeAt(order, feed, run[0]).items, order, SecondSpliced())
                             + LaterItems(order, feed, run))
  {
    var rows, order, run := TwoStories(), Unweighted(), PageByPage();
    PagesOfTwo();
    assert run[..1] == [run[0]];
    assert rows[1].id == 2;
    SplicedStoryRepeatsExactlyWhen(rows, order, run, SecondSpliced());
  }
}
