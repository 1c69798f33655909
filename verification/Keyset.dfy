/** Keyset paging: lists in strictly descending key order, and the pages cursors cut from them. */
module Keyset {
  import opened Basics

  /** An ordering key. Two-field orders leave minor at zero. */
  datatype Key = Key(major: real, minor: real, id: int)

  datatype Entry<+T> = Entry(key: Key, item: T)

  /** The lexicographic comparison of the tuples. */
  predicate Less(a: Key, b: Key) {
    a.major < b.major || (a.major == b.major && (a.minor < b.minor || (a.minor == b.minor && a.id < b.id)))
  }

  ghost predicate Descending<T>(s: seq<Entry<T>>) {
    forall i, j :: 0 <= i < j < |s| ==> Less(s[j].key, s[i].key)
  }

  ghost predicate DistinctIds<T>(s: seq<Entry<T>>) {
    forall i, j :: 0 <= i < j < |s| ==> s[i].key.id != s[j].key.id
  }

  // ---- Sorting ----

  function Insert<T>(s: seq<Entry<T>>, e: Entry<T>): seq<Entry<T>> {
    if s == [] then [e]
    else if Less(s[0].key, e.key) then [e] + s
    else [s[0]] + Insert(s[1..], e)
  }

  /** sorted(s, key=..., reverse=True), and ORDER BY key DESC */
  function SortDesc<T>(s: seq<Entry<T>>): seq<Entry<T>> {
    if s == [] then [] else Insert(SortDesc(s[1..]), s[0])
  }

  ghost predicate NoId<T>(s: seq<Entry<T>>, id: int) {
    forall i :: 0 <= i < |s| ==> s[i].key.id != id
  }

  ghost predicate AllBelow<T>(s: seq<Entry<T>>, c: Key) {
    forall i :: 0 <= i < |s| ==> Less(s[i].key, c)
  }

  lemma {:induction false} InsertBelow<T>(s: seq<Entry<T>>, e: Entry<T>, c: Key)
    requires AllBelow(s, c) && Less(e.key, c)
    ensures AllBelow(Insert(s, e), c)
  {
    if s != [] && !Less(s[0].key, e.key) {
      InsertBelow(s[1..], e, c);
    }
  }

  lemma {:induction false} InsertDescends<T>(s: seq<Entry<T>>, e: Entry<T>)
    requires Descending(s) && NoId(s, e.key.id)
    ensures Descending(Insert(s, e))
  {
    if s != [] && !Less(s[0].key, e.key) {
      InsertDescends(s[1..], e);
      InsertBelow(s[1..], e, s[0].key);
    }
  }

  lemma {:induction false} InsertPermutes<T>(s: seq<Entry<T>>, e: Entry<T>)
    ensures multiset(Insert(s, e)) == multiset(s) + multiset{e}
  {
    if s != [] {
      Uncons(s);
      if !Less(s[0].key, e.key) {
        InsertPermutes(s[1..], e);
      }
    }
  }

  lemma Uncons<T>(s: seq<T>)
    requires s != []
    ensures multiset(s) == multiset{s[0]} + multiset(s[1..])
  {
    assert s == [s[0]] + s[1..];
  }

  lemma {:induction false} SortPermutes<T>(s: seq<Entry<T>>)
    ensures multiset(SortDesc(s)) == multiset(s)
  {
    if s != [] {
      Uncons(s);
      SortPermutes(s[1..]);
      InsertPermutes(SortDesc(s[1..]), s[0]);
    }
  }

  lemma SameMembers<T>(a: seq<T>, b: seq<T>, x: T)
    requires multiset(a) == multiset(b) && x in a
    ensures x in b
  {
    assert x in multiset(a);
  }

  /** With an id tiebreak the sorted list is strict: no two entries compare equal. */
  lemma {:induction false} SortDescends<T>(s: seq<Entry<T>>)
    requires DistinctIds(s)
    ensures Descending(SortDesc(s))
  {
    if s != [] {
      SortDescends(s[1..]);
      SortPermutes(s[1..]);
      var rest := SortDesc(s[1..]);
      forall i | 0 <= i < |rest|
        ensures rest[i].key.id != s[0].key.id
      {
        SameMembers(rest, s[1..], rest[i]);
      }
      InsertDescends(rest, s[0]);
    }
  }

  /** A list already in order is left as it is. */
  lemma {:induction false} SortedStays<T>(s: seq<Entry<T>>)
    requires Descending(s)
    ensures SortDesc(s) == s
  {
    if s != [] {
      SortedStays(s[1..]);
    }
  }

  // ---- Cursors ----

  /** The position of the first entry below the cursor, the length when there is none. */
  function FirstBelow<T>(s: seq<Entry<T>>, c: Key): (at: nat)
    ensures at <= |s|
  {
    if s == [] then 0
    else if Less(s[0].key, c) then 0
    else 1 + FirstBelow(s[1..], c)
  }

  function Start<T>(s: seq<Entry<T>>, cursor: Option<Key>): (at: nat)
    ensures at <= |s|
  {
    match cursor case None => 0 case Some(c) => FirstBelow(s, c)
  }

  /** In a descending list the cursor cuts: exactly the entries from there on are below it. */
  lemma {:induction false} CursorCuts<T>(s: seq<Entry<T>>, c: Key, i: nat)
    requires Descending(s) && i < |s|
    ensures Less(s[i].key, c) <==> i >= FirstBelow(s, c)
  {
    if i > 0 && !Less(s[0].key, c) {
      CursorCuts(s[1..], c, i - 1);
    }
  }

  /** The cursor of the entry at p resumes right after it. */
  lemma CursorResumes<T>(s: seq<Entry<T>>, p: nat)
    requires Descending(s) && p < |s|
    ensures FirstBelow(s, s[p].key) == p + 1
  {
    var at := FirstBelow(s, s[p].key);
    CursorCuts(s, s[p].key, p);
    if p + 1 < |s| {
      CursorCuts(s, s[p].key, p + 1);
    }
  }

  /** The entries below a cursor, in their given order. */
  function BelowCursor<T>(s: seq<Entry<T>>, c: Key): seq<Entry<T>> {
    if s == [] then []
    else if Less(s[0].key, c) then [s[0]] + BelowCursor(s[1..], c)
    else BelowCursor(s[1..], c)
  }

  lemma {:induction false} InsertAtCursor<T>(s: seq<Entry<T>>, e: Entry<T>, c: Key)
    requires Descending(s) && NoId(s, e.key.id)
    ensures BelowCursor(Insert(s, e), c) == if Less(e.key, c) then Insert(BelowCursor(s, c), e) else BelowCursor(s, c)
  {
    if s != [] {
      if Less(s[0].key, e.key) {
        assert Less(e.key, c) ==> Less(s[0].key, c);
      } else {
        InsertAtCursor(s[1..], e, c);
        SkippedByInsert(s, e, c);
      }
    }
  }

  lemma SkippedByInsert<T>(s: seq<Entry<T>>, e: Entry<T>, c: Key)
    requires s != [] && !Less(s[0].key, e.key) && s[0].key.id != e.key.id
    ensures Insert(s, e) == [s[0]] + Insert(s[1..], e)
    ensures !Less(s[0].key, c) && Less(e.key, c) ==> Less(e.key, s[0].key)
  {
  }

  /** WHERE before ORDER BY, or a cut of the sorted list: the same entries in the same order. */
  lemma {:induction false} FilterThenSort<T>(s: seq<Entry<T>>, c: Key)
    requires DistinctIds(s)
    ensures SortDesc(BelowCursor(s, c)) == BelowCursor(SortDesc(s), c)
  {
    if s != [] {
      var rest := SortDesc(s[1..]);
      FilterThenSort(s[1..], c);
      SortDescends(s[1..]);
      SortPermutes(s[1..]);
      forall i | 0 <= i < |rest|
        ensures rest[i].key.id != s[0].key.id
      {
        SameMembers(rest, s[1..], rest[i]);
      }
      InsertAtCursor(rest, s[0], c);
      if Less(s[0].key, c) {
        assert ([s[0]] + BelowCursor(s[1..], c))[1..] == BelowCursor(s[1..], c);
      }
    }
  }

  lemma {:induction false} BelowIsSuffix<T>(s: seq<Entry<T>>, c: Key)
    requires Descending(s)
    ensures BelowCursor(s, c) == s[FirstBelow(s, c)..]
  {
    if s != [] {
      BelowIsSuffix(s[1..], c);
      if Less(s[0].key, c) {
        FirstIsTop(s, c);
      }
    }
  }

  lemma FirstIsTop<T>(s: seq<Entry<T>>, c: Key)
    requires Descending(s) && s != [] && Less(s[0].key, c)
    ensures FirstBelow(s[1..], c) == 0
  {
    assert s[1..] != [] ==> Less(s[1..][0].key, c);
  }

  // ---- Pages ----

  function PageFrom<T>(s: seq<Entry<T>>, start: nat, limit: nat): seq<Entry<T>>
    requires start <= |s|
  {
    if start + limit < |s| then s[start..start + limit] else s[start..]
  }

  /** One request of a scroll: where it started and how much it asked for. */
  datatype Request = Request(cursor: Option<Key>, limit: nat)

  function PageAt<T>(s: seq<Entry<T>>, r: Request): seq<Entry<T>> {
    PageFrom(s, Start(s, r.cursor), r.limit)
  }

  predicate MoreAfter<T>(s: seq<Entry<T>>, r: Request) {
    Start(s, r.cursor) + r.limit < |s|
  }

  /** Each request follows the cursor of the page before: the key of its last entry. */
  ghost predicate Follows<T>(s: seq<Entry<T>>, run: seq<Request>)
    requires run != []
  {
    var n := |run| - 1;
    && run[n].limit >= 1
    && (n == 0 || (Follows(s, run[..n]) && MoreAfter(s, run[n - 1]) && ResumesAfter(s, run[n - 1], run[n])))
  }

  ghost predicate ResumesAfter<T>(s: seq<Entry<T>>, r: Request, next: Request) {
    PageAt(s, r) != [] && next.cursor == Some(PageAt(s, r)[|PageAt(s, r)| - 1].key)
  }

  function Served<T>(s: seq<Entry<T>>, run: seq<Request>): seq<Entry<T>> {
    if run == [] then [] else Served(s, run[..|run| - 1]) + PageAt(s, run[|run| - 1])
  }

  /** Where the page of a request ends. */
  function End<T>(s: seq<Entry<T>>, r: Request): (at: nat)
    ensures Start(s, r.cursor) <= at <= |s|
  {
    if MoreAfter(s, r) then Start(s, r.cursor) + r.limit else |s|
  }

  lemma NextStart<T>(s: seq<Entry<T>>, r: Request, next: Request)
    requires Descending(s) && r.limit >= 1 && MoreAfter(s, r) && ResumesAfter(s, r, next)
    ensures Start(s, next.cursor) == End(s, r)
  {
    CursorResumes(s, Start(s, r.cursor) + r.limit - 1);
  }

  lemma PageIsSlice<T>(s: seq<Entry<T>>, r: Request)
    ensures PageAt(s, r) == s[Start(s, r.cursor)..End(s, r)]
  {
  }

  /** Following cursors reads one unbroken slice, whatever the limits: no entry is skipped and
      none is served twice, and each page moves on. */
  lemma {:induction false} FollowingReadsASlice<T>(s: seq<Entry<T>>, run: seq<Request>)
    requires Descending(s) && run != [] && Follows(s, run)
    ensures Start(s, run[0].cursor) + |run| - 1 <= End(s, run[|run| - 1])
    ensures Served(s, run) == s[Start(s, run[0].cursor)..End(s, run[|run| - 1])]
  {
    var n := |run| - 1;
    PageIsSlice(s, run[n]);
    ServedUnfolds(s, run);
    if n > 0 {
      var before := run[..n];
      assert before[0] == run[0] && before[n - 1] == run[n - 1];
      FollowingReadsASlice(s, before);
      NextStart(s, run[n - 1], run[n]);
      Joins(s, Start(s, run[0].cursor), End(s, run[n - 1]), End(s, run[n]));
    }
  }

  lemma ServedUnfolds<T>(s: seq<Entry<T>>, run: seq<Request>)
    requires run != []
    ensures Served(s, run) == if |run| == 1 then PageAt(s, run[0])
                              else Served(s, run[..|run| - 1]) + PageAt(s, run[|run| - 1])
  {
    assert Served(s, []) == [];
  }

  lemma Joins<T>(s: seq<T>, from: nat, mid: nat, to: nat)
    requires from <= mid <= to <= |s|
    ensures s[from..mid] + s[mid..to] == s[from..to]
  {
  }

  /** What descending means, field by field: the major part never rises, the minor part does not
      while the major one stays, and the id falls while both stay. */
  lemma DescendingMeans<T>(s: seq<Entry<T>>, i: nat, j: nat)
    requires Descending(s) && i < j < |s|
    ensures s[i].key.major >= s[j].key.major
    ensures s[i].key.major == s[j].key.major ==> s[i].key.minor >= s[j].key.minor
    ensures s[i].key.major == s[j].key.major && s[i].key.minor == s[j].key.minor ==> s[i].key.id > s[j].key.id
  {
    assert Less(s[j].key, s[i].key);
  }
}
