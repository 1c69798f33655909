/** Streaks over the days with a completed puzzle. Days are numbered. */
module Streaks {
  import opened Basics

  /** The n days from a given one on are all completed. */
  ghost predicate Run(days: set<int>, from: int, n: nat) {
    forall d :: from <= d < from + n ==> d in days
  }

  ghost predicate IsLongest(days: set<int>, n: nat) {
    && (exists from :: Run(days, from, n))
    && (forall from, m: nat :: Run(days, from, m) ==> m <= n)
  }

  /** Today, or yesterday while today is not completed yet. */
  function LastDay(days: set<int>, today: int): int {
    if today in days then today else today - 1
  }

  /** The maximal run that ends on a day: n days, and the day before them is missing. */
  ghost predicate EndsAt(days: set<int>, last: int, n: nat) {
    Run(days, last - n + 1, n) && last - n !in days
  }

  ghost predicate IsCurrent(days: set<int>, today: int, n: nat) {
    EndsAt(days, LastDay(days, today), n)
  }

  // ---- What the two numbers mean ----

  lemma EndsAtIsUnique(days: set<int>, last: int, n: nat, m: nat)
    requires EndsAt(days, last, n) && EndsAt(days, last, m)
    ensures n == m
  {
    assert n < m ==> last - m + 1 <= last - n < last - m + 1 + m;
    assert m < n ==> last - n + 1 <= last - m < last - n + 1 + n;
  }

  lemma LongestIsUnique(days: set<int>, n: nat, m: nat)
    requires IsLongest(days, n) && IsLongest(days, m)
    ensures n == m
  {
    var a :| Run(days, a, n);
    var b :| Run(days, b, m);
  }

  lemma CurrentAtMostLongest(days: set<int>, today: int, n: nat, m: nat)
    requires IsCurrent(days, today, n) && IsLongest(days, m)
    ensures n <= m
  {
    assert Run(days, LastDay(days, today) - n + 1, n);
  }

  /** Completing today extends the streak by one day. */
  lemma CompletingTodayExtends(days: set<int>, today: int, n: nat)
    requires today !in days
    ensures IsCurrent(days, today, n) <==> IsCurrent(days + {today}, today, n + 1)
  {
    var more := days + {today};
    if IsCurrent(days, today, n) {
      assert Run(more, today - n, n + 1);
    }
    if IsCurrent(more, today, n + 1) {
      forall d | today - 1 - n + 1 <= d < today
        ensures d in days
      {
        assert today - (n + 1) + 1 <= d < today - (n + 1) + 1 + (n + 1);
      }
    }
  }

  /** A day off keeps the streak for one day and then breaks it. */
  lemma DayOff(days: set<int>, today: int, n: nat)
    requires today in days && today + 1 !in days && today + 2 !in days
    ensures IsCurrent(days, today, n) <==> IsCurrent(days, today + 1, n)
    ensures IsCurrent(days, today + 2, 0)
  {
  }

  // ---- _compute_streaks ----

  ghost predicate Ascending(s: seq<int>) {
    forall i, j :: 0 <= i < j < |s| ==> s[i] < s[j]
  }

  method SortDays(days: set<int>) returns (s: seq<int>)
    ensures Ascending(s)
    ensures forall d :: d in s <==> d in days
  {
    s := [];
    var rest := days;
    while rest != {}
      invariant rest <= days && Ascending(s)
      invariant forall d :: d in s <==> d in days && d !in rest
      invariant forall k, e :: 0 <= k < |s| && e in rest ==> s[k] < e
      decreases rest
    {
      var d := First(rest);
      s := s + [d];
      rest := rest - {d};
    }
  }

  method First(days: set<int>) returns (first: int)
    requires days != {}
    ensures first in days && forall d :: d in days ==> first <= d
  {
    SomeMember(days);
    first :| first in days;
    var rest := days - {first};
    while rest != {}
      invariant first in days && rest <= days
      invariant forall d :: d in days && d !in rest ==> first <= d
      decreases rest
    {
      SomeMember(rest);
      var d :| d in rest;
      rest := rest - {d};
      if d < first { first := d; }
    }
  }

  /** The backward loop. It ends because every day it counts is another day of the set. */
  method CurrentRun(days: set<int>, today: int) returns (current: nat)
    ensures IsCurrent(days, today, current)
  {
    var cursor := if today in days then today else today - 1;
    current := 0;
    ghost var rest := days;
    while cursor in days
      invariant cursor == LastDay(days, today) - current
      invariant Run(days, cursor + 1, current)
      invariant rest <= days && forall d :: d in days && d <= cursor ==> d in rest
      decreases rest
    {
      rest := rest - {cursor};
      current := current + 1;
      cursor := cursor - 1;
    }
  }

  /** No run that ends by the given day is longer than n. */
  ghost predicate LongestUpTo(days: set<int>, last: int, n: nat) {
    && (exists from :: Run(days, from, n))
    && (forall from, m: nat :: Run(days, from, m) && from + m - 1 <= last ==> m <= n)
  }

  method LongestRun(days: set<int>) returns (longest: nat)
    requires days != {}
    ensures IsLongest(days, longest)
  {
    var sorted := SortDays(days);
    SomeMember(days);
    ghost var d :| d in days;
    assert d in sorted;
    longest := 0;
    var run: nat, prev := 0, None;
    FirstDay(days, sorted);
    for i := 0 to |sorted|
      invariant if i == 0 then prev == None && longest == 0
                else && prev == Some(sorted[i - 1]) && EndsAt(days, sorted[i - 1], run)
                     && LongestUpTo(days, sorted[i - 1], longest)
    {
      if i > 0 {
        NextDay(days, sorted, i, run, longest);
      }
      run := if prev.Some? && sorted[i] == prev.value + 1 then run + 1 else 1;
      longest := if longest > run then longest else run;
      prev := Some(sorted[i]);
    }
    UpToLast(days, sorted, longest);
  }

  lemma NextDay(days: set<int>, sorted: seq<int>, i: nat, run: nat, longest: nat)
    requires 0 < i < |sorted| && Ascending(sorted) && forall d :: d in sorted <==> d in days
    requires EndsAt(days, sorted[i - 1], run) && LongestUpTo(days, sorted[i - 1], longest)
    ensures var next := if sorted[i] == sorted[i - 1] + 1 then run + 1 else 1;
            EndsAt(days, sorted[i], next) && LongestUpTo(days, sorted[i], if longest > next then longest else next)
  {
    var d, prev := sorted[i], sorted[i - 1];
    var next := if d == prev + 1 then run + 1 else 1;
    NoDayBetween(days, sorted, i);
    assert Run(days, d - next + 1, next);
    RunsUpTo(days, prev, d, next, longest);
  }

  lemma NoDayBetween(days: set<int>, sorted: seq<int>, i: nat)
    requires 0 < i < |sorted| && Ascending(sorted) && forall d :: d in sorted <==> d in days
    ensures forall d :: sorted[i - 1] < d < sorted[i] ==> d !in days
  {
    forall k | 0 <= k < |sorted|
      ensures sorted[k] <= sorted[i - 1] || sorted[i] <= sorted[k]
    {
    }
  }

  lemma RunsUpTo(days: set<int>, prev: int, d: int, run: nat, longest: nat)
    requires prev < d && d in days && (forall e :: prev < e < d ==> e !in days)
    requires EndsAt(days, d, run) && LongestUpTo(days, prev, longest)
    ensures LongestUpTo(days, d, if longest > run then longest else run)
  {
    forall from, m: nat | Run(days, from, m) && from + m - 1 <= d && m > 0
      ensures m <= longest || m <= run
    {
      assert from + m - 1 in days;
    }
    var from :| Run(days, from, longest);
    assert Run(days, d - run + 1, run);
  }

  lemma FirstDay(days: set<int>, sorted: seq<int>)
    requires sorted != [] && Ascending(sorted) && forall d :: d in sorted <==> d in days
    ensures EndsAt(days, sorted[0], 1) && LongestUpTo(days, sorted[0], 1)
  {
    var d := sorted[0];
    assert d in days;
    forall e | e < d
      ensures e !in sorted
    {
    }
    assert Run(days, d, 1);
    forall from, m: nat | Run(days, from, m) && m > 1
      ensures from + m - 1 > d
    {
      assert from in days;
    }
  }

  lemma UpToLast(days: set<int>, sorted: seq<int>, longest: nat)
    requires sorted != [] && Ascending(sorted) && forall d :: d in sorted <==> d in days
    requires LongestUpTo(days, sorted[|sorted| - 1], longest)
    ensures IsLongest(days, longest)
  {
    forall from, m: nat | Run(days, from, m) && m > 0
      ensures m <= longest
    {
      assert from + m - 1 in days;
    }
  }

  /** _compute_streaks, with no streaks on no days. */
  method ComputeStreaks(days: set<int>, today: int) returns (current: nat, longest: nat)
    ensures IsCurrent(days, today, current) && IsLongest(days, longest)
    ensures current <= longest
  {
    if days == {} {
      assert Run(days, today, 0);
      assert forall from, m: nat :: Run(days, from, m) && m > 0 ==> from in days;
      return 0, 0;
    }
    current := CurrentRun(days, today);
    longest := LongestRun(days);
    CurrentAtMostLongest(days, today, current, longest);
  }
}
