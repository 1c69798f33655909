/** build_chains: from clusters and their entity keys to the chain of every cluster. */
module ChainBuild {
  import opened Basics

  /** A cluster: its canonical entity keys, and whether each is structurally backdrop. */
  type ClusterRec = map<string, bool>

  datatype Params = Params(genericPercentile: real, byBaselineRate: bool, useBackdropFilter: bool,
                           subsumptionRatio: real, useInstitutionFilter: bool,
                           institutionOverlapThreshold: real, institutionMinPostings: int)

  // ---- The cutoff ----

  predicate SortedReals(s: seq<real>) {
    forall i, j :: 0 <= i < j < |s| ==> s[i] <= s[j]
  }

  function Insert(s: seq<real>, v: real): (r: seq<real>)
    ensures |r| == |s| + 1
  {
    if s == [] then [v]
    else if v <= s[0] then [v] + s
    else [s[0]] + Insert(s[1..], v)
  }

  function SortReals(s: seq<real>): (r: seq<real>)
    ensures |r| == |s|
  {
    if s == [] then [] else Insert(SortReals(s[1..]), s[0])
  }

  ghost predicate AllAbove(s: seq<real>, c: real) {
    forall i :: 0 <= i < |s| ==> c <= s[i]
  }

  lemma {:induction false} InsertAbove(s: seq<real>, v: real, c: real)
    requires AllAbove(s, c) && c <= v
    ensures AllAbove(Insert(s, v), c)
  {
    if s != [] && v > s[0] {
      InsertAbove(s[1..], v, c);
    }
  }

  lemma {:induction false} InsertSorted(s: seq<real>, v: real)
    requires SortedReals(s)
    ensures SortedReals(Insert(s, v))
  {
    if s != [] && v > s[0] {
      InsertSorted(s[1..], v);
      InsertAbove(s[1..], v, s[0]);
    }
  }

  lemma {:induction false} SortSorted(s: seq<real>)
    ensures SortedReals(SortReals(s))
  {
    if s != [] {
      SortSorted(s[1..]);
      InsertSorted(SortReals(s[1..]), s[0]);
    }
  }

  /** int(x): towards zero. */
  function Truncated(x: real): int {
    if x >= 0.0 then x.Floor else -(-x).Floor
  }

  /** The position that s[min(int(n * percentile), n - 1)] reads in a list of n values: a negative
      index counts from the end, and one below -n is an error. */
  function CutoffPosition(n: nat, percentile: real): (at: Option<nat>)
    requires n > 0
    ensures at.Some? ==> at.value < n
  {
    var raw := Truncated(n as real * percentile);
    var index := if raw < n - 1 then raw else n - 1;
    if index >= 0 then Some(index) else if n + index >= 0 then Some(n + index) else None
  }

  /** _generic_cutoff: the value at the percentile's position, 1.0 for no values, None for the error. */
  function GenericCutoff(values: seq<real>, percentile: real): Option<real> {
    if values == [] then Some(1.0)
    else
      match CutoffPosition(|values|, percentile)
      case None => None
      case Some(at) => Some(SortReals(values)[at])
  }

  /** The error is for percentiles that reach beyond the start of the list. */
  lemma CutoffFailsExactlyWhen(values: seq<real>, percentile: real)
    ensures GenericCutoff(values, percentile) == None
            <==> values != [] && |values| as real * percentile <= -(|values| + 1) as real
  {
    var x := |values| as real * percentile;
    if x < 0.0 {
      assert (-x).Floor >= |values| + 1 <==> -x >= (|values| + 1) as real;
    }
  }

  /** How many values are below c, and how many at most c. */
  function Below(s: seq<real>, c: real): nat {
    if s == [] then 0 else if s[0] < c then 1 + Below(s[1..], c) else Below(s[1..], c)
  }

  function AtMost(s: seq<real>, c: real): nat {
    if s == [] then 0 else if s[0] <= c then 1 + AtMost(s[1..], c) else AtMost(s[1..], c)
  }

  lemma {:induction false} CountsInsert(s: seq<real>, v: real, c: real)
    ensures Below(Insert(s, v), c) == Below(s, c) + if v < c then 1 else 0
    ensures AtMost(Insert(s, v), c) == AtMost(s, c) + if v <= c then 1 else 0
  {
    if s != [] && v > s[0] {
      CountsInsert(s[1..], v, c);
    }
  }

  lemma {:induction false} CountsSort(s: seq<real>, c: real)
    ensures Below(SortReals(s), c) == Below(s, c) && AtMost(SortReals(s), c) == AtMost(s, c)
  {
    if s != [] {
      CountsSort(s[1..], c);
      CountsInsert(SortReals(s[1..]), s[0], c);
    }
  }

  lemma {:induction false} CountsSorted(s: seq<real>, k: nat)
    requires SortedReals(s) && k < |s|
    ensures Below(s, s[k]) <= k < AtMost(s, s[k])
  {
    if k == 0 {
      NoneBelow(s, s[0]);
    } else {
      assert forall i :: 0 <= i < |s[1..]| ==> s[1..][i] == s[i + 1];
      CountsSorted(s[1..], k - 1);
    }
  }

  lemma {:induction false} NoneBelow(s: seq<real>, c: real)
    requires AllAbove(s, c)
    ensures Below(s, c) == 0
  {
    if s != [] {
      NoneBelow(s[1..], c);
    }
  }

  /** The cutoff is the order statistic of its position: at most that many values lie below
      it, and more lie at or below it. */
  lemma CutoffIsOrderStatistic(values: seq<real>, percentile: real)
    requires values != [] && GenericCutoff(values, percentile).Some?
    ensures var c, at := GenericCutoff(values, percentile).value, CutoffPosition(|values|, percentile);
            at.Some? && Below(values, c) <= at.value < AtMost(values, c)
  {
    var c, at := GenericCutoff(values, percentile).value, CutoffPosition(|values|, percentile).value;
    SortSorted(values);
    CountsSorted(SortReals(values), at);
    CountsSort(values, c);
  }

  // ---- What the percentile means, in counts of values ----

  ghost function LessThan(s: seq<real>, c: real): set<nat> {
    set i: nat | i < |s| && s[i] < c
  }

  ghost function NoMoreThan(s: seq<real>, c: real): set<nat> {
    set i: nat | i < |s| && s[i] <= c
  }

  lemma {:induction false} CountsAreSizes(s: seq<real>, c: real)
    ensures Below(s, c) == |LessThan(s, c)| && AtMost(s, c) == |NoMoreThan(s, c)|
  {
    if s == [] {
      assert LessThan(s, c) == {} && NoMoreThan(s, c) == {};
    } else {
      CountsAreSizes(s[1..], c);
      ShiftedSize(LessThan(s[1..], c), LessThan(s, c), s[0] < c);
      ShiftedSize(NoMoreThan(s[1..], c), NoMoreThan(s, c), s[0] <= c);
    }
  }

  /** c has at most k smaller values, and more than k values up to it: it is at position k of the
      sorted list. */
  ghost predicate IsAtPosition(values: seq<real>, c: real, k: int) {
    c in values && |LessThan(values, c)| <= k < |NoMoreThan(values, c)|
  }

  lemma {:induction false} InsertMembers(s: seq<real>, v: real)
    ensures forall x :: x in Insert(s, v) <==> x in s || x == v
  {
    if s != [] && v > s[0] {
      InsertMembers(s[1..], v);
    }
  }

  lemma {:induction false} SortMembers(s: seq<real>)
    ensures forall x :: x in SortReals(s) <==> x in s
  {
    if s != [] {
      SortMembers(s[1..]);
      InsertMembers(SortReals(s[1..]), s[0]);
    }
  }

  lemma CutoffIsAtItsPosition(values: seq<real>, percentile: real)
    requires values != [] && CutoffPosition(|values|, percentile).Some?
    ensures GenericCutoff(values, percentile).Some?
    ensures IsAtPosition(values, GenericCutoff(values, percentile).value, CutoffPosition(|values|, percentile).value)
  {
    var c := GenericCutoff(values, percentile).value;
    CutoffIsOrderStatistic(values, percentile);
    CountsAreSizes(values, c);
    SortMembers(values);
  }

  /** A percentile below 1 reads the position that this part of the values comes before, rounded
      down. */
  lemma PercentileMeans(values: seq<real>, p: real, k: nat)
    requires values != [] && 0.0 <= p < 1.0 && k as real <= |values| as real * p < (k + 1) as real
    ensures GenericCutoff(values, p).Some?
    ensures IsAtPosition(values, GenericCutoff(values, p).value, k)
  {
    var m := |values| as real;
    var x := m * p;
    PartIsSmaller(m, p, x);
    Rounded(|values|, x, k);
    CutoffAt(values, p, x, k);
  }

  /** One of 1 or more reads the maximum. Without values the cutoff is 1. */
  lemma WholePercentileMeans(values: seq<real>, p: real)
    requires values != [] && p >= 1.0
    ensures GenericCutoff(values, p).Some?
    ensures IsAtPosition(values, GenericCutoff(values, p).value, |values| - 1)
    ensures GenericCutoff([], p) == Some(1.0)
  {
    WholeIsReached(|values|, |values| as real * p, p);
    CutoffAt(values, p, |values| as real * p, |values| - 1);
  }

  /** A negative one counts from the end, and what rounds to zero reads the minimum. */
  lemma NegativePercentileMeans(values: seq<real>, p: real, k: nat)
    requires values != [] && p < 0.0 && k as real <= -(|values| as real * p) < (k + 1) as real && k <= |values|
    ensures GenericCutoff(values, p).Some?
    ensures IsAtPosition(values, GenericCutoff(values, p).value, if k == 0 then 0 else |values| - k)
  {
    RoundedUp(|values| as real * p, k);
    CutoffAt(values, p, |values| as real * p, if k == 0 then 0 else |values| - k);
  }

  lemma CutoffAt(values: seq<real>, p: real, x: real, at: nat)
    requires values != [] && x == |values| as real * p && at < |values|
    requires var raw := Truncated(x); at == raw || (raw >= |values| - 1 == at) || at - |values| == raw
    ensures GenericCutoff(values, p).Some?
    ensures IsAtPosition(values, GenericCutoff(values, p).value, at)
  {
    assert CutoffPosition(|values|, p) == Some(at);
    CutoffIsAtItsPosition(values, p);
  }

  lemma RoundedUp(x: real, k: nat)
    requires k as real <= -x < (k + 1) as real
    ensures Truncated(x) + k == 0
  {
  }

  lemma PartIsSmaller(m: real, p: real, x: real)
    requires m > 0.0 && p < 1.0 && x == m * p
    ensures x < m
  {
    assert m * (1.0 - p) > 0.0;
  }

  lemma Rounded(n: nat, x: real, k: nat)
    requires x < n as real && k as real <= x < (k + 1) as real
    ensures Truncated(x) == k < n
  {
  }

  lemma WholeIsReached(n: nat, x: real, p: real)
    requires p >= 1.0 && x == n as real * p
    ensures Truncated(x) >= n
  {
    assert n as real * (p - 1.0) >= 0.0;
    assert x.Floor >= n;
  }

  // ---- Which keys survive ----

  ghost function Mentions(clusters: seq<ClusterRec>, key: string): set<nat> {
    set i: nat | i < |clusters| && key in clusters[i]
  }

  /** doc_freq / n */
  ghost function InSetDf(clusters: seq<ClusterRec>, key: string): real {
    if Mentions(clusters, key) == {} then 0.0
    else |Mentions(clusters, key)| as real / |clusters| as real
  }

  ghost predicate IsGeneric(clusters: seq<ClusterRec>, baseline: map<string, real>, p: Params, cutoff: real,
                            key: string) {
    if p.byBaselineRate && key in baseline then baseline[key] >= cutoff
    else InSetDf(clusters, key) >= cutoff
  }

  /** The keys of a cluster that may form a topic group. */
  ghost function Qualifying(clusters: seq<ClusterRec>, baseline: map<string, real>, p: Params, cutoff: real,
                            i: nat): set<string>
    requires i < |clusters|
  {
    set key | key in clusters[i] && !(p.useBackdropFilter && clusters[i][key])
              && !IsGeneric(clusters, baseline, p, cutoff, key)
  }

  method DocFreq(clusters: seq<ClusterRec>) returns (freq: map<string, nat>)
    ensures forall key :: key in freq <==> Mentions(clusters, key) != {}
    ensures forall key :: key in freq ==> freq[key] == |Mentions(clusters, key)|
  {
    freq := map[];
    assert forall key :: Mentions(clusters[..0], key) == {};
    for i := 0 to |clusters|
      invariant forall key :: key in freq <==> |Mentions(clusters[..i], key)| > 0
      invariant forall key :: key in freq ==> freq[key] == |Mentions(clusters[..i], key)|
    {
      freq := AddKeys(freq, clusters[i].Keys);
      forall key
        ensures |Mentions(clusters[..i + 1], key)|
                == |Mentions(clusters[..i], key)| + if key in clusters[i] then 1 else 0
      {
        MentionsGrow(clusters, i, key);
      }
    }
    assert clusters[..|clusters|] == clusters;
  }

  lemma MentionsGrow(clusters: seq<ClusterRec>, i: nat, key: string)
    requires i < |clusters|
    ensures |Mentions(clusters[..i + 1], key)| == |Mentions(clusters[..i], key)| + if key in clusters[i] then 1 else 0
  {
    var before, after := Mentions(clusters[..i], key), Mentions(clusters[..i + 1], key);
    if key in clusters[i] {
      assert after == before + {i};
    } else {
      assert after == before;
    }
  }

  method AddKeys(freq: map<string, nat>, keys: set<string>) returns (r: map<string, nat>)
    ensures r.Keys == freq.Keys + keys
    ensures forall key :: key in r ==> r[key] == (if key in freq then freq[key] else 0) + if key in keys then 1 else 0
  {
    r := freq;
    var rest := keys;
    while rest != {}
      invariant rest <= keys && r.Keys == freq.Keys + (keys - rest)
      invariant forall key :: key in r ==>
                  r[key] == (if key in freq then freq[key] else 0) + if key in keys - rest then 1 else 0
      decreases rest
    {
      var key :| key in rest;
      r := r[key := (if key in r then r[key] else 0) + 1];
      rest := rest - {key};
    }
  }

  // ---- Institutions ----

  /** The positions whose key set contains the key. */
  function Postings(qualifying: seq<set<string>>, key: string): seq<nat> {
    if qualifying == [] then [] else
      var n := |qualifying| - 1;
      if key in qualifying[n] then Postings(qualifying[..n], key) + [n] else Postings(qualifying[..n], key)
  }

  function PairOverlap(a: set<string>, b: set<string>): real {
    if a == {} || b == {} then 0.0
    else |a * b| as real / (if |a| <= |b| then |a| else |b|) as real
  }

  /** The sum of the overlaps of one companion set with the following ones. */
  function RowSum(a: set<string>, rest: seq<set<string>>): real {
    if rest == [] then 0.0 else RowSum(a, rest[..|rest| - 1]) + PairOverlap(a, rest[|rest| - 1])
  }

  /** The sum over all pairs whose first member is among the first n companion sets. */
  function PairSum(companions: seq<set<string>>, n: nat): real
    requires n <= |companions|
  {
    if n == 0 then 0.0 else PairSum(companions, n - 1) + RowSum(companions[n - 1], companions[n..])
  }

  /** How many such pairs there are. */
  function PairCount(size: nat, n: nat): nat
    requires n <= size
  {
    if n == 0 then 0 else PairCount(size, n - 1) + (size - n)
  }

  function AverageOverlap(companions: seq<set<string>>): real {
    var count := PairCount(|companions|, |companions|);
    if count == 0 then 0.0 else PairSum(companions, |companions|) / count as real
  }

  function Companions(qualifying: seq<set<string>>, key: string, at: seq<nat>): seq<set<string>>
    requires forall i :: 0 <= i < |at| ==> at[i] < |qualifying|
  {
    seq(|at|, i requires 0 <= i < |at| => qualifying[at[i]] - {key})
  }

  lemma {:induction false} PostingsAreMentions(qualifying: seq<set<string>>, key: string)
    ensures forall i :: 0 <= i < |Postings(qualifying, key)| ==> Postings(qualifying, key)[i] < |qualifying|
    ensures forall i: nat :: i in Postings(qualifying, key) <==> i < |qualifying| && key in qualifying[i]
  {
    if qualifying != [] {
      PostingsAreMentions(qualifying[..|qualifying| - 1], key);
    }
  }

  /** A key whose occurrences meet mostly different companions each time. */
  predicate IsInstitution(qualifying: seq<set<string>>, p: Params, key: string) {
    var at := Postings(qualifying, key);
    PostingsAreMentions(qualifying, key);
    at != [] && |at| >= p.institutionMinPostings
    && AverageOverlap(Companions(qualifying, key, at)) < p.institutionOverlapThreshold
  }

  /** The average is a proportion. */
  lemma {:induction false} RowSumBounds(a: set<string>, rest: seq<set<string>>)
    ensures 0.0 <= RowSum(a, rest) <= |rest| as real
  {
    if rest != [] {
      var b := rest[|rest| - 1];
      RowSumBounds(a, rest[..|rest| - 1]);
      SubsetSize(a * b, a);
      SubsetSize(a * b, b);
      assert 0.0 <= PairOverlap(a, b) <= 1.0;
    }
  }

  lemma {:induction false} PairSumBounds(companions: seq<set<string>>, n: nat)
    requires n <= |companions|
    ensures 0.0 <= PairSum(companions, n) <= PairCount(|companions|, n) as real
  {
    if n > 0 {
      PairSumBounds(companions, n - 1);
      RowSumBounds(companions[n - 1], companions[n..]);
    }
  }

  lemma AverageIsProportion(companions: seq<set<string>>)
    ensures 0.0 <= AverageOverlap(companions) <= 1.0
  {
    PairSumBounds(companions, |companions|);
  }

  /** So a threshold of zero makes no key an institution, and one above 1 makes every key
      with enough postings one. */
  lemma InstitutionExtremes(qualifying: seq<set<string>>, p: Params, key: string)
    ensures p.institutionOverlapThreshold <= 0.0 ==> !IsInstitution(qualifying, p, key)
    ensures p.institutionOverlapThreshold > 1.0 ==>
              (IsInstitution(qualifying, p, key) <==>
                 Postings(qualifying, key) != [] && |Postings(qualifying, key)| >= p.institutionMinPostings)
  {
    var at := Postings(qualifying, key);
    PostingsAreMentions(qualifying, key);
    AverageIsProportion(Companions(qualifying, key, at));
  }

  /** The nested loops over companion pairs. */
  method Average(companions: seq<set<string>>) returns (avg: real)
    ensures avg == AverageOverlap(companions)
  {
    var sum, count := 0.0, 0;
    for a := 0 to |companions|
      invariant sum == PairSum(companions, a) && count == PairCount(|companions|, a)
    {
      var row, others := 0.0, 0;
      for b := a + 1 to |companions|
        invariant row == RowSum(companions[a], companions[a + 1..b]) && others == b - a - 1
      {
        assert companions[a + 1..b + 1] == companions[a + 1..b] + [companions[b]];
        var ca, cb := companions[a], companions[b];
        if ca != {} && cb != {} {
          row := row + |ca * cb| as real / (if |ca| <= |cb| then |ca| else |cb|) as real;
        }
        others := others + 1;
      }
      assert companions[a + 1..|companions|] == companions[a + 1..];
      sum := sum + row;
      count := count + others;
    }
    avg := if count > 0 then sum / count as real else 0.0;
  }

  /** compute_institution_keys */
  method InstitutionKeys(qualifying: seq<set<string>>, p: Params) returns (institutions: set<string>)
    ensures forall key :: key in institutions <==> IsInstitution(qualifying, p, key)
  {
    var postings := PostingLists(qualifying);
    institutions := {};
    var rest := postings.Keys;
    while rest != {}
      invariant rest <= postings.Keys
      invariant forall key :: key in institutions <==> key in postings.Keys - rest && IsInstitution(qualifying, p, key)
      decreases rest
    {
      var key :| key in rest;
      rest := rest - {key};
      var at := postings[key];
      PostingsAreMentions(qualifying, key);
      if |at| >= p.institutionMinPostings {
        var avg := Average(Companions(qualifying, key, at));
        if avg < p.institutionOverlapThreshold {
          institutions := institutions + {key};
        }
      }
    }
  }

  method PostingLists(qualifying: seq<set<string>>) returns (postings: map<string, seq<nat>>)
    ensures forall key :: key in postings <==> Postings(qualifying, key) != []
    ensures forall key :: key in postings ==> postings[key] == Postings(qualifying, key)
  {
    postings := map[];
    for n := 0 to |qualifying|
      invariant forall key :: key in postings <==> Postings(qualifying[..n], key) != []
      invariant forall key :: key in postings ==> postings[key] == Postings(qualifying[..n], key)
    {
      assert qualifying[..n + 1][..n] == qualifying[..n];
      postings := AppendTo(postings, qualifying[n], n);
      assert forall key :: key in qualifying[n] ==>
          Postings(qualifying[..n + 1], key) == Postings(qualifying[..n], key) + [n];
    }
    assert qualifying[..|qualifying|] == qualifying;
  }

  method AppendTo(postings: map<string, seq<nat>>, keys: set<string>, n: nat) returns (r: map<string, seq<nat>>)
    ensures r.Keys == postings.Keys + keys
    ensures forall key :: key in r ==>
              r[key] == if key in keys then (if key in postings then postings[key] else []) + [n] else postings[key]
  {
    r := postings;
    var rest := keys;
    while rest != {}
      invariant rest <= keys && r.Keys == postings.Keys + (keys - rest)
      invariant forall key :: key in r ==>
                  r[key] == if key in keys - rest then (if key in postings then postings[key] else []) + [n]
                            else postings[key]
      decreases rest
    {
      var key :| key in rest;
      r := r[key := (if key in r then r[key] else []) + [n]];
      rest := rest - {key};
    }
  }

  // ---- What the diffuseness of a key is, in shared companions ----

  /** The average is taken over all pairs. */
  lemma {:induction false} PairsOf(size: nat, n: nat)
    requires n <= size
    ensures 2 * PairCount(size, n) == n * (2 * size - n - 1)
  {
    if n > 0 {
      PairsOf(size, n - 1);
      assert (n - 1) * (2 * size - n) + 2 * (size - n) == n * (2 * size - n - 1);
    }
  }

  lemma AllPairsCounted(size: nat)
    ensures 2 * PairCount(size, size) == size * (size - 1)
  {
    PairsOf(size, size);
  }

  lemma Ratio(x: nat, n: nat, t: real)
    requires n > 0
    ensures x as real / n as real < t <==> (x as real) < t * n as real
  {
    var q := x as real / n as real;
    assert x as real == q * n as real;
    if q < t {
      assert (t - q) * n as real > 0.0;
    } else {
      assert (q - t) * n as real >= 0.0;
    }
  }

  /** A key that exactly two clusters carry connects what does not belong together when the keys
      they share besides it are fewer than the threshold's part of the smaller one's others. */
  lemma InstitutionOfTwo(qualifying: seq<set<string>>, p: Params, key: string, i: nat, j: nat)
    requires i < j < |qualifying|
    requires forall k :: 0 <= k < |qualifying| ==> (key in qualifying[k] <==> k == i || k == j)
    ensures var a, b := qualifying[i] - {key}, qualifying[j] - {key};
            IsInstitution(qualifying, p, key) <==>
              && p.institutionMinPostings <= 2
              && if a == {} || b == {} then 0.0 < p.institutionOverlapThreshold
                 else || ((|a * b| as real) < p.institutionOverlapThreshold * |a| as real && |a| <= |b|)
                      || ((|a * b| as real) < p.institutionOverlapThreshold * |b| as real && |b| <= |a|)
  {
    var a, b := qualifying[i] - {key}, qualifying[j] - {key};
    PostingsOfTwo(qualifying, key, i, j);
    assert Companions(qualifying, key, [i, j]) == [a, b];
    AverageOfTwo(a, b);
    if a != {} && b != {} {
      Ratio(|a * b|, |a|, p.institutionOverlapThreshold);
      Ratio(|a * b|, |b|, p.institutionOverlapThreshold);
    }
  }

  lemma AverageOfTwo(a: set<string>, b: set<string>)
    ensures AverageOverlap([a, b]) == PairOverlap(a, b)
  {
    assert [a, b][1..] == [b] && [a, b][2..] == [] && [b][..0] == [];
    assert RowSum(a, [b]) == PairOverlap(a, b);
    assert PairSum([a, b], 1) == PairOverlap(a, b);
    assert PairCount(2, 1) == 1 && PairCount(2, 2) == 1;
  }

  lemma {:induction false} PostingsOfNone(qualifying: seq<set<string>>, key: string)
    requires forall k :: 0 <= k < |qualifying| ==> key !in qualifying[k]
    ensures Postings(qualifying, key) == []
  {
    if qualifying != [] {
      PostingsOfNone(qualifying[..|qualifying| - 1], key);
    }
  }

  lemma {:induction false} PostingsOfOne(qualifying: seq<set<string>>, key: string, i: nat)
    requires i < |qualifying| && forall k :: 0 <= k < |qualifying| ==> (key in qualifying[k] <==> k == i)
    ensures Postings(qualifying, key) == [i]
  {
    var n := |qualifying| - 1;
    if i == n {
      PostingsOfNone(qualifying[..n], key);
    } else {
      PostingsOfOne(qualifying[..n], key, i);
    }
  }

  lemma {:induction false} PostingsOfTwo(qualifying: seq<set<string>>, key: string, i: nat, j: nat)
    requires i < j < |qualifying|
    requires forall k :: 0 <= k < |qualifying| ==> (key in qualifying[k] <==> k == i || k == j)
    ensures Postings(qualifying, key) == [i, j]
  {
    var n := |qualifying| - 1;
    if j == n {
      PostingsOfOne(qualifying[..n], key, i);
    } else {
      PostingsOfTwo(qualifying[..n], key, i, j);
    }
  }
}
