/** build_ladder: wildcard buckets, breadth-first components, breadth-first distances. */
module LadderBuild {
  import opened Words
  import opened LadderSpec

  const LADDER_MIN_STEPS := 3
  const LADDER_MAX_STEPS := 6
  const LADDER_MAX_PAIRS := 4000

  // ---- Buckets ----

  /** The word with its i-th letter blanked out. */
  function Key(word: string, i: nat): string
    requires i < |word|
  {
    word[..i] + "_" + word[i + 1..]
  }

  predicate FourPlain(word: string) {
    |word| == 4 && IsPlain(word)
  }

  lemma KeyLetters(a: string, i: nat)
    requires i < |a|
    ensures |Key(a, i)| == |a|
    ensures forall k :: 0 <= k < |a| ==> Key(a, i)[k] == if k == i then '_' else a[k]
  {
  }

  /** Blanked-out words are equal when the same letter is blanked and the others agree. */
  lemma KeysEqual(a: string, b: string, i: nat, j: nat)
    requires FourPlain(a) && FourPlain(b) && i < 4 && j < 4
    ensures Key(a, i) == Key(b, j) <==> i == j && forall k :: 0 <= k < 4 && k != i ==> a[k] == b[k]
  {
    KeyLetters(a, i);
    KeyLetters(b, j);
    var x, y := Key(a, i), Key(b, j);
    if x == y {
      assert x[i] == y[i] && b[i] != '_';
      assert forall k :: 0 <= k < 4 ==> x[k] == y[k];
    }
  }

  /** Two words share a bucket exactly when they are equal or one step apart. */
  lemma SharedKey(a: string, b: string)
    requires FourPlain(a) && FourPlain(b)
    ensures (exists i :: 0 <= i < 4 && Key(a, i) == Key(b, i)) <==> a == b || Step(a, b)
    ensures forall i, j :: 0 <= i < 4 && 0 <= j < 4 && Key(a, i) == Key(b, j) ==> i == j
  {
    forall i, j | 0 <= i < 4 && 0 <= j < 4
      ensures Key(a, i) == Key(b, j) <==> i == j && forall k :: 0 <= k < 4 && k != i ==> a[k] == b[k]
    {
      KeysEqual(a, b, i, j);
    }
    if a == b || Step(a, b) {
      var i := if a[0] != b[0] then 0 else if a[1] != b[1] then 1 else if a[2] != b[2] then 2 else 3;
      assert Key(a, i) == Key(b, i);
    }
    if i :| 0 <= i < 4 && Key(a, i) == Key(b, i) {
      if a[i] == b[i] {
        assert a == b;
      }
    }
  }

  ghost predicate InBucket(buckets: map<string, seq<string>>, key: string, w: string) {
    key in buckets && w in buckets[key]
  }

  ghost predicate HasKey(word: string, key: string) {
    |word| == 4 && exists i :: 0 <= i < 4 && Key(word, i) == key
  }

  ghost predicate Bucketed(buckets: map<string, seq<string>>, words: set<string>) {
    forall key, w :: InBucket(buckets, key, w) <==> w in words && HasKey(w, key)
  }

  method BuildBuckets(four: seq<string>) returns (buckets: map<string, seq<string>>)
    requires forall i :: 0 <= i < |four| ==> |four[i]| == 4
    ensures forall key, w :: InBucket(buckets, key, w) <==> w in four && HasKey(w, key)
  {
    buckets := map[];
    for n := 0 to |four|
      invariant forall key, w :: InBucket(buckets, key, w) <==> w in four[..n] && HasKey(w, key)
    {
      var word := four[n];
      ghost var before := buckets;
      for i := 0 to 4
        invariant forall key, w :: InBucket(buckets, key, w) <==>
                    InBucket(before, key, w) || (w == word && exists j :: 0 <= j < i && Key(word, j) == key)
      {
        var key := Key(word, i);
        buckets := AddTo(buckets, key, word);
      }
      assert four[..n + 1] == four[..n] + [word];
    }
    assert four[..|four|] == four;
  }

  method AddTo(buckets: map<string, seq<string>>, key: string, word: string) returns (r: map<string, seq<string>>)
    ensures forall k, w :: InBucket(r, k, w) <==> InBucket(buckets, k, w) || (k == key && w == word)
  {
    r := buckets[key := (if key in buckets then buckets[key] else []) + [word]];
  }

  /** neighbours(): through the buckets, exactly the words at Hamming distance one. */
  method NeighboursOf(buckets: map<string, seq<string>>, ghost nodes: set<string>, word: string)
    returns (r: set<string>)
    requires Bucketed(buckets, nodes)
    requires FourPlain(word) && forall w :: w in nodes ==> FourPlain(w)
    ensures r == Neighbours(nodes, word)
  {
    r := {};
    for i := 0 to 4
      invariant forall w :: w in r <==> w != word && exists j :: 0 <= j < i && InBucket(buckets, Key(word, j), w)
    {
      var key := Key(word, i);
      if key in buckets {
        var more := set k | 0 <= k < |buckets[key]| && buckets[key][k] != word :: buckets[key][k];
        assert forall w :: w in more <==> InBucket(buckets, key, w) && w != word;
        r := r + more;
      }
    }
    forall w
      ensures w in r <==> w in Neighbours(nodes, word)
    {
      if w in nodes {
        SharedKey(word, w);
      }
      if w in r {
        var j :| 0 <= j < 4 && InBucket(buckets, Key(word, j), w);
        var i :| 0 <= i < 4 && Key(w, i) == Key(word, j);
        assert Key(word, j) == Key(w, i);
      }
      if w in Neighbours(nodes, word) {
        var i :| 0 <= i < 4 && Key(word, i) == Key(w, i);
        assert HasKey(w, Key(word, i));
        assert InBucket(buckets, Key(word, i), w);
      }
    }
  }

  // ---- Components ----

  ghost function Elements(s: seq<string>): set<string> {
    set i | 0 <= i < |s| :: s[i]
  }

  ghost predicate NoRepeats(s: seq<string>) {
    forall i, j :: 0 <= i < j < |s| ==> s[i] != s[j]
  }

  ghost predicate Closed(nodes: set<string>, part: set<string>) {
    forall a :: a in part ==> Neighbours(nodes, a) <= part
  }

  /** The flood of one component: what has been reached, and how much of it was expanded. */
  ghost predicate Flooding(nodes: set<string>, word: string, seen0: set<string>, seen: set<string>,
                           here: seq<string>, done: nat)
    requires done <= |here|
  {
    && NoRepeats(here) && here != [] && here[0] == word
    && seen == seen0 + Elements(here)
    && (forall i :: 0 <= i < |here| ==> here[i] in nodes && here[i] !in seen0 && Reachable(nodes, word, here[i]))
    && (forall i :: 0 <= i < done ==> Neighbours(nodes, here[i]) <= seen)
  }

  lemma StepReaches(nodes: set<string>, word: string, a: string, b: string)
    requires Reachable(nodes, word, a) && b in Neighbours(nodes, a)
    ensures Reachable(nodes, word, b)
  {
    var n: nat :| a in Within(nodes, word, n);
    assert b in Within(nodes, word, n + 1);
  }

  lemma FloodIsComponent(nodes: set<string>, word: string, seen0: set<string>, seen: set<string>, here: seq<string>)
    requires Flooding(nodes, word, seen0, seen, here, |here|)
    requires Closed(nodes, seen0) && seen0 <= nodes
    ensures Elements(here) == Component(nodes, word)
    ensures Closed(nodes, seen)
  {
    var part := Elements(here);
    forall a | a in part
      ensures Neighbours(nodes, a) <= part
    {
      forall b | b in Neighbours(nodes, a)
        ensures b in part
      {
        assert b in seen && a !in seen0;
        assert a in Neighbours(nodes, b);
      }
    }
    forall t | t in Component(nodes, word)
      ensures t in part
    {
      var n: nat :| t in Within(nodes, word, n);
      assert word in part by { assert here[0] == word; }
      ClosedContainsWithin(nodes, word, part, n);
    }
  }

  method Flood(buckets: map<string, seq<string>>, nodes: set<string>, word: string, seen0: set<string>)
    returns (seen: set<string>, here: seq<string>)
    requires Bucketed(buckets, nodes) && forall w :: w in nodes ==> FourPlain(w)
    requires word in nodes && word !in seen0 && seen0 <= nodes && Closed(nodes, seen0)
    ensures seen == seen0 + Component(nodes, word) && seen <= nodes && Closed(nodes, seen)
    ensures NoRepeats(here) && Elements(here) == Component(nodes, word)
    ensures here != [] && here[0] == word && word in seen
    ensures Component(nodes, word) !! seen0
  {
    var queue := [word];
    here := [word];
    seen := seen0 + {word};
    ghost var done: nat := 0;
    assert word in Within(nodes, word, 0);
    assert Elements(here) == {word} by { assert here[0] == word; }
    while queue != []
      invariant done <= |here| && queue == here[done..]
      invariant Flooding(nodes, word, seen0, seen, here, done)
      decreases nodes - seen, |queue|
    {
      var current := queue[0];
      assert current == here[done];
      queue := queue[1..];
      var around := NeighboursOf(buckets, nodes, current);
      seen, here, queue := Discover(nodes, word, seen0, seen, here, queue, done, around);
      done := done + 1;
    }
    FloodIsComponent(nodes, word, seen0, seen, here);
    assert here[0] in Elements(here);
  }

  /** The inner loop: every neighbour not seen yet is recorded and queued. */
  method Discover(ghost nodes: set<string>, ghost word: string, ghost seen0: set<string>, seen: set<string>,
                  here: seq<string>, queue: seq<string>, ghost done: nat, around: set<string>)
    returns (seen': set<string>, here': seq<string>, queue': seq<string>)
    requires done < |here| && queue == here[done + 1..]
    requires Flooding(nodes, word, seen0, seen, here, done)
    requires around == Neighbours(nodes, here[done])
    ensures done < |here'| && queue' == here'[done + 1..]
    ensures Flooding(nodes, word, seen0, seen', here', done + 1)
    ensures seen <= seen' && (seen' == seen ==> queue' == queue)
    ensures seen' - seen <= nodes
  {
    seen', here', queue' := seen, here, queue;
    var rest := around;
    while rest != {}
      invariant rest <= around
      invariant |here| <= |here'| && here' [..|here|] == here && queue' == here'[done + 1..]
      invariant Flooding(nodes, word, seen0, seen', here', done)
      invariant around - rest <= seen' && seen <= seen'
      invariant seen' == seen ==> queue' == queue
      invariant seen' - seen <= nodes
      decreases rest
    {
      var other :| other in rest;
      rest := rest - {other};
      if other !in seen' {
        StepReaches(nodes, word, here[done], other);
        assert here'[done] == here[done];
        FloodGrows(nodes, word, seen0, seen', here', done, other);
        seen' := seen' + {other};
        here' := here' + [other];
        queue' := queue' + [other];
      }
    }
    assert here'[done] == here[done];
  }

  lemma FloodGrows(nodes: set<string>, word: string, seen0: set<string>, seen: set<string>,
                   here: seq<string>, done: nat, other: string)
    requires done <= |here| && Flooding(nodes, word, seen0, seen, here, done)
    requires other in nodes && other !in seen && Reachable(nodes, word, other)
    ensures Flooding(nodes, word, seen0, seen + {other}, here + [other], done)
  {
    var here' := here + [other];
    assert Elements(here') == Elements(here) + {other} by {
      assert forall i :: 0 <= i < |here| ==> here'[i] == here[i];
      assert here'[|here|] == other;
    }
    assert forall i :: 0 <= i < |here| ==> here[i] in Elements(here);
  }
}
