/** The largest component, the distances inside it, and the puzzle pairs. */
module LadderPairs {
  import opened Basics
  import opened Words
  import opened Spread
  import opened LadderSpec
  import opened LadderBuild

  // ---- All components ----

  ghost predicate AllAreComponents(nodes: set<string>, components: seq<seq<string>>) {
    forall k :: 0 <= k < |components| ==> IsComponent(nodes, components[k])
  }

  ghost predicate Apart(components: seq<seq<string>>) {
    forall j, k :: 0 <= j < k < |components| ==> Elements(components[j]) !! Elements(components[k])
  }

  ghost predicate Listed(components: seq<seq<string>>, w: string) {
    exists k :: 0 <= k < |components| && w in Elements(components[k])
  }

  /** Components, pairwise disjoint, that list exactly the words in seen. */
  ghost predicate IsComponentList(nodes: set<string>, components: seq<seq<string>>, seen: set<string>) {
    && AllAreComponents(nodes, components)
    && Apart(components)
    && (forall w :: w in seen <==> Listed(components, w))
  }

  /** A component: the words reachable from its first word, each once. */
  ghost predicate IsComponent(nodes: set<string>, part: seq<string>) {
    part != [] && part[0] in nodes && NoRepeats(part) && Elements(part) == Component(nodes, part[0])
  }

  lemma ListedSnoc(components: seq<seq<string>>, part: seq<string>, w: string)
    ensures Listed(components + [part], w) <==> Listed(components, w) || w in Elements(part)
  {
    var components' := components + [part];
    assert components'[|components|] == part;
    if Listed(components, w) {
      var k :| 0 <= k < |components| && w in Elements(components[k]);
      assert components'[k] == components[k];
    }
  }

  lemma ApartSnoc(components: seq<seq<string>>, part: seq<string>)
    requires Apart(components) && forall w :: w in Elements(part) ==> !Listed(components, w)
    ensures Apart(components + [part])
  {
    var components' := components + [part];
    forall j, k | 0 <= j < k < |components'|
      ensures Elements(components'[j]) !! Elements(components'[k])
    {
      if k == |components| {
        forall w | w in Elements(part)
          ensures w !in Elements(components[j])
        {
          assert !Listed(components, w);
        }
      }
    }
  }

  lemma ComponentListed(nodes: set<string>, components: seq<seq<string>>, seen: set<string>, part: seq<string>)
    requires IsComponentList(nodes, components, seen)
    requires IsComponent(nodes, part) && Elements(part) !! seen
    ensures IsComponentList(nodes, components + [part], seen + Elements(part))
  {
    ApartSnoc(components, part);
    forall w
      ensures Listed(components + [part], w) <==> Listed(components, w) || w in Elements(part)
    {
      ListedSnoc(components, part, w);
    }
  }

  /** The component pass: the four-letter words, partitioned into connected components. */
  method AllComponents(buckets: map<string, seq<string>>, four: seq<string>, nodes: set<string>)
    returns (components: seq<seq<string>>)
    requires Bucketed(buckets, nodes) && forall w :: w in nodes ==> FourPlain(w)
    requires forall w :: w in four <==> w in nodes
    ensures IsComponentList(nodes, components, nodes)
  {
    components := [];
    var seen: set<string> := {};
    for n := 0 to |four|
      invariant seen <= nodes && Closed(nodes, seen)
      invariant IsComponentList(nodes, components, seen)
      invariant forall i :: 0 <= i < n ==> four[i] in seen
    {
      var word := four[n];
      assert word in four;
      if word in seen { continue; }
      var here;
      seen, here := FloodFrom(buckets, nodes, word, seen);
      components := components + [here];
    }
    assert seen == nodes;
  }

  method FloodFrom(buckets: map<string, seq<string>>, nodes: set<string>, word: string, seen0: set<string>)
    returns (seen: set<string>, here: seq<string>)
    requires Bucketed(buckets, nodes) && forall w :: w in nodes ==> FourPlain(w)
    requires word in nodes && word !in seen0 && seen0 <= nodes && Closed(nodes, seen0)
    ensures IsComponent(nodes, here) && seen == seen0 + Elements(here) && Elements(here) !! seen0
    ensures word in seen && seen <= nodes && Closed(nodes, seen)
    ensures forall components :: IsComponentList(nodes, components, seen0)
              ==> IsComponentList(nodes, components + [here], seen)
  {
    seen, here := Flood(buckets, nodes, word, seen0);
    assert here[0] in Elements(here);
    forall components | IsComponentList(nodes, components, seen0)
      ensures IsComponentList(nodes, components + [here], seen)
    {
      ComponentListed(nodes, components, seen0, here);
    }
  }

  /** components.sort(key=len, reverse=True)[0] */
  method Longest(components: seq<seq<string>>) returns (k: nat)
    requires components != []
    ensures k < |components|
    ensures forall j :: 0 <= j < |components| ==> |components[j]| <= |components[k]|
    ensures forall j :: 0 <= j < k ==> |components[j]| < |components[k]|
  {
    k := 0;
    for n := 1 to |components|
      invariant k < n
      invariant forall j :: 0 <= j < n ==> |components[j]| <= |components[k]|
      invariant forall j :: 0 <= j < k ==> |components[j]| < |components[k]|
    {
      if |components[n]| > |components[k]| {
        k := n;
      }
    }
  }

  // ---- Distances ----

  /** The levels of a search: level(n) holds the words at most n steps away. */
  type Levels = nat -> set<string>

  /** `next` adds to `level` every node one step from it. */
  ghost predicate Extends(nodes: set<string>, level: set<string>, next: set<string>) {
    forall b :: b in next <==> b in level || (b in nodes && exists a :: a in level && Step(a, b))
  }

  ghost predicate LevelStep(level: Levels, nodes: set<string>, n: nat) {
    Extends(nodes, level(n), level(n + 1))
  }

  ghost predicate AreLevels(level: Levels, nodes: set<string>, start: string) {
    level(0) == {start} && forall n: nat :: LevelStep(level, nodes, n)
  }

  ghost predicate IsLevel(level: Levels, w: string, d: nat) {
    w in level(d) && (d > 0 ==> w !in level(d - 1))
  }

  lemma {:induction false} LevelsGrow(level: Levels, nodes: set<string>, start: string, m: nat, n: nat)
    requires AreLevels(level, nodes, start) && m <= n
    ensures level(m) <= level(n)
    decreases n
  {
    if m < n {
      LevelsGrow(level, nodes, start, m, n - 1);
      assert LevelStep(level, nodes, n - 1);
    }
  }

  /** A breadth-first search under way: known distances are right, the queue is in order and
      spans two levels, and what left the queue (but for the word in hand) was expanded. */
  ghost predicate Searching(nodes: set<string>, level: Levels, distances: map<string, nat>,
                            queue: seq<string>, busy: set<string>, d: nat)
  {
    && (forall w :: w in distances ==> IsLevel(level, w, distances[w]))
    && (forall i :: 0 <= i < |queue| ==> queue[i] in distances && d <= distances[queue[i]] <= d + 1)
    && (forall i, j :: 0 <= i < j < |queue| ==> distances[queue[i]] <= distances[queue[j]])
    && (forall w :: w in distances && w !in queue && w !in busy ==> Neighbours(nodes, w) <= distances.Keys)
  }

  /** Everything within the level of the queue's head is known. */
  lemma {:induction false} LevelKnown(nodes: set<string>, start: string, level: Levels, distances: map<string, nat>,
                                      queue: seq<string>, d: nat, k: nat)
    requires AreLevels(level, nodes, start) && start in distances
    requires Searching(nodes, level, distances, queue, {}, d) && k <= d
    ensures level(k) <= distances.Keys
    decreases k
  {
    if k > 0 {
      LevelKnown(nodes, start, level, distances, queue, d, k - 1);
      assert LevelStep(level, nodes, k - 1);
      forall b | b in level(k) && b !in level(k - 1)
        ensures b in distances
      {
        var a :| a in level(k - 1) && Step(a, b);
        if distances[a] > k - 1 {
          LevelsGrow(level, nodes, start, k - 1, distances[a] - 1);
        }
        assert b in Neighbours(nodes, a);
      }
    }
  }

  lemma NextLevelWord(nodes: set<string>, start: string, level: Levels, current: string, d: nat, other: string)
    requires AreLevels(level, nodes, start) && current in level(d)
    requires other in Neighbours(nodes, current) && other !in level(d)
    ensures IsLevel(level, other, d + 1)
  {
    assert LevelStep(level, nodes, d);
  }

  lemma Discovered(nodes: set<string>, level: Levels, distances: map<string, nat>, queue: seq<string>,
                   current: string, d: nat, other: string)
    requires Searching(nodes, level, distances, queue, {current}, d)
    requires other !in distances && IsLevel(level, other, d + 1)
    ensures Searching(nodes, level, distances[other := d + 1], queue + [other], {current}, d)
  {
    var queue' := queue + [other];
    assert queue'[|queue|] == other;
    assert forall w :: w in queue' <==> w in queue || w == other;
  }

  method Expand(ghost nodes: set<string>, ghost start: string, ghost level: Levels, distances: map<string, nat>,
                queue: seq<string>, current: string, around: set<string>, pool: set<string>)
    returns (distances': map<string, nat>, queue': seq<string>)
    requires AreLevels(level, nodes, start)
    requires current in distances && around == Neighbours(nodes, current) <= pool
    requires Searching(nodes, level, distances, queue, {current}, distances[current])
    requires level(distances[current]) <= distances.Keys
    ensures Searching(nodes, level, distances', queue', {}, distances[current])
    ensures distances.Keys <= distances'.Keys <= distances.Keys + pool
    ensures distances'.Keys == distances.Keys ==> queue' == queue
  {
    distances', queue' := distances, queue;
    var rest := around;
    while rest != {}
      invariant rest <= around
      invariant current in distances' && distances'[current] == distances[current]
      invariant Searching(nodes, level, distances', queue', {current}, distances[current])
      invariant distances.Keys <= distances'.Keys <= distances.Keys + pool
      invariant around - rest <= distances'.Keys
      invariant distances'.Keys == distances.Keys ==> queue' == queue
      decreases rest
    {
      var other :| other in rest;
      rest := rest - {other};
      if other in pool && other !in distances' {
        NextLevelWord(nodes, start, level, current, distances[current], other);
        Discovered(nodes, level, distances', queue', current, distances[current], other);
        distances' := distances'[other := distances'[current] + 1];
        queue' := queue' + [other];
      }
    }
    ExpandedWord(nodes, level, distances', queue', current, distances[current]);
  }

  lemma ExpandedWord(nodes: set<string>, level: Levels, distances: map<string, nat>, queue: seq<string>,
                     current: string, d: nat)
    requires Searching(nodes, level, distances, queue, {current}, d)
    requires Neighbours(nodes, current) <= distances.Keys
    ensures Searching(nodes, level, distances, queue, {}, d)
  {
  }

  /** The search from one start word. The pool is closed under neighbours, so the test
      `other in pool_set` never cuts a path, and the distances are those of the whole graph. */
  method Distances(buckets: map<string, seq<string>>, ghost nodes: set<string>, pool: set<string>, start: string)
    returns (distances: map<string, nat>)
    requires Bucketed(buckets, nodes) && forall w :: w in nodes ==> FourPlain(w)
    requires start in pool && pool <= nodes && Closed(nodes, pool)
    ensures distances.Keys == Component(nodes, start)
    ensures forall w :: w in distances ==> IsDistance(nodes, start, w, distances[w])
  {
    ghost var level: Levels := (n: nat) => Within(nodes, start, n);
    LevelsAreWithin(nodes, start, level);
    distances := SearchFrom(buckets, nodes, pool, start, level);
    SearchIsComplete(nodes, start, level, distances);
  }

  lemma LevelsAreWithin(nodes: set<string>, start: string, level: Levels)
    requires forall n: nat :: level(n) == Within(nodes, start, n)
    ensures AreLevels(level, nodes, start)
  {
    assert level(0) == Within(nodes, start, 0);
    forall n: nat
      ensures LevelStep(level, nodes, n)
    {
      assert level(n + 1) == Within(nodes, start, n + 1) && level(n) == Within(nodes, start, n);
    }
  }

  method SearchFrom(buckets: map<string, seq<string>>, ghost nodes: set<string>, pool: set<string>, start: string,
                    ghost level: Levels)
    returns (distances: map<string, nat>)
    requires Bucketed(buckets, nodes) && forall w :: w in nodes ==> FourPlain(w)
    requires start in pool && pool <= nodes && Closed(nodes, pool) && AreLevels(level, nodes, start)
    ensures start in distances
    ensures forall w :: w in distances ==> IsLevel(level, w, distances[w]) && Neighbours(nodes, w) <= distances.Keys
  {
    distances := map[start := 0];
    var queue := [start];
    ghost var d: nat := 0;
    while queue != []
      invariant start in distances && distances.Keys <= pool
      invariant queue != [] ==> queue[0] in distances && d == distances[queue[0]]
      invariant Searching(nodes, level, distances, queue, {}, d)
      decreases pool - distances.Keys, |queue|
    {
      distances, queue, d := SearchTurn(buckets, nodes, pool, start, level, distances, queue, d);
    }
  }

  /** Take a word from the queue and expand it. */
  method SearchTurn(buckets: map<string, seq<string>>, ghost nodes: set<string>, pool: set<string>, ghost start: string,
                    ghost level: Levels, distances: map<string, nat>, queue: seq<string>, ghost d: nat)
    returns (distances': map<string, nat>, queue': seq<string>, ghost d': nat)
    requires Bucketed(buckets, nodes) && forall w :: w in nodes ==> FourPlain(w)
    requires pool <= nodes && Closed(nodes, pool) && AreLevels(level, nodes, start)
    requires start in distances && distances.Keys <= pool
    requires queue != [] && queue[0] in distances && d == distances[queue[0]]
    requires Searching(nodes, level, distances, queue, {}, d)
    ensures distances.Keys <= distances'.Keys <= pool
    ensures distances'.Keys == distances.Keys ==> |queue'| < |queue|
    ensures queue' != [] ==> queue'[0] in distances' && d' == distances'[queue'[0]]
    ensures Searching(nodes, level, distances', queue', {}, d')
  {
    var current := queue[0];
    assert current in pool && current in nodes && Neighbours(nodes, current) <= pool;
    LevelKnown(nodes, start, level, distances, queue, d, d);
    PopKeepsSearching(nodes, level, distances, queue, d);
    var around := NeighboursOf(buckets, nodes, current);
    distances', queue' := Expand(nodes, start, level, distances, queue[1..], current, around, pool);
    d' := d;
    if queue' != [] {
      NextLevel(nodes, level, distances', queue', d);
      d' := distances'[queue'[0]];
    }
  }

  lemma PopKeepsSearching(nodes: set<string>, level: Levels, distances: map<string, nat>, queue: seq<string>, d: nat)
    requires Searching(nodes, level, distances, queue, {}, d) && queue != []
    ensures Searching(nodes, level, distances, queue[1..], {queue[0]}, d)
  {
    assert forall w :: w in queue <==> w == queue[0] || w in queue[1..];
  }

  lemma NextLevel(nodes: set<string>, level: Levels, distances: map<string, nat>, queue: seq<string>, d: nat)
    requires Searching(nodes, level, distances, queue, {}, d) && queue != []
    ensures Searching(nodes, level, distances, queue, {}, distances[queue[0]])
  {
  }

  lemma SearchIsComplete(nodes: set<string>, start: string, level: Levels, distances: map<string, nat>)
    requires forall n: nat :: level(n) == Within(nodes, start, n)
    requires start in nodes && start in distances
    requires forall w :: w in distances ==> IsLevel(level, w, distances[w]) && Neighbours(nodes, w) <= distances.Keys
    ensures distances.Keys == Component(nodes, start)
    ensures forall w :: w in distances ==> IsDistance(nodes, start, w, distances[w])
  {
    forall w | w in distances
      ensures IsDistance(nodes, start, w, distances[w]) && w in Component(nodes, start)
    {
      assert IsLevel(level, w, distances[w]);
      WithinAreNodes(nodes, start, distances[w]);
    }
    forall w | w in Component(nodes, start)
      ensures w in distances
    {
      var n: nat :| w in Within(nodes, start, n);
      ClosedContainsWithin(nodes, start, distances.Keys, n);
    }
  }

  // ---- Puzzle pairs ----

  datatype Pair = Pair(start: string, target: string, steps: nat)

  /** A target that makes a playable puzzle with the start word. */
  ghost predicate Eligible(nodes: set<string>, p: Pair) {
    && p.start in nodes && p.target in nodes
    && IsDistance(nodes, p.start, p.target, p.steps)
    && LADDER_MIN_STEPS <= p.steps <= LADDER_MAX_STEPS
    && Before(p.start, p.target)
  }

  ghost function From(pairs: seq<Pair>, start: string): set<Pair> {
    set i | 0 <= i < |pairs| && pairs[i].start == start :: pairs[i]
  }

  /** Sorted by start, then by target, without repeats. */
  ghost predicate InOrder(pairs: seq<Pair>) {
    forall i, j :: 0 <= i < j < |pairs| ==> Precedes(pairs[i], pairs[j])
  }

  predicate Precedes(p: Pair, q: Pair) {
    Before(p.start, q.start) || (p.start == q.start && Before(p.target, q.target))
  }

  /** What is taken for one start word: eligible pairs only, at most `cap`, and every eligible
      pair that is not taken comes after `cap` taken ones. */
  ghost predicate TakesFirst(nodes: set<string>, taken: set<Pair>, start: string, cap: nat) {
    && |taken| <= cap
    && (forall p :: p in taken ==> p.start == start && Eligible(nodes, p))
    && (forall p: Pair :: p.start == start && Eligible(nodes, p) && p !in taken ==>
          |taken| == cap && forall q :: q in taken ==> Before(q.target, p.target))
  }

  /** The target, at its distance, makes a playable puzzle with the start word. */
  predicate Wanted(start: string, distances: map<string, nat>, target: string) {
    target in distances && LADDER_MIN_STEPS <= distances[target] <= LADDER_MAX_STEPS && Before(start, target)
  }

  method PairsFrom(ghost nodes: set<string>, start: string, distances: map<string, nat>, cap: nat)
    returns (row: seq<Pair>)
    requires cap > 0 && start in nodes && distances.Keys == Component(nodes, start)
    requires forall w :: w in distances ==> IsDistance(nodes, start, w, distances[w])
    ensures TakesFirst(nodes, From(row, start), start, cap)
    ensures InOrder(row) && |row| <= cap && forall i :: 0 <= i < |row| ==> row[i].start == start
  {
    var targets: seq<string>, n: nat;
    row, targets, n := WantedPairs(start, distances, cap);
    RowIsTaken(nodes, start, distances, targets, n, row, cap);
  }

  method WantedPairs(start: string, distances: map<string, nat>, cap: nat)
    returns (row: seq<Pair>, targets: seq<string>, n: nat)
    ensures Ascending(targets) && forall w :: w in targets <==> w in distances
    ensures n <= |targets| && |row| <= cap && (n == |targets| || |row| == cap)
    ensures RowSoFar(start, distances, targets, n, row)
  {
    row := [];
    targets := Sorted(distances.Keys);
    n := 0;
    while n < |targets| && |row| < cap
      invariant n <= |targets| && |row| <= cap
      invariant RowSoFar(start, distances, targets, n, row)
    {
      var target := targets[n];
      assert target in targets;
      var steps := distances[target];
      ghost var before := row;
      if LADDER_MIN_STEPS <= steps <= LADDER_MAX_STEPS && Before(start, target) {
        row := row + [Pair(start, target, steps)];
      }
      RowGrows(start, distances, targets, n, before, row);
      n := n + 1;
    }
  }

  /** The row holds the wanted pairs of the first n targets. */
  ghost predicate RowSoFar(start: string, distances: map<string, nat>, targets: seq<string>, n: nat, row: seq<Pair>)
    requires n <= |targets|
  {
    && (forall i :: 0 <= i < |row| ==> IsWantedPair(start, distances, row[i]) && row[i].target in targets[..n])
    && InOrder(row)
    && (forall k :: 0 <= k < n && Wanted(start, distances, targets[k]) ==>
          Pair(start, targets[k], distances[targets[k]]) in row)
  }

  ghost predicate IsWantedPair(start: string, distances: map<string, nat>, p: Pair) {
    Wanted(start, distances, p.target) && p == Pair(start, p.target, distances[p.target])
  }

  lemma RowGrows(start: string, distances: map<string, nat>, targets: seq<string>, n: nat, row: seq<Pair>,
                 row': seq<Pair>)
    requires n < |targets| && Ascending(targets) && targets[n] in distances
    requires RowSoFar(start, distances, targets, n, row)
    requires row' == if Wanted(start, distances, targets[n])
                     then row + [Pair(start, targets[n], distances[targets[n]])] else row
    ensures RowSoFar(start, distances, targets, n + 1, row')
  {
    assert targets[..n + 1] == targets[..n] + [targets[n]];
    if Wanted(start, distances, targets[n]) {
      PairAdded(start, distances, targets, n, row);
    }
  }

  lemma PairAdded(start: string, distances: map<string, nat>, targets: seq<string>, n: nat, row: seq<Pair>)
    requires n < |targets| && Ascending(targets) && Wanted(start, distances, targets[n])
    requires RowSoFar(start, distances, targets, n, row)
    ensures RowSoFar(start, distances, targets, n + 1, row + [Pair(start, targets[n], distances[targets[n]])])
  {
    var p := Pair(start, targets[n], distances[targets[n]]);
    assert targets[..n + 1] == targets[..n] + [targets[n]];
    forall i | 0 <= i < |row|
      ensures Precedes(row[i], p)
    {
      assert IsWantedPair(start, distances, row[i]) && row[i].target in targets[..n];
    }
    InOrderSnoc(row, p);
    assert forall q :: q in row ==> q in row + [p];
    assert (row + [p])[|row|] == p;
  }

  lemma InOrderSnoc(row: seq<Pair>, p: Pair)
    requires InOrder(row) && forall i :: 0 <= i < |row| ==> Precedes(row[i], p)
    ensures InOrder(row + [p])
  {
  }

  lemma RowSize(row: seq<Pair>, start: string)
    requires forall i :: 0 <= i < |row| ==> row[i].start == start
    requires InOrder(row)
    ensures |From(row, start)| == |row|
    decreases |row|
  {
    if row != [] {
      var n := |row| - 1;
      RowSize(row[..n], start);
      BeforeIrreflexive(start);
      BeforeIrreflexive(row[n].target);
      assert row[n] !in From(row[..n], start);
      assert From(row, start) == From(row[..n], start) + {row[n]} by {
        assert forall i :: 0 <= i < n ==> row[..n][i] == row[i];
      }
    } else {
      assert From(row, start) == {};
    }
  }

  lemma RowIsTaken(nodes: set<string>, start: string, distances: map<string, nat>, targets: seq<string>,
                   n: nat, row: seq<Pair>, cap: nat)
    requires n <= |targets| && |row| <= cap && (n == |targets| || |row| == cap)
    requires start in nodes && distances.Keys == Component(nodes, start)
    requires forall w :: w in distances ==> IsDistance(nodes, start, w, distances[w])
    requires Ascending(targets) && forall w :: w in targets <==> w in distances
    requires RowSoFar(start, distances, targets, n, row)
    ensures TakesFirst(nodes, From(row, start), start, cap)
    ensures forall i :: 0 <= i < |row| ==> row[i].start == start
  {
    RowSize(row, start);
    forall p | p in From(row, start)
      ensures p.start == start && Eligible(nodes, p)
    {
      assert Wanted(start, distances, p.target);
    }
    forall p: Pair | p.start == start && Eligible(nodes, p) && p !in From(row, start)
      ensures |row| == cap && forall q :: q in From(row, start) ==> Before(q.target, p.target)
    {
      EligibleIsWanted(nodes, start, distances, p);
      LeftOutComesLater(start, distances, targets, n, row, p);
    }
  }

  lemma EligibleIsWanted(nodes: set<string>, start: string, distances: map<string, nat>, p: Pair)
    requires p.start == start && Eligible(nodes, p)
    requires distances.Keys == Component(nodes, start)
    requires forall w :: w in distances ==> IsDistance(nodes, start, w, distances[w])
    ensures Wanted(start, distances, p.target) && distances[p.target] == p.steps
  {
    assert Reachable(nodes, start, p.target);
    assert p.target in distances;
    DistanceIsUnique(nodes, start, p.target, p.steps, distances[p.target]);
  }

  lemma LeftOutComesLater(start: string, distances: map<string, nat>, targets: seq<string>, n: nat, row: seq<Pair>,
                          p: Pair)
    requires n <= |targets| && Ascending(targets) && (forall w :: w in targets <==> w in distances)
    requires RowSoFar(start, distances, targets, n, row)
    requires Wanted(start, distances, p.target) && p == Pair(start, p.target, distances[p.target]) && p !in row
    ensures n < |targets|
    ensures forall q :: q in row ==> Before(q.target, p.target)
  {
    assert p.target in targets;
    var k :| 0 <= k < |targets| && targets[k] == p.target;
    assert k >= n;
    forall q | q in row
      ensures Before(q.target, p.target)
    {
      var i :| 0 <= i < |row| && row[i] == q;
      assert row[i].target in targets[..n];
    }
  }

  /** max(1, LADDER_MAX_PAIRS // len(pool) + 1) */
  function PerSource(poolSize: nat): (cap: nat)
    requires poolSize > 0
    ensures cap > 0
  {
    LADDER_MAX_PAIRS / poolSize + 1
  }

  /** The pool is a largest connected component of the four-letter answers, in order. */
  ghost predicate IsPool(nodes: set<string>, pool: seq<string>) {
    && pool != [] && Ascending(pool)
    && (exists s :: s in nodes && Elements(pool) == Component(nodes, s))
    && forall s :: s in nodes ==> |Component(nodes, s)| <= |pool|
  }

  lemma SizeOfElements(s: seq<string>)
    requires NoRepeats(s)
    ensures |Elements(s)| == |s|
    decreases |s|
  {
    if s != [] {
      var n := |s| - 1;
      SizeOfElements(s[..n]);
      assert Elements(s) == Elements(s[..n]) + {s[n]} by {
        assert forall i :: 0 <= i < n ==> s[..n][i] == s[i];
      }
    } else {
      assert Elements(s) == {};
    }
  }

  lemma SizeOfComponent(nodes: set<string>, part: seq<string>, s: string)
    requires IsComponent(nodes, part) && s in nodes && s in Elements(part)
    ensures |Component(nodes, s)| == |part|
  {
    ComponentsPartition(nodes, part[0], s);
    SizeOfElements(part);
  }

  lemma LongestIsLargest(nodes: set<string>, components: seq<seq<string>>, k: nat, s: string)
    requires AllAreComponents(nodes, components) && Listed(components, s) && s in nodes
    requires k < |components| && forall j :: 0 <= j < |components| ==> |components[j]| <= |components[k]|
    ensures |Component(nodes, s)| <= |components[k]|
  {
    var j :| 0 <= j < |components| && s in Elements(components[j]);
    SizeOfComponent(nodes, components[j], s);
  }

  /** n rows of at most cap pairs each. */
  ghost predicate FitsRows(size: nat, n: nat, cap: nat) {
    size <= n * cap
  }

  lemma RowFits(size: nat, n: nat, cap: nat, row: nat)
    requires FitsRows(size, n, cap) && row <= cap
    ensures FitsRows(size + row, n + 1, cap)
  {
  }

  /** The graph of the ladder: the four-letter answers. */
  function FourLetter(answers: set<string>): set<string> {
    set w | w in answers && |w| == 4
  }

  /** Every word of the pool has the first PerSource of its eligible pairs, in order, and there are
      no others. */
  ghost predicate IsPairList(nodes: set<string>, pool: seq<string>, pairs: seq<Pair>) {
    && pool != []
    && (forall s :: s in pool ==> TakesFirst(nodes, From(pairs, s), s, PerSource(|pool|)))
    && InOrder(pairs)
    && (forall i :: 0 <= i < |pairs| ==> pairs[i].start in pool && pairs[i].target in pool)
    && FitsRows(|pairs|, |pool|, PerSource(|pool|))
  }

  /** The pool, a largest component, and its pairs; None when there is no word to choose it from. */
  ghost predicate IsLadderList(nodes: set<string>, r: Option<(seq<string>, seq<Pair>)>) {
    match r {
      case None => nodes == {}
      case Some((pool, pairs)) => IsPool(nodes, pool) && IsPairList(nodes, pool, pairs)
    }
  }

  /** What is written out: the pool, and the sorted pairs shuffled and cut. */
  ghost predicate IsLadderFile(nodes: set<string>, shuffle: Shuffler, r: Option<(seq<string>, seq<Pair>)>)
    requires IsShuffler(shuffle)
  {
    match r {
      case None => nodes == {}
      case Some((pool, rows)) =>
        IsPool(nodes, pool) && exists pairs :: IsPairList(nodes, pool, pairs) && IsCutOf(rows, pairs, shuffle)
    }
  }

  ghost predicate IsCutOf(rows: seq<Pair>, pairs: seq<Pair>, shuffle: Shuffler)
    requires IsShuffler(shuffle)
  {
    assert IsOrder(shuffle(|pairs|), |pairs|);
    rows == Cut(Shuffled(pairs, shuffle(|pairs|)), LADDER_MAX_PAIRS)
  }

  /** build_ladder. Without any four-letter answer the source fails; otherwise the pool is a
      largest component, and for every word of the pool the first PerSource eligible pairs are
      taken, each with its true shortest number of steps. */
  method BuildLadder(answers: set<string>, shuffle: Shuffler) returns (r: Option<(seq<string>, seq<Pair>)>)
    requires (forall w :: w in answers ==> IsPlain(w)) && IsShuffler(shuffle)
    ensures var nodes := set w | w in answers && |w| == 4; IsLadderFile(nodes, shuffle, r)
  {
    var list := CollectLadder(FourLetter(answers));
    if list == None {
      return None;
    }
    var (pool, pairs) := list.value;
    assert IsOrder(shuffle(|pairs|), |pairs|);
    var rows := Cut(Shuffled(pairs, shuffle(|pairs|)), LADDER_MAX_PAIRS);
    assert IsCutOf(rows, pairs, shuffle);
    return Some((pool, rows));
  }

  method CollectLadder(nodes: set<string>) returns (r: Option<(seq<string>, seq<Pair>)>)
    requires forall w :: w in nodes ==> FourPlain(w)
    ensures IsLadderList(nodes, r)
  {
    var four := Sorted(nodes);
    assert forall i :: 0 <= i < |four| ==> four[i] in four;
    var buckets := BuildBuckets(four);
    var components := AllComponents(buckets, four, nodes);
    if components == [] {
      assert forall w :: w !in nodes;
      return None;
    }
    var pool, root := ChoosePool(components, nodes);
    var pairs := AllPairs(buckets, nodes, root, pool, set i | 0 <= i < |pool| :: pool[i]);
    return Some((pool, pairs));
  }

  /** Every pair written out is one to play, three to six true steps apart; none is written twice;
      and the cut drops at most one pair for each word of the pool, none if the pairs are few. */
  lemma LadderFacts(nodes: set<string>, pool: seq<string>, pairs: seq<Pair>, shuffle: Shuffler, rows: seq<Pair>)
    requires IsShuffler(shuffle) && IsPairList(nodes, pool, pairs) && IsCutOf(rows, pairs, shuffle)
    ensures forall p :: p in rows ==> p in pairs && Eligible(nodes, p) && p.start in pool && p.target in pool
    ensures forall p :: p in rows ==> 3 <= p.steps <= 6 && IsDistance(nodes, p.start, p.target, p.steps)
    ensures |rows| == if |pairs| < 4000 then |pairs| else 4000
    ensures forall i, j :: 0 <= i < j < |rows| ==> rows[i] != rows[j]
    ensures |pairs| - |rows| <= |pool|
    ensures |pairs| <= LADDER_MAX_PAIRS ==> forall p :: p in pairs ==> p in rows
  {
    assert IsOrder(shuffle(|pairs|), |pairs|);
    var all := Shuffled(pairs, shuffle(|pairs|));
    ShuffledKeepsRows(pairs, shuffle(|pairs|));
    NoPairTwice(pairs);
    PairsBound(|pool|);
    forall p | p in rows
      ensures p in pairs && Eligible(nodes, p) && p.start in pool && p.target in pool
    {
      assert p in all;
      assert p in pairs;
      PairIsEligible(nodes, pool, pairs, p);
    }
  }

  lemma NoPairTwice(pairs: seq<Pair>)
    requires InOrder(pairs)
    ensures forall i, j :: 0 <= i < j < |pairs| ==> pairs[i] != pairs[j]
  {
    forall i, j | 0 <= i < j < |pairs|
      ensures pairs[i] != pairs[j]
    {
      assert Precedes(pairs[i], pairs[j]);
      BeforeIrreflexive(pairs[j].start);
      BeforeIrreflexive(pairs[j].target);
    }
  }

  lemma PairsBound(n: nat)
    requires n > 0
    ensures n * PerSource(n) <= LADDER_MAX_PAIRS + n
  {
    assert n * (LADDER_MAX_PAIRS / n) <= LADDER_MAX_PAIRS;
  }

  lemma PairIsEligible(nodes: set<string>, pool: seq<string>, pairs: seq<Pair>, p: Pair)
    requires IsPairList(nodes, pool, pairs) && p in pairs
    ensures Eligible(nodes, p) && p.start in pool && p.target in pool
  {
    var i :| 0 <= i < |pairs| && pairs[i] == p;
    assert p in From(pairs, p.start);
    assert TakesFirst(nodes, From(pairs, p.start), p.start, PerSource(|pool|));
  }

  /** pool = sorted(components[0]) after the sort by length. */
  method ChoosePool(components: seq<seq<string>>, ghost nodes: set<string>)
    returns (pool: seq<string>, ghost root: string)
    requires components != [] && AllAreComponents(nodes, components)
    requires forall w :: w in nodes ==> Listed(components, w)
    ensures IsPool(nodes, pool)
    ensures root in nodes && Elements(pool) == Component(nodes, root)
  {
    var k := Longest(components);
    root := components[k][0];
    var poolSet := set i | 0 <= i < |components[k]| :: components[k][i];
    pool := Sorted(poolSet);
    forall s | s in nodes
      ensures |Component(nodes, s)| <= |components[k]|
    {
      LongestIsLargest(nodes, components, k, s);
    }
    PoolFromLongest(nodes, components[k], pool);
  }

  lemma PoolFromLongest(nodes: set<string>, part: seq<string>, pool: seq<string>)
    requires IsComponent(nodes, part) && Ascending(pool)
    requires (forall w :: w in pool <==> w in Elements(part)) && |pool| == |Elements(part)|
    requires forall s :: s in nodes ==> |Component(nodes, s)| <= |part|
    ensures IsPool(nodes, pool) && Elements(pool) == Component(nodes, part[0])
  {
    SizeOfElements(part);
    assert part[0] in Elements(part);
    assert Elements(pool) == Elements(part);
  }

  method AllPairs(buckets: map<string, seq<string>>, ghost nodes: set<string>, ghost root: string,
                  pool: seq<string>, poolSet: set<string>)
    returns (pairs: seq<Pair>)
    requires Bucketed(buckets, nodes) && forall w :: w in nodes ==> FourPlain(w)
    requires pool != [] && Ascending(pool)
    requires root in nodes && poolSet == Elements(pool) == Component(nodes, root)
    ensures forall s :: s in pool ==> TakesFirst(nodes, From(pairs, s), s, PerSource(|pool|))
    ensures InOrder(pairs) && forall i :: 0 <= i < |pairs| ==> pairs[i].start in pool && pairs[i].target in pool
    ensures FitsRows(|pairs|, |pool|, PerSource(|pool|))
  {
    pairs := [];
    var cap := PerSource(|pool|);
    for n := 0 to |pool|
      invariant PairsOfFirst(nodes, pool, n, cap, pairs)
    {
      var row := RowOf(buckets, nodes, root, poolSet, pool[n], cap);
      RowAdded(nodes, root, pool, n, cap, pairs, row);
      pairs := pairs + row;
    }
    PairsOfAll(nodes, pool, cap, pairs);
  }

  /** Search from one word of the pool and take its pairs. */
  method RowOf(buckets: map<string, seq<string>>, ghost nodes: set<string>, ghost root: string, poolSet: set<string>,
               start: string, cap: nat)
    returns (row: seq<Pair>)
    requires Bucketed(buckets, nodes) && forall w :: w in nodes ==> FourPlain(w)
    requires root in nodes && poolSet == Component(nodes, root) && start in poolSet && cap > 0
    ensures TakesFirst(nodes, From(row, start), start, cap)
    ensures InOrder(row) && |row| <= cap && forall i :: 0 <= i < |row| ==> row[i].start == start
  {
    PoolIsClosed(nodes, root);
    ComponentsPartition(nodes, root, start);
    var distances := Distances(buckets, nodes, poolSet, start);
    row := PairsFrom(nodes, start, distances, cap);
  }

  lemma PoolIsClosed(nodes: set<string>, root: string)
    requires root in nodes
    ensures Closed(nodes, Component(nodes, root)) && Component(nodes, root) <= nodes
  {
    forall a | a in Component(nodes, root)
      ensures Neighbours(nodes, a) <= Component(nodes, root) && a in nodes
    {
      ComponentIsClosed(nodes, root, a);
      ComponentsPartition(nodes, root, a);
    }
  }

  /** The rows of the first n start words, in order. */
  ghost predicate PairsOfFirst(nodes: set<string>, pool: seq<string>, n: nat, cap: nat, pairs: seq<Pair>)
    requires n <= |pool|
  {
    && (forall k :: 0 <= k < n ==> TakesFirst(nodes, From(pairs, pool[k]), pool[k], cap))
    && (forall i :: 0 <= i < |pairs| ==> pairs[i].start in pool[..n] && pairs[i].target in pool)
    && InOrder(pairs)
    && FitsRows(|pairs|, n, cap)
  }

  lemma PairsOfAll(nodes: set<string>, pool: seq<string>, cap: nat, pairs: seq<Pair>)
    requires PairsOfFirst(nodes, pool, |pool|, cap, pairs)
    ensures forall s :: s in pool ==> TakesFirst(nodes, From(pairs, s), s, cap)
    ensures InOrder(pairs) && forall i :: 0 <= i < |pairs| ==> pairs[i].start in pool && pairs[i].target in pool
    ensures FitsRows(|pairs|, |pool|, cap)
  {
    assert pool[..|pool|] == pool;
  }

  lemma RowAdded(nodes: set<string>, root: string, pool: seq<string>, n: nat, cap: nat, pairs: seq<Pair>,
                 row: seq<Pair>)
    requires n < |pool| && Ascending(pool) && PairsOfFirst(nodes, pool, n, cap, pairs)
    requires root in nodes && Elements(pool) == Component(nodes, root)
    requires TakesFirst(nodes, From(row, pool[n]), pool[n], cap)
    requires InOrder(row) && |row| <= cap && forall i :: 0 <= i < |row| ==> row[i].start == pool[n]
    ensures PairsOfFirst(nodes, pool, n + 1, cap, pairs + row)
  {
    assert forall w :: w in pool <==> w in Elements(pool);
    RowAppended(nodes, root, pool, n, pairs, row, cap);
    OrderAppended(pool, n, pairs, row);
    RowFits(|pairs|, n, cap, |row|);
  }

  lemma RowAppended(nodes: set<string>, root: string, pool: seq<string>, n: nat, pairs: seq<Pair>, row: seq<Pair>,
                    cap: nat)
    requires n < |pool| && Ascending(pool)
    requires root in nodes && forall w :: w in pool <==> w in Component(nodes, root)
    requires forall k :: 0 <= k < n ==> TakesFirst(nodes, From(pairs, pool[k]), pool[k], cap)
    requires forall i :: 0 <= i < |pairs| ==> pairs[i].start in pool[..n] && pairs[i].target in pool
    requires TakesFirst(nodes, From(row, pool[n]), pool[n], cap)
    requires forall i :: 0 <= i < |row| ==> row[i].start == pool[n]
    ensures forall k :: 0 <= k <= n ==> TakesFirst(nodes, From(pairs + row, pool[k]), pool[k], cap)
    ensures forall i :: 0 <= i < |pairs + row| ==>
              (pairs + row)[i].start in pool[..n + 1] && (pairs + row)[i].target in pool
  {
    var all := pairs + row;
    forall k | 0 <= k < n
      ensures pool[k] != pool[n]
    {
      BeforeIsTotal(pool[k], pool[n]);
    }
    forall k | 0 <= k <= n
      ensures From(all, pool[k]) == if k < n then From(pairs, pool[k]) else From(row, pool[n])
    {
      FromConcat(pairs, row, pool[k]);
      if k == n {
        assert From(pairs, pool[n]) == {};
      } else {
        assert From(row, pool[k]) == {};
      }
    }
    forall i | 0 <= i < |row|
      ensures row[i].target in pool
    {
      assert row[i] in From(row, pool[n]);
      assert pool[n] in pool;
      ComponentsPartition(nodes, root, pool[n]);
      assert Reachable(nodes, pool[n], row[i].target);
    }
    assert pool[..n + 1] == pool[..n] + [pool[n]];
  }

  lemma OrderAppended(pool: seq<string>, n: nat, pairs: seq<Pair>, row: seq<Pair>)
    requires n < |pool| && Ascending(pool) && InOrder(pairs) && InOrder(row)
    requires forall i :: 0 <= i < |pairs| ==> pairs[i].start in pool[..n]
    requires forall i :: 0 <= i < |row| ==> row[i].start == pool[n]
    ensures InOrder(pairs + row)
  {
    forall i | 0 <= i < |pairs|
      ensures Before(pairs[i].start, pool[n])
    {
      assert pairs[i].start in pool[..n];
    }
  }

  lemma FromConcat(a: seq<Pair>, b: seq<Pair>, start: string)
    ensures From(a + b, start) == From(a, start) + From(b, start)
  {
    var c := a + b;
    assert forall i :: 0 <= i < |a| ==> c[i] == a[i];
    assert forall i :: 0 <= i < |b| ==> c[|a| + i] == b[i];
    assert forall i :: |a| <= i < |c| ==> c[i] == b[i - |a|];
  }

  // ---- What a written pair is, in letters and numbers ----

  /** A start word comes before its target: at their first difference it has the smaller letter. */
  lemma WrittenPair(nodes: set<string>, pool: seq<string>, pairs: seq<Pair>, p: Pair) returns (k: nat)
    requires IsPairList(nodes, pool, pairs) && p in pairs && forall w :: w in nodes ==> |w| == 4
    ensures 3 <= p.steps <= 6
    ensures k < 4 && |p.start| == |p.target| == 4 && p.start[..k] == p.target[..k] && p.start[k] < p.target[k]
  {
    PairIsEligible(nodes, pool, pairs, p);
    k := BeforeOfOneLength(p.start, p.target);
  }

  /** A pair three to six true steps apart that is not taken has a start word that already has as
      many as 4000 by the size of the pool, rounded down, and one; and at its first difference
      from each of their targets its own has the larger letter. */
  lemma LeftOutPair(nodes: set<string>, pool: seq<string>, pairs: seq<Pair>, p: Pair, q: Pair)
    requires IsPairList(nodes, pool, pairs) && p !in pairs && p.start in pool && p.start in nodes && p.target in nodes
    requires IsDistance(nodes, p.start, p.target, p.steps) && 3 <= p.steps <= 6
    requires exists k: nat :: DiffersAt(p.start, p.target, k)
    ensures |From(pairs, p.start)| == 4000 / |pool| + 1
    ensures q in From(pairs, p.start) ==> exists k: nat :: DiffersAt(q.target, p.target, k)
  {
    BeforeMeans(p.start, p.target);
    assert Eligible(nodes, p);
    assert TakesFirst(nodes, From(pairs, p.start), p.start, PerSource(|pool|));
    assert p !in From(pairs, p.start);
    if q in From(pairs, p.start) {
      BeforeMeans(q.target, p.target);
    }
  }
}
