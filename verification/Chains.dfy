/** Chain assembly, as functions on values: topic groups, largest-first subsumption merging,
    and the assignment read off the merged groups. */
module ChainSpec {

  /** Does the kept chain k subsume the group: overlap / |group| >= ratio. */
  predicate Subsumes(k: set<nat>, group: set<nat>, ratio: real) {
    group != {} && |group * k| as real / |group| as real >= ratio
  }

  /** Merge the group into the first kept chain that subsumes it, or keep it as a new one. */
  function Place(kept: seq<set<nat>>, group: set<nat>, ratio: real): seq<set<nat>> {
    if kept == [] then [group]
    else if Subsumes(kept[0], group, ratio) then [kept[0] + group] + kept[1..]
    else [kept[0]] + Place(kept[1..], group, ratio)
  }

  /** All groups in order; a group of one has nothing to chain with. */
  function MergeAll(groups: seq<set<nat>>, ratio: real): seq<set<nat>> {
    if groups == [] then [] else
      var n := |groups| - 1;
      var kept := MergeAll(groups[..n], ratio);
      if |groups[n]| < 2 then kept else Place(kept, groups[n], ratio)
  }

  /** The chain of cluster i: the last kept chain that contains it, else {i}. */
  function ChainOf(kept: seq<set<nat>>, i: nat): set<nat> {
    if kept == [] then {i}
    else if i in kept[|kept| - 1] then kept[|kept| - 1]
    else ChainOf(kept[..|kept| - 1], i)
  }

  ghost predicate LargestFirst(groups: seq<set<nat>>) {
    forall i, j :: 0 <= i < j < |groups| ==> |groups[i]| >= |groups[j]|
  }

  ghost predicate Contained(kept: seq<set<nat>>, g: set<nat>) {
    exists k :: 0 <= k < |kept| && g <= kept[k]
  }
}
