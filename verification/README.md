# Verification of the news backend's algorithms

A Dafny model of five algorithms of the news backend, with proofs of what they promise:

1. **Clustering replay** (`scripts/eval_clustering.py`): a single pass that puts each article
   into the first cluster that accepts it, through an inverted index and a recency list.
2. **Timeline generation** (`scripts/build_story_timelines.py`): a daily cycle that fills a few
   slots with story chains, keeps a row per story and marks which rows are on top.
3. **Word puzzles** (`scripts/build_wordlists.py`): Spelling Bee counts through submasks and Word
   Ladder pairs through buckets and breadth-first search.
4. **Chain assembly** (`scripts/eval_story_chains.py`): topic groups merged largest first.
5. **Feeds and streaks** (`app/main.py`): cursor paging, the shuffle and splice on top of it, and
   consecutive-day streaks.

`dafny verify dfyconfig.toml` checks everything.

## How it is organised

| files | modules | content |
|---|---|---|
| `Clustering.dfy`, `Replay.dfy`, `ReplayProofs.dfy`, `ReplayDiagnosis.dfy`, `ReplayLoop.dfy` | `Similarity`, `ReplaySpec`, `ReplayProofs`, `ReplayDiagnosis`, `ReplayLoop` | metrics and gates; the replay as a trace and the linear scan; the theorems; the diagnosis of misses; the loop with its index |
| `Timeline*.dfy` | `TimelineSpec`, `TimelineProofs`, `TimelineLatest`, `TimelineSlots`, `TimelineTop`, `TimelineHistory`, `TimelineRerun`, `TimelineDryRun`, `TimelinePicks`, `TimelineRows`, `TimelineSession`, `TimelineRun`, `TimelineLoad` | one cycle as a log of attempts; anchors; slots; flags; many cycles; running a cycle again; dry runs; editorial picks; what is written; the session object; the run itself; what it loads |
| `Bits.dfy`, `Words.dfy`, `Bee.dfy`, `Ladder.dfy`, `LadderBuild.dfy`, `LadderPairs.dfy`, `Spread.dfy`, `WordLevels.dfy` | `Bits`, `Words`, `Bee`, `LadderSpec`, `LadderBuild`, `LadderPairs`, `Spread`, `WordLevels` | bit masks and submasks; masks of words; the Bee; the word graph; buckets and components; distances and pairs; the seeded order; the word lists |
| `Chains.dfy`, `ChainProofs.dfy`, `ChainBuild.dfy`, `ChainRun.dfy`, `ChainLoss.dfy` | `ChainSpec`, `ChainProofs`, `ChainBuild`, `ChainRun`, `ChainLoss` | merging and its theorems; which keys survive; the loops; an input that loses a group |
| `Keyset.dfy`, `ForYou.dfy`, `StoryFeed.dfy`, `FeedDisplay.dfy`, `Streaks.dfy` | the same names | paging in general; the two feeds; what is shown; streaks |
| `Basics.dfy` | `Basics` | an option type and facts about sets |

Loops of the source are methods. Each is proved against a specification function or predicate,
and the theorems are lemmas about those. What the small functions that both sides use mean (a score,
a key, an order of words) is stated apart, in counts, weights and letters, by the lemmas whose names
end in `Means` and by small inputs. A clustering replay is specified by the trace of its placements,
a cycle by the log of its attempts; every choice the source leaves to a hash set, the database or
the narrative service is free in the specification, so the lemmas hold for all of them.

## Readings of the timeline session

Lookups by anchor read the database. The deployed session has `autoflush=False`
(`app/database.py:100`), so they do not see rows created or re-pointed in the same cycle;
`Cycle.autoflush` chooses the reading. Anchor uniqueness, slot accounting, permanence, the re-run,
the dropped timestamps and the dry run are proved under both readings. The flag theorem
`TopIsExactlyTheFilled` is for lookups that see pending writes, and `TopIsTheFilledExactlyWhen` is
for the deployed ones.

A narrative that is kept stays on its row, so flags and re-runs depend on where that row stands.
`LatestAnchored` says that no cluster of a narrative was first seen after the row's anchor. Every
history that starts from an empty table keeps it, as a cluster's first-seen time is written once.

## Where the code does not do what it says

The model follows the code. Each case has a lemma with the exact condition and one with an input.

- `set_last_seen_in_top` misses rows created or re-pointed in the cycle, so a new chain judged
  incoherent stays in top, which the module's own description rules out
  (`TopIsTheFilledExactlyWhen`, `RejectedNewRowStaysInTop`).
- An expired For You snapshot is said to give a fresh page 1. The page number is reset but the
  cursor's position is kept, so the page is the part of the new ranking below the old cursor
  (`ExpiredPageIsFreshExactlyWhen`, `ExpiredPageExample`). For the same reason the page cap counts
  from the last missing snapshot, not from the start of the scroll
  (`CapCountsFromTheLastLoss`, `LossyRunIsAScroll`).
- `lost_to_ordering` is right exactly when the earlier cluster was a candidate and a compared member
  passed (`OvertakenExactlyWhen`). For the shipped parameters it always is
  (`ShippedDiagnosisIsSound`). For the baseline that `errors --baseline` analyses it is not: the
  diagnosis looks neither at simhashes, nor at which members are compared, nor at the candidate limit
  (`BaselineBlamesTheOrdering`, `BaselineBlamesTheOrderingOfThree`, `BaselineBlamesTheOrderingOfMany`).
  With `min_shared` at or below 0, in neither configuration, it also misses what blocking does not
  offer (`DiagnosisNeedsPositiveMinShared`).
- Merging chains preserves every member, but the assignment read off them can lose a group: later
  chains overwrite earlier ones, and when a kept chain's members are all in later chains it is
  nobody's (`GroupSurvivesExactlyWhen`, `ChainSurvivesExactlyWhen`). It happens with the default
  parameters (`BuildChainsLosesTheGroup`).
- A subsumption ratio of 0 or less merges all groups into one chain (`NonPositiveRatioMergesAll`),
  connected or not (`OneChainIsConnectedExactlyWhen`, `ZeroRatioExample`).
- The explore candidate spliced into the first All Stories page comes again on its own page if it
  is an eligible row (`SplicedStoryRepeatsExactlyWhen`, `SplicedStoryExample`).

## Model

| member | source | states |
|---|---|---|
| `Similarity.MetricIsSymmetric` | scripts/eval_clustering.py:98-133 | each of the three metrics gives the same score in either order of the pair |
| `Similarity.DiagnosisIsSymmetric` | scripts/eval_clustering.py:492-507 | the confirmation gates and the diagnosis do not depend on which article is named first |
| `Similarity.LostToOrderingMeansEveryGatePasses` | scripts/eval_clustering.py:666-700 | with simhash off, the last reason is given if and only if every direct gate (tokens, blocking, window, source, min_shared, geo, threshold) lets the pair through |
| `Similarity.ConfirmsByJaccard` | scripts/eval_clustering.py:98-102 | under jaccard a pair is confirmed if and only if both token sets are nonempty, enough tokens are shared, the sources may meet, and the shared tokens are at least the threshold's part of all tokens of the two |
| `Similarity.ConfirmsByOverlap` | scripts/eval_clustering.py:105-111 | under overlap, if and only if they are at least that part of the smaller set |
| `Similarity.ConfirmsByIdf` | scripts/eval_clustering.py:114-133 | under the weighted overlap, if and only if the shared weight is at least that part of the lighter set's weight, weights of zero and below included |
| `Similarity.DiagnosisNamesTheFirstGate` | scripts/eval_clustering.py:647-700 | each reason is given if and only if its gate rejects the pair and no gate before it in the pipeline does |
| `ReplayProofs.MembersArePositions` | scripts/eval_clustering.py:600-606 | clusters partition the articles: an article is in the member list of exactly the cluster it was assigned |
| `ReplayProofs.MembersInTimeOrder` | scripts/eval_clustering.py:600-604 | member lists are in processing order, hence in time order |
| `ReplayProofs.NumbersInUse` | scripts/eval_clustering.py:600-605 | cluster numbers are dense: exactly the numbers below the count are in use |
| `ReplayProofs.StepJoinsOrFounds` | scripts/eval_clustering.py:547-606 | one placement either takes the next free number or a cluster from the pool that is in the window and accepts |
| `ReplayProofs.ReplayStructure` | scripts/eval_clustering.py:547-606 | in every replay, article k founds the next cluster or joins one that has an earlier member passing every gate with it (the founder in representative-only mode), and lies within the window of the last member of the cluster it joins |
| `ReplayProofs.IndexRefinesScan` | scripts/eval_clustering.py:510-608 | as long as no two clusters that share enough were last touched at the same time, every blocked replay, whatever order its hash sets are walked in and whatever the candidate limit, makes exactly the placements of a linear scan in recency order over the clusters whose token union shares enough distinctive tokens; the unblocked branch needs no condition |
| `ReplayProofs.DistinctTimesNeverTie` | scripts/eval_clustering.py:557-561 | distinct article times rule such ties out beforehand |
| `ReplayProofs.LinearScanIsAReplay` | scripts/eval_clustering.py:510-608 | conversely, equal times or not, the linear scan is one of the replays that the hash sets allow |
| `ReplayProofs.BlockingIsTransparent` | scripts/eval_clustering.py:550-578 | when no token is common, min_shared is positive and there is no limit, blocking places every article as the unblocked branch does |
| `ReplayProofs.LimitCutsThePool` | scripts/eval_clustering.py:574-578 | the blocked limit keeps the first of the clusters in the window, that many, or all but that many if it is negative |
| `ReplayDiagnosis.DiagnosisIsSound` | scripts/eval_clustering.py:647-700 | if a separated pair is diagnosed lost_to_ordering, the later article joined an existing cluster scanned before the earlier one's, which would also have accepted it |
| `ReplayDiagnosis.DiagnosisIsSoundExactlyWhen` | scripts/eval_clustering.py:647-700 | for every min_shared, the diagnosis is right if and only if blocking is off or the earlier article's cluster shares enough, and at least one, distinctive tokens with the later article |
| `ReplayDiagnosis.OvertakenExactlyWhen` | scripts/eval_clustering.py:694-700 | for every configuration and every separated pair, the later article joined a cluster scanned before the earlier one's if and only if the earlier one's was among its candidates and a compared member passed every gate |
| `ReplayDiagnosis.ShippedDiagnosisIsSound` | scripts/eval_clustering.py:203-215 | with the shipped parameters, at any threshold, a separated pair diagnosed lost_to_ordering was overtaken, in every replay |
| `ReplayDiagnosis.ShippedPairJoinsExactlyWhen` | scripts/eval_clustering.py:203-215 | with the shipped parameters two articles end in one cluster if and only if their titles share three tokens and the threshold's part of all their tokens, the sources differ, the regions do not clash and the second comes within the window |
| `ReplayDiagnosis.ShippedGates` | scripts/eval_clustering.py:203-215 | what a pair must meet under the shipped parameters, in counts of title tokens |
| `ReplayDiagnosis.BaselineGates` | scripts/eval_clustering.py:193-193 | what it must meet under the baseline: both simhashes, within 18 bits, and two shared tokens of title and snippet |
| `ReplayDiagnosis.DiagnosisIgnoresSimhash` | scripts/eval_clustering.py:584-588 | a failing family: a pair that only the simhash gate keeps apart is blamed on the ordering although the second article founded its own cluster |
| `ReplayDiagnosis.BaselineBlamesTheOrdering` | scripts/eval_clustering.py:193-193 | an input of it: two articles sharing two of four words, under CURRENT_PARAMS |
| `ReplayDiagnosis.DiagnosisIgnoresRepresentatives` | scripts/eval_clustering.py:582-582 | another: in representative-only mode a third article that passes with a member, but not with the representative, founds its own cluster and is blamed on the ordering |
| `ReplayDiagnosis.BaselineBlamesTheOrderingOfThree` | scripts/eval_clustering.py:193-193 | an input of it: three articles with one simhash, under CURRENT_PARAMS |
| `ReplayDiagnosis.DiagnosisIgnoresTheLimit` | scripts/eval_clustering.py:571-572 | another: an article whose cluster n others have pushed off a list limited to n is not compared, yet the pair is blamed on the ordering |
| `ReplayDiagnosis.BaselineBlamesTheOrderingOfMany` | scripts/eval_clustering.py:193-193 | an input of it: a hundred articles between two on the same thing, under CURRENT_PARAMS |
| `ReplayDiagnosis.DiagnosisNeedsPositiveMinShared` | scripts/eval_clustering.py:666-700 | a family outside the two shipped configurations: min_shared and threshold at or below 0 and no shared token, diagnosed lost_to_ordering although the second article founded its own cluster |
| `ReplayLoop.BlockingIndex` | scripts/eval_clustering.py:290-298 | the postings are the positions of each token, and common is exactly the tokens with more postings than the cap |
| `ReplayLoop.CommonMeans` | scripts/eval_clustering.py:290-298 | a token is common if and only if more than 50 articles have it and more than a fiftieth of all |
| `ReplayLoop.SmallCorpusBlockingIsTransparent` | scripts/eval_clustering.py:296-297 | a fixture of at most 50 articles has no common token, so blocking changes nothing there |
| `ReplayLoop.CountHits` | scripts/eval_clustering.py:551-556 | the counter holds, for each cluster posted under some distinctive token, the number of such tokens |
| `ReplayLoop.HitsAreSharedTokens` | scripts/eval_clustering.py:541-556 | the tokens hit through the index are the distinctive tokens the article shares with the union of the cluster's members |
| `ReplayLoop.SharingCandidates` | scripts/eval_clustering.py:557-561 | exactly the clusters hit often enough, sorted by the time of their last article, latest first |
| `ReplayLoop.RecencyListIsTouchOrder` | scripts/eval_clustering.py:539-572 | skipping stale duplicates of the drifting list visits clusters in move-to-front order |
| `ReplayLoop.RecentCandidates` | scripts/eval_clustering.py:565-572 | the scan yields the distinct clusters of the list in order, cut at the limit, which is tested after the append |
| `ReplayLoop.FilterWindow` | scripts/eval_clustering.py:574-576 | keeps, in order, exactly the clusters whose last article is within the window |
| `ReplayLoop.FindMatch` | scripts/eval_clustering.py:580-598 | the first cluster of the pool with a target passing every gate, if any |
| `ReplayLoop.AddPostings` | scripts/eval_clustering.py:541-545 | after indexing, the index again holds exactly the distinctive tokens of the members of each cluster |
| `ReplayLoop.ChooseCluster` | scripts/eval_clustering.py:547-602 | one article's cluster, found through index, recency list, window and limit, is a legal placement |
| `ReplayLoop.Replay` | scripts/eval_clustering.py:510-608 | the returned map is that of some valid replay of all articles, and with distinct times that of the linear scan |
| `ReplayLoop.BookkeepingGrows` | scripts/eval_clustering.py:600-606 | after a placement the member lists, the recency list and the index are again those of the longer trace |
| `ReplayLoop.AsMapIsTheTrace` | scripts/eval_clustering.py:605-605 | with distinct article ids the returned map is the placement of every article, no more and no less |
| `TimelineProofs.SelectionIsLegal` | scripts/build_story_timelines.py:369-422 | every selection the cycle can make is a run of honest lookups on pairwise disjoint chains |
| `TimelineProofs.ReadingsAgree` | scripts/build_story_timelines.py:203-208 | for a chain disjoint from those used so far, a lookup that reads the database and one that sees pending writes find the same rows, still as they were stored |
| `TimelineProofs.AttemptTargetIsFree` | scripts/build_story_timelines.py:209-220 | when a row is created or re-pointed, no other row stands at the new anchor, in the database or in the session |
| `TimelineProofs.AnchorsStayUnique` | scripts/build_story_timelines.py:268-276 | if anchors are unique at the start, they are unique after any number of attempts and with any subset of the changed rows already flushed: the UNIQUE constraint cannot fail, under either reading |
| `TimelineProofs.TargetsAreFree` | scripts/build_story_timelines.py:268-276 | no anchor written in the cycle was owned by another row at its start or is aimed at by another attempt |
| `TimelineSlots.AttemptedChainsAreDisjoint` | scripts/build_story_timelines.py:387-413 | attempted chains, editorial and fallback, are pairwise disjoint |
| `TimelineSlots.SlotAccounting` | scripts/build_story_timelines.py:378-431 | fallback attempts are at most the scan cap, filled rows at most max(slots, editorial attempts), and if slots remain the cap was reached or every ranked chain overlaps an attempted one |
| `TimelinePicks.EveryPickIsReached` | scripts/build_story_timelines.py:378-399 | for every picked row whose stored anchor stands in a chain of two or more, narrative or not, that chain or one that overlaps it is attempted as an editorial pick |
| `TimelinePicks.EveryPickedAttemptHasAPick` | scripts/build_story_timelines.py:378-399 | conversely every attempt before the fallback is editorial and of the chain assigned to some picked row |
| `TimelinePicks.FirstPickFillsASlot` | scripts/build_story_timelines.py:378-399 | the first pick to stand in a chain is attempted with just that chain, as an editorial one, and fills a slot whatever the verdict |
| `TimelinePicks.NewPickFillsItsSlot` | scripts/build_story_timelines.py:378-399 | an input: the row an administrator has just picked, without a narrative, gets its chain's one attempt and stays an editorial pick in top even if judged incoherent |
| `TimelineRows.LookupMeans` | scripts/build_story_timelines.py:174-220 | no row is found if and only if none stands in the chain; a found one stands at the target anchor if any does, else no other row of the chain was generated, or picked if never generated, after it |
| `TimelineRows.RowsOfTheCycle` | scripts/build_story_timelines.py:268-292 | after the cycle the row of every attempt that asked for a narrative stands at the chain's anchor with the attempt's editorial flag, and holds the verdict, the chain and the time, or what it held before if the service failed |
| `TimelineRows.OtherRowsOfTheCycle` | scripts/build_story_timelines.py:433-445 | every other row is what it was, but for the top flag and the dropped timestamp |
| `TimelineLoad.RankingMeans` | scripts/build_story_timelines.py:130-138 | a chain is ranked if and only if it is assigned, has two members or more and shares none with a narrative judged incoherent; larger ones come first, and of equal ones the more recently updated |
| `TimelineLoad.LoadRejected` | scripts/build_story_timelines.py:152-164 | the loop collects exactly the clusters of the narratives judged incoherent |
| `TimelineLoad.CollectChains` | scripts/build_story_timelines.py:366-367 | the assigned chains of two or more, each once, without those that share a rejected cluster |
| `TimelineLoad.RankChains` | scripts/build_story_timelines.py:130-138 | every chain once, by length and then last update, both descending |
| `TimelineLatest.DistinctTimesAreUntied` | scripts/build_story_timelines.py:234-237 | distinct first-seen times leave every chain one latest member |
| `TimelineLatest.AttemptStandsAtItsAnchor` | scripts/build_story_timelines.py:234-254 | on a table whose narratives are anchored at their latest clusters, the row an attempt on a chain with one latest member ends with stands at the attempt's anchor, even when the narrative was kept |
| `TimelineLatest.LogKeepsLatest` | scripts/build_story_timelines.py:268-292 | every run of attempts keeps that invariant, failed generations included |
| `TimelineTop.AttemptedHasRowExactlyWhen` | scripts/build_story_timelines.py:248-276 | an attempted anchor has a row afterwards if and only if the narrative was asked for, or the kept row stands there |
| `TimelineTop.EveryAttemptedAnchorHasARow` | scripts/build_story_timelines.py:248-276 | so with the invariant and one latest member in every chain every attempted anchor has a row, under either reading |
| `TimelineTop.TopIsExactlyWhen` | scripts/build_story_timelines.py:334-350 | if lookups saw pending writes, the anchors of the rows in top would be exactly the filled ones if and only if no filling attempt kept a row that stands elsewhere |
| `TimelineTop.TopIsExactlyTheFilled` | scripts/build_story_timelines.py:433-445 | with the invariant that condition holds: the anchors in top are exactly the filled ones |
| `TimelineTop.TopIsTheFilledExactlyWhen` | scripts/build_story_timelines.py:433-445 | as deployed, the anchors in top are exactly the filled ones if and only if no filling attempt kept a row elsewhere, every row created in the cycle fills a slot and every re-pointed row was in top before just when it fills one now |
| `TimelineTop.RejectedNewRowStaysInTop` | scripts/build_story_timelines.py:337-350 | an input where it fails as deployed: one new chain judged incoherent is left in top |
| `TimelineTop.RowKeptElsewhereLosesTheTop` | scripts/build_story_timelines.py:248-254 | an input where it fails under either reading, without the invariant or with two clusters first seen at the same time: the slot is filled at an anchor without a row, and the chain's own row is dropped from top |
| `TimelineTop.DroppedMarksTheTransition` | scripts/build_story_timelines.py:342-350 | under either reading, a row in top carries no dropped timestamp; the timestamp changes only when the flag changes; a row that leaves the top gets this cycle's time |
| `TimelineHistory.CycleWithoutPicks` | scripts/build_story_timelines.py:152-164 | one cycle without picks touches no row judged incoherent, attempts no chain with one of its members, and keeps the invariant that such a row's anchor is among its members |
| `TimelineHistory.IncoherenceIsPermanent` | scripts/build_story_timelines.py:152-164 | over any sequence of cycles without picks, a row once judged incoherent is never rewritten or re-pointed and none of its members is ever attempted again |
| `TimelineHistory.HistoryInvariants` | scripts/build_story_timelines.py:353-447 | over any sequence of cycles, with picks or not, anchors stay unique and no row in top is marked dropped |
| `TimelineHistory.HistoryKeepsLatest` | scripts/build_story_timelines.py:353-447 | over any sequence of cycles, with picks and failures or not, narratives stay anchored at their latest clusters |
| `TimelineHistory.TopOverHistories` | scripts/build_story_timelines.py:433-445 | after each cycle of any history every attempted anchor has a row, and, if lookups saw pending writes, the anchors in top are exactly the filled ones |
| `TimelineRerun.RerunIsANoOp` | scripts/build_story_timelines.py:241-254 | on a table with the invariants, without picks or a failure in this cycle and with one latest member in every chain, a cycle that filled its slots can be run again: no narrative call, no story changed, the same chains fill the slots although rejected ones are now filtered out first |
| `TimelineRerun.SecondRunIsValid` | scripts/build_story_timelines.py:152-164 | the inputs of that second run are the ones it loads: what the first run loaded as rejected stays rejected, its ranking ranks exactly the chains left, and no row is picked |
| `TimelineRerun.RerunAfterAHistory` | scripts/build_story_timelines.py:353-447 | the same on the table left by any history without picks, failures in it included; after the second run the top is exactly what the first one filled, under either reading |
| `TimelineRerun.ClearedRankingIsValid` | scripts/build_story_timelines.py:366-367 | the ranking the second run is given, the first one without the newly rejected chains, is a ranking of exactly the chains it loads |
| `TimelineRerun.RerunSettlesTheFlags` | scripts/build_story_timelines.py:433-445 | a run that writes no story leaves the anchors in top exactly the filled ones, even as deployed |
| `TimelineDryRun.DryRunPredictsTheRun` | scripts/build_story_timelines.py:256-266 | with the same narrative answers a dry run attempts the same chains with the same anchors and verdicts as the real one |
| `TimelineDryRun.DryRunIsPossible` | scripts/build_story_timelines.py:256-266 | conversely every dry run is one the real run can make, with the same rows and fresh ids for new ones |
| `TimelineSession.Session.FindExistingRow` | scripts/build_story_timelines.py:174-220 | the row found is one at the target anchor if there is one among the chain's rows, else the latest generated of them; none if there are none |
| `TimelineSession.Session.GenerateForChain` | scripts/build_story_timelines.py:223-331 | the session after the call is the specified table, the attempt is a legal one and the narrative service was asked exactly when generation was needed |
| `TimelineSession.Session.SetLastSeenInTop` | scripts/build_story_timelines.py:334-350 | exactly the row that the lookup sees at the anchor changes its flag and timestamp |
| `TimelineRun.RunEditorial` | scripts/build_story_timelines.py:378-399 | the loop over picks is a legal editorial log, with used, attempted and filled ids as the log says |
| `TimelineRun.RunFallback` | scripts/build_story_timelines.py:409-422 | the scan is a legal fallback log, with remaining, scanned, attempted and filled ids as the log says |
| `TimelineRun.Run` | scripts/build_story_timelines.py:353-450 | one cycle, run on the session: the log is a selection, the committed table is the specified one, anchors are unique again, and the report counts the answers and the empty slots |
| `TimelineLoad.RunCycle` | scripts/build_story_timelines.py:353-450 | the same for the whole cycle: what is loaded, filtered and ranked are valid inputs of it |
| `Words.MaskOf` | scripts/build_wordlists.py:136-140 | the loop computes the or of the letters' bits |
| `Words.MaskBits` | scripts/build_wordlists.py:136-140 | bit i of a word's mask is set if and only if its letter occurs in the word |
| `Words.MaskSubset` | scripts/build_wordlists.py:194-196 | one word's mask is a submask of another's if and only if its letters are a subset |
| `Words.MaskPopCount` | scripts/build_wordlists.py:182-182 | the popcount of a mask is the number of distinct letters |
| `Words.MaskBitMeans` | scripts/build_wordlists.py:136-140 | bit i of a mask is set if and only if some letter of the word has code 97 + i |
| `Words.BeforeMeans` | scripts/build_wordlists.py:189-189 | one word comes before another if and only if they agree up to some position where the first ends or has the smaller letter |
| `Words.PlainMeans` | scripts/build_wordlists.py:114-133 | a word is plain if and only if it is not empty and all its letters are among a to z |
| `Bits.SubmaskMeansSubset` | scripts/build_wordlists.py:143-146 | x & mask == x if and only if every bit of x is one of mask |
| `Bits.PreviousSubmask` | scripts/build_wordlists.py:152-152 | (sub - 1) & mask is a submask below sub, and the greatest one |
| `Bits.Submasks` | scripts/build_wordlists.py:143-152 | every submask exactly once, strictly decreasing from mask to 0, 2^popcount of them |
| `Bee.IndexByMask` | scripts/build_wordlists.py:177-183 | the index holds, for each letter set of at most seven letters, as many words as have it |
| `Bee.SubmaskPopCount` | scripts/build_wordlists.py:182-183 | a submask has at most as many bits, so dropping masks of more than seven loses nothing |
| `Bee.CountedIsPlayable` | scripts/build_wordlists.py:196-202 | the words counted over all submasks are exactly the accepted words of four or more letters that use only the pangram's letters and include the centre |
| `Bee.CountCentres` | scripts/build_wordlists.py:195-202 | the counts are, for every letter of the pangram, the number of playable words around it |
| `Bee.FirstCentre` | scripts/build_wordlists.py:203-207 | the first letter in order whose count is in the band, if any |
| `Bee.BuildBee` | scripts/build_wordlists.py:170-208 | every puzzle has the alphabetically first pangram of its letters, the first centre in the band and the naive count; no two share a letter set; every playable letter set of the pool is there |
| `Bee.WrittenPuzzle` | scripts/build_wordlists.py:170-208 | a written puzzle has a pangram of 7 to 9 letters, 7 of them different, 8 to 80 words around its centre, no such count around a smaller letter, and no other pangram of these letters that comes first at the first differing letter |
| `Bee.EveryPlayableIsWritten` | scripts/build_wordlists.py:170-208 | every letter set of a pangram of the pool with 8 to 80 words around one of its letters has a puzzle |
| `Bee.ArchingNotChagrin` | scripts/build_wordlists.py:189-189 | an input: of two pangrams with one letter set, arching is the one written |
| `WordLevels.LoadLevel` | scripts/build_wordlists.py:114-133 | exactly the plain, unblocked words of some file at or below the level: stopping at the first higher level loses none |
| `WordLevels.LevelsLoaded` | scripts/build_wordlists.py:114-133 | which files that means for answers, accepted words and everything |
| `WordLevels.BuildPuzzles` | scripts/build_wordlists.py:302-314 | the lists are built from nested levels, so every Bee pangram is itself one of the words its puzzle counts; the ladder list is as specified |
| `LadderSpec.DistanceIsShortest` | scripts/build_wordlists.py:250-260 | d is the distance if and only if some ladder has d steps and none has fewer |
| `LadderSpec.ComponentsPartition` | scripts/build_wordlists.py:228-242 | the components of two words are equal or disjoint |
| `LadderBuild.SharedKey` | scripts/build_wordlists.py:216-218 | two words share a wildcard bucket if and only if they are equal or differ in one letter |
| `LadderBuild.BuildBuckets` | scripts/build_wordlists.py:215-218 | a word is in a bucket if and only if the key is the word with one letter blanked |
| `LadderBuild.NeighboursOf` | scripts/build_wordlists.py:220-226 | exactly the pool words at Hamming distance one |
| `LadderBuild.Flood` | scripts/build_wordlists.py:233-242 | the queue loop collects exactly the connected component of its word, each word once |
| `LadderPairs.AllComponents` | scripts/build_wordlists.py:228-242 | the pass partitions the four-letter words into exactly their connected components |
| `LadderPairs.Longest` | scripts/build_wordlists.py:243-244 | the first of the longest components |
| `LadderPairs.Distances` | scripts/build_wordlists.py:253-260 | the map holds exactly the reachable words, each at its graph distance; the pool test cuts no path |
| `LadderPairs.PairsFrom` | scripts/build_wordlists.py:261-267 | for one start word, the alphabetically first eligible targets, up to the cap |
| `LadderPairs.BuildLadder` | scripts/build_wordlists.py:211-268 | the pool is a largest component, sorted; what is written are the sorted pairs in the seeded order, cut to LADDER_MAX_PAIRS, where for every start word the first eligible pairs were taken, 3 to 6 true steps apart with start before target |
| `LadderPairs.LadderFacts` | scripts/build_wordlists.py:251-268 | so every pair written is eligible and in the pool, none twice; the cut drops at most one pair per word of the pool, and nothing when the pairs are few |
| `LadderPairs.WrittenPair` | scripts/build_wordlists.py:251-267 | a written pair is 3 to 6 steps apart, and at the first letter in which it differs the start has the smaller one |
| `LadderPairs.LeftOutPair` | scripts/build_wordlists.py:247-267 | an eligible pair that is not taken has a start word with 4000 by the size of the pool, and one, pairs, whose targets all have the smaller letter where they first differ from its own |
| `Spread.ShuffledKeepsRows` | scripts/build_wordlists.py:155-167 | the seeded order neither loses, adds nor repeats a row |
| `ChainProofs.PlaceFacts` | scripts/eval_story_chains.py:379-388 | a group is united with the first kept chain that subsumes it, or appended; nothing else changes |
| `ChainProofs.TwoGroups` | scripts/eval_story_chains.py:376-394 | two groups become one chain if and only if they share the ratio's part of the second; if not, a cluster of both is assigned to the second |
| `ChainProofs.GroupOfOne` | scripts/eval_story_chains.py:376-378 | a group of one cluster leaves no trace in the merge |
| `ChainProofs.EveryGroupIsContained` | scripts/eval_story_chains.py:376-388 | every group of two or more is contained in a kept chain |
| `ChainProofs.EveryMemberHasAGroup` | scripts/eval_story_chains.py:376-388 | every member of a kept chain comes from a group of two or more inside that chain |
| `ChainProofs.KeptIsAtLeastAsLarge` | scripts/eval_story_chains.py:375-386 | taken largest first, a group meets only kept chains at least as large as itself |
| `ChainProofs.ChainsAreConnected` | scripts/eval_story_chains.py:380-386 | with a positive ratio no cut of a kept chain goes uncrossed by a group inside it: it is connected under shared keys |
| `ChainProofs.NonPositiveRatioMergesAll` | scripts/eval_story_chains.py:383-386 | with a ratio of 0 or less there is at most one chain and it holds every group |
| `ChainProofs.OneChainIsConnectedExactlyWhen` | scripts/eval_story_chains.py:383-386 | and that chain is connected if and only if the groups do not fall into two families without a common member |
| `ChainProofs.ZeroRatioExample` | scripts/eval_story_chains.py:383-386 | an input: two groups without a common member become one chain at ratio 0 |
| `ChainProofs.DisjointGroupsDisconnected` | scripts/eval_story_chains.py:383-386 | why the ratio must be positive: the union of two disjoint groups is not connected |
| `ChainProofs.ChainOfFacts` | scripts/eval_story_chains.py:390-394 | a cluster is in its chain, which is the last kept chain that contains it, or itself alone |
| `ChainProofs.ChainSurvivesExactlyWhen` | scripts/eval_story_chains.py:390-394 | a kept chain is some cluster's chain if and only if a copy of it has a member in no later kept chain |
| `ChainProofs.GroupSurvivesExactlyWhen` | scripts/eval_story_chains.py:390-394 | a group of two or more is inside some cluster's chain if and only if a kept chain that contains it has a member in no later one |
| `ChainProofs.LargestGroupCanBeLost` | scripts/eval_story_chains.py:390-394 | a family where the largest group is contained in no cluster's chain, two later chains having taken its members |
| `ChainLoss.LargestApartIsLostExactlyWhen` | scripts/eval_story_chains.py:375-394 | among groups of which none subsumes another, the strictly largest survives, in every merge order, if and only if it has a member that no other group has |
| `ChainLoss.CutoffIsTheCommonRate` | scripts/eval_story_chains.py:326-332 | for the six clusters and four rates of the example the cutoff is the common key's rate, however the rates are listed |
| `ChainLoss.OrdersOfTheExample` | scripts/eval_story_chains.py:334-375 | the key of those four survives the cutoff, and the groups merged are exactly those of the three keys, in non-increasing size |
| `ChainLoss.BuildChainsLosesTheGroup` | scripts/eval_story_chains.py:314-394 | on those clusters, with the default parameters, every outcome of build_chains assigns all clusters and puts the four that share one key together in no chain |
| `ChainBuild.DocFreq` | scripts/eval_story_chains.py:322-325 | the number of clusters that mention each key |
| `ChainBuild.CutoffIsOrderStatistic` | scripts/eval_story_chains.py:306-311 | at most as many values as the position read lie below the cutoff, and more at or below it, negative percentiles included |
| `ChainBuild.PercentileMeans` | scripts/eval_story_chains.py:306-311 | for a percentile p from 0 to below 1, with k the number of values times p, rounded down: at most k values lie below the cutoff and more than k at or below it |
| `ChainBuild.WholePercentileMeans` | scripts/eval_story_chains.py:306-311 | for 1 and above the cutoff is the maximum; without values it is 1 |
| `ChainBuild.NegativePercentileMeans` | scripts/eval_story_chains.py:309-311 | a negative percentile counts from the end of the sorted values, and what rounds to zero reads the minimum |
| `ChainBuild.CutoffFailsExactlyWhen` | scripts/eval_story_chains.py:309-311 | the indexing fails if and only if the percentile reaches beyond the start of the list |
| `ChainBuild.Average` | scripts/eval_story_chains.py:291-300 | the nested loops compute the average overlap over all pairs of companion sets |
| `ChainBuild.AverageIsProportion` | scripts/eval_story_chains.py:293-300 | that average lies between 0 and 1 |
| `ChainBuild.InstitutionExtremes` | scripts/eval_story_chains.py:287-302 | so a threshold of 0 or less makes no key an institution, and one above 1 makes every key with enough postings one |
| `ChainBuild.InstitutionOfTwo` | scripts/eval_story_chains.py:278-302 | a key that two clusters carry is an institution if and only if two postings suffice and their other keys overlap in less than the threshold's part of the smaller set, or one has no others and the threshold is positive |
| `ChainBuild.AllPairsCounted` | scripts/eval_story_chains.py:291-300 | the average is over n (n - 1) / 2 pairs |
| `ChainBuild.InstitutionKeys` | scripts/eval_story_chains.py:269-303 | the result is exactly the keys with enough postings whose companions overlap too little on average |
| `ChainRun.Qualify` | scripts/eval_story_chains.py:334-357 | each cluster keeps exactly its keys that are neither filtered as backdrop nor generic |
| `ChainRun.GroupByKey` | scripts/eval_story_chains.py:365-370 | the groups are, for each surviving key that is no institution, the clusters that carry it |
| `ChainRun.BySize` | scripts/eval_story_chains.py:375-375 | all groups and only groups, in non-increasing size |
| `ChainRun.MergeGroups` | scripts/eval_story_chains.py:376-388 | the loops compute the specified merge, growing kept chains in place |
| `ChainRun.Assign` | scripts/eval_story_chains.py:390-394 | the overwriting loops give every cluster the last kept chain that holds it |
| `ChainRun.ChainedExactlyWhenSharing` | scripts/eval_story_chains.py:365-394 | a cluster's chain has two or more members if and only if it shares a surviving key with another cluster |
| `ChainRun.BuildChains` | scripts/eval_story_chains.py:314-394 | the whole pipeline: it fails exactly when the cutoff does; otherwise every cluster is assigned, is in its own chain, and is chained if and only if it shares a surviving non-institution key |
| `Keyset.SortDescends` | app/main.py:2405-2408 | with an id tiebreak the sorted list is strictly descending |
| `Keyset.DescendingMeans` | app/main.py:2421-2428 | descending, part by part: first the major part, then the minor one, then the id |
| `Keyset.CursorCuts` | app/main.py:2421-2428 | an entry is below the cursor if and only if it is at or after the position the scan finds |
| `Keyset.FilterThenSort` | app/main.py:2161-2165 | filtering by the cursor before sorting gives the tail of the sorted whole |
| `Keyset.FollowingReadsASlice` | app/main.py:2420-2439 | following cursors reads one unbroken slice, whatever the limits |
| `ForYou.RankingIsStrict` | app/main.py:2404-2417 | the ranking holds exactly the candidates and no two of its keys are equal |
| `ForYou.RankingMeans` | app/main.py:2404-2417 | every candidate has an entry and every entry a candidate, in order of affinity, which is 0 without a score, then headline score, then id, all descending |
| `ForYou.ColdStartKeepsTheQueryOrder` | app/main.py:2312-2315 | with no affinity the ranking is the candidate query's own order |
| `ForYou.ListForYou` | app/main.py:2355-2445 | the handler's slicing, page counting and snapshot saving give the specified reply and store |
| `ForYou.LiveScrollReadsASlice` | app/main.py:2420-2439 | while the snapshot lives, following cursors shows consecutive slices of the ranking that join without skip or repeat, a prefix if no cursor opened the session, and stops within the page cap; the next cursor is missing if and only if the ranking or the cap is exhausted |
| `ForYou.CapCountsFromTheLastLoss` | app/main.py:2431-2439 | the page cap exactly: there is a next cursor if and only if more of the ranking in use follows and fewer than the cap were served since a snapshot was last missing; that number is the next page's |
| `ForYou.LongScrollsLostASnapshot` | app/main.py:2431-2439 | a scroll longer than the cap lost a snapshot on the way |
| `ForYou.MixedScrollReadsASlice` | app/main.py:2372-2439 | with snapshots found or lost at any request, as long as the rankings agree, nothing is skipped or repeated, and the scroll ends at the end of the ranking or a cap after the last loss |
| `ForYou.LostSnapshotsLiftTheCap` | app/main.py:2372-2439 | if no snapshot is ever found and every re-score gives the same ranking, nothing is skipped or repeated, and the cap is never reached |
| `ForYou.LossyRunIsAScroll` | app/main.py:2372-2439 | runs that exceed any cap: n stories read on n pages of one when snapshots cannot be saved |
| `ForYou.ExpiredPageIsFreshExactlyWhen` | app/main.py:2372-2429 | a request whose snapshot is gone is answered like a fresh page 1 if and only if the new ranking is empty or starts below the old cursor |
| `ForYou.ExpiredSessionSkipsExactly` | app/main.py:2420-2429 | such a session, read to the end of the ranking, shows exactly the entries below the old cursor |
| `ForYou.ExpiredPageExample` | app/main.py:2325-2327 | an input where the answer is not the fresh page 1 of the docstring |
| `StoryFeed.RecomputedKeyIsTheOrderKey` | app/main.py:2096-2205 | for every weight map, article list and promotion state, the key recomputed for the cursor is the key of ORDER BY, and conversely |
| `StoryFeed.ScoreMeans` | app/main.py:2096-2112 | a story's score is the headline score times the weight of one of its sources, 1 for a source without a weight, times 4 if promoted; without articles only the headline score and the promotion count |
| `StoryFeed.NoSourceScoresMore` | app/main.py:2101-2109 | and no other of its sources gives more |
| `StoryFeed.HeavierSourceComesFirst` | app/main.py:2096-2113 | of two stories of one source each, neither promoted, the one with the larger headline score times source weight comes first in the feed |
| `StoryFeed.WeightedExample` | app/main.py:2199-2221 | an input: weight 3 on one source puts its story of score 1 before one of score 2; key, shuffle weight and next cursor are 3 |
| `StoryFeed.QueryReadsTheFeed` | app/main.py:2150-2191 | the filtered, sorted and limited query reads the feed from the cursor's position |
| `StoryFeed.ListStories` | app/main.py:2189-2225 | from limit + 1 rows the handler builds the page of the feed, its shuffle weights, its next cursor and whether more follow |
| `StoryFeed.ShuffleWeightIsTheScore` | app/main.py:2216-2221 | in All Stories the shuffle weight of an item is the score it was ordered by |
| `StoryFeed.RecencyMeans` | app/main.py:2145-2148 | the other tabs go by the time of the last update, then by id |
| `StoryFeed.ScrollEnumeratesTheFeed` | app/main.py:2150-2209 | over an unchanged table a scroll shows a prefix of the feed in order, and has no next cursor if and only if it has shown all of it |
| `StoryFeed.FinishedScrollIsEveryRowOnce` | app/main.py:2150-2209 | a finished scroll is a permutation of the eligible rows: each exactly once |
| `FeedDisplay.ShufflePermutes` | app/main.py:245-262 | the shuffle only reorders the page |
| `FeedDisplay.SortDrawnDescends` | app/main.py:257-262 | the highest draw comes first |
| `FeedDisplay.HigherDrawShownFirst` | app/main.py:257-262 | of two stories of the shuffled page the one with the higher draw comes first, with equal draws the one fetched first |
| `FeedDisplay.FirstPageIsShuffled` | app/main.py:2237-2245 | the first page of All Stories is the shuffled one, if nothing is spliced in |
| `FeedDisplay.OtherPagesStay` | app/main.py:2237-2245 | every other page is shown as fetched |
| `FeedDisplay.Dedupe` | app/main.py:2277-2283 | keeps the first item of every id, in order |
| `FeedDisplay.FirstsAreDistinct` | app/main.py:2277-2283 | whatever comes in, the ids that come out are distinct |
| `FeedDisplay.ShowPage` | app/main.py:2237-2283 | shuffle, splice and dedupe give the specified page, and an exposure is recorded exactly when a candidate was spliced in |
| `FeedDisplay.DisplayPermutesThePage` | app/main.py:2237-2283 | the shown page is a permutation of the fetched one, or of it and the candidate, which is then second; all ids are distinct |
| `FeedDisplay.SplicedStoryRepeatsExactlyWhen` | app/main.py:2260-2275 | a finished scroll shows some story twice if and only if a candidate was spliced in that is itself an eligible row |
| `FeedDisplay.SplicedStoryExample` | app/main.py:2260-2275 | an input: of two eligible stories read one a page, the second is spliced into the first page and comes again on its own |
| `Streaks.CurrentRun` | app/main.py:3398-3402 | the backward loop ends and counts the maximal run ending today, or yesterday while today is missing |
| `Streaks.LongestRun` | app/main.py:3404-3410 | the longest run of consecutive days: attained, and none is longer |
| `Streaks.ComputeStreaks` | app/main.py:3389-3412 | both numbers, and current is at most longest; 0 and 0 on no days |
| `Streaks.LongestIsUnique` | app/main.py:3404-3410 | the description of longest fixes the number |
| `Streaks.EndsAtIsUnique` | app/main.py:3398-3402 | the description of current fixes the number |
| `Streaks.CompletingTodayExtends` | app/main.py:3390-3393 | completing today makes the streak one day longer, and only then |
| `Streaks.DayOff` | app/main.py:3390-3393 | one missing day keeps the streak until the next, a second one breaks it |

## Left out

Taken as inputs or oracles:

- The narrative service, audio, titles, beats and every row field that only carries text. The
  service is a function from a chain to coherent, incoherent or failed.
- Dates and times are integers; durations and window lengths are on the same scale.
- Scores are exact reals: floating-point rounding is not modelled, so `int(n * 0.02)` is `n / 50`.
- The idf weight of a token set and the Hamming distance of simhashes are parameters of the replay.
- The order in which the database returns rows and in which hash sets are walked is free.
- The rows that pass the WHERE clause of a feed (age, gate, category, sources) are its table.
- Cursor text: a cursor that does not parse is an absent one, as the handlers treat it. On the All
  Stories feed a malformed cursor also turns the shuffle and the splice off, which `Visit.firstPage`
  leaves to the caller.
- The page cache of GET /clusters: over an unchanged table a cached envelope is the computed one.
- The explore candidate, the caller's identity, and the sort keys the shuffle draws.
- Lines of the word files are given stripped; the blocklist is a predicate.

Not modelled:

- `score` of both evaluators, labelling, `_build_pairs` and `_stratify`: counters and sampling.
- How the seed shuffles: the order is any function of the number of rows, as a fixed seed gives.
- A ranked chain none of whose clusters is loaded (the source raises an error there).
- Deleting clusters and editing picks by hand between cycles.
- Authentication, rate limits, schemas and the remaining endpoints.

Weaker than the source, or under a condition the source does not state:

- `ReplayProofs.IndexRefinesScan`: for the blocked branch it needs that no tie comes up, because
  clusters last touched at the same time are ordered by a hash set; `LinearScanIsAReplay` and
  `ReplayLoop.Replay` need no such condition.
- `ReplayDiagnosis.DiagnosisIsSound`: simhash off and no candidate limit; in representative-only mode
  the earlier article must be a founder. `OvertakenExactlyWhen` decides every configuration.
- `ReplayDiagnosis.DiagnosisIsSoundExactlyWhen`: under the same condition, which lets it name what a
  caller can check.
- `TimelineRerun.RerunIsANoOp`: one latest member in every chain, because a tie for the anchor is
  broken by the order of a hash set (`RowKeptElsewhereLosesTheTop`).
- `TimelineTop.TopIsExactlyTheFilled`: one latest member too; `TopIsExactlyWhen` needs none.
- `LadderBuild.Flood`: words are four plain letters, as `load_level` and the length filter ensure.
- `ChainRun.BuildChains`: the order of groups of equal size is free, as it depends on the order in
  which a hash set of keys is walked.
- `FeedDisplay.ShowPage`: the draws of the shuffle are given, so how weights shape them is not
  captured.
