/** Spelling Bee puzzles: counts through submasks, against the count a player would make. */
module Bee {
  import opened Bits
  import opened Words
  import opened Spread

  const BEE_MIN_WORDS := 8
  const BEE_MAX_WORDS := 80

  /** A puzzle as it is written out: pangram, centre letter, number of words that count. */
  datatype Puzzle = Puzzle(pangram: string, centre: char, count: nat)

  /** The words a player may enter: at least four letters, all from the pangram, with the centre. */
  function Playable(accepted: set<string>, letters: set<char>, centre: char): set<string> {
    set w | w in accepted && |w| >= 4 && Letters(w) <= letters && centre in Letters(w)
  }

  predicate InBand(n: nat) {
    BEE_MIN_WORDS <= n <= BEE_MAX_WORDS
  }

  ghost predicate AllWordsPlain(words: set<string>) {
    forall w :: w in words ==> IsPlain(w)
  }

  // ---- The index by letter set ----

  function WordsAt(accepted: set<string>, mask: nat): set<string> {
    set w | w in accepted && |w| >= 4 && Mask(w) == mask
  }

  /** by_mask: the accepted words by letter set; letter sets of more than seven are dropped. */
  ghost predicate IndexesWords(byMask: map<nat, seq<string>>, accepted: set<string>) {
    && (forall m: nat :: m in byMask <==> PopCount(m) <= 7 && WordsAt(accepted, m) != {})
    && (forall m :: m in byMask ==> |byMask[m]| == |WordsAt(accepted, m)|)
  }

  lemma WordsAtGrows(done: set<string>, word: string, m: nat)
    requires word !in done
    ensures |WordsAt(done + {word}, m)| == |WordsAt(done, m)| + if |word| >= 4 && Mask(word) == m then 1 else 0
  {
    if |word| >= 4 && Mask(word) == m {
      assert WordsAt(done + {word}, m) == WordsAt(done, m) + {word};
    } else {
      assert WordsAt(done + {word}, m) == WordsAt(done, m);
    }
  }

  lemma WordIndexed(byMask: map<nat, seq<string>>, byMask': map<nat, seq<string>>, done: set<string>, word: string)
    requires IndexesWords(byMask, done) && word !in done
    requires byMask' == if |word| >= 4 && PopCount(Mask(word)) <= 7
                        then byMask[Mask(word) := (if Mask(word) in byMask then byMask[Mask(word)] else []) + [word]]
                        else byMask
    ensures IndexesWords(byMask', done + {word})
  {
    forall m: nat
      ensures m in byMask' <==> PopCount(m) <= 7 && |WordsAt(done + {word}, m)| != 0
      ensures m in byMask' ==> |byMask'[m]| == |WordsAt(done + {word}, m)|
    {
      WordsAtGrows(done, word, m);
    }
  }

  method IndexByMask(accepted: set<string>) returns (byMask: map<nat, seq<string>>)
    ensures IndexesWords(byMask, accepted)
  {
    byMask := map[];
    var rest := accepted;
    while rest != {}
      invariant rest <= accepted
      invariant IndexesWords(byMask, accepted - rest)
      decreases rest
    {
      var word :| word in rest;
      ghost var before, done := byMask, accepted - rest;
      var mask := MaskOf(word);
      if |word| >= 4 && PopCount(mask) <= 7 {
        byMask := byMask[mask := (if mask in byMask then byMask[mask] else []) + [word]];
      }
      WordIndexed(before, byMask, done, word);
      rest := rest - {word};
      assert accepted - rest == done + {word};
    }
    assert accepted - rest == accepted;
  }

  // ---- Counting through submasks ----

  /** The accepted words with the letter whose letter set is one of the masks. */
  ghost function Counted(accepted: set<string>, masks: seq<nat>, c: char): set<string> {
    set w | w in accepted && |w| >= 4 && Mask(w) in masks && Bit(Mask(w), Index(c))
  }

  lemma CountedGrows(accepted: set<string>, masks: seq<nat>, sub: nat, c: char)
    requires sub !in masks
    ensures |Counted(accepted, masks + [sub], c)| ==
            |Counted(accepted, masks, c)| + if Bit(sub, Index(c)) then |WordsAt(accepted, sub)| else 0
  {
    var before, after := Counted(accepted, masks, c), Counted(accepted, masks + [sub], c);
    if Bit(sub, Index(c)) {
      assert after == before + WordsAt(accepted, sub);
      assert before !! WordsAt(accepted, sub);
    } else {
      assert after == before;
    }
  }

  /** After all submasks, what was counted is what is playable: a word fits exactly when its
      mask is a submask, and no fitting word has more letters than the pangram. */
  lemma CountedIsPlayable(accepted: set<string>, pangram: string, masks: seq<nat>, c: char)
    requires AllWordsPlain(accepted) && AllPlain(pangram) && c in Letters(pangram)
    requires forall m: nat :: m in masks <==> Submask(m, Mask(pangram))
    ensures Counted(accepted, masks, c) == Playable(accepted, Letters(pangram), c)
  {
    forall w | w in accepted && |w| >= 4
      ensures w in Counted(accepted, masks, c) <==> w in Playable(accepted, Letters(pangram), c)
    {
      PlainLetters(w);
      MaskSubset(w, pangram);
      MaskBits(w, c);
    }
  }

  /** A submask of a seven-letter mask has at most seven bits, so the index has all of them. */
  lemma {:induction false} SubmaskPopCount(sub: nat, mask: nat)
    requires Submask(sub, mask)
    ensures PopCount(sub) <= PopCount(mask)
  {
    if sub > 0 && mask > 0 {
      SubmaskHalves(sub, mask);
      SubmaskPopCount(sub / 2, mask / 2);
    }
  }

  ghost predicate CountsAre(counts: map<char, nat>, accepted: set<string>, masks: seq<nat>) {
    forall c :: c in counts ==> counts[c] == |Counted(accepted, masks, c)|
  }

  lemma SubmaskCounted(counts: map<char, nat>, counts': map<char, nat>, accepted: set<string>, masks: seq<nat>,
                       sub: nat, n: nat)
    requires CountsAre(counts, accepted, masks) && sub !in masks
    requires counts'.Keys == counts.Keys && n == |WordsAt(accepted, sub)|
    requires forall c :: c in counts ==> counts'[c] == counts[c] + if Bit(sub, Index(c)) then n else 0
    ensures CountsAre(counts', accepted, masks + [sub])
  {
    forall c | c in counts'
      ensures counts'[c] == |Counted(accepted, masks + [sub], c)|
    {
      CountedGrows(accepted, masks, sub, c);
    }
  }

  lemma CountsStart(counts: map<char, nat>, accepted: set<string>)
    requires forall c :: c in counts ==> counts[c] == 0
    ensures CountsAre(counts, accepted, [])
  {
    forall c | c in counts
      ensures Counted(accepted, [], c) == {}
    {
    }
  }

  lemma CountsEnd(counts: map<char, nat>, accepted: set<string>, pangram: string, masks: seq<nat>)
    requires AllWordsPlain(accepted) && AllPlain(pangram) && counts.Keys <= Letters(pangram)
    requires forall m: nat :: m in masks <==> Submask(m, Mask(pangram))
    requires CountsAre(counts, accepted, masks)
    ensures forall c :: c in counts ==> counts[c] == |Playable(accepted, Letters(pangram), c)|
  {
    forall c | c in counts
      ensures counts[c] == |Playable(accepted, Letters(pangram), c)|
    {
      CountedIsPlayable(accepted, pangram, masks, c);
    }
  }

  lemma NextSubmask(subs: seq<nat>, i: nat)
    requires i < |subs| && Descending(subs)
    ensures subs[..i + 1] == subs[..i] + [subs[i]]
    ensures subs[i] !in subs[..i] && subs[i] in subs
  {
  }

  /** counts: for every letter of the pangram, the number of words playable around it. */
  method CountCentres(byMask: map<nat, seq<string>>, pangram: string, ghost accepted: set<string>)
    returns (counts: map<char, nat>)
    requires IndexesWords(byMask, accepted) && AllWordsPlain(accepted)
    requires AllPlain(pangram) && |Letters(pangram)| == 7
    ensures counts.Keys == Letters(pangram)
    ensures forall c :: c in counts ==> counts[c] == |Playable(accepted, Letters(pangram), c)|
  {
    var mask := MaskOf(pangram);
    MaskPopCount(pangram);
    counts := map c | c in Letters(pangram) :: 0;
    var subs := Submasks(mask);
    CountsStart(counts, accepted);
    assert subs[..0] == [];
    for i := 0 to |subs|
      invariant counts.Keys == Letters(pangram)
      invariant CountsAre(counts, accepted, subs[..i])
    {
      NextSubmask(subs, i);
      SubmaskPopCount(subs[i], mask);
      counts := CountSubmask(byMask, counts, subs[i], accepted, subs[..i]);
    }
    assert subs[..|subs|] == subs;
    CountsEnd(counts, accepted, pangram, subs);
  }

  method CountSubmask(byMask: map<nat, seq<string>>, counts: map<char, nat>, sub: nat,
                      ghost accepted: set<string>, ghost masks: seq<nat>)
    returns (counts': map<char, nat>)
    requires IndexesWords(byMask, accepted) && CountsAre(counts, accepted, masks)
    requires sub !in masks && PopCount(sub) <= 7
    ensures counts'.Keys == counts.Keys && CountsAre(counts', accepted, masks + [sub])
  {
    counts' := counts;
    if sub in byMask {
      counts' := AddWords(counts, sub, |byMask[sub]|);
    }
    SubmaskCounted(counts, counts', accepted, masks, sub, |WordsAt(accepted, sub)|);
  }

  /** counts[letter] += n for every letter in the submask. */
  method AddWords(counts: map<char, nat>, sub: nat, n: nat) returns (r: map<char, nat>)
    ensures r.Keys == counts.Keys
    ensures forall c :: c in r ==> r[c] == counts[c] + if Bit(sub, Index(c)) then n else 0
  {
    r := counts;
    var rest := counts.Keys;
    while rest != {}
      invariant rest <= counts.Keys == r.Keys
      invariant forall c :: c in r ==> r[c] == counts[c] + if c !in rest && Bit(sub, Index(c)) then n else 0
      decreases rest
    {
      var c :| c in rest;
      if Bit(sub, Index(c)) {
        r := r[c := r[c] + n];
      }
      rest := rest - {c};
    }
  }

  // ---- Choosing the centre ----

  /** The first letter, alphabetically, that makes a playable puzzle. */
  ghost predicate IsFirstCentre(accepted: set<string>, letters: set<char>, centre: char) {
    && centre in letters && InBand(|Playable(accepted, letters, centre)|)
    && forall c :: c in letters && c < centre ==> !InBand(|Playable(accepted, letters, c)|)
  }

  ghost predicate HasCentre(accepted: set<string>, letters: set<char>) {
    exists c :: c in letters && InBand(|Playable(accepted, letters, c)|)
  }

  method FirstCentre(counts: map<char, nat>) returns (found: bool, centre: char)
    requires forall c :: c in counts ==> 'a' <= c <= 'z'
    ensures found ==> centre in counts && InBand(counts[centre])
                      && forall c :: c in counts && c < centre ==> !InBand(counts[c])
    ensures !found ==> forall c :: c in counts ==> !InBand(counts[c])
  {
    centre := 'a';
    for i := 0 to 26
      invariant forall c :: c in counts && c < (97 + i) as char ==> !InBand(counts[c])
    {
      centre := (97 + i) as char;
      if centre in counts && InBand(counts[centre]) {
        return true, centre;
      }
    }
    return false, centre;
  }

  // ---- All puzzles ----

  predicate IsCandidate(word: string) {
    |Letters(word)| == 7 && 7 <= |word| <= 9
  }

  /** The puzzle is right: its pangram is the first candidate with its letters, its centre the
      first playable one, and its count the number of words that can be played. */
  ghost predicate IsRight(pool: set<string>, accepted: set<string>, z: Puzzle) {
    && z.pangram in pool && IsCandidate(z.pangram)
    && IsFirstCentre(accepted, Letters(z.pangram), z.centre)
    && z.count == |Playable(accepted, Letters(z.pangram), z.centre)|
    && forall w :: w in pool && IsCandidate(w) && Letters(w) == Letters(z.pangram) ==> !Before(w, z.pangram)
  }

  ghost predicate DistinctLetters(puzzles: seq<Puzzle>) {
    forall i, j :: 0 <= i < j < |puzzles| ==> Letters(puzzles[i].pangram) != Letters(puzzles[j].pangram)
  }

  ghost predicate Covers(puzzles: seq<Puzzle>, letters: set<char>) {
    exists i :: 0 <= i < |puzzles| && Letters(puzzles[i].pangram) == letters
  }

  /** Where the loop over the candidates stands after n of them. */
  ghost predicate BeeState(pool: set<string>, accepted: set<string>, candidates: seq<string>, n: nat,
                           puzzles: seq<Puzzle>, seen: set<set<char>>)
    requires n <= |candidates|
  {
    && (forall i :: 0 <= i < |puzzles| ==> IsRight(pool, accepted, puzzles[i]))
    && DistinctLetters(puzzles)
    && (forall s :: s in seen <==> Covers(puzzles, s))
    && (forall i :: 0 <= i < n && HasCentre(accepted, Letters(candidates[i])) ==> Letters(candidates[i]) in seen)
    && (forall s :: s in seen ==> exists i :: 0 <= i < n && Letters(candidates[i]) == s)
  }

  ghost predicate IsCandidateList(pool: set<string>, candidates: seq<string>) {
    && Ascending(candidates)
    && forall w :: w in candidates <==> w in pool && IsCandidate(w)
  }

  lemma CoversSnoc(puzzles: seq<Puzzle>, z: Puzzle, s: set<char>)
    ensures Covers(puzzles + [z], s) <==> Covers(puzzles, s) || s == Letters(z.pangram)
  {
    var puzzles' := puzzles + [z];
    assert puzzles'[|puzzles|] == z;
    if Covers(puzzles, s) {
      var i :| 0 <= i < |puzzles| && Letters(puzzles[i].pangram) == s;
      assert puzzles'[i] == puzzles[i];
    }
  }

  lemma DistinctSnoc(puzzles: seq<Puzzle>, z: Puzzle)
    requires DistinctLetters(puzzles) && !Covers(puzzles, Letters(z.pangram))
    ensures DistinctLetters(puzzles + [z])
  {
  }

  lemma PuzzleAdded(pool: set<string>, accepted: set<string>, candidates: seq<string>, n: nat,
                    puzzles: seq<Puzzle>, seen: set<set<char>>, z: Puzzle)
    requires n < |candidates| && IsCandidateList(pool, candidates)
    requires BeeState(pool, accepted, candidates, n, puzzles, seen)
    requires z.pangram == candidates[n] && Letters(z.pangram) !in seen
    requires IsFirstCentre(accepted, Letters(z.pangram), z.centre)
    requires z.count == |Playable(accepted, Letters(z.pangram), z.centre)|
    ensures BeeState(pool, accepted, candidates, n + 1, puzzles + [z], seen + {Letters(z.pangram)})
  {
    FirstOfItsLetters(pool, accepted, candidates, n, puzzles, seen);
    assert z.pangram in candidates;
    assert IsRight(pool, accepted, z);
    DistinctSnoc(puzzles, z);
    forall s
      ensures Covers(puzzles + [z], s) <==> Covers(puzzles, s) || s == Letters(z.pangram)
    {
      CoversSnoc(puzzles, z, s);
    }
    RightSnoc(pool, accepted, puzzles, z);
  }

  lemma RightSnoc(pool: set<string>, accepted: set<string>, puzzles: seq<Puzzle>, z: Puzzle)
    requires forall i :: 0 <= i < |puzzles| ==> IsRight(pool, accepted, puzzles[i])
    requires IsRight(pool, accepted, z)
    ensures forall i :: 0 <= i < |puzzles + [z]| ==> IsRight(pool, accepted, (puzzles + [z])[i])
  {
  }

  /** No earlier candidate has the letters of a candidate that is not seen yet, if it has a centre. */
  lemma FirstOfItsLetters(pool: set<string>, accepted: set<string>, candidates: seq<string>, n: nat,
                          puzzles: seq<Puzzle>, seen: set<set<char>>)
    requires n < |candidates| && IsCandidateList(pool, candidates)
    requires BeeState(pool, accepted, candidates, n, puzzles, seen)
    requires Letters(candidates[n]) !in seen && HasCentre(accepted, Letters(candidates[n]))
    ensures forall w :: w in pool && IsCandidate(w) && Letters(w) == Letters(candidates[n]) ==>
              !Before(w, candidates[n])
  {
    forall w | w in pool && IsCandidate(w) && Letters(w) == Letters(candidates[n])
      ensures !Before(w, candidates[n])
    {
      assert w in candidates;
      var i :| 0 <= i < |candidates| && candidates[i] == w;
      assert i >= n;
      BeforeIsTotal(w, candidates[n]);
    }
  }

  lemma CandidateSkipped(pool: set<string>, accepted: set<string>, candidates: seq<string>, n: nat,
                         puzzles: seq<Puzzle>, seen: set<set<char>>)
    requires n < |candidates|
    requires BeeState(pool, accepted, candidates, n, puzzles, seen)
    requires Letters(candidates[n]) in seen || !HasCentre(accepted, Letters(candidates[n]))
    ensures BeeState(pool, accepted, candidates, n + 1, puzzles, seen)
  {
  }

  /** Every puzzle is right; no two share their letters; and every letter set of the pool that can
      be played has its puzzle. */
  ghost predicate IsBeeList(pool: set<string>, accepted: set<string>, puzzles: seq<Puzzle>) {
    && (forall i :: 0 <= i < |puzzles| ==> IsRight(pool, accepted, puzzles[i]))
    && DistinctLetters(puzzles)
    && forall w :: w in pool && IsCandidate(w) && HasCentre(accepted, Letters(w)) ==> Covers(puzzles, Letters(w))
  }

  /** build_bee */
  method BuildBee(pool: set<string>, accepted: set<string>, shuffle: Shuffler) returns (puzzles: seq<Puzzle>)
    requires AllWordsPlain(pool) && AllWordsPlain(accepted) && IsShuffler(shuffle)
    ensures IsBeeList(pool, accepted, puzzles)
  {
    var rows := CollectPuzzles(pool, accepted);
    assert IsOrder(shuffle(|rows|), |rows|);
    puzzles := Shuffled(rows, shuffle(|rows|));
    ShuffledIsBeeList(pool, accepted, rows, shuffle(|rows|));
  }

  lemma ShuffledIsBeeList(pool: set<string>, accepted: set<string>, rows: seq<Puzzle>, order: seq<nat>)
    requires IsBeeList(pool, accepted, rows) && IsOrder(order, |rows|)
    ensures IsBeeList(pool, accepted, Shuffled(rows, order))
  {
    var r := Shuffled(rows, order);
    ShuffledKeepsRows(rows, order);
    forall i, j | 0 <= i < j < |r|
      ensures Letters(r[i].pangram) != Letters(r[j].pangram)
    {
      assert order[i] < order[j] || order[j] < order[i];
    }
    forall w | w in pool && IsCandidate(w) && HasCentre(accepted, Letters(w))
      ensures Covers(r, Letters(w))
    {
      var k :| 0 <= k < |rows| && Letters(rows[k].pangram) == Letters(w);
      assert rows[k] in r;
    }
  }

  /** The loop over the candidates. */
  method CollectPuzzles(pool: set<string>, accepted: set<string>) returns (puzzles: seq<Puzzle>)
    requires AllWordsPlain(pool) && AllWordsPlain(accepted)
    ensures IsBeeList(pool, accepted, puzzles)
  {
    var byMask := IndexByMask(accepted);
    var candidates := Sorted(set w | w in pool && IsCandidate(w));
    puzzles := [];
    var seen: set<set<char>> := {};
    for n := 0 to |candidates|
      invariant BeeState(pool, accepted, candidates, n, puzzles, seen)
    {
      var pangram := candidates[n];
      var letters := Letters(pangram);
      assert pangram in candidates;
      PlainLetters(pangram);
      if letters in seen {
        CandidateSkipped(pool, accepted, candidates, n, puzzles, seen);
        continue;
      }
      var counts := CountCentres(byMask, pangram, accepted);
      var found, centre := FirstCentre(counts);
      if found {
        PuzzleAdded(pool, accepted, candidates, n, puzzles, seen, Puzzle(pangram, centre, counts[centre]));
        puzzles := puzzles + [Puzzle(pangram, centre, counts[centre])];
        seen := seen + {letters};
      } else {
        CandidateSkipped(pool, accepted, candidates, n, puzzles, seen);
      }
    }
    forall w | w in pool && IsCandidate(w) && HasCentre(accepted, Letters(w))
      ensures Covers(puzzles, Letters(w))
    {
      assert w in candidates;
    }
  }

  // ---- What a written puzzle is, in letters and numbers ----

  /** The words that a player may enter: four letters or more, only letters of the pangram, and
      the centre among them. */
  ghost predicate MayEnter(word: string, pangram: string, centre: char) {
    |word| >= 4 && (forall i :: 0 <= i < |word| ==> word[i] in pangram) && centre in word
  }

  lemma PlayableMeans(accepted: set<string>, pangram: string, centre: char)
    ensures forall w ::
              w in Playable(accepted, Letters(pangram), centre) <==> w in accepted && MayEnter(w, pangram, centre)
  {
    forall w | w in accepted
      ensures w in Playable(accepted, Letters(pangram), centre) <==> MayEnter(w, pangram, centre)
    {
      if MayEnter(w, pangram, centre) {
        forall c | c in Letters(w)
          ensures c in Letters(pangram)
        {
          assert c in pangram;
        }
      }
      forall i | 0 <= i < |w|
        ensures w[i] in Letters(w)
      {
      }
    }
  }

  /** A candidate's letters, seven of them in seven to nine places. */
  lemma CandidateMeans(word: string)
    ensures IsCandidate(word) <==> 7 <= |word| <= 9 && |set i | 0 <= i < |word| :: word[i]| == 7
  {
  }

  ghost function Enterable(accepted: set<string>, pangram: string, centre: char): set<string> {
    set w | w in accepted && MayEnter(w, pangram, centre)
  }

  /** Every puzzle written has a pangram of seven different letters, eight to eighty words around
      its centre, the number written, and too few or too many around every smaller letter; any
      other candidate with its letters differs from it first by a larger letter or goes on. */
  lemma WrittenPuzzle(pool: set<string>, accepted: set<string>, puzzles: seq<Puzzle>, z: Puzzle)
    requires IsBeeList(pool, accepted, puzzles) && z in puzzles
    ensures z.pangram in pool && 7 <= |z.pangram| <= 9 && |set i | 0 <= i < |z.pangram| :: z.pangram[i]| == 7
    ensures z.centre in z.pangram && z.count == |Enterable(accepted, z.pangram, z.centre)| && 8 <= z.count <= 80
    ensures forall c :: c in z.pangram && c < z.centre ==> !(8 <= |Enterable(accepted, z.pangram, c)| <= 80)
    ensures forall w :: w in pool && IsCandidate(w) && Letters(w) == Letters(z.pangram) && w != z.pangram ==>
              exists k: nat :: DiffersAt(z.pangram, w, k)
  {
    var i :| 0 <= i < |puzzles| && puzzles[i] == z;
    assert IsRight(pool, accepted, puzzles[i]);
    CandidateMeans(z.pangram);
    forall c
      ensures Playable(accepted, Letters(z.pangram), c) == Enterable(accepted, z.pangram, c)
    {
      PlayableMeans(accepted, z.pangram, c);
    }
    forall c | c in z.pangram
      ensures c in Letters(z.pangram)
    {
    }
    forall w | w in pool && IsCandidate(w) && Letters(w) == Letters(z.pangram) && w != z.pangram
      ensures exists k: nat :: DiffersAt(z.pangram, w, k)
    {
      BeforeIsTotal(w, z.pangram);
      BeforeMeans(z.pangram, w);
    }
  }

  /** And whenever a pool word of seven different letters in seven to nine places has eight to
      eighty words around one of its letters, a puzzle with its letters is written. */
  lemma EveryPlayableIsWritten(pool: set<string>, accepted: set<string>, puzzles: seq<Puzzle>, w: string, c: char)
    requires IsBeeList(pool, accepted, puzzles)
    requires w in pool && 7 <= |w| <= 9 && |set i | 0 <= i < |w| :: w[i]| == 7
    requires c in w && 8 <= |Enterable(accepted, w, c)| <= 80
    ensures exists z :: z in puzzles && Letters(z.pangram) == Letters(w)
  {
    CandidateMeans(w);
    PlayableMeans(accepted, w, c);
    assert Playable(accepted, Letters(w), c) == Enterable(accepted, w, c);
    assert c in Letters(w) && HasCentre(accepted, Letters(w));
    assert Covers(puzzles, Letters(w));
    var i :| 0 <= i < |puzzles| && Letters(puzzles[i].pangram) == Letters(w);
    assert puzzles[i] in puzzles;
  }

  /** Of the pair named after the first in the alphabet: no puzzle of a pool with both words has
      the second for its pangram. */
  lemma ArchingNotChagrin(pool: set<string>, accepted: set<string>, puzzles: seq<Puzzle>, z: Puzzle)
    requires IsBeeList(pool, accepted, puzzles) && z in puzzles && "arching" in pool
    ensures z.pangram != "chagrin"
  {
    var i :| 0 <= i < |puzzles| && puzzles[i] == z;
    assert IsRight(pool, accepted, puzzles[i]);
    SameSevenLetters();
    ArchingBeforeChagrin();
  }

  lemma SameSevenLetters()
    ensures Letters("arching") == Letters("chagrin") == {'a', 'c', 'g', 'h', 'i', 'n', 'r'}
    ensures IsCandidate("arching")
  {
    var a, b, s := "arching", "chagrin", {'a', 'c', 'g', 'h', 'i', 'n', 'r'};
    assert a[0] == 'a' && a[1] == 'r' && a[2] == 'c' && a[3] == 'h' && a[4] == 'i' && a[5] == 'n' && a[6] == 'g';
    assert b[0] == 'c' && b[1] == 'h' && b[2] == 'a' && b[3] == 'g' && b[4] == 'r' && b[5] == 'i' && b[6] == 'n';
    assert Letters(a) == s;
    assert Letters(b) == s;
    assert |s| == 7;
  }
}
