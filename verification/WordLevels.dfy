/** From the dictionary's level files to the word lists the puzzles are built from. */
module WordLevels {
  import opened Basics
  import opened Words
  import opened Bee
  import opened LadderPairs
  import opened Spread

  const LEVELS: seq<nat> := [10, 20, 35, 40, 50, 55, 60, 70, 80, 95]
  const ANSWER_LEVEL := 35
  const BEE_ACCEPT_LEVEL := 50

  datatype Stem = EnglishWords | AmericanWords

  /** The stripped lines of each file; a file may be missing. */
  type Files = map<(nat, Stem), seq<string>>

  ghost predicate InFile(files: Files, level: nat, stem: Stem, word: string) {
    (level, stem) in files && word in files[(level, stem)]
  }

  ghost predicate InEither(files: Files, level: nat, word: string) {
    InFile(files, level, EnglishWords, word) || InFile(files, level, AmericanWords, word)
  }

  /** The word is in some file at or below the level, plain, and not blocked. */
  ghost predicate Loaded(files: Files, blocked: string -> bool, maxLevel: nat, word: string) {
    IsPlain(word) && !blocked(word)
    && exists level, stem :: level in LEVELS && level <= maxLevel && InFile(files, level, stem, word)
  }

  /** What the first n levels and the given stems of the next one contribute. */
  ghost predicate Sofar(files: Files, blocked: string -> bool, n: nat, word: string)
    requires n <= |LEVELS|
  {
    IsPlain(word) && !blocked(word) && exists k, stem :: 0 <= k < n && InFile(files, LEVELS[k], stem, word)
  }

  method AddFile(files: Files, blocked: string -> bool, level: nat, stem: Stem, words: set<string>)
    returns (r: set<string>)
    ensures forall w :: w in r <==> w in words || (InFile(files, level, stem, w) && IsPlain(w) && !blocked(w))
  {
    r := words;
    if (level, stem) !in files {
      return;
    }
    var lines := files[(level, stem)];
    for i := 0 to |lines|
      invariant forall w :: w in r <==> w in words || (w in lines[..i] && IsPlain(w) && !blocked(w))
    {
      if IsPlain(lines[i]) && !blocked(lines[i]) {
        r := r + {lines[i]};
      }
    }
  }

  /** load_level: the loop stops at the first level above the limit, which loses nothing
      because the levels ascend. */
  method LoadLevel(files: Files, blocked: string -> bool, maxLevel: nat) returns (words: set<string>)
    ensures forall w :: w in words <==> Loaded(files, blocked, maxLevel, w)
  {
    words := {};
    var n := 0;
    while n < |LEVELS| && LEVELS[n] <= maxLevel
      invariant n <= |LEVELS| && (n > 0 ==> LEVELS[n - 1] <= maxLevel)
      invariant forall w :: w in words <==> Sofar(files, blocked, n, w)
    {
      ghost var before := words;
      var both := AddFile(files, blocked, LEVELS[n], EnglishWords, words);
      words := AddFile(files, blocked, LEVELS[n], AmericanWords, both);
      forall w
        ensures Sofar(files, blocked, n + 1, w) <==>
                  Sofar(files, blocked, n, w)
                  || (IsPlain(w) && !blocked(w) && InEither(files, LEVELS[n], w))
      {
        SofarGrows(files, blocked, n, w);
      }
      n := n + 1;
    }
    forall w
      ensures Sofar(files, blocked, n, w) <==> Loaded(files, blocked, maxLevel, w)
    {
      SofarIsLoaded(files, blocked, maxLevel, n, w);
    }
  }

  lemma SofarGrows(files: Files, blocked: string -> bool, n: nat, w: string)
    requires n < |LEVELS|
    ensures Sofar(files, blocked, n + 1, w) <==>
              Sofar(files, blocked, n, w)
              || (IsPlain(w) && !blocked(w) && InEither(files, LEVELS[n], w))
  {
    if Sofar(files, blocked, n + 1, w) {
      var k, stem :| 0 <= k < n + 1 && InFile(files, LEVELS[k], stem, w);
      assert stem == EnglishWords || stem == AmericanWords;
    }
  }

  lemma SofarIsLoaded(files: Files, blocked: string -> bool, maxLevel: nat, n: nat, w: string)
    requires n <= |LEVELS| && (n > 0 ==> LEVELS[n - 1] <= maxLevel) && (n < |LEVELS| ==> LEVELS[n] > maxLevel)
    ensures Sofar(files, blocked, n, w) <==> Loaded(files, blocked, maxLevel, w)
  {
    LevelsAscend();
    if Loaded(files, blocked, maxLevel, w) {
      var level, stem :| level in LEVELS && level <= maxLevel && InFile(files, level, stem, w);
      var k :| 0 <= k < |LEVELS| && LEVELS[k] == level;
      assert k < n;
    }
    if Sofar(files, blocked, n, w) {
      var k, stem :| 0 <= k < n && InFile(files, LEVELS[k], stem, w);
      assert LEVELS[k] in LEVELS && LEVELS[k] <= LEVELS[n - 1];
    }
  }

  lemma LevelsAscend()
    ensures forall i, j :: 0 <= i < j < |LEVELS| ==> LEVELS[i] < LEVELS[j]
  {
  }

  /** A higher limit loads every word of a lower one. */
  lemma LevelsNest(files: Files, blocked: string -> bool, low: nat, high: nat, w: string)
    requires low <= high && Loaded(files, blocked, low, w)
    ensures Loaded(files, blocked, high, w)
  {
  }

  /** The two puzzle lists of one build. The letters of a Bee puzzle come from a pangram of the
      smaller list, so the larger list accepts that pangram: it is itself one of the words
      counted, around every centre. */
  method BuildPuzzles(files: Files, blocked: string -> bool, shuffle: Shuffler)
    returns (answers: set<string>, accepted: set<string>, bee: seq<Puzzle>, ladder: Option<(seq<string>, seq<Pair>)>)
    requires IsShuffler(shuffle)
    ensures forall w :: w in answers <==> Loaded(files, blocked, ANSWER_LEVEL, w)
    ensures forall w :: w in accepted <==> Loaded(files, blocked, BEE_ACCEPT_LEVEL, w)
    ensures IsBeeList(answers, accepted, bee)
    ensures forall i :: 0 <= i < |bee| ==> bee[i].pangram in Playable(accepted, Letters(bee[i].pangram), bee[i].centre)
    ensures var nodes := set w | w in answers && |w| == 4; IsLadderFile(nodes, shuffle, ladder)
  {
    answers := LoadLevel(files, blocked, ANSWER_LEVEL);
    accepted := LoadLevel(files, blocked, BEE_ACCEPT_LEVEL);
    bee := BuildBee(answers, accepted, shuffle);
    forall w | w in answers
      ensures w in accepted
    {
      LevelsNest(files, blocked, ANSWER_LEVEL, BEE_ACCEPT_LEVEL, w);
    }
    forall i | 0 <= i < |bee|
      ensures bee[i].pangram in Playable(accepted, Letters(bee[i].pangram), bee[i].centre)
    {
      assert IsRight(answers, accepted, bee[i]);
    }
    ladder := BuildLadder(answers, shuffle);
  }

  // ---- The levels by their numbers ----

  /** The answers come from the files up to 35, the words that count from those up to 50. */
  lemma LevelsLoaded(files: Files, blocked: string -> bool, word: string)
    ensures Loaded(files, blocked, ANSWER_LEVEL, word) <==>
              IsPlain(word) && !blocked(word)
              && exists level, stem :: level in {10, 20, 35} && InFile(files, level, stem, word)
    ensures Loaded(files, blocked, BEE_ACCEPT_LEVEL, word) <==>
              IsPlain(word) && !blocked(word)
              && exists level, stem :: level in {10, 20, 35, 40, 50} && InFile(files, level, stem, word)
    ensures Loaded(files, blocked, 95, word) <==>
              IsPlain(word) && !blocked(word)
              && exists level, stem ::
                   level in {10, 20, 35, 40, 50, 55, 60, 70, 80, 95} && InFile(files, level, stem, word)
  {
    forall level: nat
      ensures level in LEVELS <==> level in {10, 20, 35, 40, 50, 55, 60, 70, 80, 95}
    {
      LevelNumbers(level);
    }
  }

  lemma LevelNumbers(level: nat)
    ensures level in LEVELS <==> level in {10, 20, 35, 40, 50, 55, 60, 70, 80, 95}
  {
    assert LEVELS[0] == 10 && LEVELS[1] == 20 && LEVELS[2] == 35 && LEVELS[3] == 40 && LEVELS[4] == 50;
    assert LEVELS[5] == 55 && LEVELS[6] == 60 && LEVELS[7] == 70 && LEVELS[8] == 80 && LEVELS[9] == 95;
  }
}
