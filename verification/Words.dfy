/** Words of the lists: plain lower-case strings, their letters as sets and as bit masks, and
    their alphabetical order. */
module Words {
  import opened Bits

  /** What load_level lets through. */
  predicate IsPlain(word: string) {
    word != [] && forall i :: 0 <= i < |word| ==> 'a' <= word[i] <= 'z'
  }

  function Letters(word: string): set<char> {
    set i | 0 <= i < |word| :: word[i]
  }

  /** ord(char) - 97 */
  function Index(c: char): nat {
    if c < 'a' then 0 else c as nat - 97
  }

  function Mask(word: string): nat {
    if word == [] then 0 else Or(Mask(word[..|word| - 1]), Pow2(Index(word[|word| - 1])))
  }

  /** _mask */
  method MaskOf(word: string) returns (bits: nat)
    ensures bits == Mask(word)
  {
    bits := 0;
    for i := 0 to |word|
      invariant bits == Mask(word[..i])
    {
      assert word[..i + 1][..i] == word[..i];
      bits := Or(bits, Pow2(Index(word[i])));
    }
    assert word[..|word|] == word;
  }

  ghost predicate AllPlain(word: string) {
    forall c :: c in Letters(word) ==> 'a' <= c <= 'z'
  }

  lemma PlainLetters(word: string)
    requires IsPlain(word)
    ensures AllPlain(word)
  {
  }

  lemma LettersSnoc(word: string)
    requires word != []
    ensures Letters(word) == Letters(word[..|word| - 1]) + {word[|word| - 1]}
  {
    var n := |word| - 1;
    forall c
      ensures c in Letters(word) <==> c in Letters(word[..n]) + {word[n]}
    {
      if c in Letters(word) {
        var i :| 0 <= i < |word| && word[i] == c;
        assert i < n ==> word[..n][i] == c;
      }
      if c in Letters(word[..n]) {
        var i :| 0 <= i < n && word[..n][i] == c;
        assert word[i] == c;
      }
    }
  }

  /** The bits of a mask are the letters of the word. */
  lemma {:induction false} MaskBits(word: string, c: char)
    requires AllPlain(word) && 'a' <= c <= 'z'
    ensures Bit(Mask(word), Index(c)) <==> c in Letters(word)
  {
    if word == [] {
      ZeroHasNoBits(Index(c));
    } else {
      var n := |word| - 1;
      LettersSnoc(word);
      assert word[n] in Letters(word);
      MaskBits(word[..n], c);
      OrBit(Mask(word[..n]), Pow2(Index(word[n])), Index(c));
      Pow2Bit(Index(word[n]), Index(c));
    }
  }

  lemma {:induction false} MaskBitIsLetter(word: string, i: nat)
    requires AllPlain(word) && Bit(Mask(word), i)
    ensures exists c :: c in Letters(word) && Index(c) == i
  {
    if word == [] {
      ZeroHasNoBits(i);
    } else {
      var n := |word| - 1;
      LettersSnoc(word);
      assert word[n] in Letters(word);
      OrBit(Mask(word[..n]), Pow2(Index(word[n])), i);
      Pow2Bit(Index(word[n]), i);
      if Index(word[n]) != i {
        MaskBitIsLetter(word[..n], i);
      }
    }
  }

  /** A word fits into another's letters exactly when its mask is a submask. */
  lemma MaskSubset(v: string, w: string)
    requires AllPlain(v) && AllPlain(w)
    ensures Submask(Mask(v), Mask(w)) <==> Letters(v) <= Letters(w)
  {
    SubmaskMeansSubset(Mask(v), Mask(w));
    if Submask(Mask(v), Mask(w)) {
      forall c | c in Letters(v)
        ensures c in Letters(w)
      {
        MaskBits(v, c);
        MaskBits(w, c);
      }
    }
    if Letters(v) <= Letters(w) {
      forall i: nat | Bit(Mask(v), i)
        ensures Bit(Mask(w), i)
      {
        MaskBitIsLetter(v, i);
        var c :| c in Letters(v) && Index(c) == i;
        MaskBits(w, c);
      }
    }
  }

  /** popcount of the mask is the number of distinct letters. */
  lemma {:induction false} MaskPopCount(word: string)
    requires AllPlain(word)
    ensures PopCount(Mask(word)) == |Letters(word)|
  {
    if word != [] {
      var n := |word| - 1;
      var c := word[n];
      LettersSnoc(word);
      assert c in Letters(word);
      MaskPopCount(word[..n]);
      MaskBits(word[..n], c);
      PopCountOr(Mask(word[..n]), Index(c));
    } else {
      assert Letters(word) == {};
    }
  }

  // ---- Alphabetical order ----

  predicate Before(a: string, b: string) {
    b != [] && (a == [] || a[0] < b[0] || (a[0] == b[0] && Before(a[1..], b[1..])))
  }

  lemma {:induction false} BeforeIsTotal(a: string, b: string)
    ensures a == b || Before(a, b) || Before(b, a)
    ensures !(Before(a, b) && Before(b, a)) && !Before(a, a)
  {
    if a != [] && b != [] && a[0] == b[0] {
      BeforeIsTotal(a[1..], b[1..]);
      assert a == [a[0]] + a[1..] && b == [b[0]] + b[1..];
    } else if a != [] {
      BeforeIrreflexive(a);
    }
  }

  lemma {:induction false} BeforeIrreflexive(a: string)
    ensures !Before(a, a)
  {
    if a != [] {
      BeforeIrreflexive(a[1..]);
    }
  }

  lemma {:induction false} BeforeIsTransitive(a: string, b: string, c: string)
    requires Before(a, b) && Before(b, c)
    ensures Before(a, c)
  {
    if a != [] && a[0] == b[0] && b[0] == c[0] {
      BeforeIsTransitive(a[1..], b[1..], c[1..]);
    }
  }

  ghost predicate Ascending(s: seq<string>) {
    forall i, j :: 0 <= i < j < |s| ==> Before(s[i], s[j])
  }

  /** sorted() of a set of words. */
  method Sorted(words: set<string>) returns (s: seq<string>)
    ensures Ascending(s)
    ensures forall w :: w in s <==> w in words
    ensures |s| == |words|
  {
    s := [];
    var rest := words;
    while rest != {}
      invariant rest <= words
      invariant forall w :: w in s <==> w in words && w !in rest
      invariant |s| + |rest| == |words|
      invariant Ascending(s) && (forall i, w :: 0 <= i < |s| && w in rest ==> Before(s[i], w))
      decreases rest
    {
      var least := Least(rest);
      s := s + [least];
      rest := rest - {least};
    }
  }

  method Least(words: set<string>) returns (least: string)
    requires words != {}
    ensures least in words && forall w :: w in words && w != least ==> Before(least, w)
  {
    least :| least in words;
    var rest := words - {least};
    while rest != {}
      invariant rest <= words && least in words && least !in rest
      invariant forall w :: w in words && w !in rest && w != least ==> Before(least, w)
      decreases rest
    {
      var w :| w in rest;
      BeforeIsTotal(w, least);
      rest := rest - {w};
      if Before(w, least) {
        forall v | v in words && v !in rest && v != w && v != least
          ensures Before(w, v)
        {
          BeforeIsTransitive(w, least, v);
        }
        least := w;
      }
    }
  }

  // ---- What the order and the masks mean ----

  /** The words agree on their first k letters, and there a ends or has the smaller letter. */
  ghost predicate DiffersAt(a: string, b: string, k: nat) {
    k <= |a| && k < |b| && a[..k] == b[..k] && (k == |a| || a[k] < b[k])
  }

  /** Alphabetical order is decided at the first difference. */
  lemma {:induction false} BeforeMeans(a: string, b: string)
    ensures Before(a, b) <==> exists k: nat :: DiffersAt(a, b, k)
  {
    if b != [] && a != [] {
      if a[0] == b[0] {
        BeforeMeans(a[1..], b[1..]);
        if k: nat :| DiffersAt(a[1..], b[1..], k) {
          OneLetterMore(a, b, k);
        }
        if k: nat :| DiffersAt(a, b, k) {
          assert k > 0;
          OneLetterMore(a, b, k - 1);
        }
      } else {
        assert Before(a, b) ==> DiffersAt(a, b, 0);
        forall k: nat | DiffersAt(a, b, k)
          ensures k == 0
        {
          if k > 0 {
            SameFirst(a, b, k);
          }
        }
      }
    } else {
      assert b != [] ==> DiffersAt(a, b, 0);
    }
  }

  lemma SameFirst(a: string, b: string, k: nat)
    requires DiffersAt(a, b, k) && k > 0
    ensures a != [] && b != [] && a[0] == b[0]
  {
    assert a[..k][0] == b[..k][0];
  }

  lemma OneLetterMore(a: string, b: string, k: nat)
    requires a != [] && b != [] && a[0] == b[0]
    ensures DiffersAt(a[1..], b[1..], k) <==> DiffersAt(a, b, k + 1)
  {
    if k + 1 <= |a| && k + 1 <= |b| {
      assert a[..k + 1] == [a[0]] + a[1..][..k] && b[..k + 1] == [b[0]] + b[1..][..k];
      assert a[1..][..k] == a[..k + 1][1..] && b[1..][..k] == b[..k + 1][1..];
    }
  }

  /** Of two words of one length the first has the smaller letter at the first difference. */
  lemma BeforeOfOneLength(a: string, b: string) returns (k: nat)
    requires Before(a, b) && |a| == |b|
    ensures k < |a| && a[..k] == b[..k] && a[k] < b[k]
  {
    BeforeMeans(a, b);
    k :| DiffersAt(a, b, k);
  }

  lemma ArchingBeforeChagrin()
    ensures Before("arching", "chagrin") && !Before("chagrin", "arching")
  {
  }

  /** Bit i of a mask stands for the i-th letter of the alphabet: it is set exactly when that
      letter occurs, so the mask of "a" is 1 and each next letter doubles it. */
  lemma MaskBitMeans(word: string, i: nat)
    requires AllPlain(word)
    ensures Bit(Mask(word), i) <==> exists k :: 0 <= k < |word| && word[k] as int == 97 + i
  {
    if Bit(Mask(word), i) {
      MaskBitIsLetter(word, i);
      var c :| c in Letters(word) && Index(c) == i;
      var k :| 0 <= k < |word| && word[k] == c;
    }
    if k :| 0 <= k < |word| && word[k] as int == 97 + i {
      assert word[k] in Letters(word);
      MaskBits(word, word[k]);
    }
  }

  lemma PlainMeans(word: string)
    ensures IsPlain(word) <==> |word| > 0 && forall k :: 0 <= k < |word| ==> word[k] in "abcdefghijklmnopqrstuvwxyz"
  {
    forall c: char
      ensures c in "abcdefghijklmnopqrstuvwxyz" <==> 97 <= c as int <= 122
    {
      Alphabet(c);
    }
  }

  lemma Alphabet(c: char)
    ensures c in "abcdefghijklmnopqrstuvwxyz" <==> 97 <= c as int <= 122
  {
    var letters := "abcdefghijklmnopqrstuvwxyz";
    assert forall k :: 0 <= k < 26 ==> letters[k] as int == 97 + k;
    if 97 <= c as int <= 122 {
      assert letters[c as int - 97] == c;
    }
  }
}
