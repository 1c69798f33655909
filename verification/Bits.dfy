/** Bit masks as the unbounded integers they are in the source, and the enumeration of the
    subsets of a mask. */
module Bits {
  import opened Basics

  function Bit(m: nat, i: nat): bool {
    if i == 0 then m % 2 == 1 else Bit(m / 2, i - 1)
  }

  function And(a: nat, b: nat): nat {
    if a == 0 || b == 0 then 0
    else 2 * And(a / 2, b / 2) + (if a % 2 == 1 && b % 2 == 1 then 1 else 0)
  }

  function Or(a: nat, b: nat): nat
    decreases a + b
  {
    if a == 0 then b else if b == 0 then a
    else 2 * Or(a / 2, b / 2) + (if a % 2 == 1 || b % 2 == 1 then 1 else 0)
  }

  /** 1 << i */
  function Pow2(i: nat): (r: nat)
    ensures r > 0
  {
    if i == 0 then 1 else 2 * Pow2(i - 1)
  }

  /** bin(m).count("1") */
  function PopCount(m: nat): nat {
    if m == 0 then 0 else m % 2 + PopCount(m / 2)
  }

  predicate Submask(sub: nat, mask: nat) {
    And(sub, mask) == sub
  }

  lemma {:induction false} ZeroHasNoBits(i: nat)
    ensures !Bit(0, i)
  {
    if i > 0 { ZeroHasNoBits(i - 1); }
  }

  lemma {:induction false} AndBit(a: nat, b: nat, i: nat)
    ensures Bit(And(a, b), i) <==> Bit(a, i) && Bit(b, i)
  {
    if a == 0 || b == 0 {
      ZeroHasNoBits(i);
    } else if i > 0 {
      AndBit(a / 2, b / 2, i - 1);
    }
  }

  lemma {:induction false} OrBit(a: nat, b: nat, i: nat)
    ensures Bit(Or(a, b), i) <==> Bit(a, i) || Bit(b, i)
    decreases i
  {
    if a == 0 || b == 0 {
      ZeroHasNoBits(i);
    } else if i > 0 {
      OrBit(a / 2, b / 2, i - 1);
    }
  }

  lemma {:induction false} Pow2Bit(i: nat, j: nat)
    ensures Bit(Pow2(i), j) <==> i == j
  {
    if i == 0 {
      if j > 0 { ZeroHasNoBits(j - 1); }
    } else if j > 0 {
      Pow2Bit(i - 1, j - 1);
    }
  }

  lemma {:induction false} SameBits(a: nat, b: nat)
    requires forall i: nat :: Bit(a, i) <==> Bit(b, i)
    ensures a == b
    decreases a + b
  {
    assert Bit(a, 0) <==> Bit(b, 0);
    if a > 0 || b > 0 {
      forall i: nat
        ensures Bit(a / 2, i) <==> Bit(b / 2, i)
      {
        assert Bit(a, i + 1) <==> Bit(b, i + 1);
      }
      SameBits(a / 2, b / 2);
    }
  }

  ghost predicate BitsWithin(sub: nat, mask: nat) {
    forall i: nat :: Bit(sub, i) ==> Bit(mask, i)
  }

  /** A submask has a subset of the bits. */
  lemma SubmaskMeansSubset(sub: nat, mask: nat)
    ensures Submask(sub, mask) <==> BitsWithin(sub, mask)
  {
    if Submask(sub, mask) {
      forall i: nat | Bit(sub, i)
        ensures Bit(mask, i)
      {
        AndBit(sub, mask, i);
      }
    }
    if BitsWithin(sub, mask) {
      forall i: nat
        ensures Bit(And(sub, mask), i) <==> Bit(sub, i)
      {
        AndBit(sub, mask, i);
      }
      SameBits(And(sub, mask), sub);
    }
  }

  lemma SetLowBit(m: nat)
    ensures PopCount(Or(m, 1)) == PopCount(m) + if m % 2 == 1 then 0 else 1
  {
    if m > 0 {
      assert Or(m / 2, 0) == m / 2;
      var r := Or(m, 1);
      assert r / 2 == m / 2 && r % 2 == 1;
    }
  }

  lemma {:induction false} PopCountOr(m: nat, i: nat)
    ensures PopCount(Or(m, Pow2(i))) == PopCount(m) + if Bit(m, i) then 0 else 1
  {
    if m == 0 {
      ZeroHasNoBits(i);
      if i > 0 {
        PopCountOr(0, i - 1);
        ZeroHasNoBits(i - 1);
      }
    } else if i == 0 {
      SetLowBit(m);
    } else {
      PopCountOr(m / 2, i - 1);
      var r := Or(m, Pow2(i));
      assert r / 2 == Or(m / 2, Pow2(i - 1)) && r % 2 == m % 2;
    }
  }

  lemma AndHalves(a: nat, b: nat)
    ensures And(a, b) / 2 == And(a / 2, b / 2)
    ensures And(a, b) % 2 == if a % 2 == 1 && b % 2 == 1 then 1 else 0
  {
  }

  lemma SubmaskHalves(sub: nat, mask: nat)
    ensures Submask(sub, mask) <==> Submask(sub / 2, mask / 2) && (sub % 2 == 1 ==> mask % 2 == 1)
  {
    AndHalves(sub, mask);
  }

  /** The step of the enumeration: (sub - 1) & mask is the greatest submask below sub. */
  lemma {:induction false} PreviousSubmask(sub: nat, mask: nat, x: nat)
    requires sub > 0 && Submask(sub, mask)
    ensures Submask(And(sub - 1, mask), mask) && And(sub - 1, mask) < sub
    ensures Submask(x, mask) && x < sub ==> x <= And(sub - 1, mask)
    decreases sub
  {
    SubmaskHalves(sub, mask);
    SubmaskHalves(x, mask);
    AndHalves(sub - 1, mask);
    SubmaskHalves(And(sub - 1, mask), mask);
    if sub % 2 == 1 {
      assert (sub - 1) / 2 == sub / 2;
      assert Submask(sub / 2, mask / 2);
    } else {
      assert (sub - 1) / 2 == sub / 2 - 1;
      PreviousSubmask(sub / 2, mask / 2, x / 2);
    }
  }

  // ---- How many there are ----

  predicate Descending(s: seq<nat>) {
    forall i, j :: 0 <= i < j < |s| ==> s[i] > s[j]
  }

  /** The submasks of 2 * m + c from those of m, keeping the order. */
  function Doubled(s: seq<nat>, c: bool): seq<nat> {
    if s == [] then []
    else if c then [2 * s[0] + 1, 2 * s[0]] + Doubled(s[1..], c)
    else [2 * s[0]] + Doubled(s[1..], c)
  }

  function SubmaskList(mask: nat): seq<nat> {
    if mask == 0 then [0] else Doubled(SubmaskList(mask / 2), mask % 2 == 1)
  }

  lemma {:induction false} DoubledElements(s: seq<nat>, c: bool, x: nat)
    ensures |Doubled(s, c)| == if c then 2 * |s| else |s|
    ensures x in Doubled(s, c) <==> x / 2 in s && (x % 2 == 1 ==> c)
  {
    if s != [] {
      DoubledElements(s[1..], c, x);
      assert x / 2 in s <==> x / 2 == s[0] || x / 2 in s[1..];
    }
  }

  lemma {:induction false} DoubledDescending(s: seq<nat>, c: bool)
    requires Descending(s)
    ensures Descending(Doubled(s, c))
  {
    if s != [] {
      DoubledDescending(s[1..], c);
      var rest := Doubled(s[1..], c);
      forall i | 0 <= i < |rest|
        ensures rest[i] < 2 * s[0]
      {
        DoubledElements(s[1..], c, rest[i]);
        assert rest[i] in rest;
      }
    }
  }

  lemma {:induction false} SubmaskListFacts(mask: nat)
    ensures Descending(SubmaskList(mask))
    ensures |SubmaskList(mask)| == Pow2(PopCount(mask))
    ensures forall x: nat :: x in SubmaskList(mask) <==> Submask(x, mask)
  {
    if mask > 0 {
      var half, c := SubmaskList(mask / 2), mask % 2 == 1;
      SubmaskListFacts(mask / 2);
      DoubledDescending(half, c);
      DoubledElements(half, c, 0);
      assert PopCount(mask) == mask % 2 + PopCount(mask / 2);
      assert c ==> Pow2(PopCount(mask)) == 2 * Pow2(PopCount(mask) - 1);
      forall x: nat
        ensures x in SubmaskList(mask) <==> Submask(x, mask)
      {
        DoubledElements(half, c, x);
        SubmaskHalves(x, mask);
      }
    }
  }

  lemma {:induction false} DescendingSame(s: seq<nat>, t: seq<nat>)
    requires Descending(s) && Descending(t)
    requires forall x: nat :: x in s <==> x in t
    ensures s == t
  {
    assert s != [] ==> s[0] in t;
    assert t != [] ==> t[0] in s;
    if s != [] {
      assert s[0] == t[0];
      forall x: nat
        ensures x in s[1..] <==> x in t[1..]
      {
        assert x in s <==> x == s[0] || x in s[1..];
        assert x in t <==> x == t[0] || x in t[1..];
      }
      DescendingSame(s[1..], t[1..]);
    }
  }

  /** _submasks: every subset of the mask exactly once, largest first, 2^popcount of them. */
  method Submasks(mask: nat) returns (subs: seq<nat>)
    ensures Descending(subs)
    ensures forall x: nat :: x in subs <==> Submask(x, mask)
    ensures |subs| == Pow2(PopCount(mask))
    ensures subs[0] == mask && subs[|subs| - 1] == 0
  {
    subs := [];
    var sub: nat := mask;
    assert Submask(mask, mask) by { SubmaskMeansSubset(mask, mask); }
    while true
      invariant Submask(sub, mask) && sub <= mask
      invariant Descending(subs) && (forall i :: 0 <= i < |subs| ==> subs[i] > sub)
      invariant subs == [] ==> sub == mask
      invariant subs != [] ==> subs[0] == mask
      invariant forall x: nat :: x in subs <==> Submask(x, mask) && x > sub && x <= mask
      decreases sub
    {
      subs := subs + [sub];
      if sub == 0 {
        break;
      }
      var next := And(sub - 1, mask);
      forall x: nat
        ensures Submask(next, mask) && next < sub
        ensures Submask(x, mask) && x < sub ==> x <= next
      {
        PreviousSubmask(sub, mask, x);
      }
      sub := next;
    }
    forall x: nat
      ensures x in subs <==> Submask(x, mask)
    {
      AndAtMost(x, mask);
    }
    SubmaskListFacts(mask);
    DescendingSame(subs, SubmaskList(mask));
  }

  lemma {:induction false} AndAtMost(a: nat, b: nat)
    ensures And(a, b) <= b
  {
    if a > 0 && b > 0 {
      AndAtMost(a / 2, b / 2);
    }
  }

  // ---- What the bits mean, in arithmetic ----

  /** Bit i is the parity of m divided by 2 to the i. */
  lemma {:induction false} BitIsParity(m: nat, i: nat)
    ensures Bit(m, i) <==> m / Pow2(i) % 2 == 1
  {
    if i > 0 {
      BitIsParity(m / 2, i - 1);
      HalveFirst(m, Pow2(i - 1));
    }
  }

  lemma HalveFirst(m: nat, d: nat)
    requires d > 0
    ensures m / 2 / d == m / (2 * d)
  {
    var q := m / (2 * d);
    var r := m % (2 * d);
    assert m == 2 * d * q + r;
    assert m / 2 == d * q + r / 2;
    assert 0 <= r / 2 < d;
    Divides(d, q, r / 2);
  }

  lemma Divides(d: nat, q: nat, r: nat)
    requires d > 0 && r < d
    ensures (d * q + r) / d == q
  {
    var x := d * q + r;
    assert x == d * (x / d) + x % d;
    var y := x / d;
    assert y < q ==> d * y <= d * (q - 1);
    assert y > q ==> d * y >= d * (q + 1);
  }

  /** popcount is the number of set bits. */
  lemma {:induction false} PopCountCounts(m: nat, bits: set<nat>)
    requires forall i: nat :: i in bits <==> Bit(m, i)
    ensures PopCount(m) == |bits|
    decreases m
  {
    if m == 0 {
      forall i: nat
        ensures i !in bits
      {
        ZeroHasNoBits(i);
      }
      assert bits == {};
    } else {
      var half := set i | i in bits && i > 0 :: i - 1;
      forall i: nat
        ensures i in half <==> Bit(m / 2, i)
      {
        assert i in half <==> i + 1 in bits;
      }
      PopCountCounts(m / 2, half);
      ShiftedSize(half, bits, m % 2 == 1);
    }
  }
}
