/**
  The 7-bag randomizer's combinatorics: a full bag holds each kind once, the
  bag is drawn from its end, and a sequence dealt from whole bags one after
  another never lets two occurrences of a kind drift more than 12 draws apart.
 */
module Bags {
  import opened Pieces

  /** One full bag: seven draws among which every kind occurs. */
  predicate IsFullBag(b: seq<Kind>) {
    |b| == 7 && forall k: Kind :: k in b
  }

  predicate NoDuplicates(s: seq<Kind>) {
    forall i, j :: 0 <= i < j < |s| ==> s[i] != s[j]
  }

  /** `s` read from its end: the order in which popping from the end draws it. */
  function Reversed(s: seq<Kind>): (r: seq<Kind>)
    decreases |s|
    ensures |r| == |s|
  {
    if s == [] then [] else [s[|s| - 1]] + Reversed(s[..|s| - 1])
  }

  /** Position `i` of the reversal holds the element `i` places from the end. */
  lemma {:induction false} ReversedAt(s: seq<Kind>, i: nat)
    requires i < |s|
    decreases |s|
    ensures Reversed(s)[i] == s[|s| - 1 - i]
  {
    if i > 0 {
      ReversedAt(s[..|s| - 1], i - 1);
    }
  }

  lemma {:induction false} ReversedKeepsMultiset(s: seq<Kind>)
    decreases |s|
    ensures multiset(Reversed(s)) == multiset(s)
  {
    if s != [] {
      ReversedKeepsMultiset(s[..|s| - 1]);
      assert s == s[..|s| - 1] + [s[|s| - 1]];
    }
  }

  /** The seven kinds in declaration order form a full bag. */
  lemma AllKindsIsFullBag()
    ensures IsFullBag(AllKinds)
  {
    forall k: Kind
      ensures k in AllKinds
    {
      OnceEach(k);
    }
  }

  lemma OnceEach(k: Kind)
    ensures multiset(AllKinds)[k] == 1
  {
    match k
    case I => case O => case T => case S => case Z => case J => case L =>
  }

  /** A full bag is exactly a permutation of the seven kinds. */
  lemma FullBagIsPermutation(b: seq<Kind>)
    ensures IsFullBag(b) <==> multiset(b) == multiset(AllKinds)
  {
    var m, all := multiset(b), multiset(AllKinds);
    if IsFullBag(b) {
      forall k: Kind
        ensures all[k] <= m[k]
      {
        OnceEach(k);
        assert k in b;
      }
      assert all <= m;
      var rest := m - all;
      assert |rest| == 0;
      assert m == all + rest;
    }
    if m == all {
      assert |b| == |m|;
      forall k: Kind
        ensures k in b
      {
        OnceEach(k);
        assert k in m;
      }
    }
  }

  /** A full bag holds every kind exactly once. */
  lemma FullBagCounts(b: seq<Kind>)
    requires IsFullBag(b)
    ensures forall k :: multiset(b)[k] == 1
  {
    FullBagIsPermutation(b);
    forall k
      ensures multiset(b)[k] == 1
    {
      OnceEach(k);
    }
  }

  /** A kind found at two positions is counted at least twice. */
  lemma CountedTwice(s: seq<Kind>, i: nat, j: nat)
    requires i < j < |s| && s[i] == s[j]
    ensures multiset(s)[s[i]] >= 2
  {
    assert s == s[..j] + [s[j]] + s[j + 1..];
    assert s[..j][i] == s[i];
    assert s[i] in multiset(s[..j]);
  }

  /** A bag never holds the same kind twice. */
  lemma FullBagHasNoDuplicates(b: seq<Kind>)
    requires IsFullBag(b)
    ensures NoDuplicates(b)
  {
    FullBagCounts(b);
    forall i, j | 0 <= i < j < |b|
      ensures b[i] != b[j]
    {
      if b[i] == b[j] {
        CountedTwice(b, i, j);
      }
    }
  }

  /** The position of kind `k` in a full bag. */
  lemma IndexIn(b: seq<Kind>, k: Kind) returns (m: nat)
    requires IsFullBag(b)
    ensures m < |b| == 7 && b[m] == k
  {
    assert k in b;
    m :| 0 <= m < |b| && b[m] == k;
  }

  /** The `b`-th group of seven in `s`. */
  function Block(s: seq<Kind>, b: nat): seq<Kind>
    requires 7 * b + 7 <= |s|
  {
    s[7 * b..7 * b + 7]
  }

  /** A sequence dealt from whole bags, one bag after another. */
  ghost predicate IsBagSequence(s: seq<Kind>) {
    forall b: nat :: 7 * b < |s| ==> 7 * b + 7 <= |s| && IsFullBag(Block(s, b))
  }

  /** A bag sequence ends on a bag boundary. */
  lemma BagSequenceLength(s: seq<Kind>) returns (n: nat)
    requires IsBagSequence(s)
    ensures |s| == 7 * n
  {
    if |s| == 0 {
      n := 0;
    } else {
      var b: nat := (|s| - 1) / 7;
      assert 7 * b < |s|;
      n := b + 1;
    }
  }

  /** Dealing one more whole bag extends a bag sequence. */
  lemma AppendBag(s: seq<Kind>, b: seq<Kind>)
    requires IsBagSequence(s) && IsFullBag(b)
    ensures IsBagSequence(s + b)
  {
    var n := BagSequenceLength(s);
    forall x: nat | 7 * x < |s + b|
      ensures 7 * x + 7 <= |s + b| && IsFullBag(Block(s + b, x))
    {
      if x < n {
        assert Block(s + b, x) == Block(s, x);
      } else {
        assert Block(s + b, x) == b;
      }
    }
  }

  /** Popping the last element of the bag moves it from the bag's future to the drawn past. */
  lemma PopKeepsDealt(drawn: seq<Kind>, bag: seq<Kind>)
    requires Dealt(drawn, bag) && bag != []
    ensures Dealt(drawn + [bag[|bag| - 1]], bag[..|bag| - 1])
    ensures Dealing(drawn + [bag[|bag| - 1]], bag[..|bag| - 1]) == Dealing(drawn, bag)
  {
    assert (drawn + [bag[|bag| - 1]]) + Reversed(bag[..|bag| - 1]) == drawn + Reversed(bag);
  }

  /** A refill after a run of whole bags leaves a duplicate-free bag whose reversal is one more whole bag. */
  lemma RefillKeepsDealt(drawn: seq<Kind>, bag: seq<Kind>)
    requires IsBagSequence(drawn) && IsFullBag(bag)
    ensures |bag| == 7 && Dealt(drawn, bag)
  {
    ReversedKeepsMultiset(bag);
    FullBagIsPermutation(bag);
    FullBagIsPermutation(Reversed(bag));
    AppendBag(drawn, Reversed(bag));
  }

  /** What has been drawn, followed by what the bag will still yield, in draw order. */
  function Dealing(drawn: seq<Kind>, bag: seq<Kind>): seq<Kind> {
    drawn + Reversed(bag)
  }

  /**
    When the randomizer's dealing only grows, every draw made in between is
    the kind that stood at the end of the old bag, taken in pop order: the
    `m`-th draw past the old history is the bag's element `m` places from its end.
   */
  lemma DrawsPopBagEnd(d0: seq<Kind>, b0: seq<Kind>, d1: seq<Kind>, b1: seq<Kind>, m: nat)
    requires Dealing(d0, b0) <= Dealing(d1, b1)
    requires |d0| <= m < |d1| && m - |d0| < |b0|
    ensures d1[m] == b0[|b0| - 1 - (m - |d0|)]
  {
    ReversedAt(b0, m - |d0|);
    assert Dealing(d1, b1)[m] == d1[m];
    assert Dealing(d0, b0)[m] == Reversed(b0)[m - |d0|];
  }

  /**
    The state of the randomizer is sound: the bag holds at most one bag's
    worth, and the kinds drawn so far followed by what the bag will still
    yield (it is drawn from its end) form a run of whole bags.
   */
  ghost predicate Dealt(drawn: seq<Kind>, bag: seq<Kind>) {
    |bag| <= 7 && IsBagSequence(Dealing(drawn, bag))
  }

  /** What is left in the bag is the tail of the last whole bag, so it holds no kind twice. */
  lemma DealtBagHasNoDuplicates(drawn: seq<Kind>, bag: seq<Kind>)
    requires Dealt(drawn, bag)
    ensures NoDuplicates(bag)
  {
    if bag != [] {
      var s := drawn + Reversed(bag);
      var n := BagSequenceLength(s);
      FullBagHasNoDuplicates(Block(s, n - 1));
      TailOfLastBlock(drawn, bag, n);
    }
  }

  /** A bag that, reversed, ends a duplicate-free last block holds no kind twice. */
  lemma TailOfLastBlock(drawn: seq<Kind>, bag: seq<Kind>, n: nat)
    requires |drawn + Reversed(bag)| == 7 * n && 1 <= n && |bag| <= 7
    requires NoDuplicates(Block(drawn + Reversed(bag), n - 1))
    ensures NoDuplicates(bag)
  {
    forall i, j | 0 <= i < j < |bag|
      ensures bag[i] != bag[j]
    {
      BagIsLastBlockTail(drawn, bag, n, i);
      BagIsLastBlockTail(drawn, bag, n, j);
    }
  }

  /** The bag, read from its end, is the tail of the last block of what has been dealt. */
  lemma BagIsLastBlockTail(drawn: seq<Kind>, bag: seq<Kind>, n: nat, i: nat)
    requires |drawn + Reversed(bag)| == 7 * n && |bag| <= 7 && i < |bag|
    ensures n >= 1 && bag[i] == Block(drawn + Reversed(bag), n - 1)[6 - i]
  {
    ReversedAt(bag, |bag| - 1 - i);
  }

  /** Every whole bag of a bag sequence holds every kind. */
  lemma FindInBlock(s: seq<Kind>, b: nat, k: Kind) returns (m: nat)
    requires IsBagSequence(s) && 7 * b + 7 <= |s|
    ensures m < 7 && s[7 * b + m] == k
  {
    m := IndexIn(Block(s, b), k);
  }

  /**
    7-bag fairness: in a sequence dealt from whole bags, two consecutive
    occurrences of the same kind are separated by at most 12 other draws.
    Were they further apart, a whole bag would lie strictly between them, and
    that bag holds the kind too.
   */
  lemma FairGap(s: seq<Kind>, i: nat, j: nat)
    requires IsBagSequence(s)
    requires i < j < |s| && s[i] == s[j]
    requires forall m :: i < m < j ==> s[m] != s[i]
    ensures j - i - 1 <= 12
  {
    if j - i > 13 {
      var q := i / 7;
      assert 7 * q <= i < 7 * q + 7;
      var b := q + 1;
      var m := FindInBlock(s, b, s[i]);
    }
  }

  /**
    Fairness carries over to any prefix of what the randomizer has dealt, such
    as the kinds spawned so far.
   */
  lemma FairPrefixGap(drawn: seq<Kind>, bag: seq<Kind>, p: seq<Kind>, i: nat, j: nat)
    requires Dealt(drawn, bag) && p <= drawn
    requires i < j < |p| && p[i] == p[j]
    requires forall m :: i < m < j ==> p[m] != p[i]
    ensures j - i - 1 <= 12
  {
    var dealt := drawn + Reversed(bag);
    assert forall m :: 0 <= m < |p| ==> dealt[m] == p[m];
    FairGap(dealt, i, j);
  }
}
