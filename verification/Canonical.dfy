/**
 Canonical Huffman codes (section 3.2.2 of RFC 1951), given by the list of code
 lengths: symbol i has a code of sl[i] bits, or no code when sl[i] is 0.
 Codes are numbers with the first bit of the stream most significant.
 */
module Canonical {
  import opened Binary

  predicate Lengths(sl: seq<nat>) {
    |sl| <= 288 && forall i :: 0 <= i < |sl| ==> sl[i] <= 15
  }

  /** How many of the first n symbols have code length s. */
  function Rank(sl: seq<nat>, n: nat, s: nat): (r: nat)
    requires n <= |sl|
    ensures r <= n
  {
    if n == 0 then 0 else Rank(sl, n - 1, s) + if sl[n - 1] == s then 1 else 0
  }

  function Count(sl: seq<nat>, s: nat): nat {
    Rank(sl, |sl|, s)
  }

  /** The smallest code of length s: step 2 of the algorithm of section 3.2.2. */
  function FirstCode(sl: seq<nat>, s: nat): nat {
    if s <= 1 then 0 else 2 * (FirstCode(sl, s - 1) + Count(sl, s - 1))
  }

  function EndCode(sl: seq<nat>, s: nat): nat {
    FirstCode(sl, s) + Count(sl, s)
  }

  /** The code of symbol i: step 3 of the algorithm of section 3.2.2. */
  function Code(sl: seq<nat>, i: nat): nat
    requires i < |sl|
  {
    FirstCode(sl, sl[i]) + Rank(sl, i, sl[i])
  }

  /** How many symbols have a code shorter than s. */
  function FirstSymbol(sl: seq<nat>, s: nat): nat {
    if s <= 1 then 0 else FirstSymbol(sl, s - 1) + Count(sl, s - 1)
  }

  /** Position of symbol i when the coded symbols are sorted by code. */
  function Slot(sl: seq<nat>, i: nat): nat
    requires i < |sl|
  {
    FirstSymbol(sl, sl[i]) + Rank(sl, i, sl[i])
  }

  /** No code length asks for more codes than remain. */
  ghost predicate NotOversubscribed(sl: seq<nat>) {
    forall s {:trigger EndCode(sl, s)} :: 1 <= s <= 15 ==> EndCode(sl, s) <= Pow2(s)
  }

  /** The code of symbol i is a prefix of the 16-bit window k. */
  predicate Match(sl: seq<nat>, i: nat, k: nat)
    requires Lengths(sl)
  {
    i < |sl| && 0 < sl[i] && Shr(k, 16 - sl[i]) == Code(sl, i)
  }

  lemma {:induction false} RankStrict(sl: seq<nat>, i: nat, j: nat)
    requires i < j <= |sl|
    ensures Rank(sl, i, sl[i]) < Rank(sl, j, sl[i])
  {
    if i + 1 < j {
      RankStrict(sl, i, j - 1);
    }
  }

  /** Some symbol of length s has each rank below the count. */
  lemma {:induction false} SymbolOfRank(sl: seq<nat>, n: nat, s: nat, r: nat) returns (i: nat)
    requires n <= |sl| && r < Rank(sl, n, s)
    ensures i < n && sl[i] == s && Rank(sl, i, s) == r
  {
    if sl[n - 1] == s && Rank(sl, n - 1, s) == r {
      i := n - 1;
    } else {
      i := SymbolOfRank(sl, n - 1, s, r);
    }
  }

  lemma {:induction false} EndCodeScaled(sl: seq<nat>, s: nat, t: nat)
    requires 1 <= s < t
    ensures Shl(EndCode(sl, s), t - s) <= FirstCode(sl, t)
  {
    if s + 1 < t {
      EndCodeScaled(sl, s, t - 1);
    } else {
      assert Shl(EndCode(sl, s), 1) == 2 * EndCode(sl, s);
    }
  }

  lemma ScaleTo16(e: nat, f: nat, s: nat, t: nat)
    requires s <= t <= 16
    requires Shl(e, t - s) <= f
    ensures Shl(e, 16 - s) <= Shl(f, 16 - t)
  {
    ShlShl(e, t - s, 16 - t);
    assert (t - s) + (16 - t) == 16 - s;
    ShlMonotone(Shl(e, t - s), f, 16 - t);
  }

  /**
   The intervals of 16-bit windows that start with the codes lie in the order of
   the codes: shorter codes first, equal lengths in symbol order.
   */
  lemma CodeOrder(sl: seq<nat>, i: nat, j: nat)
    requires Lengths(sl) && i < |sl| && j < |sl|
    requires 0 < sl[i] < sl[j] || (0 < sl[i] == sl[j] && i < j)
    ensures Shl(Code(sl, i) + 1, 16 - sl[i]) <= Shl(Code(sl, j), 16 - sl[j])
  {
    if sl[i] == sl[j] {
      RankStrict(sl, i, j);
      ShlMonotone(Code(sl, i) + 1, Code(sl, j), 16 - sl[i]);
    } else {
      RankStrict(sl, i, |sl|);
      EndCodeScaled(sl, sl[i], sl[j]);
      ScaleTo16(EndCode(sl, sl[i]), FirstCode(sl, sl[j]), sl[i], sl[j]);
      ShlMonotone(Code(sl, i) + 1, EndCode(sl, sl[i]), 16 - sl[i]);
      ShlMonotone(FirstCode(sl, sl[j]), Code(sl, j), 16 - sl[j]);
    }
  }

  lemma MatchInterval(sl: seq<nat>, i: nat, k: nat)
    requires Lengths(sl) && i < |sl| && 0 < sl[i]
    ensures Match(sl, i, k) <==> Shl(Code(sl, i), 16 - sl[i]) <= k < Shl(Code(sl, i) + 1, 16 - sl[i])
  {
    ShrBound(k, 16 - sl[i], Code(sl, i));
    ShrBound(k, 16 - sl[i], Code(sl, i) + 1);
  }

  /** The code is prefix free: at most one symbol matches a window. */
  lemma PrefixFree(sl: seq<nat>, i: nat, j: nat, k: nat)
    requires Lengths(sl) && Match(sl, i, k) && Match(sl, j, k)
    ensures i == j
  {
    MatchInterval(sl, i, k);
    MatchInterval(sl, j, k);
    if sl[i] < sl[j] || (sl[i] == sl[j] && i < j) {
      CodeOrder(sl, i, j);
    } else if i != j {
      CodeOrder(sl, j, i);
    }
  }

  /** A window below the last code of length s starts with a code of at most s bits. */
  lemma {:induction false} MatchBelow(sl: seq<nat>, s: nat, k: nat) returns (i: nat)
    requires Lengths(sl) && 1 <= s <= 15
    requires k < Shl(EndCode(sl, s), 16 - s)
    ensures Match(sl, i, k) && sl[i] <= s
  {
    LowerEnd(sl, s);
    if Shl(FirstCode(sl, s), 16 - s) <= k {
      i := MatchAtLength(sl, s, k);
    } else {
      i := MatchBelow(sl, s - 1, k);
    }
  }

  /** The codes of length s start where the codes of length s - 1 end. */
  lemma LowerEnd(sl: seq<nat>, s: nat)
    requires 1 <= s <= 16
    ensures s == 1 ==> Shl(FirstCode(sl, s), 16 - s) == 0
    ensures s > 1 ==> Shl(FirstCode(sl, s), 16 - s) == Shl(EndCode(sl, s - 1), 16 - (s - 1))
  {
    if s > 1 {
      ShlDouble(EndCode(sl, s - 1), 16 - s);
    } else {
      ShlZero(16 - s);
    }
  }

  /** Between the first and the last code of length s, the window starts with such a code. */
  lemma MatchAtLength(sl: seq<nat>, s: nat, k: nat) returns (i: nat)
    requires Lengths(sl) && 1 <= s <= 15
    requires Shl(FirstCode(sl, s), 16 - s) <= k < Shl(EndCode(sl, s), 16 - s)
    ensures Match(sl, i, k) && sl[i] == s
    ensures Slot(sl, i) == Shr(k, 16 - s) - FirstCode(sl, s) + FirstSymbol(sl, s)
  {
    ShrBound(k, 16 - s, FirstCode(sl, s));
    ShrBound(k, 16 - s, EndCode(sl, s));
    i := SymbolOfRank(sl, |sl|, s, Shr(k, 16 - s) - FirstCode(sl, s));
  }

  /** A window that starts with a code of length t is below the last code of every s >= t. */
  lemma MatchIsBelow(sl: seq<nat>, i: nat, k: nat, s: nat)
    requires Lengths(sl) && Match(sl, i, k) && sl[i] <= s <= 15
    ensures k < Shl(EndCode(sl, s), 16 - s)
  {
    var t := sl[i];
    MatchInterval(sl, i, k);
    RankStrict(sl, i, |sl|);
    ShlMonotone(Code(sl, i) + 1, EndCode(sl, t), 16 - t);
    if t < s {
      EndCodeScaled(sl, t, s);
      ScaleTo16(EndCode(sl, t), FirstCode(sl, s), t, s);
      ShlMonotone(FirstCode(sl, s), EndCode(sl, s), 16 - s);
    }
  }

  lemma {:induction false} FirstSymbolMonotone(sl: seq<nat>, s: nat, t: nat)
    requires 1 <= s < t
    ensures FirstSymbol(sl, s) + Count(sl, s) <= FirstSymbol(sl, t)
  {
    if s + 1 < t {
      FirstSymbolMonotone(sl, s, t - 1);
    }
  }

  /** Different coded symbols have different slots. */
  lemma SlotInjective(sl: seq<nat>, i: nat, j: nat)
    requires i < |sl| && j < |sl| && i != j && 0 < sl[i] && 0 < sl[j]
    ensures Slot(sl, i) != Slot(sl, j)
  {
    RankStrict(sl, i, |sl|);
    RankStrict(sl, j, |sl|);
    if sl[i] < sl[j] {
      FirstSymbolMonotone(sl, sl[i], sl[j]);
    } else if sl[j] < sl[i] {
      FirstSymbolMonotone(sl, sl[j], sl[i]);
    } else if i < j {
      RankStrict(sl, i, j);
    } else {
      RankStrict(sl, j, i);
    }
  }

  /** How many of the first n symbols have a code shorter than s. */
  function RankBelow(sl: seq<nat>, n: nat, s: nat): (r: nat)
    requires n <= |sl|
    ensures r <= n
  {
    if n == 0 then 0 else RankBelow(sl, n - 1, s) + if 0 < sl[n - 1] < s then 1 else 0
  }

  lemma {:induction false} RankBelowStep(sl: seq<nat>, n: nat, s: nat)
    requires n <= |sl| && 1 <= s
    ensures RankBelow(sl, n, s + 1) == RankBelow(sl, n, s) + Rank(sl, n, s)
  {
    if n > 0 {
      RankBelowStep(sl, n - 1, s);
    }
  }

  lemma {:induction false} RankBelowOne(sl: seq<nat>, n: nat)
    requires n <= |sl|
    ensures RankBelow(sl, n, 1) == 0
  {
    if n > 0 {
      RankBelowOne(sl, n - 1);
    }
  }

  lemma {:induction false} FirstSymbolCounts(sl: seq<nat>, s: nat)
    requires 1 <= s
    ensures FirstSymbol(sl, s) == RankBelow(sl, |sl|, s)
  {
    if s == 1 {
      RankBelowOne(sl, |sl|);
    } else {
      FirstSymbolCounts(sl, s - 1);
      RankBelowStep(sl, |sl|, s - 1);
    }
  }

  /** Every slot is below the number of symbols. */
  lemma SlotBound(sl: seq<nat>, i: nat)
    requires i < |sl| && 0 < sl[i]
    ensures Slot(sl, i) < |sl|
  {
    RankStrict(sl, i, |sl|);
    FirstSymbolCounts(sl, sl[i] + 1);
  }

  /** Left-hand side of the Kraft inequality, in units of 2^-15. */
  function KraftSum(sl: seq<nat>, n: nat): nat
    requires n <= |sl|
  {
    if n == 0 then 0
    else KraftSum(sl, n - 1) + if 1 <= sl[n - 1] <= 15 then Pow2(15 - sl[n - 1]) else 0
  }

  function WeightUpTo(sl: seq<nat>, n: nat, t: nat): nat
    requires n <= |sl| && t <= 15
  {
    if t == 0 then 0 else WeightUpTo(sl, n, t - 1) + Shl(Rank(sl, n, t), 15 - t)
  }

  lemma {:induction false} WeightStep(sl: seq<nat>, n: nat, t: nat)
    requires 0 < n <= |sl| && t <= 15
    ensures WeightUpTo(sl, n, t) ==
            WeightUpTo(sl, n - 1, t) + if 1 <= sl[n - 1] <= t then Pow2(15 - sl[n - 1]) else 0
  {
    if t > 0 {
      WeightStep(sl, n, t - 1);
      ShlAdd(Rank(sl, n - 1, t), 1, 15 - t);
      Pow2IsShl(15 - t);
    }
  }

  lemma {:induction false} WeightZero(sl: seq<nat>, t: nat)
    requires t <= 15
    ensures WeightUpTo(sl, 0, t) == 0
  {
    if t > 0 {
      WeightZero(sl, t - 1);
      ShlZero(15 - t);
    }
  }

  lemma {:induction false} KraftIsWeight(sl: seq<nat>, n: nat)
    requires n <= |sl|
    ensures KraftSum(sl, n) == WeightUpTo(sl, n, 15)
  {
    if n == 0 {
      WeightZero(sl, 15);
    } else {
      KraftIsWeight(sl, n - 1);
      WeightStep(sl, n, 15);
    }
  }

  lemma {:induction false} EndCodeIsWeight(sl: seq<nat>, t: nat)
    requires 1 <= t <= 15
    ensures Shl(EndCode(sl, t), 15 - t) == WeightUpTo(sl, |sl|, t)
  {
    ShlAdd(FirstCode(sl, t), Count(sl, t), 15 - t);
    if t == 1 {
      assert WeightUpTo(sl, |sl|, 0) == 0;
      ShlZero(14);
    } else {
      EndCodeIsWeight(sl, t - 1);
      ShlDouble(EndCode(sl, t - 1), 15 - t);
    }
  }

  lemma {:induction false} WeightMonotone(sl: seq<nat>, t: nat)
    requires t <= 15
    ensures WeightUpTo(sl, |sl|, t) <= WeightUpTo(sl, |sl|, 15)
    decreases 15 - t
  {
    if t < 15 {
      WeightMonotone(sl, t + 1);
    }
  }

  /** The per-length test is the Kraft inequality: the lengths admit a prefix code. */
  lemma KraftInequality(sl: seq<nat>)
    requires Lengths(sl)
    ensures NotOversubscribed(sl) <==> KraftSum(sl, |sl|) <= Pow2(15)
  {
    KraftIsWeight(sl, |sl|);
    forall t | 1 <= t <= 15
      ensures EndCode(sl, t) <= Pow2(t) <==> WeightUpTo(sl, |sl|, t) <= Pow2(15)
      ensures WeightUpTo(sl, |sl|, t) <= WeightUpTo(sl, |sl|, 15)
    {
      KraftAt(sl, t);
      WeightMonotone(sl, t);
    }
    assert EndCode(sl, 15) <= Pow2(15) <==> WeightUpTo(sl, |sl|, 15) <= Pow2(15);
  }

  lemma KraftAt(sl: seq<nat>, t: nat)
    requires 1 <= t <= 15
    ensures EndCode(sl, t) <= Pow2(t) <==> WeightUpTo(sl, |sl|, t) <= Pow2(15)
  {
    hide EndCode, WeightUpTo, Pow2, Shl;
    EndCodeIsWeight(sl, t);
    Pow2IsShl(t);
    Pow2IsShl(15);
    ShlShl(1, t, 15 - t);
    ShlCompare(EndCode(sl, t), Pow2(t), 15 - t);
  }

  lemma {:induction false} ShlCompare(a: nat, b: nat, n: nat)
    ensures a <= b <==> Shl(a, n) <= Shl(b, n)
  {
    if n > 0 {
      ShlCompare(a, b, n - 1);
    }
  }
}
