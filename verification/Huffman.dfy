/**
 The decoding tables of one Huffman code and how they are built from the code lengths.
 */
module Huffman {
  import opened Binary
  import opened Reversal
  import opened BitStream
  import opened Canonical

  const FAST_BITS := 9

  /** The bits at position p start with the code of symbol i. */
  predicate SymbolAt(sl: seq<nat>, data: seq<byte>, p: nat, i: nat) {
    i < |sl| && 0 < sl[i] && CodeAt(data, p, sl[i]) == Code(sl, i)
  }

  lemma SymbolAtIsMatch(sl: seq<nat>, data: seq<byte>, p: nat, i: nat)
    requires Lengths(sl)
    ensures SymbolAt(sl, data, p, i) <==> Match(sl, i, CodeAt(data, p, 16))
  {
    if i < |sl| && 0 < sl[i] {
      CodePrefix(data, p, sl[i], 16 - sl[i]);
      assert sl[i] + (16 - sl[i]) == 16;
    }
  }

  /** At most one symbol can be read at a position. */
  lemma SymbolUnique(sl: seq<nat>, data: seq<byte>, p: nat, i: nat, j: nat)
    requires Lengths(sl) && SymbolAt(sl, data, p, i) && SymbolAt(sl, data, p, j)
    ensures i == j
  {
    SymbolAtIsMatch(sl, data, p, i);
    SymbolAtIsMatch(sl, data, p, j);
    PrefixFree(sl, i, j, CodeAt(data, p, 16));
  }

  lemma CodeFits(sl: seq<nat>, i: nat)
    requires Lengths(sl) && NotOversubscribed(sl) && i < |sl| && 0 < sl[i]
    ensures Code(sl, i) < Pow2(sl[i])
  {
    RankStrict(sl, i, |sl|);
    assert EndCode(sl, sl[i]) <= Pow2(sl[i]);
  }

  /** Symbol i is among the entries of the fast table at index j. */
  predicate FastHit(sl: seq<nat>, i: nat, j: nat)
    requires i < |sl|
  {
    0 < sl[i] <= FAST_BITS && Low(j, sl[i]) == Rev(Code(sl, i), sl[i])
  }

  /** Entry j of the fast table once the first n symbols are entered: length and symbol, or 0. */
  function FastEntry(sl: seq<nat>, n: nat, j: nat): nat
    requires n <= |sl|
  {
    if n == 0 then 0
    else if FastHit(sl, n - 1, j) then 512 * sl[n - 1] + (n - 1)
    else FastEntry(sl, n - 1, j)
  }

  lemma {:induction false} FastEntryHits(sl: seq<nat>, n: nat, j: nat)
    requires n <= |sl| && Lengths(sl)
    ensures var e := FastEntry(sl, n, j);
            && (e == 0 ==> forall i :: 0 <= i < n ==> !FastHit(sl, i, j))
            && (e != 0 ==> e % 512 < n && e / 512 == sl[e % 512] && FastHit(sl, e % 512, j))
  {
    if n > 0 && !FastHit(sl, n - 1, j) {
      FastEntryHits(sl, n - 1, j);
    }
  }

  /** For codes of at most nine bits, the fast index decides whether the code is next in the stream. */
  lemma FastHitIsSymbol(sl: seq<nat>, data: seq<byte>, p: nat, i: nat)
    requires Lengths(sl) && NotOversubscribed(sl) && i < |sl|
    ensures FastHit(sl, i, BitsAt(data, p, 9)) <==> SymbolAt(sl, data, p, i) && sl[i] <= FAST_BITS
  {
    var s := sl[i];
    if 0 < s <= FAST_BITS {
      BitsConsume(data, p, s, 9 - s);
      assert s + (9 - s) == 9;
      RevBits(data, p, s);
      CodeFits(sl, i);
      LowSmall(Code(sl, i), s);
      RevRev(Code(sl, i), s);
      BitsBound(data, p, s);
      LowSmall(BitsAt(data, p, s), s);
      RevRev(BitsAt(data, p, s), s);
    }
  }

  class ZHuffman {
    const fast: array<nat>
    const firstcode: array<nat>
    const maxcode: array<nat>
    const firstsymbol: array<nat>
    const size: array<nat>
    const value: array<nat>
    ghost const Repr: set<object>

    ghost predicate Shape() {
      && Repr == {fast, firstcode, maxcode, firstsymbol, size, value}
      && fast.Length == 512 && firstcode.Length == 16 && maxcode.Length == 17
      && firstsymbol.Length == 16 && size.Length == 288 && value.Length == 288
      && firstcode != firstsymbol && size != value
    }

    constructor ()
      ensures Shape() && fresh(Repr)
    {
      fast := new nat[512](_ => 0);
      firstcode := new nat[16](_ => 0);
      maxcode := new nat[17](_ => 0);
      firstsymbol := new nat[16](_ => 0);
      size := new nat[288](_ => 0);
      value := new nat[288](_ => 0);
      Repr := {fast, firstcode, maxcode, firstsymbol, size, value};
    }

    /** The tables for code lengths below t. */
    ghost predicate LengthTables(sl: seq<nat>, t: nat)
      requires Shape() && t <= 16
      reads firstcode, maxcode, firstsymbol
    {
      && (forall s {:trigger firstcode[s]} :: 1 <= s < t ==> firstcode[s] == FirstCode(sl, s))
      && (forall s {:trigger firstsymbol[s]} :: 1 <= s < t ==> firstsymbol[s] == FirstSymbol(sl, s))
      && (forall s {:trigger maxcode[s]} :: 1 <= s < t ==> maxcode[s] == Shl(EndCode(sl, s), 16 - s))
    }

    /** The first n symbols are entered in the sorted tables. */
    ghost predicate SlotTables(sl: seq<nat>, n: nat)
      requires Shape() && n <= |sl| && Lengths(sl)
      reads size, value
    {
      forall i :: 0 <= i < n && 0 < sl[i] ==> SlotHolds(sl, i)
    }

    ghost predicate SlotHolds(sl: seq<nat>, i: nat)
      requires Shape() && i < |sl|
      reads size, value
    {
      var c := Slot(sl, i);
      c < 288 && size[c] == sl[i] && value[c] == i
    }

    /** The first n symbols are entered in the fast table. */
    ghost predicate FastTable(sl: seq<nat>, n: nat)
      requires Shape() && n <= |sl|
      reads fast
    {
      forall j {:trigger fast[j]} :: 0 <= j < 512 ==> fast[j] == FastEntry(sl, n, j)
    }

    /** The tables decode the canonical code with lengths sl. */
    ghost predicate Represents(sl: seq<nat>)
      requires Shape()
      reads Repr
    {
      && Lengths(sl) && NotOversubscribed(sl)
      && LengthTables(sl, 16) && maxcode[16] == 0x10000
      && SlotTables(sl, |sl|) && FastTable(sl, |sl|)
    }

    method Build(sizelist: seq<nat>) returns (ok: bool)
      requires Shape() && Lengths(sizelist)
      modifies Repr
      ensures ok <==> KraftSum(sizelist, |sizelist|) <= Pow2(15)
      ensures ok ==> Represents(sizelist)
    {
      KraftInequality(sizelist);
      ok := BuildTables(sizelist);
    }

    method BuildTables(sizelist: seq<nat>) returns (ok: bool)
      requires Shape() && Lengths(sizelist)
      modifies Repr
      ensures ok <==> NotOversubscribed(sizelist)
      ensures ok ==> Represents(sizelist)
    {
      var sizes := CountSizes(sizelist);
      ClearFast();
      ok := CheckSizes(sizelist, sizes);
      if ok {
        var nextCode;
        ok, nextCode := FillLengthTables(sizelist, sizes);
        if ok {
          FillSymbols(sizelist, nextCode);
        }
      }
    }

    method ClearFast()
      requires Shape()
      modifies fast
      ensures forall j :: 0 <= j < 512 ==> fast[j] == 0
    {
      for i := 0 to 512
        invariant forall j :: 0 <= j < i ==> fast[j] == 0
      {
        fast[i] := 0;
      }
    }

    static method CountSizes(sizelist: seq<nat>) returns (sizes: array<nat>)
      requires Lengths(sizelist)
      ensures fresh(sizes) && sizes.Length == 17 && sizes[0] == 0
      ensures forall s {:trigger sizes[s]} :: 1 <= s <= 15 ==> sizes[s] == Count(sizelist, s)
    {
      sizes := new nat[17](_ => 0);
      for i := 0 to |sizelist|
        invariant forall s {:trigger sizes[s]} :: 0 <= s < 17 ==> sizes[s] == Rank(sizelist, i, s)
      {
        sizes[sizelist[i]] := sizes[sizelist[i]] + 1;
      }
      sizes[0] := 0;
    }

    static method CheckSizes(sizelist: seq<nat>, sizes: array<nat>) returns (ok: bool)
      requires Lengths(sizelist) && sizes.Length == 17
      requires forall s {:trigger sizes[s]} :: 1 <= s <= 15 ==> sizes[s] == Count(sizelist, s)
      ensures !ok ==> !NotOversubscribed(sizelist)
    {
      for i := 1 to 16
      {
        if sizes[i] > Pow2(i) {
          assert EndCode(sizelist, i) > Pow2(i);
          return false;
        }
      }
      ok := true;
    }

    method FillLengthTables(sizelist: seq<nat>, sizes: array<nat>) returns (ok: bool, nextCode: array<nat>)
      requires Shape() && Lengths(sizelist) && sizes.Length == 17 && sizes !in Repr
      requires forall s {:trigger sizes[s]} :: 1 <= s <= 15 ==> sizes[s] == Count(sizelist, s)
      modifies firstcode, maxcode, firstsymbol
      ensures ok <==> NotOversubscribed(sizelist)
      ensures fresh(nextCode) && nextCode.Length == 16
      ensures ok ==> LengthTables(sizelist, 16) && maxcode[16] == 0x10000
      ensures ok ==> forall s {:trigger nextCode[s]} :: 1 <= s < 16 ==> nextCode[s] == FirstCode(sizelist, s)
    {
      hide FirstCode, FirstSymbol, EndCode, Count, Shl, Pow2;
      nextCode := new nat[16](_ => 0);
      var code, k := 0, 0;
      NoLengths(sizelist);
      for i := 1 to 16
        invariant code == FirstCode(sizelist, i) && k == FirstSymbol(sizelist, i)
        invariant forall s {:trigger EndCode(sizelist, s)} :: 1 <= s < i ==> EndCode(sizelist, s) <= Pow2(s)
        invariant LengthTables(sizelist, i)
        invariant forall s {:trigger nextCode[s]} :: 1 <= s < i ==> nextCode[s] == FirstCode(sizelist, s)
      {
        FirstCodeBound(sizelist, i);
        NextLength(sizelist, i);
        nextCode[i] := code;
        EnterLength(sizelist, i, code, k, sizes[i]);
        code := code + sizes[i];
        if sizes[i] != 0 {
          if code - 1 >= Pow2(i) {
            assert EndCode(sizelist, i) > Pow2(i);
            return false, nextCode;
          }
        }
        assert EndCode(sizelist, i) <= Pow2(i);
        code := 2 * code;
        k := k + sizes[i];
      }
      maxcode[16] := 0x10000;
      ok := true;
    }

    lemma NoLengths(sl: seq<nat>)
      requires Shape()
      ensures FirstCode(sl, 1) == 0 && FirstSymbol(sl, 1) == 0 && LengthTables(sl, 1)
    {
    }

    static lemma NextLength(sl: seq<nat>, i: nat)
      requires 1 <= i
      ensures EndCode(sl, i) == FirstCode(sl, i) + Count(sl, i)
      ensures FirstCode(sl, i + 1) == 2 * EndCode(sl, i) && FirstSymbol(sl, i + 1) == FirstSymbol(sl, i) + Count(sl, i)
    {
    }

    method EnterLength(sizelist: seq<nat>, i: nat, code: nat, k: nat, count: nat)
      requires Shape() && Lengths(sizelist) && 1 <= i < 16 && LengthTables(sizelist, i)
      requires code == FirstCode(sizelist, i) < 0x10000 && k == FirstSymbol(sizelist, i) < 0x10000
      requires count == Count(sizelist, i)
      modifies firstcode, maxcode, firstsymbol
      ensures LengthTables(sizelist, i + 1)
    {
      hide FirstCode, FirstSymbol, Count, Shl, Pow2;
      firstcode[i] := code % 0x10000;
      firstsymbol[i] := k % 0x10000;
      maxcode[i] := Shl(code + count, 16 - i);
    }

    /** Neither table overflows 16 bits. */
    static lemma FirstCodeBound(sl: seq<nat>, i: nat)
      requires Lengths(sl) && 1 <= i <= 15
      requires forall s {:trigger EndCode(sl, s)} :: 1 <= s < i ==> EndCode(sl, s) <= Pow2(s)
      ensures FirstCode(sl, i) <= Pow2(i) < 0x10000 && FirstSymbol(sl, i) < 0x10000
    {
      if i > 1 {
        assert EndCode(sl, i - 1) <= Pow2(i - 1);
      }
      Pow2Monotone(i, 15);
      assert Pow2(15) == 32768 by { Pow2Values(); }
      FirstSymbolCounts(sl, i);
    }

    method FillSymbols(sizelist: seq<nat>, nextCode: array<nat>)
      requires Shape() && Lengths(sizelist) && NotOversubscribed(sizelist)
      requires LengthTables(sizelist, 16) && nextCode !in Repr && nextCode.Length == 16
      requires forall s {:trigger nextCode[s]} :: 1 <= s < 16 ==> nextCode[s] == FirstCode(sizelist, s)
      requires forall j :: 0 <= j < 512 ==> fast[j] == 0
      modifies fast, size, value, nextCode
      ensures SlotTables(sizelist, |sizelist|) && FastTable(sizelist, |sizelist|)
    {
      for i := 0 to |sizelist|
        invariant forall s {:trigger nextCode[s]} :: 1 <= s < 16 ==> nextCode[s] == FirstCode(sizelist, s) + Rank(sizelist, i, s)
        invariant SlotTables(sizelist, i)
        invariant FastTable(sizelist, i)
      {
        var s := sizelist[i];
        if s != 0 {
          EnterSymbol(sizelist, i, nextCode[s]);
          nextCode[s] := nextCode[s] + 1;
        }
      }
    }

    method EnterSymbol(sizelist: seq<nat>, i: nat, code: nat)
      requires Shape() && Lengths(sizelist) && NotOversubscribed(sizelist)
      requires i < |sizelist| && 0 < sizelist[i] && code == Code(sizelist, i)
      requires LengthTables(sizelist, 16) && SlotTables(sizelist, i) && FastTable(sizelist, i)
      modifies fast, size, value
      ensures SlotTables(sizelist, i + 1) && FastTable(sizelist, i + 1)
    {
      var s := sizelist[i];
      var c := code - firstcode[s] + firstsymbol[s];
      EnterSlot(sizelist, i, c);
      var fastv := PackFast(s, i);
      if s <= FAST_BITS {
        CodeFits(sizelist, i);
        var j := ReverseCode(code, s);
        EnterFast(sizelist, i, j, fastv);
      }
    }

    static method ReverseCode(code: nat, s: nat) returns (j: nat)
      requires s <= 16 && code < Pow2(s)
      ensures j == Rev(code, s)
    {
      j := BitReverse(code, s);
      BitReverseIsRev(code, s);
    }

    static method PackFast(s: nat, i: nat) returns (fastv: nat)
      requires s <= 15 && i < 288
      ensures fastv == 512 * s + i
    {
      fastv := Or(Shl(s, 9), i) % 0x10000;
      assert Pow2(9) == 512 by { Pow2Values(); }
      OrCommutes(Shl(s, 9), i);
      OrAbove(i, s, 9);
      ShlIsProduct(s, 9);
    }

    method EnterSlot(sizelist: seq<nat>, i: nat, c: nat)
      requires Shape() && Lengths(sizelist) && i < |sizelist| && 0 < sizelist[i]
      requires SlotTables(sizelist, i) && c == Slot(sizelist, i)
      modifies size, value
      ensures SlotTables(sizelist, i + 1)
    {
      SlotBound(sizelist, i);
      size[c] := sizelist[i];
      value[c] := i;
      forall j | 0 <= j < i && 0 < sizelist[j]
        ensures SlotHolds(sizelist, j)
      {
        SlotInjective(sizelist, i, j);
        assert old(SlotHolds(sizelist, j));
      }
    }

    method EnterFast(sizelist: seq<nat>, i: nat, start: nat, fastv: nat)
      requires Shape() && Lengths(sizelist) && i < |sizelist| && 0 < sizelist[i] <= FAST_BITS
      requires FastTable(sizelist, i) && fastv == 512 * sizelist[i] + i
      requires start == Rev(Code(sizelist, i), sizelist[i])
      modifies fast
      ensures FastTable(sizelist, i + 1)
    {
      var s := sizelist[i];
      var j := start;
      ghost var q := 0;
      RevBound(Code(sizelist, i), s);
      ShlZero(s);
      forall x | 0 <= x < start
        ensures !FastHit(sizelist, i, x)
      {
        LowSmall(x, s);
      }
      while j < 512
        invariant j == start + Shl(q, s)
        invariant forall x {:trigger fast[x]} :: 0 <= x < 512 ==>
                    fast[x] == if x < j && FastHit(sizelist, i, x) then fastv else FastEntry(sizelist, i, x)
        decreases 512 - j
      {
        fast[j] := fastv;
        FieldBelow(start, q, s);
        assert FastHit(sizelist, i, j);
        forall x | j < x < j + Pow2(s)
          ensures !FastHit(sizelist, i, x)
        {
          StepGap(start, q, x, s);
        }
        ShlAdd(q, 1, s);
        Pow2IsShl(s);
        j := j + Pow2(s);
        q := q + 1;
      }
    }

    /** Between two steps of the loop no index has the same low bits. */
    static lemma StepGap(r: nat, q: nat, x: nat, s: nat)
      requires r < Pow2(s)
      requires r + Shl(q, s) < x < r + Shl(q, s) + Pow2(s)
      ensures Low(x, s) != r
    {
      LowShr(x, s);
      ShlAdd(q, 1, s);
      Pow2IsShl(s);
      var y := Shr(x, s);
      if y <= q {
        ShlMonotone(y, q, s);
      } else {
        ShlMonotone(q + 1, y, s);
      }
    }
  }
}
