/**
 The bits of unsigned 64-bit words: what the bitwise operators, the masks and the bit counts do to
 each of them.
 */
module WordBits {
  import opened Binary
  import opened Words

  lemma WordIsPow2()
    ensures Pow2(64) == U64
  {
    Pow2Values();
    Pow2IsShl(32);
    Pow2IsShl(64);
    ShlShl(1, 32, 32);
    Shl32(1);
    Shl32(Shl(1, 32));
  }

  lemma Shl32(x: nat)
    ensures Shl(x, 32) == x * 0x1_0000_0000
  {
    Shl16(x);
    Shl16(Shl(x, 16));
    ShlShl(x, 16, 16);
  }

  lemma Shl16(x: nat)
    ensures Shl(x, 16) == x * 65536
  {
    ShlShl(x, 8, 8);
    Shl8(x);
    Shl8(Shl(x, 8));
  }

  lemma Shl8(x: nat)
    ensures Shl(x, 8) == x * 256
  {
    assert Shl(x, 1) == 2 * x;
    assert Shl(x, 2) == 4 * x;
    assert Shl(x, 3) == 8 * x;
    assert Shl(x, 4) == 16 * x;
    assert Shl(x, 5) == 32 * x;
    assert Shl(x, 6) == 64 * x;
    assert Shl(x, 7) == 128 * x;
  }

  /** Bit i of w. */
  predicate Bit(w: nat, i: nat)
    decreases i, w
  {
    if i == 0 then w % 2 == 1 else Bit(w / 2, i - 1)
  }

  lemma {:induction false} BitIsShift(w: nat, i: nat)
    ensures Bit(w, i) <==> Shr(w, i) % 2 == 1
    decreases i
  {
    if i > 0 {
      BitIsShift(w / 2, i - 1);
    }
  }

  lemma {:induction false} ZeroBits(i: nat)
    ensures !Bit(0, i)
  {
    if i > 0 {
      ZeroBits(i - 1);
    }
  }

  lemma {:induction false} OrBits(a: nat, b: nat, i: nat)
    ensures Bit(Or(a, b), i) <==> Bit(a, i) || Bit(b, i)
    decreases i
  {
    ZeroBits(i);
    if i > 0 {
      OrBits(a / 2, b / 2, i - 1);
    }
  }

  lemma {:induction false} AndBits(a: nat, b: nat, i: nat)
    ensures Bit(And(a, b), i) <==> Bit(a, i) && Bit(b, i)
    decreases i
  {
    ZeroBits(i);
    if i > 0 {
      AndBits(a / 2, b / 2, i - 1);
    }
  }

  lemma {:induction false} OnesBits(n: nat, i: nat)
    ensures Bit(Pow2(n) - 1, i) <==> i < n
    decreases i
  {
    if n == 0 {
      ZeroBits(i);
    } else if i > 0 {
      OnesBits(n - 1, i - 1);
      assert (Pow2(n) - 1) / 2 == Pow2(n - 1) - 1;
    }
  }

  lemma {:induction false} PowerBits(n: nat, i: nat)
    ensures Bit(Pow2(n), i) <==> i == n
    decreases i
  {
    if n == 0 {
      if i > 0 {
        ZeroBits(i - 1);
      }
    } else if i > 0 {
      PowerBits(n - 1, i - 1);
      assert Pow2(n) / 2 == Pow2(n - 1);
    }
  }

  lemma HalfComplement(w: nat, c: nat, d: nat)
    requires w < c == 2 * d
    ensures (c - 1 - w) / 2 == d - 1 - w / 2 && w / 2 < d
    ensures (c - 1 - w) % 2 == 1 - w % 2
  {
  }

  lemma {:induction false} ComplementBits(w: nat, n: nat, i: nat)
    requires w < Pow2(n) && i < n
    ensures Bit(Pow2(n) - 1 - w, i) <==> !Bit(w, i)
    decreases i
  {
    if i == 0 {
      HalfComplement(w, Pow2(n), Pow2(n - 1));
    } else {
      ComplementBits(w / 2, n - 1, i - 1);
      HalfComplement(w, Pow2(n), Pow2(n - 1));
    }
  }

  /** Equal bits mean equal words. */
  lemma {:induction false} SameBits(a: nat, b: nat, n: nat)
    requires a < Pow2(n) && b < Pow2(n)
    requires forall i :: 0 <= i < n ==> (Bit(a, i) <==> Bit(b, i))
    ensures a == b
    decreases n
  {
    if n > 0 {
      assert Bit(a, 0) <==> Bit(b, 0);
      forall i | 0 <= i < n - 1
        ensures Bit(a / 2, i) <==> Bit(b / 2, i)
      {
        assert Bit(a, i + 1) <==> Bit(b, i + 1);
      }
      SameBits(a / 2, b / 2, n - 1);
    }
  }

  // Operators of the machine

  function Not(w: u64): u64 {
    U64 - 1 - w
  }

  function OrWord(a: u64, b: u64): u64
  {
    WordIsPow2();
    OrBound(a, b, 64);
    Or(a, b)
  }

  function AndWord(a: u64, b: u64): u64
  {
    AndBound(a, b);
    And(a, b)
  }

  lemma {:induction false} OrBound(a: nat, b: nat, n: nat)
    requires a < Pow2(n) && b < Pow2(n)
    ensures Or(a, b) < Pow2(n)
    decreases n
  {
    if n > 0 {
      OrBound(a / 2, b / 2, n - 1);
    }
  }

  lemma {:induction false} AndBound(a: nat, b: nat)
    ensures And(a, b) <= a
    decreases a
  {
    if a > 0 && b > 0 {
      AndBound(a / 2, b / 2);
    }
  }

  /** 1 << n for n below 64. */
  function OneAt(n: nat): u64
    requires n < 64
  {
    WordIsPow2();
    Pow2Monotone(n + 1, 64);
    Pow2(n)
  }

  /** The bits below n. */
  function LowMask(n: nat): u64
    requires n < 64
  {
    OneAt(n) - 1
  }

  lemma NotBits(w: u64, i: nat)
    requires i < 64
    ensures Bit(Not(w), i) <==> !Bit(w, i)
  {
    WordIsPow2();
    ComplementBits(w, 64, i);
  }

  lemma FullBits(i: nat)
    requires i < 64
    ensures Bit(U64 - 1, i)
  {
    WordIsPow2();
    OnesBits(64, i);
  }

  ghost predicate NoBits(w: u64) {
    forall i :: 0 <= i < 64 ==> !Bit(w, i)
  }

  ghost predicate AllBits(w: u64) {
    forall i :: 0 <= i < 64 ==> Bit(w, i)
  }

  lemma ZeroWord(w: u64)
    ensures w == 0 <==> NoBits(w)
  {
    WordIsPow2();
    forall i | 0 <= i < 64
      ensures w == 0 ==> !Bit(w, i)
    {
      ZeroBits(i);
    }
    if NoBits(w) {
      var zero: u64 := 0;
      forall i | 0 <= i < 64
        ensures !Bit(zero, i)
      {
        ZeroBits(i);
      }
      SameBits(w, zero, 64);
    }
  }

  lemma FullWord(w: u64)
    ensures w == U64 - 1 <==> AllBits(w)
  {
    WordIsPow2();
    forall i | 0 <= i < 64
      ensures w == U64 - 1 ==> Bit(w, i)
    {
      FullBits(i);
    }
    if AllBits(w) {
      var full: u64 := U64 - 1;
      forall i | 0 <= i < 64
        ensures Bit(full, i)
      {
        FullBits(i);
      }
      SameBits(w, full, 64);
    }
  }

  // Counting

  /** Number of zeros at the low end, n if there is no one. */
  function CountrZero(w: nat, n: nat): (c: nat)
    ensures c <= n
    decreases n, w
  {
    if n == 0 || w % 2 == 1 then 0 else 1 + CountrZero(w / 2, n - 1)
  }

  /** Number of ones at the low end. */
  function CountrOne(w: nat, n: nat): (c: nat)
    ensures c <= n
    decreases n, w
  {
    if n == 0 || w % 2 == 0 then 0 else 1 + CountrOne(w / 2, n - 1)
  }

  lemma {:induction false} CountrZeroBits(w: nat, n: nat)
    ensures forall i :: 0 <= i < CountrZero(w, n) ==> !Bit(w, i)
    ensures CountrZero(w, n) < n ==> Bit(w, CountrZero(w, n))
    decreases n
  {
    if n > 0 && w % 2 == 0 {
      CountrZeroBits(w / 2, n - 1);
      forall i | 0 <= i < CountrZero(w, n)
        ensures !Bit(w, i)
      {
        assert i > 0 ==> !Bit(w / 2, i - 1);
      }
    }
  }

  lemma {:induction false} CountrOneBits(w: nat, n: nat)
    ensures forall i :: 0 <= i < CountrOne(w, n) ==> Bit(w, i)
    ensures CountrOne(w, n) < n ==> !Bit(w, CountrOne(w, n))
    decreases n
  {
    if n > 0 && w % 2 == 1 {
      CountrOneBits(w / 2, n - 1);
      forall i | 0 <= i < CountrOne(w, n)
        ensures Bit(w, i)
      {
        assert i > 0 ==> Bit(w / 2, i - 1);
      }
    }
  }

  lemma {:induction false} ShiftedBits(w: nat, s: nat, i: nat)
    ensures Bit(Shr(w, s), i) <==> Bit(w, s + i)
    decreases s
  {
    if s > 0 {
      ShiftedBits(w / 2, s - 1, i);
    }
  }

  /** The lowest run of ones in a word: after `empty` zeros there are `ones` ones, as far as the word goes. */
  lemma LowestRun(w: u64)
    requires w != 0
    ensures var empty := CountrZero(w, 64); var ones := CountrOne(Shr(w, empty), 64);
      && empty < 64 && 0 < ones
      && (forall j :: 0 <= j < empty ==> !Bit(w, j))
      && (forall j {:trigger Bit(w, j)} :: empty <= j < 64 && j < empty + ones ==> Bit(w, j))
      && (empty + ones < 64 ==> !Bit(w, empty + ones))
  {
    var empty := CountrZero(w, 64);
    var v := Shr(w, empty);
    var ones := CountrOne(v, 64);
    ZeroWord(w);
    CountrZeroBits(w, 64);
    CountrOneBits(v, 64);
    ShiftedBits(w, empty, 0);
    ShiftedBits(w, empty, ones);
    forall j | empty <= j < 64 && j < empty + ones
      ensures Bit(w, j)
    {
      ShiftedBits(w, empty, j - empty);
    }
  }
}
