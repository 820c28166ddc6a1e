/**
 Shifts, masks and bitwise operators on unsigned machine words, as functions on
 natural numbers defined one binary digit at a time.
 */
module Binary {

  /** 1 << n */
  function Pow2(n: nat): (r: nat)
    ensures 1 <= r
  {
    if n == 0 then 1 else 2 * Pow2(n - 1)
  }

  /** x << n */
  function Shl(x: nat, n: nat): nat
    decreases n, x
  {
    if n == 0 then x else 2 * Shl(x, n - 1)
  }

  /** x >> n */
  function Shr(x: nat, n: nat): nat
    decreases n, x
  {
    if n == 0 then x else Shr(x / 2, n - 1)
  }

  /** The low n bits of x. */
  function Low(x: nat, n: nat): nat
    decreases n, x
  {
    if n == 0 then 0 else x % 2 + 2 * Low(x / 2, n - 1)
  }

  /** Bitwise and. */
  function And(a: nat, b: nat): nat {
    if a == 0 || b == 0 then 0 else (if a % 2 == 1 && b % 2 == 1 then 1 else 0) + 2 * And(a / 2, b / 2)
  }

  /** Bitwise or. */
  function Or(a: nat, b: nat): nat
    decreases a + b
  {
    if a == 0 then b else if b == 0 then a
    else (if a % 2 == 0 && b % 2 == 0 then 0 else 1) + 2 * Or(a / 2, b / 2)
  }

  /** Bitwise exclusive or. */
  function Xor(a: nat, b: nat): nat
    decreases a + b
  {
    if a == 0 then b else if b == 0 then a
    else (if a % 2 == b % 2 then 0 else 1) + 2 * Xor(a / 2, b / 2)
  }

  /** The low n bits of v in reversed order. */
  function Rev(v: nat, n: nat): nat
    decreases n, v
  {
    if n == 0 then 0 else Shl(v % 2, n - 1) + Rev(v / 2, n - 1)
  }

  lemma Pow2Values()
    ensures Pow2(0) == 1 && Pow2(1) == 2 && Pow2(2) == 4 && Pow2(3) == 8 && Pow2(4) == 16
    ensures Pow2(5) == 32 && Pow2(6) == 64 && Pow2(7) == 128 && Pow2(8) == 256 && Pow2(9) == 512
    ensures Pow2(10) == 1024 && Pow2(11) == 2048 && Pow2(12) == 4096 && Pow2(13) == 8192
    ensures Pow2(14) == 16384 && Pow2(15) == 32768 && Pow2(16) == 65536
  {
    assert Pow2(4) == 16;
    assert Pow2(8) == 256;
    assert Pow2(12) == 4096;
  }

  lemma {:induction false} Pow2Monotone(m: nat, n: nat)
    requires m <= n
    ensures Pow2(m) <= Pow2(n)
  {
    if m < n {
      Pow2Monotone(m, n - 1);
    }
  }

  lemma {:induction false} Pow2IsShl(n: nat)
    ensures Pow2(n) == Shl(1, n)
  {
    if n > 0 {
      Pow2IsShl(n - 1);
    }
  }

  // Shifts

  lemma {:induction false} ShlZero(n: nat)
    ensures Shl(0, n) == 0
  {
    if n > 0 {
      ShlZero(n - 1);
    }
  }

  lemma {:induction false} ShlAdd(x: nat, y: nat, n: nat)
    ensures Shl(x + y, n) == Shl(x, n) + Shl(y, n)
  {
    if n > 0 {
      ShlAdd(x, y, n - 1);
    }
  }

  lemma {:induction false} ShlMonotone(x: nat, y: nat, n: nat)
    requires x <= y
    ensures Shl(x, n) <= Shl(y, n)
  {
    if n > 0 {
      ShlMonotone(x, y, n - 1);
    }
  }

  lemma {:induction false} ShlDouble(x: nat, n: nat)
    ensures Shl(2 * x, n) == 2 * Shl(x, n)
  {
    if n > 0 {
      ShlDouble(x, n - 1);
    }
  }

  lemma {:induction false} ShlShl(x: nat, m: nat, n: nat)
    ensures Shl(Shl(x, m), n) == Shl(x, m + n)
  {
    if n > 0 {
      ShlShl(x, m, n - 1);
    }
  }

  lemma {:induction false} ShlGrows(x: nat, n: nat)
    ensures x <= Shl(x, n)
  {
    if n > 0 {
      ShlGrows(x, n - 1);
    }
  }

  /** Comparing a shifted word is comparing with the shifted bound. */
  lemma {:induction false} ShrBound(k: nat, n: nat, c: nat)
    ensures Shr(k, n) < c <==> k < Shl(c, n)
    decreases n
  {
    if n > 0 {
      ShrBound(k / 2, n - 1, c);
    }
  }

  lemma {:induction false} ShrShr(x: nat, m: nat, n: nat)
    ensures Shr(Shr(x, m), n) == Shr(x, m + n)
    decreases m
  {
    if m > 0 {
      ShrShr(x / 2, m - 1, n);
      assert m + n - 1 == m - 1 + n;
    }
  }

  /** A field below y << n: the shift drops it, the mask keeps it. */
  lemma {:induction false} FieldBelow(x: nat, y: nat, n: nat)
    requires x < Pow2(n)
    ensures Shr(x + Shl(y, n), n) == y
    ensures Low(x + Shl(y, n), n) == x
    decreases n
  {
    if n > 0 {
      FieldBelow(x / 2, y, n - 1);
      assert (x + Shl(y, n)) / 2 == x / 2 + Shl(y, n - 1);
    }
  }

  lemma {:induction false} LowBound(x: nat, n: nat)
    ensures Low(x, n) < Pow2(n)
    decreases n
  {
    if n > 0 {
      LowBound(x / 2, n - 1);
    }
  }

  lemma {:induction false} LowSmall(x: nat, n: nat)
    requires x < Pow2(n)
    ensures Low(x, n) == x && Shr(x, n) == 0
    decreases n
  {
    if n > 0 {
      LowSmall(x / 2, n - 1);
    }
  }

  /** A word is its low n bits and the rest. */
  lemma {:induction false} LowShr(x: nat, n: nat)
    ensures x == Low(x, n) + Shl(Shr(x, n), n)
    decreases n
  {
    if n > 0 {
      LowShr(x / 2, n - 1);
    }
  }

  lemma {:induction false} LowLow(x: nat, m: nat, n: nat)
    requires m <= n
    ensures Low(Low(x, n), m) == Low(x, m)
    decreases m
  {
    if m > 0 {
      LowLow(x / 2, m - 1, n - 1);
    }
  }

  // Masks

  /** Masking with n ones keeps the low n bits. */
  lemma {:induction false} AndMask(a: nat, n: nat)
    ensures And(a, Pow2(n) - 1) == Low(a, n)
  {
    if n == 0 {
    } else if a == 0 {
      LowSmall(0, n);
    } else {
      AndMask(a / 2, n - 1);
      var q := Pow2(n - 1);
      assert (2 * q - 1) % 2 == 1 && (2 * q - 1) / 2 == q - 1;
    }
  }

  /** Or-ing in a field above all set bits is addition. */
  lemma {:induction false} OrAbove(a: nat, b: nat, n: nat)
    requires a < Pow2(n)
    ensures Or(a, Shl(b, n)) == a + Shl(b, n)
    decreases n
  {
    ShlGrows(b, n);
    if a == 0 {
    } else if b == 0 {
      ShlZero(n);
    } else {
      OrAbove(a / 2, b, n - 1);
      assert Shl(b, n) % 2 == 0 && Shl(b, n) / 2 == Shl(b, n - 1);
    }
  }

  lemma {:induction false} OrCommutes(a: nat, b: nat)
    ensures Or(a, b) == Or(b, a)
    decreases a + b
  {
    if a != 0 && b != 0 {
      OrCommutes(a / 2, b / 2);
    }
  }

  /** Exclusive or with n ones complements an n-bit word. */
  lemma {:induction false} XorOnes(a: nat, n: nat)
    requires a < Pow2(n)
    ensures Xor(a, Pow2(n) - 1) == Pow2(n) - 1 - a
  {
    if n > 0 {
      var q := Pow2(n - 1);
      XorOnes(a / 2, n - 1);
      assert (2 * q - 1) % 2 == 1 && (2 * q - 1) / 2 == q - 1;
    }
  }

  // Reversal

  lemma {:induction false} RevBound(v: nat, n: nat)
    ensures Rev(v, n) < Pow2(n)
    decreases n
  {
    if n > 0 {
      RevBound(v / 2, n - 1);
      Pow2IsShl(n - 1);
      ShlZero(n - 1);
    }
  }

  /** Only the low n bits matter. */
  lemma {:induction false} RevLow(v: nat, n: nat)
    ensures Rev(v, n) == Rev(Low(v, n), n)
    decreases n
  {
    if n > 0 {
      RevLow(v / 2, n - 1);
      assert Low(v, n) % 2 == v % 2 && Low(v, n) / 2 == Low(v / 2, n - 1);
    }
  }

  /** Peeling the most significant bit instead of the least. */
  lemma {:induction false} RevTop(v: nat, n: nat)
    ensures Rev(v, n + 1) == 2 * Rev(v, n) + Shr(v, n) % 2
    decreases n
  {
    if n > 0 {
      RevTop(v / 2, n - 1);
    }
  }

  lemma {:induction false} LowTop(v: nat, n: nat)
    ensures Low(v, n + 1) == Low(v, n) + Shl(Shr(v, n) % 2, n)
    decreases n
  {
    if n > 0 {
      LowTop(v / 2, n - 1);
    }
  }

  /** Reversing twice gives the field back. */
  lemma {:induction false} RevRev(v: nat, n: nat)
    ensures Rev(Rev(v, n), n) == Low(v, n)
  {
    if n > 0 {
      RevRev(v, n - 1);
      RevTop(v, n - 1);
      LowTop(v, n - 1);
      var w := Rev(v, n);
      assert w / 2 == Rev(v, n - 1) && w % 2 == Shr(v, n - 1) % 2;
    }
  }

  /** A field with zeros above it. */
  lemma {:induction false} RevPadded(v: nat, m: nat, n: nat)
    requires v < Pow2(m)
    ensures Rev(v, m + n) == Shl(Rev(v, m), n)
  {
    if n > 0 {
      RevPadded(v, m, n - 1);
      Pow2Monotone(m, m + n - 1);
      LowSmall(v, m + n - 1);
      RevTop(v, m + n - 1);
    }
  }

  // Meaning in terms of arithmetic

  lemma {:induction false} ShlIsProduct(x: nat, n: nat)
    ensures Shl(x, n) == x * Pow2(n)
  {
    if n > 0 {
      ShlIsProduct(x, n - 1);
      DoubleProduct(x, Pow2(n - 1));
    }
  }

  lemma DoubleProduct(x: nat, p: nat)
    ensures x * (2 * p) == 2 * (x * p)
  {
  }
}
