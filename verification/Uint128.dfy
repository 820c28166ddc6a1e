/** Products and quotients of 64-bit numbers with 128-bit intermediate results. */
module Uint128 {
  import opened Words
  import opened Division

  /** The result of an operation on 64-bit words. */
  function Wrap(x: nat): u64 {
    x % U64
  }

  // The high word of a product

  /** The parts of a product of two numbers of two 32-bit limbs each. */
  lemma Limbs(a: u64, b: u64)
    ensures var al, ah, bl, bh := a % U32, a / U32, b % U32, b / U32;
      && a * b == (ah * bh) * U64 + (ah * bl + bh * al) * U32 + al * bl
      && ah * bh <= (U32 - 1) * (U32 - 1) && ah * bl <= (U32 - 1) * (U32 - 1)
      && bh * al <= (U32 - 1) * (U32 - 1) && al * bl <= (U32 - 1) * (U32 - 1)
  {
    var al, ah, bl, bh := a % U32, a / U32, b % U32, b / U32;
    assert a == ah * U32 + al && b == bh * U32 + bl;
    assert a * b == (ah * U32) * (bh * U32) + (ah * U32) * bl + al * (bh * U32) + al * bl;
    LimbProduct(ah, bh);
    LimbProduct(ah, bl);
    LimbProduct(bh, al);
    LimbProduct(al, bl);
  }

  lemma LimbProduct(x: nat, y: nat)
    requires x < U32 && y < U32
    ensures x * y <= (U32 - 1) * (U32 - 1)
  {
    MulMonotone(x, y, U32 - 1);
    MulMonotone(U32 - 1, x, U32 - 1);
  }

  /** The quotient of the sum of the parts. */
  lemma HighPart(p: nat, q: nat, r: nat, s: nat)
    ensures var carry := (q % U32 + r % U32 + s / U32) / U32;
      (p * U64 + (q + r) * U32 + s) / U64 == p + q / U32 + r / U32 + carry
  {
    var low := q % U32 + r % U32 + s / U32;
    var total := p * U64 + (q + r) * U32 + s;
    var high := p + q / U32 + r / U32 + low / U32;
    assert total == U64 * high + (low % U32) * U32 + s % U32;
    DivUnique(total, U64, high, (low % U32) * U32 + s % U32);
  }

  /** The fallback on 32-bit limbs: no intermediate result overflows, and the result is the high word of the product. */
  method MultiplyHigh(a: u64, b: u64) returns (r: u64)
    ensures r == (a * b) / U64
  {
    var aLo: nat, aHi: nat := a % U32, a / U32;
    var bLo: nat, bHi: nat := b % U32, b / U32;
    Limbs(a, b);
    // products and sums are in the type of 64-bit words: that they fit is part of the proof
    var aXbHi: u64 := aHi * bHi;
    var aXbMid: u64 := aHi * bLo;
    var bXaMid: u64 := bHi * aLo;
    var aXbLo: u64 := aLo * bLo;
    HighPart(aXbHi, aXbMid, bXaMid, aXbLo);
    HighFits(a, b);
    var sum: u64 := aXbMid % U32 + bXaMid % U32 + aXbLo / U32;
    r := aXbHi + aXbMid / U32 + bXaMid / U32 + sum / U32;
  }

  lemma HighFits(a: u64, b: u64)
    ensures (a * b) / U64 < U64
  {
    MulMonotone(a, b, U64 - 1);
    MulMonotone(U64 - 1, a, U64 - 1);
    DivBelow(a * b, U64, U64);
  }

  // Fixed-point reciprocals

  /** The 64-bit fixed-point approximation of numerator / divisor, truncated to a word. */
  function GetFixedPoint64Factor(numerator: u64, divisor: u64): (f: u64)
    requires 0 < divisor
  {
    Wrap((numerator * U64) / divisor)
  }

  lemma FactorFits(n: u64, d: u64)
    requires n < d
    ensures (n * U64) / d < U64
  {
    MulGap(U64, n, d);
    DivBelow(n * U64, d, U64);
  }

  /** What the scaling computes, before the error is bounded. */
  function Scaled(t: u64, n: u64, d: u64): nat
    requires n < d
  {
    (t * GetFixedPoint64Factor(n, d)) / U64
  }

  /** t * f * d falls short of t * n * 2^64 by t times the remainder of the factor. */
  lemma Shortfall(t: u64, n: u64, d: u64)
    requires n < d
    ensures d * (t * GetFixedPoint64Factor(n, d)) + t * ((n * U64) % d) == U64 * (t * n)
  {
    FactorValue(n, d);
    QuotientRemainder(n * U64, d);
    ShortfallOf(t, n, d, GetFixedPoint64Factor(n, d), (n * U64) % d);
  }

  lemma FactorValue(n: u64, d: u64)
    requires n < d
    ensures GetFixedPoint64Factor(n, d) == (n * U64) / d
  {
    FactorFits(n, d);
    WrapSmall((n * U64) / d);
  }

  lemma WrapSmall(x: nat)
    requires x < U64
    ensures Wrap(x) == x
  {
  }

  lemma ShortfallOf(t: nat, n: nat, d: nat, f: nat, e: nat)
    requires n * U64 == d * f + e
    ensures d * (t * f) + t * e == U64 * (t * n)
  {
    MulDistributes(t, d * f, e);
    Rearrange(t, n, d, f);
  }

  lemma Rearrange(t: nat, n: nat, d: nat, f: nat)
    ensures t * (n * U64) == U64 * (t * n) && t * (d * f) == d * (t * f)
  {
    MulAssoc(t, n, U64);
    MulAssoc(t, d, f);
    MulAssoc(d, t, f);
  }

  /** The error bound: exact, or one less. It is exact if and only if the remainder condition holds. */
  lemma ScaledError(t: u64, n: u64, d: u64)
    requires n < d
    ensures var exact := (t * n) / d;
      && (Scaled(t, n, d) == exact || Scaled(t, n, d) == exact - 1)
      && (Scaled(t, n, d) == exact <==> t * ((n * U64) % d) <= U64 * ((t * n) % d))
  {
    var tn, tf, e := t * n, t * GetFixedPoint64Factor(n, d), (n * U64) % d;
    Shortfall(t, n, d);
    SameScale(t, d, e, tn, tf);
  }

  lemma SameScale(t: u64, d: u64, e: nat, tn: nat, tf: nat)
    requires e < d && d * tf + t * e == U64 * tn
    ensures tf / U64 == tn / d || tf / U64 == tn / d - 1
    ensures tf / U64 == tn / d <==> t * e <= U64 * (tn % d)
  {
    var q, m, s, u := tn / d, tn % d, tf / U64, tf % U64;
    QuotientRemainder(tn, d);
    QuotientRemainder(tf, U64);
    Expand(d, q, m, s, u);
    Remainders(t, d, e, u, m);
    NearQuotients(d * U64, q, s, d * u, t * e, U64 * m);
  }

  lemma Expand(d: nat, q: nat, m: nat, s: nat, u: nat)
    ensures d * (U64 * s + u) == (d * U64) * s + d * u
    ensures U64 * (d * q + m) == (d * U64) * q + U64 * m
  {
    MulDistributes(d, U64 * s, u);
    MulAssoc(d, U64, s);
    MulAssoc(U64, d, q);
  }

  lemma Remainders(t: nat, d: nat, e: nat, u: nat, m: nat)
    requires t < U64 && e < d && m < d && u < U64
    ensures d * u < d * U64 && t * e < d * U64 && U64 * m < d * U64
  {
    MulGap(d, u, U64);
    MulMonotone(e, t, U64);
    MulGap(U64, e, d);
    MulGap(U64, m, d);
    assert t * e == e * t;
  }

  /** Later ticks never scale to smaller values. */
  lemma ScaledMonotone(t: u64, t': u64, n: u64, d: u64)
    requires n < d && t <= t'
    ensures Scaled(t, n, d) <= Scaled(t', n, d)
  {
    var f := GetFixedPoint64Factor(n, d);
    MulMonotone(f, t, t');
    DivMonotone(t * f, t' * f, U64);
  }

  /** The error does occur: a third of three ticks is scaled to zero. */
  lemma ScaledInexact()
    ensures Scaled(3, 1, 3) == 0 && (3 * 1) / 3 == 1
  {
    DivUnique(U64, 3, 0x5555_5555_5555_5555, 1);
  }

  /** Scale with the fixed-point factor. */
  method ScaleTicks(t: u64, n: u64, d: u64) returns (r: u64)
    requires n < d
    ensures r == (t * n) / d || r == (t * n) / d - 1
  {
    r := MultiplyHigh(t, GetFixedPoint64Factor(n, d));
    ScaledError(t, n, d);
  }

  // Product and quotient in one

  function AddWord(x: u64, y: u64): u64 { Wrap(x + y) }

  function MulWord(x: u64, y: u64): u64 { Wrap(x * y) }

  function Div(x: nat, d: nat): nat
    requires 0 < d
  {
    x / d
  }

  function Mod(x: nat, d: nat): (r: nat)
    requires 0 < d
    ensures r < d
  {
    x % d
  }

  function Quotient(x: u64, d: u64): u64
    requires 0 < d
  {
    WordQuotient(x, d);
    x / d
  }

  /** The fallback without a wide product: every operation wraps around. */
  function MultiplyAndDivide64(a: u64, b: u64, d: u64): u64
    requires 0 < d
  {
    var diva, moda, divb, modb := Quotient(a, d), Mod(a, d), Quotient(b, d), Mod(b, d);
    AddWord(AddWord(MulWord(diva, b), MulWord(moda, divb)), Quotient(MulWord(moda, modb), d))
  }

  lemma WrapSum(x: nat, y: nat)
    ensures Wrap(Wrap(x) + y) == Wrap(x + y) && Wrap(x + Wrap(y)) == Wrap(x + y)
  {
    QuotientRemainder(x, U64);
    QuotientRemainder(y, U64);
    AddMultiple(x % U64 + y, U64, x / U64);
    AddMultiple(x + y % U64, U64, y / U64);
  }

  /** a * b / d in terms of the quotients and remainders of the factors. */
  lemma SplitQuotient(a: u64, b: u64, d: u64)
    requires 0 < d
    ensures (a * b) / d == (a / d) * b + (a % d) * (b / d) + ((a % d) * (b % d)) / d
  {
    QuotientRemainder(a, d);
    QuotientRemainder(b, d);
    SplitParts(a, b, d, a / d, a % d, b / d, b % d);
  }

  lemma SplitParts(a: nat, b: nat, d: nat, q: nat, m: nat, p: nat, k: nat)
    requires 0 < d && a == d * q + m && b == d * p + k
    ensures (a * b) / d == q * b + m * p + (m * k) / d
  {
    Multiply(a, b, d, q, m, p, k);
    AddMultiple(m * k, d, q * b + m * p);
  }

  lemma Multiply(a: nat, b: nat, d: nat, q: nat, m: nat, p: nat, k: nat)
    requires a == d * q + m && b == d * p + k
    ensures a * b == d * (q * b + m * p) + m * k
  {
    MulDistributes(b, d * q, m);
    MulDistributes(m, d * p, k);
    MulDistributes(d, q * b, m * p);
    MulAssoc(d, q, b);
    MulAssoc(m, d, p);
    MulAssoc(d, m, p);
    assert b * (d * q) == d * q * b && m * d == d * m && b * m == m * b && a * b == b * a;
  }

  /** Reducing the product of the remainders first changes the quotient, and by less than a word. */
  lemma ReducedQuotient(x: nat, d: u64)
    requires 0 < d && x < d * d
    ensures Wrap(x) / d == x / d <==> x < U64
    ensures Wrap(x) / d <= x / d < U64
  {
    WrapBelow(x);
    DivMonotone(Wrap(x), x, d);
    DivBelow(x, d, d);
    if x >= U64 {
      QuotientRemainder(x, U64);
      MulMonotone(U64, 1, x / U64);
      AddMultiple(Wrap(x), d, 1);
      DivMonotone(d * 1 + Wrap(x), x, d);
    } else {
      WrapSmall(x);
    }
  }

  lemma WrapBelow(x: nat)
    ensures Wrap(x) <= x
  {
  }

  function Product(x: nat, y: nat): nat { x * y }

  /** Up to wrap-around the result is right exactly when the product of the remainders fits in a word. */
  lemma MultiplyAndDivideExact(a: u64, b: u64, d: u64)
    requires 0 < d
    ensures MultiplyAndDivide64(a, b, d) == Wrap(Product(a, b) / d) <==> Product(a % d, b % d) < U64
  {
    hide Wrap;
    SplitQuotient(a, b, d);
    var q, m, p, k := Quotient(a, d), Mod(a, d), Quotient(b, d), Mod(b, d);
    RemainderProduct(m, k, d);
    WrappedParts(Product(q, b), Product(m, p), Product(m, k), d);
  }

  /** At these inputs the product of the remainders wraps around to zero and the quotient is lost. */
  lemma MultiplyAndDivideInexact(n: u64, d: u64)
    requires n == 0x1_0000_0000 && d == 0x2_0000_0000
    ensures MultiplyAndDivide64(n, n, d) == 0 && Wrap(Product(n, n) / d) == 0x8000_0000
  {
    InexactParts(n, d);
    WrapZero(n);
    hide Quotient, Mod, Product, MulWord, AddWord, Wrap;
  }

  lemma InexactParts(n: u64, d: u64)
    requires n == 0x1_0000_0000 && d == 0x2_0000_0000
    ensures Quotient(n, d) == 0 && Mod(n, d) == n && MulWord(n, n) == 0 && Quotient(0, d) == 0
    ensures Wrap(Product(n, n) / d) == 0x8000_0000
  {
  }

  lemma WrapZero(n: u64)
    ensures MulWord(0, n) == MulWord(n, 0) == 0 && AddWord(0, 0) == 0
  {
  }

  lemma WrappedParts(x: nat, y: nat, z: nat, d: u64)
    requires 0 < d && z < d * d
    ensures AddWord(AddWord(Wrap(x), Wrap(y)), Quotient(Wrap(z), d)) == Wrap(x + y + z / d) <==> z < U64
  {
    hide Wrap;
    ReducedQuotient(z, d);
    WrapSum(x, Wrap(y));
    WrapSum(x, y);
    WrapSum(x + y, Wrap(z) / d);
    WrapOffset(x + y, Wrap(z) / d, z / d);
  }

  lemma RemainderProduct(m: nat, k: nat, d: nat)
    requires m < d && k < d
    ensures m * k < d * d
  {
    MulMonotone(m, k, d);
    MulGap(d, m, d);
    assert m * d == d * m;
  }

  lemma WrapOffset(w: nat, x: nat, y: nat)
    requires x <= y < U64
    ensures Wrap(w + x) == Wrap(w + y) <==> x == y
  {
  }

  // Division of a double word

  lemma DivMod(x: nat, d: nat)
    requires 0 < d
    ensures x == d * Div(x, d) + Mod(x, d)
  {
  }

  /** One step of the long division: the remainder carried over to the next 32 bits. */
  lemma CarryOver(x: nat, d: nat)
    requires 0 < d
    ensures x * U32 == d * (Div(x, d) * U32) + Mod(x, d) * U32
  {
    hide Div, Mod;
    DivMod(x, d);
    MulAssoc(d, Div(x, d), U32);
  }

  /** The quotient digits and the remainders of the two steps and of the low word. */
  lemma LongDivision(low: nat, high: nat, d: nat, first: nat, second: nat)
    requires 0 < d && first == Mod(high, d) * U32 && second == Mod(first, d) * U32
    ensures var whole := Div(high, d) * U64 + Div(first, d) * U32 + Div(second, d) + Div(low, d);
      high * U64 + low == d * whole + (Mod(second, d) + Mod(low, d))
  {
    hide Div, Mod;
    CarryOver(high, d);
    CarryOver(first, d);
    DivMod(second, d);
    DivMod(low, d);
    SumOfRemainders(low, high, d, Div(high, d), first, Div(first, d), second, Div(second, d), Div(low, d), Mod(second, d), Mod(low, d));
  }

  lemma SumOfRemainders(low: nat, high: nat, d: nat, h: nat, first: nat, f: nat, second: nat, s: nat, t: nat, r: nat, l: nat)
    requires high * U32 == d * (h * U32) + first && first * U32 == d * (f * U32) + second
    requires second == d * s + r && low == d * t + l
    ensures high * U64 + low == d * (h * U64 + f * U32 + s + t) + (r + l)
  {
    MulAssoc(d, h, U32);
    MulAssoc(d, h, U64);
    MulAssoc(d, f, U32);
    MulDistributes(d, h * U64, f * U32);
    MulDistributes(d, h * U64 + f * U32, s);
    MulDistributes(d, h * U64 + f * U32 + s, t);
  }

  /** The shifted numbers fit in words. */
  lemma DigitFits(x: nat, d: nat)
    requires x < d < U32
    ensures x * U32 < U64 && Div(x * U32, d) < U32
  {
    MulGap(U32, x, d);
    DivBelow(x * U32, d, U32);
  }

  lemma WordQuotient(x: nat, d: nat)
    requires 0 < d && x < U64
    ensures x / d < U64 && Div(x, d) < U64
  {
    MulMonotone(U64, 1, d);
    DivBelow(x, d, U64);
  }

  lemma FinalQuotient(total: nat, d: nat, whole: nat, r: nat)
    requires total == d * whole + r && r < 2 * d
    ensures total / d == (if r >= d then whole + 1 else whole)
    ensures total % d == (if r >= d then r - d else r)
  {
    if r >= d {
      MulSucc(d, whole);
      DivUnique(total, d, whole + 1, r - d);
    } else {
      DivUnique(total, d, whole, r);
    }
  }

  lemma SumOfDigits(h: nat, x: nat, y: nat, l: nat)
    ensures Wrap(Wrap(l + x) + y) == Wrap(h * U64 + x + y + l)
    ensures Wrap(Wrap(Wrap(l + x) + y) + 1) == Wrap(h * U64 + x + y + l + 1)
  {
    WrapSum(l + x, y);
    WrapSum(l + x + y, 1);
    AddMultiple(l + x + y, U64, h);
    AddMultiple(l + x + y + 1, U64, h);
  }

  /** Divide high * 2^64 + low; the quotient is reduced to a word. */
  method Divide128On32(low: u64, high: u64, divisor: nat) returns (accum: u64, remainder: u64)
    requires 0 < divisor < U32
    ensures remainder == (high * U64 + low) % divisor
    ensures accum == Wrap((high * U64 + low) / divisor)
  {
    hide Div, Mod, Wrap;
    WordQuotient(low, divisor);
    remainder, accum := Mod(low, divisor), Div(low, divisor);
    if high == 0 {
      PlainDivision(low, divisor);
      return;
    }
    DigitFits(Mod(high, divisor), divisor);
    var first: u64 := Mod(high, divisor) * U32;
    DigitFits(Mod(first, divisor), divisor);
    var second: u64 := Mod(first, divisor) * U32;
    WordQuotient(second, divisor);
    LongDivision(low, high, divisor, first, second);
    SumOfDigits(Div(high, divisor), Div(first, divisor) * U32, Div(second, divisor), Div(low, divisor));
    FinalQuotient(high * U64 + low, divisor,
      Div(high, divisor) * U64 + Div(first, divisor) * U32 + Div(second, divisor) + Div(low, divisor),
      Mod(second, divisor) + Mod(low, divisor));
    accum := AddWord(accum, Div(first, divisor) * U32);
    accum := AddWord(accum, Div(second, divisor));
    remainder := remainder + Mod(second, divisor);
    if remainder >= divisor {
      accum := AddWord(accum, 1);
      remainder := remainder - divisor;
    }
  }

  lemma PlainDivision(x: u64, d: nat)
    requires 0 < d
    ensures Mod(x, d) == x % d && Div(x, d) < U64 && Div(x, d) == Wrap(x / d)
  {
    WordQuotient(x, d);
    WrapSmall(x / d);
  }
}
