/**
 Rows packed from samples: the inverse of reading the samples of a row (section 7.2 of the PNG specification).
 */
module Packing {
  import opened Binary
  import opened BitStream
  import opened PngPixels

  /** Sample i of a row, zero outside it. */
  function Read(f: Format, row: seq<byte>, i: nat): nat
    requires f.Valid()
  {
    if InRow(|row|, f.depth, i) then Sample(row, f.depth, i) else 0
  }

  lemma ReadBelow(f: Format, row: seq<byte>, i: nat)
    requires f.Valid()
    ensures Read(f, row, i) < Pow2(f.depth)
  {
    Pow2Values();
  }

  function ValueAt(vs: seq<nat>, i: nat): nat {
    if i < |vs| then vs[i] else 0
  }

  predicate Fit(vs: seq<nat>, depth: nat) {
    forall i :: 0 <= i < |vs| ==> vs[i] < Pow2(depth)
  }

  /** The n numbers of the given depth from position `from` on, the first one in the high bits. */
  function Digits(vs: seq<nat>, depth: nat, from: nat, n: nat): nat
    decreases n
  {
    if n == 0 then 0 else Shl(Digits(vs, depth, from, n - 1), depth) + ValueAt(vs, from + n - 1)
  }

  lemma LastDigit(vs: seq<nat>, depth: nat, from: nat, n: nat)
    requires Fit(vs, depth) && 0 < n
    ensures Low(Digits(vs, depth, from, n), depth) == ValueAt(vs, from + n - 1)
    ensures Shr(Digits(vs, depth, from, n), depth) == Digits(vs, depth, from, n - 1)
  {
    FieldBelow(ValueAt(vs, from + n - 1), Digits(vs, depth, from, n - 1), depth);
  }

  lemma Pow2Sum(m: nat, n: nat)
    ensures Shl(Pow2(m), n) == Pow2(m + n)
  {
    Pow2IsShl(m);
    Pow2IsShl(m + n);
    ShlShl(1, m, n);
  }

  lemma {:induction false} DigitsBelow(vs: seq<nat>, depth: nat, from: nat, n: nat)
    requires Fit(vs, depth)
    ensures Digits(vs, depth, from, n) < Pow2(n * depth)
    decreases n
  {
    if n > 0 {
      DigitsBelow(vs, depth, from, n - 1);
      LastDigit(vs, depth, from, n);
      ShrBound(Digits(vs, depth, from, n), depth, Pow2((n - 1) * depth));
      Pow2Sum((n - 1) * depth, depth);
      MulSum(n - 1, 1, depth);
    }
  }

  /** The digit above the last `below` ones. */
  function DigitAbove(v: nat, depth: nat, below: nat): nat
    decreases below, v
  {
    if below == 0 then Low(v, depth) else DigitAbove(Shr(v, depth), depth, below - 1)
  }

  lemma {:induction false} DigitAboveIs(v: nat, depth: nat, below: nat)
    ensures DigitAbove(v, depth, below) == Low(Shr(v, below * depth), depth)
    decreases below
  {
    if below == 0 {
      assert Shr(v, 0) == v;
    } else {
      hide Shr, Low;
      DigitAboveIs(Shr(v, depth), depth, below - 1);
      ShrShr(v, depth, (below - 1) * depth);
      assert depth + (below - 1) * depth == below * depth by { MulSum(1, below - 1, depth); }
    }
  }

  lemma {:induction false} DigitAt(vs: seq<nat>, depth: nat, from: nat, n: nat, r: nat)
    requires Fit(vs, depth) && r < n
    ensures DigitAbove(Digits(vs, depth, from, n), depth, n - 1 - r) == ValueAt(vs, from + r)
    decreases n
  {
    hide Digits, Low, Shr, Pow2, ValueAt, Fit;
    LastDigit(vs, depth, from, n);
    if r < n - 1 {
      DigitAt(vs, depth, from, n - 1, r);
    }
  }

  /** Byte k of a row of samples of less than eight bits. */
  function PackByte(vs: seq<nat>, depth: nat, k: nat): byte
    requires depth in {1, 2, 4} && Fit(vs, depth)
  {
    DigitsBelow(vs, depth, k * (8 / depth), 8 / depth);
    Pow2Values();
    Digits(vs, depth, k * (8 / depth), 8 / depth)
  }

  lemma PackedDigit(vs: seq<nat>, depth: nat, k: nat, r: nat)
    requires depth in {1, 2, 4} && Fit(vs, depth) && r < 8 / depth
    ensures Digit(PackByte(vs, depth, k), depth, r) == ValueAt(vs, k * (8 / depth) + r)
  {
    hide Low, Shr, Digits, Fit, Pow2, ValueAt, DigitAbove;
    DigitAt(vs, depth, k * (8 / depth), 8 / depth, r);
    DigitAboveIs(PackByte(vs, depth, k), depth, 8 / depth - 1 - r);
    DigitShift(depth, r);
  }

  lemma DigitShift(depth: nat, r: nat)
    requires depth in {1, 2, 4} && r < 8 / depth
    ensures (8 / depth - 1 - r) * depth == 8 - depth - depth * r
  {
  }

  /** The row of x pixels with the given samples. */
  function PackRow(f: Format, x: nat, vs: seq<nat>): (row: seq<byte>)
    requires f.Valid() && |vs| == f.imgN * x && Fit(vs, f.depth)
    ensures |row| == f.RowBytes(x)
  {
    Pow2Values();
    if f.depth < 8 then seq(f.RowBytes(x), k requires 0 <= k => PackByte(vs, f.depth, k))
    else if f.depth == 8 then seq(f.RowBytes(x), k requires 0 <= k => ValueAt(vs, k) as byte)
    else seq(f.RowBytes(x), k requires 0 <= k => (if k % 2 == 0 then ValueAt(vs, k / 2) / 256 else ValueAt(vs, k / 2) % 256) as byte)
  }

  /** Reading a packed row gives the samples back. */
  lemma PackedSample(f: Format, x: nat, vs: seq<nat>, i: nat)
    requires f.Valid() && |vs| == f.imgN * x && Fit(vs, f.depth) && i < |vs|
    ensures InRow(f.RowBytes(x), f.depth, i) && Read(f, PackRow(f, x, vs), i) == vs[i]
  {
    SampleInRow(f, x, i);
    if f.depth < 8 {
      PackedLow(f, x, vs, i);
    } else {
      ShapeOfRow(f, x);
      if f.depth == 16 {
        assert (2 * i) / 2 == i && (2 * i + 1) / 2 == i && (2 * i) % 2 == 0 && (2 * i + 1) % 2 == 1;
      }
    }
  }

  lemma PackedLow(f: Format, x: nat, vs: seq<nat>, i: nat)
    requires f.Valid() && f.depth < 8 && |vs| == f.imgN * x && Fit(vs, f.depth) && i < |vs|
    requires InRow(f.RowBytes(x), f.depth, i)
    ensures Read(f, PackRow(f, x, vs), i) == vs[i]
  {
    hide PackByte, Digit, Fit, Format.RowBytes;
    var per := 8 / f.depth;
    PackedDigit(vs, f.depth, i / per, i % per);
    assert i / per * per + i % per == i;
    assert PackRow(f, x, vs)[i / per] == PackByte(vs, f.depth, i / per);
  }
}
