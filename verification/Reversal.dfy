/**
 The mask-and-shift reversal of a 16-bit field agrees with reversing its digits one by one.
 A word is handled here as the list of its binary digits, least significant first.
 */
module Reversal {
  import opened Binary

  ghost predicate Digits(b: seq<nat>) {
    forall i :: 0 <= i < |b| ==> b[i] < 2
  }

  ghost function Val(b: seq<nat>): nat {
    if b == [] then 0 else b[0] + 2 * Val(b[1..])
  }

  ghost function Both(a: seq<nat>, b: seq<nat>): (r: seq<nat>)
    requires |a| == |b|
    ensures |r| == |a|
  {
    seq(|a|, i requires 0 <= i < |a| => if a[i] == 1 && b[i] == 1 then 1 else 0)
  }

  ghost function Either(a: seq<nat>, b: seq<nat>): (r: seq<nat>)
    requires |a| == |b|
    ensures |r| == |a|
  {
    seq(|a|, i requires 0 <= i < |a| => if a[i] == 0 && b[i] == 0 then 0 else 1)
  }

  lemma {:induction false} AndVal(a: seq<nat>, b: seq<nat>)
    requires |a| == |b| && Digits(a) && Digits(b)
    ensures And(Val(a), Val(b)) == Val(Both(a, b))
  {
    if a != [] {
      AndVal(a[1..], b[1..]);
      assert Both(a, b)[1..] == Both(a[1..], b[1..]);
      AndStep(a[0], Val(a[1..]), b[0], Val(b[1..]));
    }
  }

  lemma AndStep(x: nat, y: nat, u: nat, v: nat)
    requires x < 2 && u < 2
    ensures And(x + 2 * y, u + 2 * v) == (if x == 1 && u == 1 then 1 else 0) + 2 * And(y, v)
  {
  }

  lemma {:induction false} OrVal(a: seq<nat>, b: seq<nat>)
    requires |a| == |b| && Digits(a) && Digits(b)
    ensures Or(Val(a), Val(b)) == Val(Either(a, b))
  {
    if a != [] {
      OrVal(a[1..], b[1..]);
      assert Either(a, b)[1..] == Either(a[1..], b[1..]);
      OrStep(a[0], Val(a[1..]), b[0], Val(b[1..]));
    }
  }

  lemma OrStep(x: nat, y: nat, u: nat, v: nat)
    requires x < 2 && u < 2
    ensures Or(x + 2 * y, u + 2 * v) == (if x == 0 && u == 0 then 0 else 1) + 2 * Or(y, v)
  {
  }

  lemma {:induction false} ValAppend(a: seq<nat>, b: seq<nat>)
    ensures Val(a + b) == Val(a) + Shl(Val(b), |a|)
  {
    if a == [] {
      assert a + b == b;
    } else {
      ValAppend(a[1..], b);
      assert (a + b)[1..] == a[1..] + b;
    }
  }

  lemma {:induction false} ValBound(a: seq<nat>)
    requires Digits(a)
    ensures Val(a) < Pow2(|a|)
  {
    if a != [] {
      ValBound(a[1..]);
    }
  }

  ghost function Zeros(n: nat): (r: seq<nat>)
    ensures |r| == n
  {
    seq(n, i => 0)
  }

  lemma {:induction false} ValZeros(n: nat)
    ensures Val(Zeros(n)) == 0
  {
    if n > 0 {
      ValZeros(n - 1);
      assert Zeros(n)[1..] == Zeros(n - 1);
    }
  }

  lemma ValShiftRight(low: seq<nat>, high: seq<nat>)
    requires Digits(low)
    ensures Shr(Val(low + high), |low|) == Val(high)
  {
    ValAppend(low, high);
    ValBound(low);
    FieldBelow(Val(low), Val(high), |low|);
  }

  lemma ValShiftLeft(b: seq<nat>, w: nat)
    ensures Shl(Val(b), w) == Val(Zeros(w) + b)
  {
    ValZeros(w);
    ValAppend(Zeros(w), b);
  }

  lemma ValTopZeros(b: seq<nat>, w: nat)
    ensures Val(b + Zeros(w)) == Val(b)
  {
    ValZeros(w);
    ValAppend(b, Zeros(w));
    ShlZero(|b|);
  }

  /** Whether digit i lies in the upper half of its block of 2w digits. */
  ghost predicate Upper(w: nat, i: nat) {
    if w == 1 then i % 2 == 1 else if w == 2 then i % 4 >= 2 else if w == 4 then i % 8 >= 4 else i >= 8
  }

  /** Ones in the upper (or, with the flag cleared, lower) half of every block. */
  ghost function Mask(w: nat, upper: bool): (r: seq<nat>)
    ensures |r| == 16 && Digits(r)
  {
    seq(16, i requires 0 <= i => if Upper(w, i) == upper then 1 else 0)
  }

  /** Adjacent blocks of w digits exchanged. */
  ghost function SwapBlocks(b: seq<nat>, w: nat): (r: seq<nat>)
    requires |b| == 16 && w in {1, 2, 4, 8}
    ensures |r| == 16
  {
    seq(16, i requires 0 <= i < 16 => if Upper(w, i) then b[i - w] else b[i + w])
  }

  lemma SwapDigits(b: seq<nat>, w: nat)
    requires |b| == 16 && w in {1, 2, 4, 8} && Digits(b)
    ensures Digits(SwapBlocks(b, w))
  {
  }

  lemma UpperHalf(b: seq<nat>, w: nat)
    requires |b| == 16 && Digits(b) && w in {1, 2, 4, 8}
    ensures Shr(And(Val(b), Val(Mask(w, true))), w) == Val(Both(b, Mask(w, true))[w..] + Zeros(w))
  {
    var hi := Both(b, Mask(w, true));
    AndVal(b, Mask(w, true));
    assert hi == hi[..w] + hi[w..];
    assert Digits(hi[..w]);
    ValShiftRight(hi[..w], hi[w..]);
    ValTopZeros(hi[w..], w);
  }

  lemma LowerHalf(b: seq<nat>, w: nat)
    requires |b| == 16 && Digits(b) && w in {1, 2, 4, 8}
    ensures Shl(And(Val(b), Val(Mask(w, false))), w) == Val(Zeros(w) + Both(b, Mask(w, false))[..16 - w])
  {
    var lo := Both(b, Mask(w, false));
    AndVal(b, Mask(w, false));
    forall i | 16 - w <= i < 16
      ensures lo[i] == 0
    {
      assert Upper(w, i);
    }
    assert lo[16 - w..] == Zeros(w);
    assert lo == lo[..16 - w] + lo[16 - w..];
    ValTopZeros(lo[..16 - w], w);
    ValShiftLeft(lo[..16 - w], w);
  }

  lemma HalvesCombine(b: seq<nat>, w: nat)
    requires |b| == 16 && Digits(b) && w in {1, 2, 4, 8}
    ensures Either(Both(b, Mask(w, true))[w..] + Zeros(w), Zeros(w) + Both(b, Mask(w, false))[..16 - w])
            == SwapBlocks(b, w)
  {
    var hi, lo := Both(b, Mask(w, true))[w..] + Zeros(w), Zeros(w) + Both(b, Mask(w, false))[..16 - w];
    forall i | 0 <= i < 16
      ensures Either(hi, lo)[i] == SwapBlocks(b, w)[i]
    {
      assert hi[i] == if i + w < 16 then Both(b, Mask(w, true))[i + w] else 0;
      assert lo[i] == if i < w then 0 else Both(b, Mask(w, false))[i - w];
      UpperShift(w, i);
    }
  }

  lemma UpperShift(w: nat, i: nat)
    requires w in {1, 2, 4, 8} && i < 16
    ensures Upper(w, i) ==> w <= i && !Upper(w, i - w) && (i + w < 16 ==> !Upper(w, i + w))
    ensures !Upper(w, i) ==> i + w < 16 && Upper(w, i + w) && (w <= i ==> Upper(w, i - w))
  {
  }

  lemma Stage(b: seq<nat>, w: nat)
    requires |b| == 16 && Digits(b) && w in {1, 2, 4, 8}
    ensures Or(Shr(And(Val(b), Val(Mask(w, true))), w), Shl(And(Val(b), Val(Mask(w, false))), w))
            == Val(SwapBlocks(b, w))
  {
    UpperHalf(b, w);
    LowerHalf(b, w);
    var hi, lo := Both(b, Mask(w, true))[w..] + Zeros(w), Zeros(w) + Both(b, Mask(w, false))[..16 - w];
    assert Digits(hi) && Digits(lo);
    OrVal(hi, lo);
    HalvesCombine(b, w);
  }

  lemma ValNibble(b: seq<nat>)
    requires |b| == 4
    ensures Val(b) == b[0] + 2 * b[1] + 4 * b[2] + 8 * b[3]
  {
    assert b[1..][1..] == b[2..];
    assert b[2..][1..] == b[3..];
    assert b[3..][1..] == [];
    assert Val(b[3..]) == b[3];
    assert Val(b[2..]) == b[2] + 2 * b[3];
  }

  lemma Shl4(x: nat)
    ensures Shl(x, 4) == 16 * x
  {
    assert Shl(x, 1) == 2 * x;
    assert Shl(x, 2) == 4 * x;
    assert Shl(x, 3) == 8 * x;
  }

  lemma ValNibbles(b: seq<nat>)
    requires |b| == 16
    ensures Val(b) == Val(b[..4]) + 16 * Val(b[4..8]) + 256 * Val(b[8..12]) + 4096 * Val(b[12..])
  {
    assert b == b[..4] + b[4..];
    ValAppend(b[..4], b[4..]);
    Shl4(Val(b[4..]));
    assert b[4..] == b[4..8] + b[8..];
    ValAppend(b[4..8], b[8..]);
    Shl4(Val(b[8..]));
    assert b[8..] == b[8..12] + b[12..];
    ValAppend(b[8..12], b[12..]);
    Shl4(Val(b[12..]));
  }

  lemma ValWord(b: seq<nat>)
    requires |b| == 16
    ensures Val(b) == b[0] + 2 * b[1] + 4 * b[2] + 8 * b[3]
                      + 16 * b[4] + 32 * b[5] + 64 * b[6] + 128 * b[7]
                      + 256 * b[8] + 512 * b[9] + 1024 * b[10] + 2048 * b[11]
                      + 4096 * b[12] + 8192 * b[13] + 16384 * b[14] + 32768 * b[15]
  {
    ValNibbles(b);
    ValNibble(b[..4]);
    ValNibble(b[4..8]);
    ValNibble(b[8..12]);
    ValNibble(b[12..]);
  }

  lemma MaskVal1()
    ensures Val(Mask(1, true)) == 0xAAAA && Val(Mask(1, false)) == 0x5555
  {
    ValWord(Mask(1, true));
    ValWord(Mask(1, false));
  }

  lemma MaskVal2()
    ensures Val(Mask(2, true)) == 0xCCCC && Val(Mask(2, false)) == 0x3333
  {
    ValWord(Mask(2, true));
    ValWord(Mask(2, false));
  }

  lemma MaskVal4()
    ensures Val(Mask(4, true)) == 0xF0F0 && Val(Mask(4, false)) == 0x0F0F
  {
    ValWord(Mask(4, true));
    ValWord(Mask(4, false));
  }

  lemma MaskVal8()
    ensures Val(Mask(8, true)) == 0xFF00 && Val(Mask(8, false)) == 0x00FF
  {
    ValWord(Mask(8, true));
    ValWord(Mask(8, false));
  }

  ghost function Reverse(b: seq<nat>): (r: seq<nat>)
    ensures |r| == |b|
  {
    seq(|b|, i requires 0 <= i < |b| => b[|b| - 1 - i])
  }

  lemma {:induction false} RevVal(b: seq<nat>)
    requires Digits(b)
    ensures Rev(Val(b), |b|) == Val(Reverse(b))
  {
    if b != [] {
      RevVal(b[1..]);
      assert Reverse(b) == Reverse(b[1..]) + [b[0]];
      ValAppend(Reverse(b[1..]), [b[0]]);
      assert Val([b[0]]) == b[0];
    }
  }

  /** The place that place i is exchanged with. */
  ghost function Partner(w: nat, i: nat): (j: nat)
    requires w in {1, 2, 4, 8} && i < 16
    ensures j < 16
  {
    if Upper(w, i) then i - w else i + w
  }

  lemma SwapAt(b: seq<nat>, w: nat, i: nat)
    requires |b| == 16 && w in {1, 2, 4, 8} && i < 16
    ensures SwapBlocks(b, w)[i] == b[Partner(w, i)]
  {
  }

  lemma Partners(i: nat)
    requires i < 16
    ensures Partner(1, Partner(2, Partner(4, Partner(8, i)))) == 15 - i
  {
  }

  lemma SwapAll(b: seq<nat>)
    requires |b| == 16
    ensures SwapBlocks(SwapBlocks(SwapBlocks(SwapBlocks(b, 1), 2), 4), 8) == Reverse(b)
  {
    hide SwapBlocks, Partner;
    var b1 := SwapBlocks(b, 1);
    var b2 := SwapBlocks(b1, 2);
    var b3 := SwapBlocks(b2, 4);
    forall i | 0 <= i < 16
      ensures SwapBlocks(b3, 8)[i] == Reverse(b)[i]
    {
      Partners(i);
      SwapAt(b3, 8, i);
      SwapAt(b2, 4, Partner(8, i));
      SwapAt(b1, 2, Partner(4, Partner(8, i)));
      SwapAt(b, 1, Partner(2, Partner(4, Partner(8, i))));
    }
  }

  ghost function DigitsOf(n: nat, k: nat): (r: seq<nat>)
    ensures |r| == k && Digits(r)
  {
    if k == 0 then [] else [n % 2] + DigitsOf(n / 2, k - 1)
  }

  lemma {:induction false} ValDigits(n: nat, k: nat)
    ensures Val(DigitsOf(n, k)) == Low(n, k)
  {
    if k > 0 {
      ValDigits(n / 2, k - 1);
    }
  }

  lemma {:induction false} AndLow(n: nat, m: nat, k: nat)
    requires m < Pow2(k)
    ensures And(n, m) == And(Low(n, k), m)
  {
    if k > 0 {
      AndLow(n / 2, m / 2, k - 1);
      AndStep(n % 2, n / 2, m % 2, m / 2);
      AndStep(n % 2, Low(n / 2, k - 1), m % 2, m / 2);
    }
  }

  /** One step of the reversal: the bits under the two masks change places. */
  function Exchange(v: nat, high: nat, low: nat, w: nat): nat {
    Or(Shr(And(v, high), w), Shl(And(v, low), w))
  }

  function BitReverse16(v: nat): nat {
    Exchange(Exchange(Exchange(Exchange(v, 0xAAAA, 0x5555, 1), 0xCCCC, 0x3333, 2), 0xF0F0, 0x0F0F, 4), 0xFF00, 0x00FF, 8)
  }

  lemma Stage1(b: seq<nat>)
    requires |b| == 16 && Digits(b)
    ensures Exchange(Val(b), 0xAAAA, 0x5555, 1) == Val(SwapBlocks(b, 1))
  {
    MaskVal1();
    Stage(b, 1);
  }

  lemma Stage2(b: seq<nat>)
    requires |b| == 16 && Digits(b)
    ensures Exchange(Val(b), 0xCCCC, 0x3333, 2) == Val(SwapBlocks(b, 2))
  {
    MaskVal2();
    Stage(b, 2);
  }

  lemma Stage4(b: seq<nat>)
    requires |b| == 16 && Digits(b)
    ensures Exchange(Val(b), 0xF0F0, 0x0F0F, 4) == Val(SwapBlocks(b, 4))
  {
    MaskVal4();
    Stage(b, 4);
  }

  lemma Stage8(b: seq<nat>)
    requires |b| == 16 && Digits(b)
    ensures Exchange(Val(b), 0xFF00, 0x00FF, 8) == Val(SwapBlocks(b, 8))
  {
    MaskVal8();
    Stage(b, 8);
  }

  lemma FourStages(b: seq<nat>)
    requires |b| == 16 && Digits(b)
    ensures BitReverse16(Val(b)) == Val(SwapBlocks(SwapBlocks(SwapBlocks(SwapBlocks(b, 1), 2), 4), 8))
  {
    Stage1(b);
    SwapDigits(b, 1);
    var b1 := SwapBlocks(b, 1);
    Stage2(b1);
    SwapDigits(b1, 2);
    var b2 := SwapBlocks(b1, 2);
    Stage4(b2);
    SwapDigits(b2, 4);
    Stage8(SwapBlocks(b2, 4));
  }

  lemma ExchangeLow(v: nat)
    ensures BitReverse16(v) == BitReverse16(Low(v, 16))
  {
    assert Pow2(16) == 65536 by { Pow2Values(); }
    AndLow(v, 0xAAAA, 16);
    AndLow(v, 0x5555, 16);
  }

  /** The four swaps reverse the low 16 bits and ignore the rest. */
  lemma BitReverse16IsRev(v: nat)
    ensures BitReverse16(v) == Rev(v, 16)
  {
    assert Pow2(16) == 65536 by { Pow2Values(); }
    var b := DigitsOf(v, 16);
    ValDigits(v, 16);
    ExchangeLow(v);
    FourStages(b);
    SwapAll(b);
    RevVal(b);
    RevLow(v, 16);
  }

  function BitReverse(v: nat, bits: nat): nat
    requires bits <= 16
  {
    Shr(BitReverse16(v), 16 - bits)
  }

  /** Reversing a field of at most 16 bits: reverse 16 and drop the low zeros. */
  lemma BitReverseIsRev(v: nat, bits: nat)
    requires bits <= 16
    requires v < Pow2(bits) || bits == 16
    ensures BitReverse(v, bits) == Rev(v, bits)
  {
    BitReverse16IsRev(v);
    RevTopField(v, bits);
  }

  lemma RevTopField(v: nat, bits: nat)
    requires bits <= 16
    requires v < Pow2(bits) || bits == 16
    ensures Shr(Rev(v, 16), 16 - bits) == Rev(v, bits)
  {
    if bits < 16 {
      RevPadded(v, bits, 16 - bits);
      assert bits + (16 - bits) == 16;
      FieldBelow(0, Rev(v, bits), 16 - bits);
    }
  }
}
