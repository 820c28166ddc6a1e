/**
 The compressed data as a stream of bits (section 3.1.1 of RFC 1951): bytes in order,
 each byte from its least significant bit, continued with zeros past the last byte.
 */
module BitStream {
  import opened Binary

  type byte = x: int | 0 <= x < 256

  function StreamBit(data: seq<byte>, i: nat): (b: nat)
    ensures b < 2
  {
    if i / 8 < |data| then Shr(data[i / 8], i % 8) % 2 else 0
  }

  /** The n bits at position p as a number, first bit least significant. */
  function BitsAt(data: seq<byte>, p: nat, n: nat): (v: nat)
    decreases n, p
  {
    if n == 0 then 0 else StreamBit(data, p) + 2 * BitsAt(data, p + 1, n - 1)
  }

  /** The n bits at position p as a Huffman code, first bit most significant. */
  function CodeAt(data: seq<byte>, p: nat, n: nat): (v: nat)
    decreases n, p
  {
    if n == 0 then 0 else 2 * CodeAt(data, p, n - 1) + StreamBit(data, p + n - 1)
  }

  lemma {:induction false} BitsBound(data: seq<byte>, p: nat, n: nat)
    ensures BitsAt(data, p, n) < Pow2(n)
    decreases n
  {
    if n > 0 {
      BitsBound(data, p + 1, n - 1);
    }
  }

  lemma {:induction false} BitsSplit(data: seq<byte>, p: nat, m: nat, n: nat)
    ensures BitsAt(data, p, m + n) == BitsAt(data, p, m) + Shl(BitsAt(data, p + m, n), m)
    decreases m
  {
    if m > 0 {
      BitsSplit(data, p + 1, m - 1, n);
      assert m + n - 1 == m - 1 + n && p + 1 + (m - 1) == p + m;
    }
  }

  /** Consuming m bits of a field: the mask returns them and the shift keeps the rest. */
  lemma BitsConsume(data: seq<byte>, p: nat, m: nat, n: nat)
    ensures Low(BitsAt(data, p, m + n), m) == BitsAt(data, p, m)
    ensures Shr(BitsAt(data, p, m + n), m) == BitsAt(data, p + m, n)
  {
    BitsSplit(data, p, m, n);
    BitsBound(data, p, m);
    FieldBelow(BitsAt(data, p, m), BitsAt(data, p + m, n), m);
  }

  lemma {:induction false} BitsWithinByte(data: seq<byte>, j: nat, k: nat)
    requires k <= 8
    ensures BitsAt(data, 8 * j + k, 8 - k) == if j < |data| then Shr(data[j], k) else 0
    decreases 8 - k
  {
    if k == 8 {
      if j < |data| {
        Pow2Values();
        LowSmall(data[j], 8);
      }
    } else {
      BitsWithinByte(data, j, k + 1);
      assert (8 * j + k) / 8 == j && (8 * j + k) % 8 == k;
      if j < |data| {
        ShrShr(data[j], k, 1);
        assert Shr(data[j], k + 1) == Shr(data[j], k) / 2;
      }
    }
  }

  /** Eight bits at a byte boundary are that byte, or zero past the end. */
  lemma ByteBits(data: seq<byte>, j: nat)
    ensures BitsAt(data, 8 * j, 8) == if j < |data| then data[j] else 0
  {
    BitsWithinByte(data, j, 0);
  }

  /** Past the end the stream is zero. */
  lemma {:induction false} BitsPastEnd(data: seq<byte>, p: nat, n: nat)
    requires 8 * |data| <= p
    ensures BitsAt(data, p, n) == 0
    decreases n
  {
    if n > 0 {
      BitsPastEnd(data, p + 1, n - 1);
    }
  }

  /** Reversing a field read least significant bit first gives the code read most significant first. */
  lemma {:induction false} RevBits(data: seq<byte>, p: nat, n: nat)
    ensures Rev(BitsAt(data, p, n), n) == CodeAt(data, p, n)
    decreases n
  {
    if n > 0 {
      RevBits(data, p, n - 1);
      LastBit(data, p, n - 1);
      RevAppend(BitsAt(data, p, n), n - 1);
    }
  }

  lemma RevAppend(v: nat, n: nat)
    requires Shr(v, n) < 2
    ensures Rev(v, n + 1) == 2 * Rev(Low(v, n), n) + Shr(v, n)
  {
    RevTop(v, n);
    RevLow(v, n);
  }

  lemma LastBit(data: seq<byte>, p: nat, n: nat)
    ensures Low(BitsAt(data, p, n + 1), n) == BitsAt(data, p, n)
    ensures Shr(BitsAt(data, p, n + 1), n) == StreamBit(data, p + n)
  {
    BitsConsume(data, p, n, 1);
    assert BitsAt(data, p + n, 1) == StreamBit(data, p + n);
  }

  lemma {:induction false} CodeBound(data: seq<byte>, p: nat, n: nat)
    ensures CodeAt(data, p, n) < Pow2(n)
  {
    if n > 0 {
      CodeBound(data, p, n - 1);
    }
  }

  lemma {:induction false} CodeSplit(data: seq<byte>, p: nat, m: nat, n: nat)
    ensures CodeAt(data, p, m + n) == CodeAt(data, p + m, n) + Shl(CodeAt(data, p, m), n)
    decreases n
  {
    if n > 0 {
      CodeSplit(data, p, m, n - 1);
    }
  }

  /** The leading m bits of a window of m + n bits. */
  lemma CodePrefix(data: seq<byte>, p: nat, m: nat, n: nat)
    ensures Shr(CodeAt(data, p, m + n), n) == CodeAt(data, p, m)
  {
    CodeSplit(data, p, m, n);
    CodeBound(data, p + m, n);
    FieldBelow(CodeAt(data, p + m, n), CodeAt(data, p, m), n);
  }
}
