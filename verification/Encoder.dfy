/**
 A reference encoder for blocks with the fixed codes: every list of tokens has an
 encoding, and the decoder gives back exactly what the tokens stand for.
 */
module Encoder {
  import opened Options
  import opened Binary
  import opened BitStream
  import opened Canonical
  import opened Huffman
  import opened Lz77
  import opened InflateBlock
  import opened Deflate
  import opened Zlib

  type bit = b: int | 0 <= b < 2

  /** n bits of v, most significant first: a Huffman code. */
  function CodeBits(v: nat, n: nat): (r: seq<bit>)
    ensures |r| == n
    decreases n, v
  {
    if n == 0 then [] else CodeBits(v / 2, n - 1) + [v % 2]
  }

  /** n bits of v, least significant first: an extra field. */
  function FieldBits(v: nat, n: nat): (r: seq<bit>)
    ensures |r| == n
    decreases n, v
  {
    if n == 0 then [] else [v % 2] + FieldBits(v / 2, n - 1)
  }

  /** The given bits stand in the stream at position p. */
  ghost predicate BitsStand(data: seq<byte>, p: nat, bits: seq<bit>) {
    forall i {:trigger bits[i]} :: 0 <= i < |bits| ==> StreamBit(data, p + i) == bits[i]
  }

  lemma BitsStandSplit(data: seq<byte>, p: nat, a: seq<bit>, b: seq<bit>)
    requires BitsStand(data, p, a + b)
    ensures BitsStand(data, p, a) && BitsStand(data, p + |a|, b)
  {
    forall i | 0 <= i < |a|
      ensures StreamBit(data, p + i) == a[i]
    {
      assert (a + b)[i] == a[i];
    }
    forall i | 0 <= i < |b|
      ensures StreamBit(data, p + |a| + i) == b[i]
    {
      assert (a + b)[|a| + i] == b[i];
    }
  }

  lemma {:induction false} CodeStands(data: seq<byte>, p: nat, v: nat, n: nat)
    requires v < Pow2(n) && BitsStand(data, p, CodeBits(v, n))
    ensures CodeAt(data, p, n) == v
    decreases n
  {
    if n > 0 {
      BitsStandSplit(data, p, CodeBits(v / 2, n - 1), [v % 2]);
      CodeStands(data, p, v / 2, n - 1);
      assert [v % 2][0] == v % 2;
    }
  }

  lemma {:induction false} FieldStands(data: seq<byte>, p: nat, v: nat, n: nat)
    requires v < Pow2(n) && BitsStand(data, p, FieldBits(v, n))
    ensures BitsAt(data, p, n) == v
    decreases n
  {
    if n > 0 {
      BitsStandSplit(data, p, [v % 2], FieldBits(v / 2, n - 1));
      FieldStands(data, p + 1, v / 2, n - 1);
      assert [v % 2][0] == v % 2;
    }
  }

  // Tokens

  predicate HasCode(sl: seq<nat>, i: nat) {
    i < |sl| && 0 < sl[i]
  }

  function SymbolBits(sl: seq<nat>, i: nat): seq<bit>
    requires HasCode(sl, i)
  {
    CodeBits(Code(sl, i), sl[i])
  }

  /** All symbols of the token have codes, and the extra fields are in range. */
  predicate Encodable(c: Codes, t: Token) {
    match t
    case Literal(sym) => sym < 256 && HasCode(c.lit, sym)
    case Copy(lsym, lextra, dsym, dextra) =>
      && 257 <= lsym < 286 && HasCode(c.lit, lsym) && lextra < Pow2(LengthExtra(lsym - 257))
      && dsym < 30 && HasCode(c.dist, dsym) && dextra < Pow2(DistExtra(dsym))
  }

  lemma NextLength(z: nat)
    requires z < 28
    ensures z < 27 ==> LengthBase(z + 1) == LengthBase(z) + Pow2(LengthExtra(z))
    ensures z == 27 ==> LengthBase(z) + Pow2(LengthExtra(z)) == 259
    ensures LengthBase(0) == 3 && LengthBase(28) == 258 && LengthExtra(0) == LengthExtra(28) == 0
  {
    LengthTable(27);
    Pow2Values();
  }

  /** Every length from 3 to 258 has a symbol and an extra field. */
  lemma {:induction false} LengthReached(n: nat) returns (z: nat, x: nat)
    requires 3 <= n <= 258
    ensures z < 28 && x < Pow2(LengthExtra(z)) && LengthBase(z) + x == n
    decreases n
  {
    hide LengthBase, LengthExtra, Pow2;
    NextLength(0);
    z, x := 0, 0;
    if n > 3 {
      z, x := LengthReached(n - 1);
      NextLength(z);
      if x + 1 < Pow2(LengthExtra(z)) {
        x := x + 1;
      } else {
        z, x := z + 1, 0;
      }
    }
  }

  lemma NextDistance(z: nat)
    requires z < 30
    ensures z < 29 ==> DistBase(z + 1) == DistBase(z) + Pow2(DistExtra(z))
    ensures z == 29 ==> DistBase(z) + Pow2(DistExtra(z)) == 32769
    ensures DistBase(0) == 1 && DistExtra(0) == 0
  {
    hide DistBases, DistExtras;
    DistTable(29);
    LastDistance();
    Pow2Values();
  }

  lemma LastDistance()
    ensures DistBases()[29] == 24577
  {
  }

  /** Every distance from 1 to 32768 has a symbol and an extra field. */
  lemma {:induction false} DistanceReached(n: nat) returns (z: nat, x: nat)
    requires 1 <= n <= 32768
    ensures z < 30 && x < Pow2(DistExtra(z)) && DistBase(z) + x == n
    decreases n
  {
    hide DistBase, DistExtra, Pow2;
    NextDistance(0);
    z, x := 0, 0;
    if n > 1 {
      z, x := DistanceReached(n - 1);
      NextDistance(z);
      if x + 1 < Pow2(DistExtra(z)) {
        x := x + 1;
      } else {
        z, x := z + 1, 0;
      }
    }
  }

  /** Every copy of section 3.2.5 of RFC 1951 can be written: lengths from 3 to 258, distances from 1 to 32768. */
  lemma EveryCopyEncodes(dist: nat, len: nat) returns (t: Token)
    requires 3 <= len <= 258 && 1 <= dist <= 32768
    ensures t.Copy? && Encodable(FixedCodes(), t) && CopyLength(t) == len && CopyDist(t) == dist
  {
    var z, x := LengthReached(len);
    var d, y := DistanceReached(dist);
    t := Copy(257 + z, x, d, y);
    assert HasCode(FixedLit(), 257 + z) && HasCode(FixedDist(), d);
  }

  function TokenBits(c: Codes, t: Token): seq<bit>
    requires Encodable(c, t)
  {
    match t
    case Literal(sym) => SymbolBits(c.lit, sym)
    case Copy(lsym, lextra, dsym, dextra) =>
      SymbolBits(c.lit, lsym) + FieldBits(lextra, LengthExtra(lsym - 257))
      + SymbolBits(c.dist, dsym) + FieldBits(dextra, DistExtra(dsym))
  }

  lemma SymbolStands(sl: seq<nat>, data: seq<byte>, p: nat, i: nat)
    requires Lengths(sl) && NotOversubscribed(sl) && HasCode(sl, i)
    requires BitsStand(data, p, SymbolBits(sl, i))
    ensures SymbolAt(sl, data, p, i)
  {
    CodeFits(sl, i);
    CodeStands(data, p, Code(sl, i), sl[i]);
  }

  ghost predicate Decodable(c: Codes) {
    Lengths(c.lit) && NotOversubscribed(c.lit) && Lengths(c.dist) && NotOversubscribed(c.dist)
  }

  lemma TokenStands(c: Codes, data: seq<byte>, p: nat, t: Token)
    requires Decodable(c) && Encodable(c, t) && BitsStand(data, p, TokenBits(c, t))
    ensures TokenAt(c, data, p, t) && TokenSize(c, t) == |TokenBits(c, t)|
  {
    match t {
      case Literal(sym) => SymbolStands(c.lit, data, p, sym);
      case Copy(lsym, lextra, dsym, dextra) => CopyStands(c, data, p, lsym, lextra, dsym, dextra);
    }
  }

  lemma CopyStands(c: Codes, data: seq<byte>, p: nat, lsym: nat, lextra: nat, dsym: nat, dextra: nat)
    requires Decodable(c) && Encodable(c, Copy(lsym, lextra, dsym, dextra))
    requires BitsStand(data, p, TokenBits(c, Copy(lsym, lextra, dsym, dextra)))
    ensures TokenAt(c, data, p, Copy(lsym, lextra, dsym, dextra))
  {
    hide CodeBits, FieldBits, BitsStand, SymbolAt, BitsAt, LengthExtra, DistExtra, Code, Lengths, NotOversubscribed, Pow2;
    var b1, b2 := SymbolBits(c.lit, lsym), FieldBits(lextra, LengthExtra(lsym - 257));
    var b3, b4 := SymbolBits(c.dist, dsym), FieldBits(dextra, DistExtra(dsym));
    FourStand(data, p, b1, b2, b3, b4);
    SymbolStands(c.lit, data, p, lsym);
    FieldStands(data, p + |b1|, lextra, LengthExtra(lsym - 257));
    SymbolStands(c.dist, data, p + |b1| + |b2|, dsym);
    FieldStands(data, p + |b1| + |b2| + |b3|, dextra, DistExtra(dsym));
  }

  lemma FourStand(data: seq<byte>, p: nat, b1: seq<bit>, b2: seq<bit>, b3: seq<bit>, b4: seq<bit>)
    requires BitsStand(data, p, b1 + b2 + b3 + b4)
    ensures BitsStand(data, p, b1) && BitsStand(data, p + |b1|, b2)
    ensures BitsStand(data, p + |b1| + |b2|, b3) && BitsStand(data, p + |b1| + |b2| + |b3|, b4)
  {
    hide BitsStand;
    BitsStandSplit(data, p, b1 + b2 + b3, b4);
    BitsStandSplit(data, p, b1 + b2, b3);
    BitsStandSplit(data, p, b1, b2);
  }

  predicate AllEncodable(c: Codes, ts: seq<Token>) {
    forall i :: 0 <= i < |ts| ==> Encodable(c, ts[i])
  }

  function TokensBits(c: Codes, ts: seq<Token>): seq<bit>
    requires AllEncodable(c, ts)
  {
    if ts == [] then [] else TokensBits(c, ts[..|ts| - 1]) + TokenBits(c, ts[|ts| - 1])
  }

  lemma {:induction false} TokensStand(c: Codes, data: seq<byte>, p: nat, ts: seq<Token>)
    requires Decodable(c) && AllEncodable(c, ts) && BitsStand(data, p, TokensBits(c, ts))
    ensures TokensAt(c, data, p, ts) && TokensSize(c, ts) == |TokensBits(c, ts)|
  {
    hide TokenBits, TokenAt, TokenSize, BitsStand, Decodable, Encodable;
    if ts != [] {
      var front := ts[..|ts| - 1];
      BitsStandSplit(data, p, TokensBits(c, front), TokenBits(c, ts[|ts| - 1]));
      TokensStand(c, data, p, front);
      TokenStands(c, data, p + TokensSize(c, front), ts[|ts| - 1]);
    }
  }

  function BlockBits(c: Codes, ts: seq<Token>): seq<bit>
    requires AllEncodable(c, ts) && HasCode(c.lit, END_OF_BLOCK)
  {
    TokensBits(c, ts) + SymbolBits(c.lit, END_OF_BLOCK)
  }

  /** For every usable code, the encoded block is read back as the same tokens. */
  lemma BlockStands(c: Codes, data: seq<byte>, p: nat, ts: seq<Token>)
    requires Decodable(c) && AllEncodable(c, ts) && HasCode(c.lit, END_OF_BLOCK)
    requires BitsStand(data, p, BlockBits(c, ts))
    ensures BlockAt(c, data, p, ts) && BlockEnd(c, p, ts) == p + |BlockBits(c, ts)|
  {
    hide BitsStand, TokensBits, TokensAt, TokensSize, CodeBits, Code, CodeAt, AllEncodable, NotOversubscribed, Lengths;
    BitsStandSplit(data, p, TokensBits(c, ts), SymbolBits(c.lit, END_OF_BLOCK));
    TokensStand(c, data, p, ts);
    SymbolStands(c.lit, data, p + TokensSize(c, ts), END_OF_BLOCK);
  }

  // Bytes

  /** The number whose low bits are the given ones, at most n of them from position p. */
  function Gather(bits: seq<bit>, p: nat, n: nat): (v: nat)
    ensures v < Pow2(n)
    decreases n, p
  {
    if n == 0 then 0 else (if p < |bits| then bits[p] else 0) + 2 * Gather(bits, p + 1, n - 1)
  }

  lemma {:induction false} GatherBit(bits: seq<bit>, p: nat, n: nat, i: nat)
    requires i < n
    ensures Shr(Gather(bits, p, n), i) % 2 == if p + i < |bits| then bits[p + i] else 0
    decreases i
  {
    if i > 0 {
      GatherBit(bits, p + 1, n - 1, i - 1);
      assert Gather(bits, p, n) / 2 == Gather(bits, p + 1, n - 1);
    }
  }

  function PackByte(bits: seq<bit>, k: nat): byte {
    assert Pow2(8) == 256 by { Pow2Values(); }
    Gather(bits, 8 * k, 8)
  }

  /** The bits in bytes, the last byte completed with zeros. */
  function Pack(bits: seq<bit>): (data: seq<byte>)
    ensures |data| == (|bits| + 7) / 8
  {
    seq((|bits| + 7) / 8, k requires 0 <= k => PackByte(bits, k))
  }

  lemma PackStands(bits: seq<bit>)
    ensures BitsStand(Pack(bits), 0, bits)
  {
    forall i | 0 <= i < |bits|
      ensures StreamBit(Pack(bits), 0 + i) == bits[i]
    {
      GatherBit(bits, 8 * (i / 8), 8, i % 8);
    }
  }

  // Streams

  /** Final block, fixed codes. */
  const FIXED_FLAGS: seq<bit> := [1, 1, 0]

  /** One final block with the fixed codes. */
  function FixedStream(ts: seq<Token>): seq<byte>
    requires AllEncodable(FixedCodes(), ts)
  {
    assert HasCode(FixedLit(), END_OF_BLOCK);
    Pack(FIXED_FLAGS + BlockBits(FixedCodes(), ts))
  }

  lemma FixedCodesDecodable()
    ensures Decodable(FixedCodes()) && HasCode(FixedLit(), END_OF_BLOCK)
  {
    hide KraftSum, NotOversubscribed;
    FixedCodesUsable();
    KraftInequality(FixedLit());
    KraftInequality(FixedDist());
    assert HasCode(FixedLit(), END_OF_BLOCK);
  }

  /** Every encodable list of tokens has a complete encoding of what it stands for. */
  lemma FixedStreamIsComplete(ts: seq<Token>, out: seq<byte>)
    requires AllEncodable(FixedCodes(), ts) && Expand([], ts) == Some(out)
    ensures CompleteEncoding(FixedStream(ts), false, out)
  {
    hide Decodable, BitsStand, BlockBits, CompleteEncoding, AllEncodable, Expand, FixedLit, FixedDist, BlockAt, BlockEnd, Pack;
    FixedCodesDecodable();
    var body := BlockBits(FixedCodes(), ts);
    var data := Pack(FIXED_FLAGS + body);
    PackStands(FIXED_FLAGS + body);
    BitsStandSplit(data, 0, FIXED_FLAGS, body);
    BlockStands(FixedCodes(), data, 3, ts);
    FlagsStand(data);
    SingleBlock(data, false, 0, Fixed(ts), out);
  }

  lemma FlagsStand(data: seq<byte>)
    requires BitsStand(data, 0, FIXED_FLAGS)
    ensures BitsAt(data, 0, 1) == 1 && BitsAt(data, 1, 2) == 1
  {
    var f := FIXED_FLAGS;
    assert f[0] == 1 && f[1] == 1 && f[2] == 0;
    assert BitsAt(data, 2, 1) == 0;
  }

  lemma SingleBlock(data: seq<byte>, header: bool, p: nat, b: Block, out: seq<byte>)
    requires OneBlockAt(data, p, b, true) && BodyEnd(data, p + 3, b) <= 8 * |data| && ExpandBlock([], b) == Some(out)
    requires p == StreamStart(header) && (header ==> HeaderOk(data))
    ensures CompleteEncoding(data, header, out)
  {
    hide BodyAt, BodyEnd, ExpandBlock, HeaderOk;
    assert [b][..0] == [];
    assert BlocksAt(data, p, [], p, false);
    assert BlocksAt(data, p, [b], BodyEnd(data, p + 3, b), true);
    assert ExpandBlocks([], [b]) == Some(out);
  }

  /** Encoding tokens and decoding the stream gives what the tokens stand for. */
  method RoundTrip(ts: seq<Token>, initialSize: nat) returns (r: Option<seq<byte>>)
    requires AllEncodable(FixedCodes(), ts) && Expand([], ts).Some?
    requires 0 < initialSize <= UINT_MAX && |Expand([], ts).value| <= MaxCapacity(initialSize)
    ensures r == Expand([], ts)
  {
    hide CompleteEncoding, Accepted;
    ghost var out := Expand([], ts).value;
    FixedStreamIsComplete(ts, out);
    CompleteIsAccepted(FixedStream(ts), false, out);
    r := DecodeMalloc(FixedStream(ts), initialSize, false);
  }

  function LiteralTokens(bytes: seq<byte>): (ts: seq<Token>)
    ensures |ts| == |bytes|
  {
    seq(|bytes|, i requires 0 <= i < |bytes| => Literal(bytes[i]))
  }

  lemma {:induction false} LiteralsExpand(bytes: seq<byte>)
    ensures Expand([], LiteralTokens(bytes)) == Some(bytes)
    ensures AllEncodable(FixedCodes(), LiteralTokens(bytes))
  {
    if bytes != [] {
      var n := |bytes| - 1;
      LiteralsExpand(bytes[..n]);
      assert LiteralTokens(bytes)[..n] == LiteralTokens(bytes[..n]);
      assert bytes == bytes[..n] + [bytes[n]];
    }
  }

  /** Every string of bytes has a complete encoding. */
  lemma EveryStringEncodes(bytes: seq<byte>)
    ensures AllEncodable(FixedCodes(), LiteralTokens(bytes))
    ensures CompleteEncoding(FixedStream(LiteralTokens(bytes)), false, bytes)
  {
    LiteralsExpand(bytes);
    FixedStreamIsComplete(LiteralTokens(bytes), bytes);
  }
}
