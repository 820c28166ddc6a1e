/**
 How far past the end of its input an accepted stream can reach. The bit reader makes up zeros there and
 notices only some of them, so a stream can be accepted although its last bits are missing.
 */
module Truncation {
  import opened Options
  import opened Binary
  import opened BitStream
  import opened Canonical
  import opened Huffman
  import opened Lz77
  import opened BitRefill
  import opened TokenRefill
  import opened Deflate
  import opened BlockRefill
  import opened Zlib

  lemma {:induction false} CodePastEnd(data: seq<byte>, p: nat, n: nat)
    requires 8 * |data| <= p
    ensures CodeAt(data, p, n) == 0
    decreases n
  {
    if n > 0 {
      CodePastEnd(data, p, n - 1);
    }
  }

  /** Past the end of the input the same symbol stands everywhere. */
  lemma SameSymbolPastEnd(sl: seq<nat>, data: seq<byte>, p: nat, q: nat, i: nat)
    requires 8 * |data| <= p && 8 * |data| <= q && SymbolAt(sl, data, p, i)
    ensures SymbolAt(sl, data, q, i)
  {
    CodePastEnd(data, p, sl[i]);
    CodePastEnd(data, q, sl[i]);
  }

  predicate Below(sl: seq<nat>, m: nat) {
    forall i :: 0 <= i < |sl| ==> sl[i] <= m
  }

  lemma TokenSizeBound(c: Codes, t: Token, m: nat, d: nat)
    requires ValidToken(c, t) && Below(c.lit, m) && Below(c.dist, d)
    ensures TokenSize(c, t) <= m + d + 18
  {
  }

  /** The last token of a block starts inside the input: in the zeros past the end it would be an end of block. */
  lemma LastTokenInside(c: Codes, data: seq<byte>, p: nat, ts: seq<Token>)
    requires ValidCodes(c) && BlockAt(c, data, p, ts) && ts != []
    ensures p + TokensSize(c, ts[..|ts| - 1]) < 8 * |data|
  {
    hide Lengths, TokenSize;
    var front, t := ts[..|ts| - 1], ts[|ts| - 1];
    var q := p + TokensSize(c, front);
    if 8 * |data| <= q {
      SameSymbolPastEnd(c.lit, data, p + TokensSize(c, ts), q, END_OF_BLOCK);
      TokenNotEnd(c, data, q, t);
      assert false;
    }
  }

  function Later(p: nat, q: nat): nat {
    if p <= q then q else p
  }

  lemma BlockEndBound(c: Codes, data: seq<byte>, p: nat, ts: seq<Token>, m: nat, d: nat)
    requires ValidCodes(c) && BlockAt(c, data, p, ts) && Below(c.lit, m) && Below(c.dist, d)
    ensures BlockEnd(c, p, ts) <= Later(p, 8 * |data| + m + d + 17) + c.lit[END_OF_BLOCK]
  {
    hide TokenSize, TokenAt, SymbolAt, Lengths;
    if ts != [] {
      LastTokenInside(c, data, p, ts);
      TokenSizeBound(c, ts[|ts| - 1], m, d);
    }
  }

  // The fixed codes past the end

  /** A code that the end of the input cuts off ends in zeros. */
  lemma {:induction false} CodeTail(data: seq<byte>, p: nat, n: nat, r: nat)
    requires r <= n && p + r == 8 * |data|
    ensures CodeAt(data, p, n) == Shl(CodeAt(data, p, r), n - r)
    decreases n
  {
    if r < n {
      CodeTail(data, p, n - 1, r);
      ShlDouble(CodeAt(data, p, r), n - 1 - r);
    }
  }

  lemma CodeBelow(data: seq<byte>, p: nat)
    ensures CodeAt(data, p, 1) < 2 && CodeAt(data, p, 2) < 4
  {
    assert CodeAt(data, p, 0) == 0;
    assert CodeAt(data, p, 1) == StreamBit(data, p);
  }

  /** The distance symbol of a fixed code that starts inside the input, and its extra bits. */
  lemma DistanceTail(data: seq<byte>, p: nat, d: nat)
    requires SymbolAt(FixedDist(), data, p, d) && d < 30 && p < 8 * |data|
    ensures p + 5 + DistExtra(d) <= 8 * |data| + 15
  {
    FixedDistTable(d);
    var r := 8 * |data| - p;
    if r <= 2 {
      CodeTail(data, p, 5, r);
      CodeBelow(data, p);
      ShlShort(CodeAt(data, p, r), 5 - r);
    }
  }

  lemma ShlShort(v: nat, n: nat)
    ensures n == 3 ==> Shl(v, n) == 8 * v
    ensures n == 4 ==> Shl(v, n) == 16 * v
    ensures n == 6 ==> Shl(v, n) == 64 * v
    ensures n == 7 ==> Shl(v, n) == 128 * v
  {
    ShlIsProduct(v, n);
    Pow2Values();
  }

  /** Past the end of the input only the distance one can be read. */
  lemma DistancePastEnd(data: seq<byte>, p: nat, d: nat)
    requires SymbolAt(FixedDist(), data, p, d) && 8 * |data| <= p
    ensures d == 0
  {
    FixedDistTable(d);
    CodePastEnd(data, p, 5);
  }

  /** Of the codes of eight bits, only one ends in zeros from the third bit on. */
  lemma ShortLength(data: seq<byte>, p: nat, r: nat, l: nat)
    requires 1 <= r <= 2 && p + r == 8 * |data| && 280 <= l < 286 && CodeAt(data, p, 8) == 0xC0 + (l - 280)
    ensures r == 2 && l == 280
  {
    CodeBelow(data, p);
    hide CodeAt;
    CodeTail(data, p, 8, r);
    ShlShort(CodeAt(data, p, r), 8 - r);
  }

  /** The length symbol of a fixed code that starts inside the input, and its extra bits. */
  lemma LengthTail(data: seq<byte>, p: nat, l: nat)
    requires SymbolAt(FixedLit(), data, p, l) && 257 <= l < 286 && p < 8 * |data|
    ensures p + FixedLit()[l] + LengthExtra(l - 257) <= 8 * |data| + 10
  {
    FixedCodeTable(l);
    var r := 8 * |data| - p;
    if 280 <= l && r <= 2 {
      ShortLength(data, p, r, l);
    }
  }

  /** A token that starts inside the input ends at most 15 bits past it. */
  lemma FixedTokenTail(data: seq<byte>, p: nat, t: Token)
    requires TokenAt(FixedCodes(), data, p, t) && p < 8 * |data|
    ensures p + TokenSize(FixedCodes(), t) <= 8 * |data| + 15
  {
    hide SymbolAt, LengthExtra, DistExtra;
    match t {
      case Literal(sym) =>
        assert FixedLit()[sym] <= 9;
      case Copy(lsym, _, dsym, _) =>
        LengthTail(data, p, lsym);
        var q := p + FixedLit()[lsym] + LengthExtra(lsym - 257);
        if q < 8 * |data| {
          DistanceTail(data, q, dsym);
        } else {
          DistancePastEnd(data, q, dsym);
          assert DistExtra(0) == 0 by { NoDistExtra(); }
        }
    }
  }

  lemma NoDistExtra()
    ensures DistExtra(0) == 0
  {
  }

  /** A block with the fixed codes ends at most 22 bits past the end of the input. */
  lemma FixedBlockEnd(data: seq<byte>, p: nat, ts: seq<Token>)
    requires BodyAt(data, p, Fixed(ts)) && p <= 8 * |data| + 15
    ensures BodyEnd(data, p, Fixed(ts)) <= 8 * |data| + 22
  {
    assert ValidCodes(FixedCodes()) by { FixedCodesUsable(); }
    assert FixedLit()[END_OF_BLOCK] == 7;
    hide TokenSize, TokenAt, SymbolAt, Lengths, FixedLit, FixedDist;
    if ts != [] {
      LastTokenInside(FixedCodes(), data, p, ts);
      FixedTokenTail(data, p + TokensSize(FixedCodes(), ts[..|ts| - 1]), ts[|ts| - 1]);
    }
  }

  /** 22 bits are reached: the last two real bits of this block are the start of the code of a copy. */
  lemma FixedBlockReaches()
    ensures var data, b := [0xC0], Fixed([Copy(280, 0, 0, 0)]);
      BodyAt(data, 6, b) && BodyEnd(data, 6, b) == 8 * |data| + 22
  {
    CutBits();
    FixedCodeTable(280);
    FixedCodeTable(END_OF_BLOCK);
    FixedDistTable(0);
    BitsPastEnd([0xC0], 14, 4);
    CodePastEnd([0xC0], 18, 5);
    CodePastEnd([0xC0], 23, 7);
    OneCopy(FixedCodes(), [0xC0], 6, 280, 0);
  }

  lemma CutBits()
    ensures CodeAt([0xC0], 6, 8) == 192
  {
    assert Shr(0xC0, 6) == 3 && Shr(0xC0, 7) == 1;
    assert CodeAt([0xC0], 6, 0) == 0 && CodeAt([0xC0], 6, 1) == 1 && CodeAt([0xC0], 6, 2) == 3;
    CodeTail([0xC0], 6, 8, 2);
    ShlShort(3, 6);
  }

  lemma OneCopy(c: Codes, data: seq<byte>, p: nat, l: nat, d: nat)
    requires 257 <= l < 286 && d < 4 && l < |c.lit| && d < |c.dist|
    requires SymbolAt(c.lit, data, p, l) && BitsAt(data, p + c.lit[l], LengthExtra(l - 257)) == 0
    requires var q := p + c.lit[l] + LengthExtra(l - 257);
      SymbolAt(c.dist, data, q, d) && SymbolAt(c.lit, data, q + c.dist[d], END_OF_BLOCK)
    ensures BlockAt(c, data, p, [Copy(l, 0, d, 0)])
    ensures TokensSize(c, [Copy(l, 0, d, 0)]) == c.lit[l] + LengthExtra(l - 257) + c.dist[d]
    ensures BlockEnd(c, p, [Copy(l, 0, d, 0)]) == p + c.lit[l] + LengthExtra(l - 257) + c.dist[d] + c.lit[END_OF_BLOCK]
  {
    hide SymbolAt, LengthExtra;
    var ts := [Copy(l, 0, d, 0)];
    assert ts[..0] == [];
    assert TokensSize(c, []) == 0 && TokensAt(c, data, p, []);
    assert TokenAt(c, data, p, ts[0]);
  }

  // Headers of dynamic blocks past the end

  lemma {:induction false} MetaBelow(data: seq<byte>, p: nat, n: nat)
    requires n <= 19
    ensures Below(MetaLengths(data, p, n), 7)
    decreases n
  {
    if n > 0 {
      MetaBelow(data, p, n - 1);
      BitsBound(data, p + 3 * (n - 1), 3);
      assert Pow2(3) == 8 by { Pow2Values(); }
    }
  }

  /** What can be fetched while operations are read from p: after the input, only the two made-up bytes. */
  predicate Reach(n: nat, p: nat, r: Refill) {
    8 * r.fetched <= Later(p, 8 * n) + 32 + (if r.hit then 16 else 0)
  }

  lemma OpReach(cl: seq<nat>, n: nat, p0: nat, p: nat, r: Refill, op: LengthOp)
    requires OpSymbol(op) < |cl| && Below(cl, 7) && Sound(n, p, r) && Reach(n, p0, r)
    requires OfOp(cl, n, p, r, op).Some?
    ensures Sound(n, p + OpSize(cl, op), OfOp(cl, n, p, r, op).value) && Reach(n, p0, OfOp(cl, n, p, r, op).value)
  {
  }

  lemma {:induction false} OpsReach(cl: seq<nat>, n: nat, p: nat, r: Refill, ops: seq<LengthOp>)
    requires Below(cl, 7) && ValidOps(cl, ops) && Sound(n, p, r) && Reach(n, p, r) && OfOps(cl, n, p, r, ops).Some?
    ensures var s := OfOps(cl, n, p, r, ops).value; Sound(n, p + OpsSize(cl, ops), s) && Reach(n, p, s)
  {
    hide OfOp, OpSize, Sound, Reach, Below;
    if ops != [] {
      var front := ops[..|ops| - 1];
      OpsReach(cl, n, p, r, front);
      OpReach(cl, n, p, p + OpsSize(cl, front), OfOps(cl, n, p, r, front).value, ops[|ops| - 1]);
    }
  }

  lemma ReachStart(n: nat, p: nat, r: Refill)
    requires Sound(n, p, r)
    ensures Reach(n, p, r)
  {
  }

  lemma ReachEnd(n: nat, p: nat, q: nat, s: Refill)
    requires Sound(n, q, s) && Reach(n, p, s)
    ensures q <= Later(p, 8 * n) + 48
  {
  }

  lemma MetaCodeBelow(data: seq<byte>, p: nat)
    ensures Below(MetaCode(data, p), 7) && OpsStart(data, p) <= p + 71
  {
    hide Below, MetaLengths;
    MetaBelow(data, p + 14, MetaCount(data, p));
  }

  /** A header that is accepted ends at most 121 bits past the input. */
  lemma HeaderEndBound(data: seq<byte>, p: nat, r: Refill, ops: seq<LengthOp>)
    requires ValidOps(MetaCode(data, p), ops) && OfHeader(data, p, r, ops).Some?
    requires Sound(|data|, p, r) && p <= 8 * |data| + 2
    ensures HeaderEnd(data, p, ops) <= 8 * |data| + 121
  {
    hide OfOps, OpsSize, OfFields, MetaCode, OpsStart, Reach, Sound, Below, ValidOps;
    FieldsSound(data, p, r);
    MetaCodeBelow(data, p);
    ReachStart(|data|, OpsStart(data, p), OfFields(data, p, r));
    OpsReach(MetaCode(data, p), |data|, OpsStart(data, p), OfFields(data, p, r), ops);
    ReachEnd(|data|, OpsStart(data, p), HeaderEnd(data, p, ops), OfHeader(data, p, r, ops).value);
  }

  // Whole streams

  lemma BodyEndBound(data: seq<byte>, p: nat, r: Refill, b: Block)
    requires BodyAt(data, p, b) && Sound(|data|, p, r) && OfBody(data, p, r, b).Some? && p <= 8 * |data| + 2
    ensures BodyEnd(data, p, b) <= 8 * |data| + PastEnd(b)
  {
    hide BlockAt, HeaderAt, HeaderEnd, OfHeader, OfBlock, BitsAt, BlockEnd, Sound;
    match b {
      case Stored(_) =>
      case Fixed(ts) => FixedBlockEnd(data, p, ts);
      case Dynamic(ops, c, ts) => DynamicBlockEnd(data, p, r, ops, c, ts);
    }
  }

  lemma DynamicBlockEnd(data: seq<byte>, p: nat, r: Refill, ops: seq<LengthOp>, c: Codes, ts: seq<Token>)
    requires BodyAt(data, p, Dynamic(ops, c, ts)) && Sound(|data|, p, r) && OfBody(data, p, r, Dynamic(ops, c, ts)).Some?
    requires p <= 8 * |data| + 2
    ensures BodyEnd(data, p, Dynamic(ops, c, ts)) <= 8 * |data| + 136
  {
    HeaderCodesValid(data, p, ops, c);
    HeaderEndBound(data, p, r, ops);
    hide HeaderAt, HeaderEnd, OfHeader, OfBlock, TokensAt, TokensSize, MetaCode;
    BlockEndBound(c, data, HeaderEnd(data, p, ops), ts, 15, 15);
  }

  /** How many bits of a block can lie past the end of the input. */
  function PastEnd(b: Block): nat {
    match b
    case Stored(_) => 0
    case Fixed(_) => 22
    case Dynamic(_, _, _) => 136
  }

  /** The last of the blocks that were read, and the state in which it was read. */
  lemma LastReading(data: seq<byte>, p0: nat, r0: Refill, bs: seq<Block>, s: Reached) returns (t: Reached)
    requires Reading(data, p0, r0, bs) == Some(s) && bs != [] && Sound(|data|, p0, r0)
    ensures Sound(|data|, t.p, t.r) && Advance(data, t, bs[|bs| - 1]) == Some(s)
  {
    hide OneBlockAt, Sound, BlocksAt, Advance;
    var n := |bs| - 1;
    ReadingPrefix(data, p0, r0, bs, n);
    ReadingIsBlocks(data, p0, r0, bs[..n]);
    t := Reading(data, p0, r0, bs[..n]).value;
    StartsInside(data, t, bs[n]);
    ReadingInside(data, p0, r0, bs[..n], t.p, false);
  }

  lemma StartsInside(data: seq<byte>, t: Reached, b: Block)
    requires Advance(data, t, b).Some?
    ensures t.p < 8 * |data|
  {
    hide BodyAt, OfBody, BodyEnd;
    BlockProgress(data, t.p, b, IsFinal(data, t.p));
  }

  /**
   A stream that is accepted ends soon after its input: with a stored block last it is complete, and
   otherwise at most 22 or 136 bits are made up.
   */
  lemma AcceptedEnd(data: seq<byte>, p0: nat, r0: Refill, bs: seq<Block>, s: Reached)
    requires Reading(data, p0, r0, bs) == Some(s) && s.final && Sound(|data|, p0, r0)
    ensures bs != [] && s.p <= 8 * |data| + PastEnd(bs[|bs| - 1])
  {
    hide Advance, Sound, PastEnd;
    assert bs != [];
    hide Reading;
    var t := LastReading(data, p0, r0, bs, s);
    AdvanceEnd(data, t, bs[|bs| - 1], s);
  }

  lemma AdvanceEnd(data: seq<byte>, t: Reached, b: Block, s: Reached)
    requires Advance(data, t, b) == Some(s) && Sound(|data|, t.p, t.r)
    ensures s.p <= 8 * |data| + PastEnd(b)
  {
    hide BodyAt, BodyEnd, OfBody, Sound, PastEnd, OfFlags, BitsAt;
    FlagsSound(|data|, t.p, t.r);
    StartsInside(data, t, b);
    BodyEndBound(data, t.p + 3, OfFlags(t.p, t.r), b);
  }

  lemma StartSound(data: seq<byte>, header: bool)
    ensures Sound(|data|, StreamStart(header), StartRefill(header))
  {
  }

  /** An accepted stream whose last block is stored is a complete encoding. */
  lemma StoredLastIsComplete(data: seq<byte>, header: bool, bs: seq<Block>, s: Reached, out: seq<byte>)
    requires header ==> HeaderOk(data)
    requires Reading(data, StreamStart(header), StartRefill(header), bs) == Some(s) && s.final
    requires ExpandBlocks([], bs) == Some(out)
    ensures bs != []
    ensures bs[|bs| - 1].Stored? ==> CompleteEncoding(data, header, out)
  {
    hide Reading, BlocksAt, ExpandBlocks, HeaderOk, Sound;
    assert Sound(|data|, StreamStart(header), StartRefill(header)) by { StartSound(data, header); }
    AcceptedEnd(data, StreamStart(header), StartRefill(header), bs, s);
    ReadingIsBlocks(data, StreamStart(header), StartRefill(header), bs);
    if bs[|bs| - 1].Stored? {
      assert BlocksAt(data, StreamStart(header), bs, s.p, true);
    }
  }

  /** Whatever is accepted is what the stream stands for, with at most 136 zero bits after the input. */
  lemma AcceptedCompletes(data: seq<byte>, header: bool, out: seq<byte>)
    requires Accepted(data, header, out)
    ensures exists bs, p: nat {:trigger BlocksAt(data, StreamStart(header), bs, p, true)} ::
      && BlocksAt(data, StreamStart(header), bs, p, true) && ExpandBlocks([], bs) == Some(out)
      && p <= 8 * |data| + 136
  {
    hide Reading, BlocksAt, ExpandBlocks;
    var bs, s := AcceptedBlocks(data, header, out);
    AcceptedEnd(data, StreamStart(header), StartRefill(header), bs, s);
  }
}
