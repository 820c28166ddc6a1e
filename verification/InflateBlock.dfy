/**
 The output side of the inflater: the growing output buffer and the decoding of one
 block of literals and copies.
 */
module InflateBlock {
  import opened Options
  import opened Binary
  import opened BitStream
  import opened Huffman
  import opened ZlibBuffer
  import opened Lz77
  import opened BitRefill
  import opened TokenRefill

  const UINT_MAX := 0xFFFFFFFF

  function LengthBases(): (t: seq<nat>)
    ensures |t| == 31
  {
    [3, 4, 5, 6, 7, 8, 9, 10, 11, 13, 15, 17, 19, 23, 27, 31, 35, 43, 51, 59,
     67, 83, 99, 115, 131, 163, 195, 227, 258, 0, 0]
  }

  function LengthExtras(): (t: seq<nat>)
    ensures |t| == 31
  {
    [0, 0, 0, 0, 0, 0, 0, 0, 1, 1, 1, 1, 2, 2, 2, 2, 3, 3, 3, 3, 4, 4, 4, 4, 5, 5, 5, 5, 0, 0, 0]
  }

  function DistBases(): (t: seq<nat>)
    ensures |t| == 32
  {
    [1, 2, 3, 4, 5, 7, 9, 13, 17, 25, 33, 49, 65, 97, 129, 193, 257, 385, 513, 769, 1025, 1537,
     2049, 3073, 4097, 6145, 8193, 12289, 16385, 24577, 0, 0]
  }

  function DistExtras(): (t: seq<nat>)
    ensures |t| == 32
  {
    [0, 0, 0, 0, 1, 1, 2, 2, 3, 3, 4, 4, 5, 5, 6, 6, 7, 7, 8, 8, 9, 9, 10, 10, 11, 11, 12, 12, 13, 13, 0, 0]
  }

  lemma LengthExtrasValue(z: nat)
    requires z < 29
    ensures LengthExtras()[z] == LengthExtra(z) <= 5
  {
  }

  lemma LengthBasesStep(z: nat)
    requires z < 27
    ensures LengthBases()[0] == 3 && LengthBases()[28] == 258
    ensures LengthBases()[z + 1] == LengthBases()[z] + LengthSpan(LengthExtras()[z])
    ensures 3 <= LengthBases()[z + 1] <= 258
  {
  }

  function LengthSpan(extra: nat): nat {
    if extra == 0 then 1 else if extra == 1 then 2 else if extra == 2 then 4
    else if extra == 3 then 8 else if extra == 4 then 16 else 32
  }

  lemma LengthSpanIsPow2(extra: nat)
    requires extra <= 5
    ensures LengthSpan(extra) == Pow2(extra)
  {
    Pow2Values();
  }

  /** The tables hold exactly the ranges of the standard. */
  lemma {:induction false} LengthTable(z: nat)
    requires z < 29
    ensures LengthBases()[z] == LengthBase(z) && 3 <= LengthBases()[z] <= 258
  {
    hide LengthBases, LengthExtras;
    if z == 28 || z == 0 {
      LengthBasesStep(0);
    } else {
      LengthTable(z - 1);
      LengthBasesStep(z - 1);
      LengthExtrasValue(z - 1);
      LengthSpanIsPow2(LengthExtra(z - 1));
    }
  }

  lemma DistExtrasValue(z: nat)
    requires z < 30
    ensures DistExtras()[z] == DistExtra(z) <= 13
  {
  }

  lemma DistBasesStep(z: nat)
    requires z < 29
    ensures DistBases()[0] == 1
    ensures DistBases()[z + 1] == DistBases()[z] + DistSpan(DistExtras()[z])
  {
    if z < 15 {
      LowDistBases(z);
    } else {
      HighDistBases(z);
    }
  }

  lemma LowDistBases(z: nat)
    requires z < 15
    ensures DistBases()[z + 1] == DistBases()[z] + DistSpan(DistExtras()[z])
  {
  }

  lemma HighDistBases(z: nat)
    requires 15 <= z < 29
    ensures DistBases()[z + 1] == DistBases()[z] + DistSpan(DistExtras()[z])
  {
  }

  function DistSpan(extra: nat): nat {
    if extra == 0 then 1 else if extra == 1 then 2 else if extra == 2 then 4 else if extra == 3 then 8
    else if extra == 4 then 16 else if extra == 5 then 32 else if extra == 6 then 64
    else if extra == 7 then 128 else if extra == 8 then 256 else if extra == 9 then 512
    else if extra == 10 then 1024 else if extra == 11 then 2048 else if extra == 12 then 4096 else 8192
  }

  lemma DistSpanIsPow2(extra: nat)
    requires extra <= 13
    ensures DistSpan(extra) == Pow2(extra)
  {
    Pow2Values();
  }

  lemma {:induction false} DistTable(z: nat)
    requires z < 30
    ensures DistBases()[z] == DistBase(z) && 1 <= DistBases()[z]
  {
    hide DistBases, DistExtras;
    if z == 0 {
      DistBasesStep(0);
    } else {
      DistTable(z - 1);
      DistBasesStep(z - 1);
      DistExtrasValue(z - 1);
      DistSpanIsPow2(DistExtra(z - 1));
    }
  }

  method LengthEntry(z: nat) returns (base: nat, extra: nat)
    requires z < 29
    ensures base == LengthBase(z) && extra == LengthExtra(z)
    ensures 3 <= base <= 258 && extra <= 5
  {
    hide LengthBases, LengthExtras;
    LengthTable(z);
    LengthExtrasValue(z);
    base, extra := LengthBases()[z], LengthExtras()[z];
  }

  method DistEntry(z: nat) returns (base: nat, extra: nat)
    requires z < 30
    ensures base == DistBase(z) && extra == DistExtra(z)
    ensures 1 <= base && extra <= 13
  {
    hide DistBases, DistExtras;
    DistTable(z);
    DistExtrasValue(z);
    base, extra := DistBases()[z], DistExtras()[z];
  }

  /** The largest capacity that doubling can reach. */
  function MaxCapacity(limit: nat): (m: nat)
    requires 0 < limit
    ensures limit <= m
    ensures limit <= UINT_MAX ==> m <= UINT_MAX
    decreases UINT_MAX - limit
  {
    if limit > UINT_MAX / 2 then limit else MaxCapacity(2 * limit)
  }

  /** How many bytes of output can be stored. */
  ghost function MaxOutput(a: ZBuf): nat
    reads a`zout
  {
    if a.expandable && 0 < a.zout.Length then MaxCapacity(a.zout.Length) else a.zout.Length
  }

  ghost predicate Output(a: ZBuf)
    reads a`zout, a`outPos
  {
    && 0 < a.zout.Length <= UINT_MAX && a.outPos <= a.zout.Length
    && a.zout as object !in a.zLength.Repr && a.zout as object !in a.zDistance.Repr
  }

  ghost function Out(a: ZBuf): seq<byte>
    requires Output(a)
    reads a`zout, a`outPos, a.zout
  {
    a.zout[..a.outPos]
  }

  /** Whether the growth loop leaves at capacity limit: there is room, or the capacity cannot double. */
  predicate Leaves(limit: nat, need: nat) {
    need <= limit || UINT_MAX / 2 < limit
  }

  /** Make room for n more bytes after the first pos bytes, which are kept. */
  method ZExpand(a: ZBuf, pos: nat, n: nat) returns (ok: bool)
    requires Output(a) && pos <= a.zout.Length && a.zout.Length < pos + n
    modifies a`zout, a`outPos
    ensures Output(a) && MaxOutput(a) == old(MaxOutput(a))
    ensures ok <==> pos + n <= MaxOutput(a)
    ensures ok ==> fresh(a.zout) && a.outPos == pos && pos + n <= a.zout.Length
    ensures !ok ==> a.zout == old(a.zout)
    ensures ok ==> a.zout[..pos] == old(a.zout[..pos])
  {
    a.outPos := pos;
    if !a.expandable {
      return false;
    }
    var cur := pos;
    var limit := a.zout.Length;
    if UINT_MAX - cur < n {
      return false;
    }
    ghost var turns := 0;
    while cur + n > limit
      invariant limit == Doubled(a.zout.Length, turns)
      invariant 0 < limit <= UINT_MAX && MaxCapacity(limit) == MaxCapacity(a.zout.Length)
      invariant a.zout.Length <= limit
      decreases cur + n - limit
    {
      if limit > UINT_MAX / 2 {
        assert Leaves(limit, cur + n);
        return false;
      }
      assert !Leaves(limit, cur + n);
      limit := limit * 2;
      turns := turns + 1;
    }
    assert Leaves(limit, cur + n);
    Realloc(a, limit);
    ok := true;
  }

  method Realloc(a: ZBuf, limit: nat)
    requires Output(a) && a.zout.Length <= limit <= UINT_MAX
    modifies a`zout
    ensures Output(a) && fresh(a.zout) && a.zout.Length == limit
    ensures a.zout[..old(a.zout.Length)] == old(a.zout[..])
  {
    var z, q := a.zout, new byte[limit];
    for i := 0 to z.Length
      invariant a.zout == z && q[..i] == z[..i]
    {
      q[i] := z[i];
    }
    a.zout := q;
  }

  /** The capacity after k turns of the growth loop, as long as they do not overflow. */
  function Doubled(limit: nat, k: nat): nat {
    if k == 0 then limit else 2 * Doubled(limit, k - 1)
  }

  /** The growth loop from capacity limit leaves after some number of turns. */
  ghost predicate GrowthEnds(limit: nat, need: nat) {
    exists k: nat :: Leaves(Doubled(limit, k), need)
  }

  /** The growth loop ends if and only if the buffer was not empty, or nothing was needed. */
  lemma GrowthEndsExactly(limit: nat, need: nat)
    ensures GrowthEnds(limit, need) <==> 0 < limit || need == 0
  {
    if 0 < limit {
      DoubledGrows(limit, need);
    } else {
      forall k: nat
        ensures Doubled(limit, k) == 0
      {
        DoublingEmpty(k);
      }
      assert need == 0 ==> need <= Doubled(limit, 0);
    }
  }

  lemma {:induction false} DoubledGrows(limit: nat, k: nat)
    requires 0 < limit
    ensures k < Doubled(limit, k)
  {
    if k > 0 {
      DoubledGrows(limit, k - 1);
    }
  }

  /** From an empty buffer, every turn of the growth loop starts again from capacity zero. */
  lemma {:induction false} DoublingEmpty(k: nat)
    ensures Doubled(0, k) == 0
  {
    if k > 0 {
      DoublingEmpty(k - 1);
    }
  }

  /** Copy len bytes from dist places back; a distance of one is a run of one byte. */
  method CopyBack(z: array<byte>, pos: nat, dist: nat, len: nat)
    requires 1 <= dist <= pos && pos + len <= z.Length
    modifies z
    ensures z[..pos + len] == CopyRun(old(z[..pos]), dist, len)
    ensures forall i :: 0 <= i < pos ==> z[i] == old(z[i])
    ensures forall i :: 0 <= i < len ==> z[pos + i] == old(z[pos - dist + i % dist])
  {
    ghost var before := z[..pos];
    CopyRunBack(z, pos, dist, len);
    forall i | 0 <= i < len
      ensures z[pos + i] == before[pos - dist + i % dist]
    {
      CopyRunAt(before, dist, len, i);
      assert z[pos + i] == z[..pos + len][pos + i];
    }
    assert z[..pos + len][..pos] == before;
  }

  method CopyRunBack(z: array<byte>, pos: nat, dist: nat, len: nat)
    requires 1 <= dist <= pos && pos + len <= z.Length
    modifies z
    ensures z[..pos + len] == CopyRun(old(z[..pos]), dist, len)
  {
    if dist == 1 {
      FillRun(z, pos, len);
    } else {
      ghost var out := z[..pos];
      var i := 0;
      while i < len
        invariant i <= len && z[..pos + i] == CopyRun(out, dist, i)
      {
        CopyStep(z, pos + i, pos + i - dist);
        i := i + 1;
      }
    }
  }

  method FillRun(z: array<byte>, pos: nat, len: nat)
    requires 1 <= pos && pos + len <= z.Length
    modifies z
    ensures z[..pos + len] == CopyRun(old(z[..pos]), 1, len)
  {
    ghost var out := z[..pos];
    var v := z[pos - 1];
    var i := 0;
    while i < len
      invariant i <= len && z[..pos + i] == CopyRun(out, 1, i) && z[pos + i - 1] == v
    {
      z[pos + i] := v;
      assert z[..pos + i + 1] == z[..pos + i] + [v];
      i := i + 1;
    }
  }

  method CopyStep(z: array<byte>, to: nat, from: nat)
    requires from < to < z.Length
    modifies z
    ensures z[..to + 1] == old(z[..to]) + [old(z[..to])[from]]
  {
    z[to] := z[from];
  }

  // One block

  /** The two tables decode the codes c, and share no memory with the output. */
  ghost predicate Tables(a: ZBuf, c: Codes)
    reads a.zLength.Repr, a.zDistance.Repr
  {
    a.Separate() && a.zLength.Represents(c.lit) && a.zDistance.Represents(c.dist)
  }

  lemma TablesCodes(a: ZBuf, c: Codes)
    requires Tables(a, c)
    ensures ValidCodes(c)
  {
  }

  lemma CapacityBelowMax(a: ZBuf)
    requires Output(a)
    ensures a.zout.Length <= MaxOutput(a)
  {
  }

  method DecodeLitLen(a: ZBuf, ghost c: Codes) returns (r: int)
    requires a.Reader() && Tables(a, c)
    modifies a`pos, a`codeBuffer, a`numBits, a`hitZeof, a`p, a`fetched
    ensures a.Reader() && Tables(a, c)
    ensures 0 <= r ==> SymbolAt(c.lit, a.zbuffer, old(a.p), r) && a.p == old(a.p) + c.lit[r]
    ensures 0 <= r ==> Look(|a.zbuffer|, old(a.p), old(a.State())) == Some(a.State())
    ensures r < 0 ==> a.p == old(a.p) && NoSymbol(c.lit, a.zbuffer, a.p, old(a.State()))
  {
    r := a.HuffmanDecode(a.zLength, c.lit);
  }

  method DecodeDistance(a: ZBuf, ghost c: Codes) returns (r: int)
    requires a.Reader() && Tables(a, c)
    modifies a`pos, a`codeBuffer, a`numBits, a`hitZeof, a`p, a`fetched
    ensures a.Reader() && Tables(a, c)
    ensures 0 <= r ==> SymbolAt(c.dist, a.zbuffer, old(a.p), r) && a.p == old(a.p) + c.dist[r]
    ensures 0 <= r ==> Look(|a.zbuffer|, old(a.p), old(a.State())) == Some(a.State())
    ensures r < 0 ==> a.p == old(a.p) && NoSymbol(c.dist, a.zbuffer, a.p, old(a.State()))
  {
    r := a.HuffmanDecode(a.zDistance, c.dist);
  }

  /** No symbol can be read at p from refill state r: none matches, or decoding is refused. */
  ghost predicate NoSymbol(sl: seq<nat>, data: seq<byte>, p: nat, r: Refill) {
    Look(|data|, p, r).None? || forall i :: !SymbolAt(sl, data, p, i)
  }

  /** No token that fits the output and no end of block can be read at p from refill state r. */
  ghost predicate Blocked(c: Codes, data: seq<byte>, p: nat, r: Refill, out: seq<byte>, max: nat) {
    && (forall t {:trigger TokenAt(c, data, p, t)} ::
          TokenAt(c, data, p, t) && OfToken(c, |data|, p, r, t).Some? && CanApply(|out|, t) ==> max < |Apply(out, t)|)
    && (SymbolAt(c.lit, data, p, END_OF_BLOCK) ==> OfEnd(c, |data|, p, r).None?)
  }

  /** A block that the bit reader does not refuse and whose output fits in max bytes. */
  ghost predicate FittingBlock(c: Codes, data: seq<byte>, p: nat, r: Refill, out: seq<byte>, max: nat, us: seq<Token>) {
    && BlockAt(c, data, p, us) && OfBlock(c, |data|, p, r, us).Some?
    && Expand(out, us).Some? && |Expand(out, us).value| <= max
  }

  lemma BlockedIsFinal(c: Codes, data: seq<byte>, p: nat, r: Refill, out: seq<byte>, max: nat, ts: seq<Token>, us: seq<Token>)
    requires ValidCodes(c) && TokensAt(c, data, p, ts) && OfTokens(c, |data|, p, r, ts).Some? && Expand(out, ts).Some?
    requires Blocked(c, data, p + TokensSize(c, ts), OfTokens(c, |data|, p, r, ts).value, Expand(out, ts).value, max)
    ensures !FittingBlock(c, data, p, r, out, max, us)
  {
    hide TokenAt, TokenSize, CanApply, Apply, OfToken, OfEnd, OfTokens;
    if FittingBlock(c, data, p, r, out, max, us) {
      assert us[..|us|] == us;
      ReadIsPrefix(c, data, p, ts, us);
      var n := |ts|;
      if n < |us| {
        NthToken(c, data, p, us, n);
        ExpandPrefix(out, us, n);
        AcceptedPrefix(c, |data|, p, r, us, n);
      }
    }
  }

  datatype Step = Emitted | Ended | Failed

  /** The tokens ts were read from p0 up to p and have turned out0 into out, and refill state r0 into r. */
  ghost predicate ReadSoFar(c: Codes, data: seq<byte>, p0: nat, r0: Refill, out0: seq<byte>, ts: seq<Token>,
                            p: nat, r: Refill, out: seq<byte>) {
    && TokensAt(c, data, p0, ts) && p == p0 + TokensSize(c, ts) && Expand(out0, ts) == Some(out)
    && OfTokens(c, |data|, p0, r0, ts) == Some(r)
  }

  lemma ReadAppend(c: Codes, data: seq<byte>, p0: nat, r0: Refill, out0: seq<byte>, ts: seq<Token>,
                   p: nat, r: Refill, out: seq<byte>, t: Token, next: Refill)
    requires ReadSoFar(c, data, p0, r0, out0, ts, p, r, out)
    requires TokenAt(c, data, p, t) && CanApply(|out|, t) && OfToken(c, |data|, p, r, t) == Some(next)
    ensures ReadSoFar(c, data, p0, r0, out0, ts + [t], p + TokenSize(c, t), next, Apply(out, t))
  {
    hide TokenAt, TokenSize, CanApply, Apply, OfToken;
    var us := ts + [t];
    assert us[..|us| - 1] == ts;
  }

  /** The state of the loop over the tokens of a block. */
  ghost predicate BlockState(c: Codes, data: seq<byte>, p0: nat, r0: Refill, out0: seq<byte>, max: nat,
                             step: Step, ts: seq<Token>, p: nat, r: Refill, out: seq<byte>) {
    match step
    case Emitted => ReadSoFar(c, data, p0, r0, out0, ts, p, r, out)
    case Ended =>
      && BlockAt(c, data, p0, ts) && p == BlockEnd(c, p0, ts) && Expand(out0, ts) == Some(out)
      && OfBlock(c, |data|, p0, r0, ts) == Some(r)
    case Failed => forall us :: !FittingBlock(c, data, p0, r0, out0, max, us)
  }

  lemma EndedState(c: Codes, data: seq<byte>, p0: nat, r0: Refill, out0: seq<byte>, ts: seq<Token>, p: nat, r: Refill, out: seq<byte>)
    requires ReadSoFar(c, data, p0, r0, out0, ts, p, r, out) && SymbolAt(c.lit, data, p, END_OF_BLOCK)
    ensures BlockAt(c, data, p0, ts) && BlockEnd(c, p0, ts) == p + c.lit[END_OF_BLOCK]
    ensures Expand(out0, ts) == Some(out)
    ensures OfBlock(c, |data|, p0, r0, ts) == OfEnd(c, |data|, p, r)
  {
    hide OfEnd;
  }

  lemma FailedState(c: Codes, data: seq<byte>, p0: nat, r0: Refill, out0: seq<byte>, max: nat, ts: seq<Token>, p: nat, r: Refill, out: seq<byte>)
    requires ValidCodes(c) && ReadSoFar(c, data, p0, r0, out0, ts, p, r, out)
    requires Blocked(c, data, p, r, out, max)
    ensures forall us :: !FittingBlock(c, data, p0, r0, out0, max, us)
  {
    hide Blocked, FittingBlock;
    forall us
      ensures !FittingBlock(c, data, p0, r0, out0, max, us)
    {
      BlockedIsFinal(c, data, p0, r0, out0, max, ts, us);
    }
  }

  method ParseHuffmanBlock(a: ZBuf, ghost c: Codes) returns (ok: bool, ghost ts: seq<Token>)
    requires a.Reader() && Output(a) && Tables(a, c)
    modifies a, a.zout
    ensures a.Reader() && Output(a) && Tables(a, c)
    ensures a.zout == old(a.zout) || fresh(a.zout)
    ensures MaxOutput(a) == old(MaxOutput(a))
    ensures ok ==> BlockAt(c, a.zbuffer, old(a.p), ts) && a.p == BlockEnd(c, old(a.p), ts)
    ensures ok ==> Expand(old(Out(a)), ts) == Some(Out(a))
    ensures ok ==> OfBlock(c, |a.zbuffer|, old(a.p), old(a.State()), ts) == Some(a.State())
    ensures !ok ==> forall us :: !FittingBlock(c, a.zbuffer, old(a.p), old(a.State()), old(Out(a)), MaxOutput(a), us)
  {
    hide Tables, ZHuffman.Shape, MaxOutput, ZBuf.Reader, FittingBlock, BlockAt, BlockEnd, Expand, OfBlock;
    ghost var p0, r0, out0, max := a.p, a.State(), Out(a), MaxOutput(a);
    var zo: nat := a.outPos;
    ts := [];
    var step := Emitted;
    StartState(c, a.zbuffer, p0, r0, out0);
    CapacityBelowMax(a);
    while step == Emitted
      invariant a.Reader() && Output(a) && Tables(a, c)
      invariant a.zout == old(a.zout) || fresh(a.zout)
      invariant MaxOutput(a) == max && zo <= max
      invariant step == Ended ==> a.outPos == zo
      invariant zo <= a.zout.Length
      invariant BlockState(c, a.zbuffer, p0, r0, out0, max, step, ts, a.p, a.State(), a.zout[..zo])
      decreases step == Emitted, max - zo
    {
      step, zo, ts := NextToken(a, c, zo, p0, r0, out0, ts);
      CapacityBelowMax(a);
    }
    ok := step == Ended;
  }

  lemma StartState(c: Codes, data: seq<byte>, p0: nat, r0: Refill, out0: seq<byte>)
    ensures ReadSoFar(c, data, p0, r0, out0, [], p0, r0, out0)
  {
  }

  method NextToken(a: ZBuf, ghost c: Codes, pos: nat, ghost p0: nat, ghost r0: Refill, ghost out0: seq<byte>, ghost ts0: seq<Token>)
    returns (step: Step, zo: nat, ghost ts: seq<Token>)
    requires a.Reader() && Output(a) && Tables(a, c) && pos <= a.zout.Length
    requires ReadSoFar(c, a.zbuffer, p0, r0, out0, ts0, a.p, a.State(), a.zout[..pos])
    modifies a, a.zout
    ensures a.Reader() && Output(a) && Tables(a, c) && zo <= a.zout.Length
    ensures a.zout == old(a.zout) || fresh(a.zout)
    ensures MaxOutput(a) == old(MaxOutput(a))
    ensures step == Emitted ==> pos < zo
    ensures step == Ended ==> a.outPos == zo
    ensures BlockState(c, a.zbuffer, p0, r0, out0, MaxOutput(a), step, ts, a.p, a.State(), a.zout[..zo])
  {
    TablesCodes(a, c);
    hide TokenAt, TokenSize, CanApply, Apply, Tables, MaxOutput, ZBuf.Reader, Blocked, FittingBlock, Expand,
         TokensAt, TokensSize, BlockAt, BlockEnd, ReadSoFar, SymbolAt, OfToken, OfTokens, OfEnd, OfBlock;
    ghost var t, out, p, r := Literal(0), a.zout[..pos], a.p, a.State();
    step, zo, t := ParseToken(a, c, pos);
    ts := ts0;
    match step {
      case Emitted =>
        ReadAppend(c, a.zbuffer, p0, r0, out0, ts0, p, r, out, t, a.State());
        ts := ts0 + [t];
      case Ended =>
        EndedState(c, a.zbuffer, p0, r0, out0, ts0, p, r, out);
      case Failed =>
        FailedState(c, a.zbuffer, p0, r0, out0, MaxOutput(a), ts0, p, r, out);
    }
  }

  method ParseToken(a: ZBuf, ghost c: Codes, pos: nat) returns (step: Step, zo: nat, ghost t: Token)
    requires a.Reader() && Output(a) && Tables(a, c) && pos <= a.zout.Length
    modifies a, a.zout
    ensures a.Reader() && Output(a) && Tables(a, c) && zo <= a.zout.Length
    ensures a.zout == old(a.zout) || fresh(a.zout)
    ensures MaxOutput(a) == old(MaxOutput(a))
    ensures step == Emitted ==> TokenAt(c, a.zbuffer, old(a.p), t) && a.p == old(a.p) + TokenSize(c, t)
    ensures step == Emitted ==> CanApply(pos, t) && pos < zo && a.zout[..zo] == Apply(old(a.zout[..pos]), t)
    ensures step == Ended ==> SymbolAt(c.lit, a.zbuffer, old(a.p), END_OF_BLOCK)
    ensures step == Ended ==> a.p == old(a.p) + c.lit[END_OF_BLOCK]
    ensures step == Ended ==> zo == a.outPos == pos && a.zout[..pos] == old(a.zout[..pos])
    ensures step == Emitted ==> OfToken(c, |a.zbuffer|, old(a.p), old(a.State()), t) == Some(a.State())
    ensures step == Ended ==> OfEnd(c, |a.zbuffer|, old(a.p), old(a.State())) == Some(a.State())
    ensures step == Failed ==> Blocked(c, a.zbuffer, old(a.p), old(a.State()), old(a.zout[..pos]), MaxOutput(a))
  {
    TablesCodes(a, c);
    hide MaxOutput, ZBuf.Reader, ZHuffman.Shape, Tables, NoSymbol, Blocked, CopyRun, SymbolAt, TokenAt, TokenSize, Look, EndAccepted, OfToken, OfEnd;
    ghost var r0 := a.State();
    zo, t := pos, Literal(0);
    var z := DecodeLitLen(a, c);
    if z < 0 {
      NoSymbolBlocks(c, a.zbuffer, a.p, r0, a.zout[..pos], MaxOutput(a));
      return Failed, zo, t;
    }
    if z < 256 {
      t := Literal(z);
      LiteralTokenAt(c, a.zbuffer, old(a.p), r0, z);
      step, zo := EmitLiteral(a, pos, z);
      if step == Failed {
        OnlyToken(c, a.zbuffer, old(a.p), r0, t, old(a.zout[..pos]), MaxOutput(a));
      }
    } else if z == 256 {
      a.outPos := pos;
      a.EndCheck();
      EndStep(c, |a.zbuffer|, old(a.p), r0, a.State());
      if a.hitZeof && a.numBits < 16 {
        step := Failed;
        EndBlocks(c, a.zbuffer, old(a.p), r0, a.zout[..pos], MaxOutput(a));
      } else {
        step := Ended;
      }
    } else if z >= 286 {
      step := Failed;
      BadSymbolBlocks(c, a.zbuffer, old(a.p), r0, z, a.zout[..pos], MaxOutput(a));
    } else {
      step, zo, t := ParseCopy(a, c, pos, z, old(a.p), r0);
    }
  }

  method EmitLiteral(a: ZBuf, pos: nat, z: byte) returns (step: Step, zo: nat)
    requires Output(a) && pos <= a.zout.Length
    modifies a`zout, a`outPos, a.zout
    ensures Output(a) && MaxOutput(a) == old(MaxOutput(a))
    ensures a.zout == old(a.zout) || fresh(a.zout)
    ensures zo <= a.zout.Length && step != Ended
    ensures step == Emitted ==> zo == pos + 1 && a.zout[..zo] == old(a.zout[..pos]) + [z]
    ensures step == Failed ==> MaxOutput(a) < pos + 1
  {
    zo := pos;
    if zo >= a.zout.Length {
      var ok := ZExpand(a, zo, 1);
      if !ok {
        zo := a.zout.Length;
        return Failed, zo;
      }
      zo := a.outPos;
    }
    a.zout[zo] := z;
    zo := zo + 1;
    assert a.zout[..zo] == a.zout[..pos] + [z];
    step := Emitted;
  }

  method ParseCopy(a: ZBuf, ghost c: Codes, pos: nat, lsym: nat, ghost p0: nat, ghost r0: Refill) returns (step: Step, zo: nat, ghost t: Token)
    requires a.Reader() && Output(a) && Tables(a, c) && pos <= a.zout.Length
    requires 257 <= lsym < 286 && SymbolAt(c.lit, a.zbuffer, p0, lsym) && a.p == p0 + c.lit[lsym]
    requires Look(|a.zbuffer|, p0, r0) == Some(a.State())
    modifies a, a.zout
    ensures a.Reader() && Output(a) && Tables(a, c) && zo <= a.zout.Length && step != Ended
    ensures a.zout == old(a.zout) || fresh(a.zout)
    ensures MaxOutput(a) == old(MaxOutput(a))
    ensures step == Emitted ==> TokenAt(c, a.zbuffer, p0, t) && a.p == p0 + TokenSize(c, t)
    ensures step == Emitted ==> CanApply(pos, t) && pos < zo && a.zout[..zo] == Apply(old(a.zout[..pos]), t)
    ensures step == Emitted ==> OfToken(c, |a.zbuffer|, p0, r0, t) == Some(a.State())
    ensures step == Failed ==> Blocked(c, a.zbuffer, p0, r0, old(a.zout[..pos]), MaxOutput(a))
  {
    TablesCodes(a, c);
    hide MaxOutput, ZBuf.Reader, ZHuffman.Shape, Tables, Blocked, CopyRun, TokenAt, TokenSize, SymbolAt, LengthBase, DistBase, Look, OfToken;
    zo := pos;
    var valid, len, dist;
    valid, len, dist, t := ReadCopy(a, c, lsym, p0, r0, a.zout[..pos], MaxOutput(a));
    if !valid {
      step := Failed;
    } else if pos < dist {
      step := Failed;
      OnlyToken(c, a.zbuffer, p0, r0, t, a.zout[..pos], MaxOutput(a));
    } else {
      step, zo := EmitCopy(a, pos, len, dist);
      if step == Failed {
        OnlyToken(c, a.zbuffer, p0, r0, t, old(a.zout[..pos]), MaxOutput(a));
      }
    }
  }

  /** The length symbol and its extra bits were read from p0 and refill state r0, up to p and r. */
  ghost predicate LengthRead(c: Codes, data: seq<byte>, p0: nat, r0: Refill, lsym: nat, lextra: nat, p: nat, r: Refill) {
    && 257 <= lsym < 286 && SymbolAt(c.lit, data, p0, lsym)
    && lextra == BitsAt(data, p0 + c.lit[lsym], LengthExtra(lsym - 257))
    && p == p0 + c.lit[lsym] + LengthExtra(lsym - 257)
    && Look(|data|, p0, r0).Some?
    && r == Receive(p0 + c.lit[lsym], Look(|data|, p0, r0).value, LengthExtra(lsym - 257))
  }

  /** The copy token t with the given distance was read from p0 and refill state r0, up to p and r. */
  ghost predicate CopyRead(c: Codes, data: seq<byte>, p0: nat, r0: Refill, t: Token, dist: nat, p: nat, r: Refill) {
    && t.Copy? && TokenAt(c, data, p0, t) && p == p0 + TokenSize(c, t) && OfToken(c, |data|, p0, r0, t) == Some(r)
    && t.dsym < 30 && dist == CopyDist(t) && 1 <= dist
  }

  /** The rest of a copy token after its length symbol. */
  method ReadCopy(a: ZBuf, ghost c: Codes, lsym: nat, ghost p0: nat, ghost r0: Refill, ghost out: seq<byte>, ghost max: nat)
    returns (valid: bool, len: nat, dist: nat, ghost t: Token)
    requires a.Reader() && Tables(a, c)
    requires 257 <= lsym < 286 && SymbolAt(c.lit, a.zbuffer, p0, lsym) && a.p == p0 + c.lit[lsym]
    requires Look(|a.zbuffer|, p0, r0) == Some(a.State())
    modifies a`pos, a`codeBuffer, a`numBits, a`hitZeof, a`p, a`fetched
    ensures a.Reader() && Tables(a, c)
    ensures valid ==> TokenAt(c, a.zbuffer, p0, t) && a.p == p0 + TokenSize(c, t)
    ensures valid ==> t.Copy? && t.lsym == lsym && t.dsym < 30
    ensures valid ==> len == CopyLength(t) && dist == CopyDist(t) && 1 <= len && 1 <= dist
    ensures valid ==> OfToken(c, |a.zbuffer|, p0, r0, t) == Some(a.State())
    ensures !valid ==> Blocked(c, a.zbuffer, p0, r0, out, max)
  {
    hide ZBuf.Reader, ZHuffman.Shape, Tables, Blocked, SymbolAt, TokenAt, TokenSize,
         BitsAt, LengthBase, LengthExtra, DistBase, Look, Receive, OfToken;
    ghost var lextra;
    len, lextra := ReadLength(a, c, lsym - 257);
    assert LengthRead(c, a.zbuffer, p0, r0, lsym, lextra, a.p, a.State());
    valid, dist, t := ReadDistanceCode(a, c, lsym, lextra, p0, r0, out, max);
  }

  method ReadDistanceCode(a: ZBuf, ghost c: Codes, ghost lsym: nat, ghost lextra: nat, ghost p0: nat,
                          ghost r0: Refill, ghost out: seq<byte>, ghost max: nat)
    returns (valid: bool, dist: nat, ghost t: Token)
    requires a.Reader() && Tables(a, c)
    requires LengthRead(c, a.zbuffer, p0, r0, lsym, lextra, a.p, a.State())
    modifies a`pos, a`codeBuffer, a`numBits, a`hitZeof, a`p, a`fetched
    ensures a.Reader() && Tables(a, c)
    ensures valid ==> CopyRead(c, a.zbuffer, p0, r0, t, dist, a.p, a.State()) && t.lsym == lsym && t.lextra == lextra
    ensures !valid ==> Blocked(c, a.zbuffer, p0, r0, out, max)
  {
    TablesCodes(a, c);
    hide ZBuf.Reader, ZHuffman.Shape, Tables, NoSymbol, Blocked, SymbolAt, CopyRead, LengthRead,
         BitsAt, LengthBase, DistBase, DistExtra, Look, Receive, ValidCodes;
    ghost var p2, r2 := a.p, a.State();
    var d := DecodeDistance(a, c);
    t := Literal(0);
    if d < 0 || d >= 30 {
      valid, dist := false, 0;
      NoDistanceBlocks(c, a.zbuffer, p0, r0, lsym, lextra, p2, r2, d, out, max);
    } else {
      dist, t := ReadDistanceBits(a, c, lsym, lextra, p0, r0, p2, r2, d);
      valid := true;
    }
  }

  /** The extra bits of the distance whose symbol d was read at p2. */
  method ReadDistanceBits(a: ZBuf, ghost c: Codes, ghost lsym: nat, ghost lextra: nat, ghost p0: nat, ghost r0: Refill,
                          ghost p2: nat, ghost r2: Refill, d: nat) returns (dist: nat, ghost t: Token)
    requires a.Reader() && Tables(a, c) && d < 30
    requires LengthRead(c, a.zbuffer, p0, r0, lsym, lextra, p2, r2)
    requires SymbolAt(c.dist, a.zbuffer, p2, d) && a.p == p2 + c.dist[d] && Look(|a.zbuffer|, p2, r2) == Some(a.State())
    modifies a`pos, a`codeBuffer, a`numBits, a`p, a`fetched
    ensures a.Reader() && Tables(a, c)
    ensures CopyRead(c, a.zbuffer, p0, r0, t, dist, a.p, a.State()) && t.lsym == lsym && t.lextra == lextra
  {
    hide ZBuf.Reader, ZHuffman.Shape, Tables, SymbolAt, CopyRead, LengthRead, BitsAt, LengthBase, DistBase, DistExtra, Look, Receive;
    ghost var s, dextra := a.State(), 0;
    dist, dextra := ReadDistance(a, c, d);
    t := Copy(lsym, lextra, d, dextra);
    WholeCopy(c, a.zbuffer, p0, r0, lsym, lextra, p2, r2, d, s, dextra, dist);
  }

  lemma LiteralTokenAt(c: Codes, data: seq<byte>, p: nat, r: Refill, z: nat)
    requires z < 256 && SymbolAt(c.lit, data, p, z)
    ensures OfToken(c, |data|, p, r, Literal(z)) == Look(|data|, p, r)
    ensures TokenAt(c, data, p, Literal(z)) && TokenSize(c, Literal(z)) == c.lit[z]
  {
  }

  /** After the length, the distance symbol and its extra bits complete the token. */
  lemma WholeCopy(c: Codes, data: seq<byte>, p: nat, r: Refill, lsym: nat, lextra: nat, p2: nat, r2: Refill, d: nat, s: Refill, dextra: nat, dist: nat)
    requires LengthRead(c, data, p, r, lsym, lextra, p2, r2)
    requires d < 30 && SymbolAt(c.dist, data, p2, d) && Look(|data|, p2, r2) == Some(s)
    requires dextra == BitsAt(data, p2 + c.dist[d], DistExtra(d)) && dist == DistBase(d) + dextra && 1 <= dist
    ensures CopyRead(c, data, p, r, Copy(lsym, lextra, d, dextra), dist, p2 + c.dist[d] + DistExtra(d), Receive(p2 + c.dist[d], s, DistExtra(d)))
  {
    hide LengthExtra, DistExtra, BitsAt, Look, Receive;
  }

  method ReadLength(a: ZBuf, ghost c: Codes, z: nat) returns (len: nat, ghost lextra: nat)
    requires a.Reader() && Tables(a, c) && z < 29
    modifies a`pos, a`codeBuffer, a`numBits, a`p, a`fetched
    ensures a.Reader() && Tables(a, c) && a.p == old(a.p) + LengthExtra(z)
    ensures lextra == BitsAt(a.zbuffer, old(a.p), LengthExtra(z))
    ensures len == LengthBase(z) + lextra && 1 <= len
    ensures a.State() == Receive(old(a.p), old(a.State()), LengthExtra(z))
  {
    a.ReaderSound();
    hide ZBuf.Reader, ZHuffman.Shape, LengthBase, LengthExtra;
    var extra;
    len, extra := LengthEntry(z);
    lextra := 0;
    if extra != 0 {
      var k := a.ZReceive(extra);
      len := len + k;
      lextra := k;
    }
  }

  method ReadDistance(a: ZBuf, ghost c: Codes, z: nat) returns (dist: nat, ghost dextra: nat)
    requires a.Reader() && Tables(a, c) && z < 30
    modifies a`pos, a`codeBuffer, a`numBits, a`p, a`fetched
    ensures a.Reader() && Tables(a, c) && a.p == old(a.p) + DistExtra(z)
    ensures dextra == BitsAt(a.zbuffer, old(a.p), DistExtra(z))
    ensures dist == DistBase(z) + dextra && 1 <= dist
    ensures a.State() == Receive(old(a.p), old(a.State()), DistExtra(z))
  {
    a.ReaderSound();
    hide ZBuf.Reader, ZHuffman.Shape, DistBase, DistExtra;
    var extra;
    dist, extra := DistEntry(z);
    dextra := 0;
    if extra != 0 {
      var k := a.ZReceive(extra);
      dist := dist + k;
      dextra := k;
    }
  }

  method EmitCopy(a: ZBuf, pos: nat, len: nat, dist: nat) returns (step: Step, zo: nat)
    requires Output(a) && 1 <= dist <= pos <= a.zout.Length && 0 < len
    modifies a`zout, a`outPos, a.zout
    ensures Output(a) && MaxOutput(a) == old(MaxOutput(a))
    ensures a.zout == old(a.zout) || fresh(a.zout)
    ensures zo <= a.zout.Length && step != Ended
    ensures step == Emitted ==> zo == pos + len && a.zout[..zo] == CopyRun(old(a.zout[..pos]), dist, len)
    ensures step == Failed ==> MaxOutput(a) < pos + len
  {
    zo := pos;
    if len > a.zout.Length - zo {
      var ok := ZExpand(a, zo, len);
      if !ok {
        zo := a.zout.Length;
        return Failed, zo;
      }
      zo := a.outPos;
    }
    CopyBack(a.zout, zo, dist, len);
    zo := zo + len;
    step := Emitted;
  }

  // Why a failed step rules out every block.

  lemma NoSymbolBlocks(c: Codes, data: seq<byte>, p: nat, r: Refill, out: seq<byte>, max: nat)
    requires NoSymbol(c.lit, data, p, r)
    ensures Blocked(c, data, p, r, out, max)
  {
    hide Look;
    forall t | TokenAt(c, data, p, t)
      ensures SymbolAt(c.lit, data, p, FirstSym(t))
    {
    }
  }

  lemma OnlyToken(c: Codes, data: seq<byte>, p: nat, r: Refill, t: Token, out: seq<byte>, max: nat)
    requires ValidCodes(c) && TokenAt(c, data, p, t)
    requires CanApply(|out|, t) ==> max < |Apply(out, t)|
    ensures Blocked(c, data, p, r, out, max)
  {
    hide TokenAt, SymbolAt, CanApply, Apply, OfToken, OfEnd;
    TokenNotEnd(c, data, p, t);
    forall u | TokenAt(c, data, p, u)
      ensures u == t
    {
      TokenUnique(c, data, p, t, u);
    }
  }

  lemma EndStep(c: Codes, n: nat, p: nat, r: Refill, s: Refill)
    requires END_OF_BLOCK < |c.lit| && Look(n, p, r) == Some(s)
    ensures OfEnd(c, n, p, r) == if EndAccepted(p + c.lit[END_OF_BLOCK], s) then Some(s) else None
  {
  }

  lemma EndBlocks(c: Codes, data: seq<byte>, p: nat, r: Refill, out: seq<byte>, max: nat)
    requires ValidCodes(c) && SymbolAt(c.lit, data, p, END_OF_BLOCK) && OfEnd(c, |data|, p, r).None?
    ensures Blocked(c, data, p, r, out, max)
  {
    hide OfToken, OfEnd;
    forall t
      ensures !TokenAt(c, data, p, t)
    {
      if TokenAt(c, data, p, t) {
        TokenNotEnd(c, data, p, t);
      }
    }
  }

  lemma BadSymbolBlocks(c: Codes, data: seq<byte>, p: nat, r: Refill, z: nat, out: seq<byte>, max: nat)
    requires ValidCodes(c) && SymbolAt(c.lit, data, p, z) && 286 <= z
    ensures Blocked(c, data, p, r, out, max)
  {
    hide OfToken, OfEnd;
    forall t
      ensures !TokenAt(c, data, p, t)
    {
      if TokenAt(c, data, p, t) {
        SymbolUnique(c.lit, data, p, z, FirstSym(t));
      }
    }
    if SymbolAt(c.lit, data, p, END_OF_BLOCK) {
      SymbolUnique(c.lit, data, p, z, END_OF_BLOCK);
    }
  }

  lemma NoDistanceBlocks(c: Codes, data: seq<byte>, p: nat, r: Refill, lsym: nat, lextra: nat, p2: nat, r2: Refill, d: int, out: seq<byte>, max: nat)
    requires ValidCodes(c) && LengthRead(c, data, p, r, lsym, lextra, p2, r2)
    requires d < 0 ==> NoSymbol(c.dist, data, p2, r2)
    requires 0 <= d ==> d >= 30 && SymbolAt(c.dist, data, p2, d)
    ensures Blocked(c, data, p, r, out, max)
  {
    hide Look, Receive, LengthExtra, DistExtra;
    forall t | TokenAt(c, data, p, t)
      ensures OfToken(c, |data|, p, r, t).None?
    {
      SymbolUnique(c.lit, data, p, lsym, FirstSym(t));
      assert SymbolAt(c.dist, data, p2, t.dsym);
      if 0 <= d {
        SymbolUnique(c.dist, data, p2, t.dsym, d);
      }
    }
    if SymbolAt(c.lit, data, p, END_OF_BLOCK) {
      SymbolUnique(c.lit, data, p, lsym, END_OF_BLOCK);
    }
  }
}
