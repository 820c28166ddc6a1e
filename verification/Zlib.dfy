/**
 Whole compressed streams: the dispatch on the block type, the loop over the blocks and
 the zlib wrapper (sections 2.2 and 2.3 of RFC 1950).
 */
module Zlib {
  import opened Options
  import opened Binary
  import opened BitStream
  import opened Canonical
  import opened ZlibBuffer
  import opened BitRefill
  import opened Lz77
  import opened InflateBlock
  import opened Deflate
  import opened DynamicHeader
  import opened TokenRefill
  import opened BlockRefill
  import opened Inflate

  /** The body of block b stands at p, the bit reader does not refuse it, and its output fits in max bytes. */
  ghost predicate FittingBody(data: seq<byte>, p: nat, r: Refill, out: seq<byte>, max: nat, b: Block) {
    && BodyAt(data, p, b) && OfBody(data, p, r, b).Some?
    && ExpandBlock(out, b).Some? && |ExpandBlock(out, b).value| <= max
  }

  ghost predicate NoBody(data: seq<byte>, p: nat, r: Refill, out: seq<byte>, max: nat, kind: nat) {
    forall b {:trigger BodyAt(data, p, b)} :: BlockKind(b) == kind ==> !FittingBody(data, p, r, out, max, b)
  }

  /** The body of block b was read from p and refill state r up to q and s, and has turned out into next. */
  ghost predicate BodyRead(data: seq<byte>, p: nat, r: Refill, out: seq<byte>, b: Block, q: nat, s: Refill, next: seq<byte>) {
    && BodyAt(data, p, b) && q == BodyEnd(data, p, b)
    && OfBody(data, p, r, b) == Some(s) && ExpandBlock(out, b) == Some(next)
  }

  lemma NoStoredBody(data: seq<byte>, p: nat, r: Refill, out: seq<byte>, max: nat)
    requires NoStored(data, p, |out|, max)
    ensures NoBody(data, p, r, out, max, 0)
  {
    hide BodyAt, BodyEnd, OfBody;
    forall b: Block | BlockKind(b) == 0
      ensures !FittingBody(data, p, r, out, max, b)
    {
      assert b == Stored(b.bytes);
    }
  }

  lemma NoFixedBody(data: seq<byte>, p: nat, r: Refill, out: seq<byte>, max: nat)
    requires forall us :: !FittingBlock(FixedCodes(), data, p, r, out, max, us)
    ensures NoBody(data, p, r, out, max, 1)
  {
    hide BlockAt, FixedCodes, OfBlock;
    forall b: Block | BlockKind(b) == 1
      ensures !FittingBody(data, p, r, out, max, b)
    {
      assert !FittingBlock(FixedCodes(), data, p, r, out, max, b.ts);
    }
  }

  lemma NoDynamicBody(data: seq<byte>, p: nat, r: Refill, out: seq<byte>, max: nat, ops: seq<LengthOp>, c: Codes, s: Refill)
    requires HeaderAt(data, p, ops, c) && OfHeader(data, p, r, ops) == Some(s)
    requires forall us :: !FittingBlock(c, data, HeaderEnd(data, p, ops), s, out, max, us)
    ensures NoBody(data, p, r, out, max, 2)
  {
    hide BlockAt, HeaderAt, HeaderEnd, OfBlock, OfHeader;
    forall b: Block | BlockKind(b) == 2
      ensures !FittingBody(data, p, r, out, max, b)
    {
      if BodyAt(data, p, b) {
        HeaderCodesValid(data, p, b.ops, b.c);
        HeaderUnique(data, p, b.ops, b.c, ops, c);
        assert !FittingBlock(c, data, HeaderEnd(data, p, ops), s, out, max, b.ts);
      }
    }
  }

  lemma NoHeaderBody(data: seq<byte>, p: nat, r: Refill, out: seq<byte>, max: nat)
    requires NoHeader(data, p, r)
    ensures NoBody(data, p, r, out, max, 2)
  {
    hide HeaderAt, OfHeader, OfBlock;
    forall b: Block | BlockKind(b) == 2
      ensures !FittingBody(data, p, r, out, max, b)
    {
      if BodyAt(data, p, b) {
        assert HeaderAt(data, p, b.ops, b.c);
      }
    }
  }

  method ParseFixedBlock(a: ZBuf) returns (ok: bool, ghost b: Block)
    requires a.Reader() && Output(a) && a.Separate()
    modifies a, a.zout, a.zLength.Repr, a.zDistance.Repr
    ensures a.Reader() && Output(a) && MaxOutput(a) == old(MaxOutput(a))
    ensures a.zout == old(a.zout) || fresh(a.zout)
    ensures ok ==> BlockKind(b) == 1 && BodyRead(a.zbuffer, old(a.p), old(a.State()), old(Out(a)), b, a.p, a.State(), Out(a))
    ensures !ok ==> NoBody(a.zbuffer, old(a.p), old(a.State()), old(Out(a)), MaxOutput(a), 1)
  {
    hide ZBuf.Reader, Tables, MaxOutput, NoBody, BlockAt, BlockEnd, Expand, FittingBlock, FixedCodes, OfBlock;
    ghost var p0, r0, out0 := a.p, a.State(), Out(a);
    BuildFixed(a);
    ghost var ts;
    ok, ts := ParseHuffmanBlock(a, FixedCodes());
    b := Fixed(ts);
    if !ok {
      NoFixedBody(a.zbuffer, p0, r0, out0, MaxOutput(a));
    }
  }

  /** The tables of the fixed codes, whose construction cannot fail. */
  method BuildFixed(a: ZBuf)
    requires a.Reader() && Output(a) && a.Separate()
    modifies a.zLength.Repr, a.zDistance.Repr
    ensures a.Reader() && Output(a) && Tables(a, FixedCodes())
    ensures Out(a) == old(Out(a)) && MaxOutput(a) == old(MaxOutput(a)) && a.State() == old(a.State())
  {
    FixedCodesUsable();
    hide ZBuf.Reader, Tables, MaxOutput, FixedLit, FixedDist, KraftSum;
    var ok := BuildBoth(a, FixedLit(), FixedDist());
    if !ok {
      assert false;
    }
  }

  method ParseDynamicBlock(a: ZBuf) returns (ok: bool, ghost b: Block)
    requires a.Reader() && Output(a) && a.Separate()
    modifies a, a.zout, a.zLength.Repr, a.zDistance.Repr
    ensures a.Reader() && Output(a) && MaxOutput(a) == old(MaxOutput(a))
    ensures a.zout == old(a.zout) || fresh(a.zout)
    ensures ok ==> BlockKind(b) == 2 && BodyRead(a.zbuffer, old(a.p), old(a.State()), old(Out(a)), b, a.p, a.State(), Out(a))
    ensures !ok ==> NoBody(a.zbuffer, old(a.p), old(a.State()), old(Out(a)), MaxOutput(a), 2)
  {
    hide ZBuf.Reader, Tables, MaxOutput, NoBody, NoHeader, BlockAt, BlockEnd, HeaderAt, HeaderEnd, Expand, FittingBlock,
         OfHeader, OfBlock;
    ghost var data, p0, r0, out0, max := a.zbuffer, a.p, a.State(), Out(a), MaxOutput(a);
    ghost var ops, c, ts;
    ok, ops, c := ComputeHuffmanCodes(a);
    b := Dynamic(ops, c, []);
    if !ok {
      NoHeaderBody(data, p0, r0, out0, max);
    } else {
      assert Out(a) == out0;
      ghost var r := a.State();
      ok, ts := ParseHuffmanBlock(a, c);
      b := Dynamic(ops, c, ts);
      if !ok {
        NoDynamicBody(data, p0, r0, out0, max, ops, c, r);
      }
    }
  }

  method ParseStoredBlock(a: ZBuf) returns (ok: bool, ghost b: Block)
    requires a.Reader() && Output(a) && a.Separate()
    modifies a, a.zout
    ensures a.Reader() && Output(a) && MaxOutput(a) == old(MaxOutput(a))
    ensures a.zout == old(a.zout) || fresh(a.zout)
    ensures ok ==> BlockKind(b) == 0 && BodyRead(a.zbuffer, old(a.p), old(a.State()), old(Out(a)), b, a.p, a.State(), Out(a))
    ensures !ok ==> NoBody(a.zbuffer, old(a.p), old(a.State()), old(Out(a)), MaxOutput(a), 0)
  {
    hide ZBuf.Reader, MaxOutput, NoBody, NoStored, BodyAt, BodyEnd;
    ghost var p0, r0, out0 := a.p, a.State(), Out(a);
    ghost var bytes;
    ok, bytes := ParseUncompressedBlock(a);
    b := Stored(bytes);
    if !ok {
      NoStoredBody(a.zbuffer, p0, r0, out0, MaxOutput(a));
    }
  }

  // Streams of blocks

  /** Blocks up to a final one that the bit reader does not refuse and whose output fits in max bytes. */
  ghost predicate FittingBlocks(data: seq<byte>, p0: nat, r0: Refill, out: seq<byte>, max: nat, bs: seq<Block>) {
    && Reading(data, p0, r0, bs).Some? && Reading(data, p0, r0, bs).value.final
    && ExpandBlocks(out, bs).Some? && |ExpandBlocks(out, bs).value| <= max
  }

  /** The blocks bs were read from p0 and refill state r0 up to s and have turned out0 into out. */
  ghost predicate BlocksRead(data: seq<byte>, p0: nat, r0: Refill, out0: seq<byte>, bs: seq<Block>, s: Reached, out: seq<byte>) {
    Reading(data, p0, r0, bs) == Some(s) && ExpandBlocks(out0, bs) == Some(out)
  }

  lemma BlocksAppend(data: seq<byte>, p0: nat, r0: Refill, out0: seq<byte>, bs: seq<Block>, p: nat, r: Refill, out: seq<byte>,
                     b: Block, final: bool, q: nat, s: Refill, next: seq<byte>)
    requires BlocksRead(data, p0, r0, out0, bs, Reached(p, r, false), out)
    requires BlockRead(data, p, r, out, b, final, q, s, next)
    ensures BlocksRead(data, p0, r0, out0, bs + [b], Reached(q, s, final), next)
  {
    hide BodyAt, BodyEnd, ExpandBlock, OfBody, OfFlags;
    var cs := bs + [b];
    assert cs[..|cs| - 1] == bs;
  }

  /** The block b was read from p and refill state r, with its flags. */
  ghost predicate BlockRead(data: seq<byte>, p: nat, r: Refill, out: seq<byte>, b: Block, final: bool,
                            q: nat, s: Refill, next: seq<byte>) {
    OneBlockAt(data, p, b, final) && BodyRead(data, p + 3, OfFlags(p, r), out, b, q, s, next)
  }

  /** No block that the bit reader does not refuse and whose output fits stands at p. */
  ghost predicate NoBlock(data: seq<byte>, p: nat, r: Refill, out: seq<byte>, max: nat) {
    forall b, f {:trigger OneBlockAt(data, p, b, f)} ::
      OneBlockAt(data, p, b, f) ==> !FittingBody(data, p + 3, OfFlags(p, r), out, max, b)
  }

  lemma NoBlockOfType(data: seq<byte>, p: nat, r: Refill, out: seq<byte>, max: nat)
    requires NoBody(data, p + 3, OfFlags(p, r), out, max, BitsAt(data, p + 1, 2)) || 3 <= BitsAt(data, p + 1, 2)
    ensures NoBlock(data, p, r, out, max)
  {
    hide BodyAt, BodyEnd, FittingBody, BitsAt, OfFlags;
    forall b, f | OneBlockAt(data, p, b, f)
      ensures !FittingBody(data, p + 3, OfFlags(p, r), out, max, b)
    {
      assert BlockKind(b) < 3;
    }
  }

  lemma NoBlockIsFinal(data: seq<byte>, p0: nat, r0: Refill, out0: seq<byte>, max: nat, ts: seq<Block>, q: nat, r: Refill, out: seq<byte>)
    requires BlocksRead(data, p0, r0, out0, ts, Reached(q, r, false), out) && NoBlock(data, q, r, out, max)
    ensures forall bs :: !FittingBlocks(data, p0, r0, out0, max, bs)
  {
    hide OneBlockAt, BodyEnd, BodyAt, BlocksAt, ExpandBlock, ExpandBlocks, Reading, OfBody, OfFlags;
    forall bs
      ensures !FittingBlocks(data, p0, r0, out0, max, bs)
    {
      if FittingBlocks(data, p0, r0, out0, max, bs) {
        ReadingIsBlocks(data, p0, r0, ts);
        ReadingIsBlocks(data, p0, r0, bs);
        BlocksPrefix(data, p0, ts, q, bs, Reading(data, p0, r0, bs).value.p);
        ReadingPrefix(data, p0, r0, bs, |ts|);
        ExpandBlocksPrefix(out0, bs, |ts|);
        HasBody(data, q, bs[|ts|], IsFinal(data, q));
      }
    }
  }

  lemma HasBody(data: seq<byte>, p: nat, b: Block, f: bool)
    requires OneBlockAt(data, p, b, f)
    ensures BodyAt(data, p + 3, b)
  {
  }

  /** One block, with its final flag and its type. */
  method ParseBlock(a: ZBuf) returns (ok: bool, final: bool, ghost b: Block)
    requires a.Reader() && Output(a) && a.Separate()
    modifies a, a.zout, a.zLength.Repr, a.zDistance.Repr
    ensures a.Reader() && Output(a) && MaxOutput(a) == old(MaxOutput(a))
    ensures a.zout == old(a.zout) || fresh(a.zout)
    ensures ok ==> BlockRead(a.zbuffer, old(a.p), old(a.State()), old(Out(a)), b, final, a.p, a.State(), Out(a))
    ensures !ok ==> NoBlock(a.zbuffer, old(a.p), old(a.State()), old(Out(a)), MaxOutput(a))
  {
    hide ZBuf.Reader, MaxOutput, BlockRead, NoBlock, BitsAt, OfFlags;
    ghost var p0, r0 := a.p, a.State();
    var kind;
    final, kind := ReadBlockHeader(a);
    ok, b := ParseAfterFlags(a, kind, p0, r0, final);
  }

  /** The body of a block whose flags were read from p0 on. */
  method ParseAfterFlags(a: ZBuf, kind: nat, ghost p0: nat, ghost r0: Refill, ghost final: bool) returns (ok: bool, ghost b: Block)
    requires a.Reader() && Output(a) && a.Separate() && a.p == p0 + 3 && a.State() == OfFlags(p0, r0)
    requires BitsAt(a.zbuffer, p0, 1) == (if final then 1 else 0) && kind == BitsAt(a.zbuffer, p0 + 1, 2) < 4
    modifies a, a.zout, a.zLength.Repr, a.zDistance.Repr
    ensures a.Reader() && Output(a) && MaxOutput(a) == old(MaxOutput(a))
    ensures a.zout == old(a.zout) || fresh(a.zout)
    ensures ok ==> BlockRead(a.zbuffer, p0, r0, old(Out(a)), b, final, a.p, a.State(), Out(a))
    ensures !ok ==> NoBlock(a.zbuffer, p0, r0, old(Out(a)), MaxOutput(a))
  {
    hide ZBuf.Reader, MaxOutput, NoBody, BodyAt, BodyEnd, NoBlock, BitsAt, ExpandBlock, OfFlags, OfBody;
    ghost var out0 := Out(a);
    ok, b := ParseBody(a, kind);
    if !ok {
      NoBlockOfType(a.zbuffer, p0, r0, out0, MaxOutput(a));
    }
  }

  method ReadBlockHeader(a: ZBuf) returns (final: bool, kind: nat)
    requires a.Reader() && Output(a)
    modifies a`pos, a`codeBuffer, a`numBits, a`p, a`fetched
    ensures a.Reader() && Output(a) && a.p == old(a.p) + 3
    ensures BitsAt(a.zbuffer, old(a.p), 1) == if final then 1 else 0
    ensures kind == BitsAt(a.zbuffer, old(a.p) + 1, 2) < 4
    ensures Out(a) == old(Out(a)) && MaxOutput(a) == old(MaxOutput(a))
    ensures a.State() == OfFlags(old(a.p), old(a.State()))
  {
    BitsBound(a.zbuffer, a.p, 1);
    BitsBound(a.zbuffer, a.p + 1, 2);
    assert Pow2(1) == 2 && Pow2(2) == 4 by { Pow2Values(); }
    hide ZBuf.Reader, MaxOutput, BitsAt, Receive;
    var f := a.ZReceive(1);
    kind := a.ZReceive(2);
    final := f != 0;
  }

  method ParseBody(a: ZBuf, kind: nat) returns (ok: bool, ghost b: Block)
    requires a.Reader() && Output(a) && a.Separate() && kind < 4
    modifies a, a.zout, a.zLength.Repr, a.zDistance.Repr
    ensures a.Reader() && Output(a) && MaxOutput(a) == old(MaxOutput(a))
    ensures a.zout == old(a.zout) || fresh(a.zout)
    ensures ok ==> BlockKind(b) == kind && BodyRead(a.zbuffer, old(a.p), old(a.State()), old(Out(a)), b, a.p, a.State(), Out(a))
    ensures !ok ==> kind == 3 || NoBody(a.zbuffer, old(a.p), old(a.State()), old(Out(a)), MaxOutput(a), kind)
  {
    hide ZBuf.Reader, MaxOutput, NoBody, BodyRead;
    if kind == 0 {
      ok, b := ParseStoredBlock(a);
    } else if kind == 3 {
      ok, b := false, Stored([]);
    } else if kind == 1 {
      ok, b := ParseFixedBlock(a);
    } else {
      ok, b := ParseDynamicBlock(a);
    }
  }

  method ParseBlocks(a: ZBuf) returns (ok: bool, ghost bs: seq<Block>)
    requires a.Reader() && Output(a) && a.Separate()
    modifies a, a.zout, a.zLength.Repr, a.zDistance.Repr
    ensures a.Reader() && Output(a) && MaxOutput(a) == old(MaxOutput(a))
    ensures a.zout == old(a.zout) || fresh(a.zout)
    ensures ok ==> BlocksRead(a.zbuffer, old(a.p), old(a.State()), old(Out(a)), bs, Reached(a.p, a.State(), true), Out(a))
    ensures !ok ==> forall ds :: !FittingBlocks(a.zbuffer, old(a.p), old(a.State()), old(Out(a)), MaxOutput(a), ds)
  {
    hide ZBuf.Reader, MaxOutput, OneBlockAt, BodyEnd, NoBlock, FittingBlocks, BlocksRead, BlockRead;
    ghost var data, p0, r0, out0, max := a.zbuffer, a.p, a.State(), Out(a), MaxOutput(a);
    bs := [];
    BlocksReadStart(data, p0, r0, out0);
    var final := false;
    while !final
      invariant a.Reader() && Output(a) && MaxOutput(a) == max
      invariant a.zout == old(a.zout) || fresh(a.zout)
      invariant BlocksRead(data, p0, r0, out0, bs, Reached(a.p, a.State(), final), Out(a))
      decreases !final, 8 * |data| - a.p
    {
      ghost var q, r, out := a.p, a.State(), Out(a);
      ghost var b;
      ok, final, b := ParseBlock(a);
      if !ok {
        NoBlockIsFinal(data, p0, r0, out0, max, bs, q, r, out);
        return;
      }
      ReadProgress(data, q, r, out, b, final, a.p, a.State(), Out(a));
      BlocksAppend(data, p0, r0, out0, bs, q, r, out, b, final, a.p, a.State(), Out(a));
      bs := bs + [b];
    }
    ok := true;
  }

  lemma ReadProgress(data: seq<byte>, p: nat, r: Refill, out: seq<byte>, b: Block, final: bool, q: nat, s: Refill, next: seq<byte>)
    requires BlockRead(data, p, r, out, b, final, q, s, next)
    ensures p < 8 * |data| && p + 3 <= q
  {
    hide BodyEnd, BodyAt, OfBody, ExpandBlock;
    BlockProgress(data, p, b, final);
  }

  lemma BlocksReadStart(data: seq<byte>, p0: nat, r0: Refill, out0: seq<byte>)
    ensures BlocksRead(data, p0, r0, out0, [], Reached(p0, r0, false), out0)
  {
  }

  /** Every block starts inside the input and ends later, so the loop terminates. */
  lemma BlockProgress(data: seq<byte>, p: nat, b: Block, f: bool)
    requires OneBlockAt(data, p, b, f)
    ensures p < 8 * |data| && p + 3 <= BodyEnd(data, p + 3, b)
  {
    hide BodyEnd;
    if 8 * |data| <= p {
      NoBlockPastEnd(data, p, b, f);
    }
    BodyEndGrows(data, p + 3, b);
  }

  // The zlib wrapper

  /** A header of two bytes that is followed by data, passes the check and names plain DEFLATE. */
  predicate HeaderOk(data: seq<byte>) {
    && 2 < |data|
    && Word(data[1], data[0]) % 31 == 0
    && (data[1] / 32) % 2 == 0
    && data[0] % 16 == 8
  }

  /**
   The fields of section 2.2 of RFC 1950: method 8, no preset dictionary, any window size, any
   level, and a check that makes the two bytes, the first one in front, a multiple of 31.
   */
  lemma HeaderFields(data: seq<byte>, window: nat, kind: nat, level: nat, dictionary: nat, check: nat)
    requires 2 < |data| && window < 16 && kind < 16 && level < 4 && dictionary < 2 && check < 32
    requires data[0] == 16 * window + kind && data[1] == 64 * level + 32 * dictionary + check
    ensures var number := 256 * (16 * window + kind) + (64 * level + 32 * dictionary + check);
      HeaderOk(data) <==> kind == 8 && dictionary == 0 && number % 31 == 0
  {
    assert data[0] % 16 == kind;
    assert (data[1] / 32) % 2 == dictionary;
  }

  method ParseZlibHeader(a: ZBuf) returns (ok: bool)
    requires a.Reader() && a.p == 0 && a.numBits == 0 && a.pos == 0 && a.fetched == 0 && !a.hitZeof
    modifies a`pos, a`p, a`fetched
    ensures ok <==> HeaderOk(a.zbuffer)
    ensures ok ==> a.Reader() && a.p == 16 && a.numBits == 0 && a.State() == Refill(2, false)
  {
    var cmf: nat := a.ZGet8();
    var cm := cmf % 16;
    var flg: nat := a.ZGet8();
    if a.pos >= |a.zbuffer| {
      return false;
    }
    a.p, a.fetched := 16, 2;
    if Word(flg, cmf) % 31 != 0 {
      return false;
    }
    if (flg / 32) % 2 != 0 {
      return false;
    }
    ok := cm == 8;
  }

  /** Where the blocks of a stream begin. */
  function StreamStart(header: bool): nat {
    if header then 16 else 0
  }

  /** The stream decodes to out: its header is right and its blocks, possibly completed with zeros, expand to out. */
  ghost predicate DecodesTo(data: seq<byte>, header: bool, out: seq<byte>) {
    && (header ==> HeaderOk(data))
    && exists bs, p: nat {:trigger BlocksAt(data, StreamStart(header), bs, p, true)} ::
      BlocksAt(data, StreamStart(header), bs, p, true) && ExpandBlocks([], bs) == Some(out)
  }

  /** The stream is a complete encoding of out: none of its bits lies past the end of the input. */
  ghost predicate CompleteEncoding(data: seq<byte>, header: bool, out: seq<byte>) {
    && (header ==> HeaderOk(data))
    && exists bs, p: nat {:trigger BlocksAt(data, StreamStart(header), bs, p, true)} ::
      BlocksAt(data, StreamStart(header), bs, p, true) && ExpandBlocks([], bs) == Some(out) && p <= 8 * |data|
  }

  /** A stream decodes to at most one output. */
  lemma DecodingUnique(data: seq<byte>, header: bool, out: seq<byte>, other: seq<byte>)
    requires DecodesTo(data, header, out) && DecodesTo(data, header, other)
    ensures out == other
  {
    hide BlocksAt, ExpandBlocks;
    var bs, p: nat :| BlocksAt(data, StreamStart(header), bs, p, true) && ExpandBlocks([], bs) == Some(out);
    var ds, q: nat :| BlocksAt(data, StreamStart(header), ds, q, true) && ExpandBlocks([], ds) == Some(other);
    StreamUnique(data, StreamStart(header), bs, p, ds, q);
  }

  /** What the bit reader has fetched when the blocks begin. */
  function StartRefill(header: bool): Refill {
    Refill(StreamStart(header) / 8, false)
  }

  /**
   The stream is accepted as an encoding of out: its header is right, and the bit reader refuses
   none of its blocks, which expand to out.
   */
  ghost predicate Accepted(data: seq<byte>, header: bool, out: seq<byte>) {
    && (header ==> HeaderOk(data))
    && exists bs {:trigger Reading(data, StreamStart(header), StartRefill(header), bs)} ::
      && Reading(data, StreamStart(header), StartRefill(header), bs).Some?
      && Reading(data, StreamStart(header), StartRefill(header), bs).value.final
      && ExpandBlocks([], bs) == Some(out)
  }

  lemma AcceptedBlocks(data: seq<byte>, header: bool, out: seq<byte>) returns (bs: seq<Block>, s: Reached)
    requires Accepted(data, header, out)
    ensures Reading(data, StreamStart(header), StartRefill(header), bs) == Some(s) && s.final
    ensures BlocksAt(data, StreamStart(header), bs, s.p, true) && ExpandBlocks([], bs) == Some(out)
  {
    hide BlocksAt, ExpandBlocks, Reading;
    bs :|
      && Reading(data, StreamStart(header), StartRefill(header), bs).Some?
      && Reading(data, StreamStart(header), StartRefill(header), bs).value.final
      && ExpandBlocks([], bs) == Some(out);
    s := Reading(data, StreamStart(header), StartRefill(header), bs).value;
    ReadingIsBlocks(data, StreamStart(header), StartRefill(header), bs);
  }

  /** Whatever is accepted is what the stream, continued with zeros, stands for. */
  lemma AcceptedIsDecoding(data: seq<byte>, header: bool, out: seq<byte>)
    requires Accepted(data, header, out)
    ensures DecodesTo(data, header, out)
  {
    hide BlocksAt, ExpandBlocks, Reading;
    var bs, s := AcceptedBlocks(data, header, out);
  }

  /** Every complete encoding is accepted. */
  lemma CompleteIsAccepted(data: seq<byte>, header: bool, out: seq<byte>)
    requires CompleteEncoding(data, header, out)
    ensures Accepted(data, header, out)
  {
    hide BlocksAt, ExpandBlocks, Reading;
    var bs, p: nat :| BlocksAt(data, StreamStart(header), bs, p, true) && ExpandBlocks([], bs) == Some(out) && p <= 8 * |data|;
    ReadingInside(data, StreamStart(header), StartRefill(header), bs, p, true);
  }

  /** A stream is accepted with at most one output. */
  lemma AcceptedUnique(data: seq<byte>, header: bool, out: seq<byte>, other: seq<byte>)
    requires Accepted(data, header, out) && Accepted(data, header, other)
    ensures out == other
  {
    hide Accepted, DecodesTo;
    AcceptedIsDecoding(data, header, out);
    AcceptedIsDecoding(data, header, other);
    DecodingUnique(data, header, out, other);
  }

  /**
   Decode a stream into a buffer of initialSize bytes that grows as needed. The decoder returns out
   if and only if the stream is accepted as an encoding of out and out fits.
   */
  method DecodeMalloc(buffer: seq<byte>, initialSize: nat, header: bool) returns (r: Option<seq<byte>>)
    requires 0 < initialSize <= UINT_MAX
    ensures forall out :: r == Some(out) <==> Accepted(buffer, header, out) && |out| <= MaxCapacity(initialSize)
  {
    hide ZBuf.Reader, Accepted, HeaderOk, BlocksRead, FittingBlocks;
    var obuf := new byte[initialSize](_ => 0);
    var a := new ZBuf(buffer, obuf, true);
    if header {
      var good := ParseZlibHeader(a);
      if !good {
        BadHeader(buffer);
        return None;
      }
    }
    var ok;
    ghost var bs;
    assert Out(a) == [] && MaxOutput(a) == MaxCapacity(initialSize) && a.State() == StartRefill(header);
    ok, bs := ParseBlocks(a);
    if ok {
      CapacityBelowMax(a);
      Decoded(buffer, header, bs, Reached(a.p, a.State(), true), Out(a));
      r := Some(a.zout[..a.outPos]);
    } else {
      r := None;
      NotDecoded(buffer, header, MaxCapacity(initialSize));
    }
  }

  lemma BadHeader(data: seq<byte>)
    requires !HeaderOk(data)
    ensures forall out :: !Accepted(data, true, out)
  {
  }

  lemma Decoded(data: seq<byte>, header: bool, bs: seq<Block>, s: Reached, out: seq<byte>)
    requires header ==> HeaderOk(data)
    requires BlocksRead(data, StreamStart(header), StartRefill(header), [], bs, s, out) && s.final
    ensures forall other :: Accepted(data, header, other) <==> other == out
  {
    assert Accepted(data, header, out);
    hide Accepted;
    forall other | Accepted(data, header, other)
      ensures other == out
    {
      AcceptedUnique(data, header, out, other);
    }
  }

  lemma NotDecoded(data: seq<byte>, header: bool, max: nat)
    requires forall ds :: !FittingBlocks(data, StreamStart(header), StartRefill(header), [], max, ds)
    ensures forall out :: Accepted(data, header, out) ==> max < |out|
  {
    hide BlocksAt, ExpandBlocks, Reading;
    forall out | Accepted(data, header, out)
      ensures max < |out|
    {
      var bs, s := AcceptedBlocks(data, header, out);
      assert !FittingBlocks(data, StreamStart(header), StartRefill(header), [], max, bs);
    }
  }
}
