/**
 What reading the headers and blocks of a stream does to the refill state of the bit reader, and
 which streams it accepts.
 */
module BlockRefill {
  import opened Options
  import opened BitStream
  import opened Canonical
  import opened BitRefill
  import opened Lz77
  import opened TokenRefill
  import opened Deflate

  // Headers of dynamic blocks

  /** The first k fields of the code length alphabet. */
  function OfMeta(p: nat, r: Refill, k: nat): Refill
    decreases k
  {
    if k == 0 then r else Receive(p + 3 * (k - 1), OfMeta(p, r, k - 1), 3)
  }

  function OfCounts(p: nat, r: Refill): Refill {
    Receive(p + 10, Receive(p + 5, Receive(p, r, 5), 5), 4)
  }

  function OfOp(cl: seq<nat>, n: nat, p: nat, r: Refill, op: LengthOp): Option<Refill>
    requires OpSymbol(op) < |cl|
  {
    match Look(n, p, r)
    case None => None
    case Some(s) => Some(if op.Single? then s else Receive(p + cl[OpSymbol(op)], s, OpExtraBits(op)))
  }

  function OfOps(cl: seq<nat>, n: nat, p: nat, r: Refill, ops: seq<LengthOp>): Option<Refill>
    requires ValidOps(cl, ops)
  {
    if ops == [] then Some(r)
    else
      match OfOps(cl, n, p, r, ops[..|ops| - 1])
      case None => None
      case Some(s) => OfOp(cl, n, p + OpsSize(cl, ops[..|ops| - 1]), s, ops[|ops| - 1])
  }

  /** Everything before the operations. */
  function OfFields(data: seq<byte>, p: nat, r: Refill): Refill {
    OfMeta(p + 14, OfCounts(p, r), MetaCount(data, p))
  }

  function OfHeader(data: seq<byte>, p: nat, r: Refill, ops: seq<LengthOp>): Option<Refill>
    requires ValidOps(MetaCode(data, p), ops)
  {
    OfOps(MetaCode(data, p), |data|, OpsStart(data, p), OfFields(data, p, r), ops)
  }

  /** Every operation of an accepted list was accepted, after the ones before it. */
  lemma {:induction false} OpsAcceptedPrefix(cl: seq<nat>, n: nat, p: nat, r: Refill, ops: seq<LengthOp>, k: nat)
    requires ValidOps(cl, ops) && OfOps(cl, n, p, r, ops).Some? && k < |ops|
    ensures OfOps(cl, n, p, r, ops[..k]).Some?
    ensures OfOp(cl, n, p + OpsSize(cl, ops[..k]), OfOps(cl, n, p, r, ops[..k]).value, ops[k]).Some?
  {
    hide OfOp, OpSize;
    if k < |ops| - 1 {
      OpsAcceptedPrefix(cl, n, p, r, ops[..|ops| - 1], k);
      assert ops[..|ops| - 1][..k] == ops[..k];
    }
  }

  // Streams

  /** A block, with the flags before it already read. */
  ghost function OfBody(data: seq<byte>, p: nat, r: Refill, b: Block): Option<Refill>
    requires BodyAt(data, p, b)
  {
    match b
    case Stored(_) => Some(Refill(BodyEnd(data, p, b) / 8, r.hit))
    case Fixed(ts) => OfBlock(FixedCodes(), |data|, p, r, ts)
    case Dynamic(ops, c, ts) =>
      match OfHeader(data, p, r, ops)
      case None => None
      case Some(s) => OfBlock(c, |data|, HeaderEnd(data, p, ops), s, ts)
  }

  /** The final flag and the block type. */
  function OfFlags(p: nat, r: Refill): Refill {
    Receive(p + 1, Receive(p, r, 1), 2)
  }

  /** Where reading a stream has come to, and whether the last block was final. */
  datatype Reached = Reached(p: nat, r: Refill, final: bool)

  predicate IsFinal(data: seq<byte>, p: nat) {
    BitsAt(data, p, 1) == 1
  }

  /** One more block, if it stands there and the bit reader does not refuse it. */
  ghost function Advance(data: seq<byte>, s: Reached, b: Block): Option<Reached> {
    if OneBlockAt(data, s.p, b, IsFinal(data, s.p)) then AfterBlock(data, s.p, s.r, b, IsFinal(data, s.p)) else None
  }

  ghost function AfterBlock(data: seq<byte>, p: nat, r: Refill, b: Block, final: bool): Option<Reached>
    requires OneBlockAt(data, p, b, final)
  {
    match OfBody(data, p + 3, OfFlags(p, r), b)
    case None => None
    case Some(s) => Some(Reached(BodyEnd(data, p + 3, b), s, final))
  }

  /** Reading the blocks bs from p0 on, if they stand there and the bit reader does not refuse them. */
  ghost function Reading(data: seq<byte>, p0: nat, r0: Refill, bs: seq<Block>): Option<Reached> {
    if bs == [] then Some(Reached(p0, r0, false))
    else
      match Reading(data, p0, r0, bs[..|bs| - 1])
      case None => None
      case Some(s) => if s.final then None else Advance(data, s, bs[|bs| - 1])
  }

  /** What is read are blocks of the stream, continued with zeros. */
  lemma {:induction false} ReadingIsBlocks(data: seq<byte>, p0: nat, r0: Refill, bs: seq<Block>)
    requires Reading(data, p0, r0, bs).Some?
    ensures var s := Reading(data, p0, r0, bs).value; BlocksAt(data, p0, bs, s.p, s.final)
  {
    hide OneBlockAt, OfBody, BodyEnd;
    if bs != [] {
      var front := bs[..|bs| - 1];
      ReadingIsBlocks(data, p0, r0, front);
      var q := Reading(data, p0, r0, front).value.p;
      assert BlocksAt(data, p0, front, q, false);
    }
  }

  /** Every block of an accepted list was accepted, after the ones before it. */
  lemma {:induction false} ReadingPrefix(data: seq<byte>, p0: nat, r0: Refill, bs: seq<Block>, k: nat)
    requires Reading(data, p0, r0, bs).Some? && k < |bs|
    ensures Reading(data, p0, r0, bs[..k]).Some? && !Reading(data, p0, r0, bs[..k]).value.final
    ensures Advance(data, Reading(data, p0, r0, bs[..k]).value, bs[k]).Some?
  {
    hide Advance;
    if k < |bs| - 1 {
      ReadingPrefix(data, p0, r0, bs[..|bs| - 1], k);
      assert bs[..|bs| - 1][..k] == bs[..k];
    }
  }

  // Inside the input nothing is refused

  lemma {:induction false} MetaSound(n: nat, p: nat, r: Refill, k: nat)
    requires Sound(n, p, r)
    ensures Sound(n, p + 3 * k, OfMeta(p, r, k))
    decreases k
  {
    hide Sound, Receive;
    if k > 0 {
      MetaSound(n, p, r, k - 1);
      ReceiveSound(n, p + 3 * (k - 1), OfMeta(p, r, k - 1), 3);
    }
  }

  lemma FieldsSound(data: seq<byte>, p: nat, r: Refill)
    requires Sound(|data|, p, r)
    ensures Sound(|data|, OpsStart(data, p), OfFields(data, p, r))
  {
    hide Sound, Receive;
    ReceiveSound(|data|, p, r, 5);
    ReceiveSound(|data|, p + 5, Receive(p, r, 5), 5);
    ReceiveSound(|data|, p + 10, Receive(p + 5, Receive(p, r, 5), 5), 4);
    MetaSound(|data|, p + 14, OfCounts(p, r), MetaCount(data, p));
  }

  lemma OpInside(cl: seq<nat>, n: nat, p: nat, r: Refill, op: LengthOp)
    requires Lengths(cl) && OpSymbol(op) < |cl| && Sound(n, p, r) && p + OpSize(cl, op) <= 8 * n
    ensures OfOp(cl, n, p, r, op).Some? && Sound(n, p + OpSize(cl, op), OfOp(cl, n, p, r, op).value)
  {
    hide Sound, Receive, Look, Lengths;
    SymbolInside(cl, n, p, r, OpSymbol(op));
    ReceiveSound(n, p + cl[OpSymbol(op)], Look(n, p, r).value, OpExtraBits(op));
  }

  lemma {:induction false} OpsInside(cl: seq<nat>, n: nat, p: nat, r: Refill, ops: seq<LengthOp>)
    requires Lengths(cl) && ValidOps(cl, ops) && Sound(n, p, r) && p + OpsSize(cl, ops) <= 8 * n
    ensures OfOps(cl, n, p, r, ops).Some? && Sound(n, p + OpsSize(cl, ops), OfOps(cl, n, p, r, ops).value)
  {
    hide OfOp, OpSize, Sound, Lengths;
    if ops != [] {
      var front := ops[..|ops| - 1];
      OpsInside(cl, n, p, r, front);
      OpInside(cl, n, p + OpsSize(cl, front), OfOps(cl, n, p, r, front).value, ops[|ops| - 1]);
    }
  }

  lemma BodyInside(data: seq<byte>, p: nat, r: Refill, b: Block)
    requires BodyAt(data, p, b) && BodyEnd(data, p, b) <= 8 * |data| && Sound(|data|, p, r)
    ensures OfBody(data, p, r, b).Some? && Sound(|data|, BodyEnd(data, p, b), OfBody(data, p, r, b).value)
  {
    hide BlockAt, HeaderAt, OfOps, OfBlock, OfFields, BitsAt, TokensAt, TokensSize;
    match b {
      case Stored(_) =>
      case Fixed(ts) =>
        assert ValidCodes(FixedCodes()) by { FixedCodesUsable(); }
        BlockHasEnd(FixedCodes(), data, p, ts);
        BlockInside(FixedCodes(), |data|, p, r, ts);
      case Dynamic(ops, c, ts) =>
        HeaderCodesValid(data, p, ops, c);
        HeaderLengths(data, p, ops, c);
        BlockHasEnd(c, data, HeaderEnd(data, p, ops), ts);
        FieldsSound(data, p, r);
        OpsInside(MetaCode(data, p), |data|, OpsStart(data, p), OfFields(data, p, r), ops);
        BlockInside(c, |data|, HeaderEnd(data, p, ops), OfHeader(data, p, r, ops).value, ts);
    }
  }

  lemma BlockHasEnd(c: Codes, data: seq<byte>, p: nat, ts: seq<Token>)
    requires BlockAt(c, data, p, ts)
    ensures ValidTokens(c, ts) && END_OF_BLOCK < |c.lit| && p <= BlockEnd(c, p, ts)
  {
  }

  lemma HeaderLengths(data: seq<byte>, p: nat, ops: seq<LengthOp>, c: Codes)
    requires HeaderAt(data, p, ops, c)
    ensures Lengths(MetaCode(data, p)) && ValidOps(MetaCode(data, p), ops)
  {
  }

  /** Blocks that lie inside the input are all accepted. */
  lemma {:induction false} ReadingInside(data: seq<byte>, p0: nat, r0: Refill, bs: seq<Block>, p: nat, f: bool)
    requires BlocksAt(data, p0, bs, p, f) && p <= 8 * |data| && Sound(|data|, p0, r0)
    ensures Reading(data, p0, r0, bs).Some?
    ensures var s := Reading(data, p0, r0, bs).value; s.p == p && s.final == f && Sound(|data|, p, s.r)
  {
    hide BodyAt, BodyEnd, OfBody, Sound;
    if bs != [] {
      var q := LastBlock(data, p0, bs, p, f);
      BodyEndGrows(data, q + 3, bs[|bs| - 1]);
      ReadingInside(data, p0, r0, bs[..|bs| - 1], q, false);
      var s := Reading(data, p0, r0, bs[..|bs| - 1]).value;
      FlagsSound(|data|, q, s.r);
      BodyInside(data, q + 3, OfFlags(q, s.r), bs[|bs| - 1]);
    }
  }

  lemma FlagsSound(n: nat, p: nat, r: Refill)
    requires Sound(n, p, r)
    ensures Sound(n, p + 3, OfFlags(p, r))
  {
    ReceiveSound(n, p, r, 1);
    ReceiveSound(n, p + 1, Receive(p, r, 1), 2);
  }
}
