/**
 The format of a compressed stream (section 3.2 of RFC 1951): what bits a list of blocks
 occupies and what bytes it stands for. Everything is stated on the stream continued
 with zeros; that a position is at most 8 * |data| says that the bits before it are real.
 */
module Deflate {
  import opened Options
  import opened Binary
  import opened BitStream
  import opened Canonical
  import opened Huffman
  import opened Lz77

  // Code lengths of a dynamic block (section 3.2.7)

  datatype LengthOp =
    | Single(v: nat)
    | CopyPrevious(x: nat)
    | ZerosShort(x: nat)
    | ZerosLong(x: nat)

  function OpSymbol(op: LengthOp): nat {
    match op
    case Single(v) => v
    case CopyPrevious(_) => 16
    case ZerosShort(_) => 17
    case ZerosLong(_) => 18
  }

  function OpExtraBits(op: LengthOp): nat {
    match op
    case Single(_) => 0
    case CopyPrevious(_) => 2
    case ZerosShort(_) => 3
    case ZerosLong(_) => 7
  }

  function OpExtra(op: LengthOp): nat {
    match op
    case Single(_) => 0
    case CopyPrevious(x) => x
    case ZerosShort(x) => x
    case ZerosLong(x) => x
  }

  predicate OpAt(cl: seq<nat>, data: seq<byte>, p: nat, op: LengthOp) {
    && (op.Single? ==> op.v < 16)
    && SymbolAt(cl, data, p, OpSymbol(op))
    && OpExtra(op) == BitsAt(data, p + cl[OpSymbol(op)], OpExtraBits(op))
  }

  predicate ValidOps(cl: seq<nat>, ops: seq<LengthOp>) {
    forall i :: 0 <= i < |ops| ==> OpSymbol(ops[i]) < |cl|
  }

  function OpSize(cl: seq<nat>, op: LengthOp): nat
    requires OpSymbol(op) < |cl|
  {
    cl[OpSymbol(op)] + OpExtraBits(op)
  }

  function OpsSize(cl: seq<nat>, ops: seq<LengthOp>): nat
    requires ValidOps(cl, ops)
  {
    if ops == [] then 0 else OpsSize(cl, ops[..|ops| - 1]) + OpSize(cl, ops[|ops| - 1])
  }

  ghost predicate OpsAt(cl: seq<nat>, data: seq<byte>, p: nat, ops: seq<LengthOp>)
    ensures OpsAt(cl, data, p, ops) ==> ValidOps(cl, ops)
  {
    ops == [] ||
    (var front := ops[..|ops| - 1];
     && OpsAt(cl, data, p, front)
     && OpAt(cl, data, p + OpsSize(cl, front), ops[|ops| - 1]))
  }

  function Repeat(v: nat, n: nat): (r: seq<nat>)
    ensures |r| == n && forall i :: 0 <= i < n ==> r[i] == v
  {
    seq(n, i => v)
  }

  /** How many code lengths an operation adds. */
  function OpCount(op: LengthOp): nat {
    match op
    case Single(_) => 1
    case CopyPrevious(x) => x + 3
    case ZerosShort(x) => x + 3
    case ZerosLong(x) => x + 11
  }

  function ApplyOp(lens: seq<nat>, op: LengthOp): (r: Option<seq<nat>>)
    ensures r.Some? ==> |r.value| == |lens| + OpCount(op)
  {
    match op
    case Single(v) => Some(lens + [v])
    case CopyPrevious(x) => if lens == [] then None else Some(lens + Repeat(lens[|lens| - 1], x + 3))
    case ZerosShort(x) => Some(lens + Repeat(0, x + 3))
    case ZerosLong(x) => Some(lens + Repeat(0, x + 11))
  }

  function ApplyOps(ops: seq<LengthOp>): Option<seq<nat>> {
    if ops == [] then Some([])
    else
      match ApplyOps(ops[..|ops| - 1])
      case None => None
      case Some(lens) => ApplyOp(lens, ops[|ops| - 1])
  }

  function LengthOrder(i: nat): (j: nat)
    requires i < 19
    ensures j < 19
  {
    [16, 17, 18, 0, 8, 7, 9, 6, 10, 5, 11, 4, 12, 3, 13, 2, 14, 1, 15][i]
  }

  /** The code lengths of the code length alphabet: n three-bit fields in a fixed order. */
  function MetaLengths(data: seq<byte>, p: nat, n: nat): (r: seq<nat>)
    requires n <= 19
    ensures |r| == 19
    decreases n, p
  {
    if n == 0 then Repeat(0, 19)
    else MetaLengths(data, p, n - 1)[LengthOrder(n - 1) := BitsAt(data, p + 3 * (n - 1), 3)]
  }

  function LitCount(data: seq<byte>, p: nat): nat { BitsAt(data, p, 5) + 257 }
  function DistCount(data: seq<byte>, p: nat): nat { BitsAt(data, p + 5, 5) + 1 }
  function MetaCount(data: seq<byte>, p: nat): (n: nat)
    ensures n <= 19
  {
    assert Pow2(4) == 16 by { Pow2Values(); }
    BitsBound(data, p + 10, 4);
    BitsAt(data, p + 10, 4) + 4
  }

  function MetaCode(data: seq<byte>, p: nat): (cl: seq<nat>)
    ensures |cl| == 19
  {
    MetaLengths(data, p + 14, MetaCount(data, p))
  }

  function OpsStart(data: seq<byte>, p: nat): nat {
    p + 14 + 3 * MetaCount(data, p)
  }

  predicate Usable(sl: seq<nat>) {
    Lengths(sl) && KraftSum(sl, |sl|) <= Pow2(15)
  }

  /** The header of a dynamic block stands at p and announces the codes c. */
  ghost predicate HeaderAt(data: seq<byte>, p: nat, ops: seq<LengthOp>, c: Codes) {
    var cl := MetaCode(data, p);
    var hlit := LitCount(data, p);
    && Usable(cl) && OpsAt(cl, data, OpsStart(data, p), ops)
    && ApplyOps(ops) == Some(c.lit + c.dist)
    && |c.lit| == hlit && |c.dist| == DistCount(data, p)
    && Usable(c.lit) && Usable(c.dist)
  }

  function HeaderEnd(data: seq<byte>, p: nat, ops: seq<LengthOp>): nat
    requires ValidOps(MetaCode(data, p), ops)
  {
    OpsStart(data, p) + OpsSize(MetaCode(data, p), ops)
  }

  // Fixed codes (section 3.2.6)

  function FixedLit(): (sl: seq<nat>)
    ensures |sl| == 288
  {
    seq(288, i => if i <= 143 then 8 else if i <= 255 then 9 else if i <= 279 then 7 else 8)
  }

  function FixedDist(): (sl: seq<nat>)
    ensures |sl| == 32
  {
    seq(32, i => 5)
  }

  function FixedCodes(): Codes {
    Codes(FixedLit(), FixedDist())
  }

  lemma {:induction false} FixedLitSum(n: nat)
    requires n <= 288
    ensures KraftSum(FixedLit(), n) ==
            if n <= 144 then 128 * n
            else if n <= 256 then 18432 + 64 * (n - 144)
            else if n <= 280 then 25600 + 256 * (n - 256)
            else 31744 + 128 * (n - 280)
  {
    if n > 0 {
      FixedLitSum(n - 1);
      Pow2Values();
    }
  }

  lemma {:induction false} FixedDistSum(n: nat)
    requires n <= 32
    ensures KraftSum(FixedDist(), n) == 1024 * n
  {
    if n > 0 {
      FixedDistSum(n - 1);
      Pow2Values();
    }
  }

  /** The fixed codes are complete: the Kraft sum is exactly one. */
  lemma FixedCodesUsable()
    ensures Usable(FixedLit()) && KraftSum(FixedLit(), 288) == Pow2(15)
    ensures Usable(FixedDist()) && KraftSum(FixedDist(), 32) == Pow2(15)
  {
    FixedLitSum(288);
    FixedDistSum(32);
    Pow2Values();
  }

  lemma {:induction false} FixedRank(n: nat, s: nat)
    requires n <= 288
    ensures Rank(FixedLit(), n, s) ==
            if s == 7 then (if n <= 256 then 0 else if n <= 280 then n - 256 else 24)
            else if s == 8 then (if n <= 144 then n else if n <= 280 then 144 else n - 136)
            else if s == 9 then (if n <= 144 then 0 else if n <= 256 then n - 144 else 112)
            else 0
    decreases n
  {
    if n > 0 {
      FixedRank(n - 1, s);
    }
  }

  lemma {:induction false} FixedFirstCode(s: nat)
    requires s <= 9
    ensures FirstCode(FixedLit(), s) == if s <= 7 then 0 else if s == 8 then 48 else 400
    decreases s
  {
    if 1 < s {
      FixedFirstCode(s - 1);
      FixedRank(288, s - 1);
    }
  }

  /** The canonical codes of the fixed lengths are the ones the standard lists. */
  lemma FixedCodeTable(i: nat)
    requires i < 288
    ensures Code(FixedLit(), i) ==
            if i <= 143 then 0x30 + i
            else if i <= 255 then 0x190 + (i - 144)
            else if i <= 279 then i - 256
            else 0xC0 + (i - 280)
  {
    FixedFirstCode(FixedLit()[i]);
    FixedRank(i, FixedLit()[i]);
  }

  lemma {:induction false} FixedDistRank(n: nat, s: nat)
    requires n <= 32
    ensures Rank(FixedDist(), n, s) == if s == 5 then n else 0
    decreases n
  {
    if n > 0 {
      FixedDistRank(n - 1, s);
    }
  }

  lemma {:induction false} FixedDistFirstCode(s: nat)
    requires s <= 5
    ensures FirstCode(FixedDist(), s) == 0
    decreases s
  {
    if 1 < s {
      FixedDistFirstCode(s - 1);
      FixedDistRank(32, s - 1);
    }
  }

  /** Distance symbols stand for themselves. */
  lemma FixedDistTable(i: nat)
    requires i < 32
    ensures Code(FixedDist(), i) == i
  {
    FixedDistFirstCode(5);
    FixedDistRank(i, 5);
  }

  // Blocks (section 3.2.3)

  datatype Block =
    | Stored(bytes: seq<byte>)
    | Fixed(ts: seq<Token>)
    | Dynamic(ops: seq<LengthOp>, c: Codes, ts: seq<Token>)

  /** The next byte boundary. */
  function Align(p: nat): (q: nat)
    ensures p <= q < p + 8 && q % 8 == 0
  {
    8 * ((p + 7) / 8)
  }

  function BlockKind(b: Block): nat {
    match b
    case Stored(_) => 0
    case Fixed(_) => 1
    case Dynamic(_, _, _) => 2
  }

  /** Block b stands at p; it is the last one exactly when final holds. */
  ghost predicate OneBlockAt(data: seq<byte>, p: nat, b: Block, final: bool) {
    && BitsAt(data, p, 1) == (if final then 1 else 0)
    && BitsAt(data, p + 1, 2) == BlockKind(b)
    && BodyAt(data, p + 3, b)
  }

  ghost predicate BodyAt(data: seq<byte>, p: nat, b: Block) {
    match b
    case Stored(bytes) =>
      var q := Align(p);
      && |bytes| == BitsAt(data, q, 16)
      && BitsAt(data, q + 16, 16) == 0xFFFF - |bytes|
      && q / 8 + 4 + |bytes| <= |data|
      && bytes == data[q / 8 + 4..q / 8 + 4 + |bytes|]
    case Fixed(ts) => BlockAt(FixedCodes(), data, p, ts)
    case Dynamic(ops, c, ts) => HeaderAt(data, p, ops, c) && BlockAt(c, data, HeaderEnd(data, p, ops), ts)
  }

  ghost function BodyEnd(data: seq<byte>, p: nat, b: Block): nat
    requires BodyAt(data, p, b)
  {
    match b
    case Stored(bytes) => Align(p) + 32 + 8 * |bytes|
    case Fixed(ts) => BlockEnd(FixedCodes(), p, ts)
    case Dynamic(ops, c, ts) => BlockEnd(c, HeaderEnd(data, p, ops), ts)
  }

  function ExpandBlock(out: seq<byte>, b: Block): (r: Option<seq<byte>>)
    ensures r.Some? ==> out <= r.value
  {
    match b
    case Stored(bytes) => Some(out + bytes)
    case Fixed(ts) => Expand(out, ts)
    case Dynamic(_, _, ts) => Expand(out, ts)
  }

  // Uniqueness

  lemma OpUnique(cl: seq<nat>, data: seq<byte>, p: nat, a: LengthOp, b: LengthOp)
    requires Lengths(cl) && OpAt(cl, data, p, a) && OpAt(cl, data, p, b)
    ensures a == b
  {
    SymbolUnique(cl, data, p, OpSymbol(a), OpSymbol(b));
  }

  lemma {:induction false} OpsPrefix(cl: seq<nat>, data: seq<byte>, p: nat, ops: seq<LengthOp>, n: nat)
    requires OpsAt(cl, data, p, ops) && n <= |ops|
    ensures OpsAt(cl, data, p, ops[..n])
    ensures OpsSize(cl, ops[..n]) <= OpsSize(cl, ops)
  {
    hide OpAt, OpSize;
    if n == |ops| {
      assert ops[..n] == ops;
    } else {
      var front := ops[..|ops| - 1];
      OpsPrefix(cl, data, p, front, n);
      assert front[..n] == ops[..n];
    }
  }

  lemma NthOp(cl: seq<nat>, data: seq<byte>, p: nat, ops: seq<LengthOp>, n: nat)
    requires OpsAt(cl, data, p, ops) && n < |ops|
    ensures OpsAt(cl, data, p, ops[..n])
    ensures OpAt(cl, data, p + OpsSize(cl, ops[..n]), ops[n])
    ensures OpsSize(cl, ops[..n]) + OpSize(cl, ops[n]) <= OpsSize(cl, ops)
  {
    hide OpAt, OpSize;
    OpsPrefix(cl, data, p, ops, n + 1);
    var us := ops[..n + 1];
    assert us[..|us| - 1] == ops[..n] && us[|us| - 1] == ops[n];
  }

  lemma {:induction false} ApplyOpsPrefix(ops: seq<LengthOp>, n: nat)
    requires ApplyOps(ops).Some? && n <= |ops|
    ensures ApplyOps(ops[..n]).Some?
    ensures |ops| - n + |ApplyOps(ops[..n]).value| <= |ApplyOps(ops).value|
  {
    if n == |ops| {
      assert ops[..n] == ops;
    } else {
      var front := ops[..|ops| - 1];
      ApplyOpsPrefix(front, n);
      assert front[..n] == ops[..n];
    }
  }

  lemma NthApplyOp(ops: seq<LengthOp>, n: nat)
    requires ApplyOps(ops).Some? && n < |ops|
    ensures ApplyOps(ops[..n]).Some? && ApplyOp(ApplyOps(ops[..n]).value, ops[n]).Some?
    ensures |ApplyOps(ops[..n]).value| + OpCount(ops[n]) <= |ApplyOps(ops).value|
  {
    ApplyOpsPrefix(ops, n + 1);
    var us := ops[..n + 1];
    assert us[..|us| - 1] == ops[..n] && us[|us| - 1] == ops[n];
  }

  /** Operations read from the same position agree as far as both go. */
  lemma {:induction false} OpsAgree(cl: seq<nat>, data: seq<byte>, p: nat, a: seq<LengthOp>, b: seq<LengthOp>)
    requires Lengths(cl) && OpsAt(cl, data, p, a) && OpsAt(cl, data, p, b) && |a| <= |b|
    ensures a == b[..|a|]
  {
    hide OpAt, OpSize;
    if a != [] {
      var n := |a| - 1;
      OpsAgree(cl, data, p, a[..n], b);
      NthOp(cl, data, p, b, n);
      NthOp(cl, data, p, a, n);
      OpUnique(cl, data, p + OpsSize(cl, a[..n]), a[n], b[n]);
      assert a == a[..n] + [a[n]];
    }
  }

  lemma HeaderUnique(data: seq<byte>, p: nat, a: seq<LengthOp>, c: Codes, b: seq<LengthOp>, d: Codes)
    requires HeaderAt(data, p, a, c) && HeaderAt(data, p, b, d)
    ensures a == b && c == d
  {
    var cl, q := MetaCode(data, p), OpsStart(data, p);
    if |a| <= |b| {
      SameOps(cl, data, q, a, b);
    } else {
      SameOps(cl, data, q, b, a);
    }
    assert (c.lit + c.dist)[..|c.lit|] == c.lit && (c.lit + c.dist)[|c.lit|..] == c.dist;
    assert (d.lit + d.dist)[..|d.lit|] == d.lit && (d.lit + d.dist)[|d.lit|..] == d.dist;
  }

  lemma SameOps(cl: seq<nat>, data: seq<byte>, q: nat, a: seq<LengthOp>, b: seq<LengthOp>)
    requires Lengths(cl) && OpsAt(cl, data, q, a) && OpsAt(cl, data, q, b) && |a| <= |b|
    requires ApplyOps(a).Some? && ApplyOps(b).Some? && |ApplyOps(a).value| == |ApplyOps(b).value|
    ensures a == b
  {
    OpsAgree(cl, data, q, a, b);
    ApplyOpsPrefix(b, |a|);
    assert b[..|b|] == b;
  }

  lemma SameTokens(c: Codes, data: seq<byte>, p: nat)
    requires ValidCodes(c)
    ensures forall ts, us :: BlockAt(c, data, p, ts) && BlockAt(c, data, p, us) ==> ts == us
  {
    hide BlockAt;
    forall ts, us | BlockAt(c, data, p, ts) && BlockAt(c, data, p, us)
      ensures ts == us
    {
      BlockUnique(c, data, p, ts, us);
    }
  }

  lemma BodyUnique(data: seq<byte>, p: nat, b: Block, d: Block)
    requires BodyAt(data, p, b) && BodyAt(data, p, d) && BlockKind(b) == BlockKind(d)
    ensures b == d
  {
    hide BlockAt, HeaderAt, BitsAt, Align;
    match b {
      case Stored(_) =>
      case Fixed(_) =>
        assert Usable(FixedLit()) && Usable(FixedDist()) by { FixedCodesUsable(); }
        SameTokens(FixedCodes(), data, p);
      case Dynamic(ops, c, _) =>
        HeaderUnique(data, p, ops, c, d.ops, d.c);
        HeaderCodesValid(data, p, ops, c);
        SameTokens(c, data, HeaderEnd(data, p, ops));
    }
  }

  lemma HeaderCodesValid(data: seq<byte>, p: nat, ops: seq<LengthOp>, c: Codes)
    requires HeaderAt(data, p, ops, c)
    ensures ValidCodes(c) && ValidOps(MetaCode(data, p), ops)
  {
  }

  /** At most one block can stand at a position. */
  lemma OneBlockUnique(data: seq<byte>, p: nat, b: Block, f: bool, d: Block, g: bool)
    requires OneBlockAt(data, p, b, f) && OneBlockAt(data, p, d, g)
    ensures b == d && f == g
  {
    hide BodyAt;
    BodyUnique(data, p + 3, b, d);
  }

  /** No block stands in the zeros past the end. */
  lemma NoBlockPastEnd(data: seq<byte>, p: nat, b: Block, final: bool)
    requires 8 * |data| <= p
    ensures !OneBlockAt(data, p, b, final)
  {
    hide BlockAt, HeaderAt, Align;
    BitsPastEnd(data, p + 1, 2);
    BitsPastEnd(data, Align(p + 3), 16);
    BitsPastEnd(data, Align(p + 3) + 16, 16);
  }

  // Streams

  /** The blocks bs stand one after the other from p0 to p; final tells whether the last one is final. */
  ghost predicate BlocksAt(data: seq<byte>, p0: nat, bs: seq<Block>, p: nat, final: bool)
    decreases |bs|
  {
    if bs == [] then p == p0 && !final
    else exists q: nat {:trigger BlocksAt(data, p0, bs[..|bs| - 1], q, false)} ::
        && BlocksAt(data, p0, bs[..|bs| - 1], q, false)
        && OneBlockAt(data, q, bs[|bs| - 1], final)
        && p == BodyEnd(data, q + 3, bs[|bs| - 1])
  }

  function ExpandBlocks(out: seq<byte>, bs: seq<Block>): (r: Option<seq<byte>>)
    ensures r.Some? ==> out <= r.value
  {
    if bs == [] then Some(out)
    else
      match ExpandBlocks(out, bs[..|bs| - 1])
      case None => None
      case Some(o) => ExpandBlock(o, bs[|bs| - 1])
  }

  lemma BodyEndGrows(data: seq<byte>, p: nat, b: Block)
    requires BodyAt(data, p, b)
    ensures p <= BodyEnd(data, p, b)
  {
    hide HeaderAt, BitsAt, TokensAt;
    match b {
      case Stored(_) =>
      case Fixed(_) =>
      case Dynamic(ops, c, _) => HeaderCodesValid(data, p, ops, c);
    }
  }

  lemma LastBlock(data: seq<byte>, p0: nat, bs: seq<Block>, p: nat, f: bool) returns (r: nat)
    requires BlocksAt(data, p0, bs, p, f) && bs != []
    ensures var m := |bs| - 1;
      BlocksAt(data, p0, bs[..m], r, false) && OneBlockAt(data, r, bs[m], f) && p == BodyEnd(data, r + 3, bs[m])
  {
    hide BodyAt, BodyEnd;
    var m := |bs| - 1;
    r :| BlocksAt(data, p0, bs[..m], r, false) && OneBlockAt(data, r, bs[m], f) && p == BodyEnd(data, r + 3, bs[m]);
  }

  /** The block after the first n, where it stands and whether it is the last. */
  lemma {:induction false} NthBlock(data: seq<byte>, p0: nat, bs: seq<Block>, p: nat, f: bool, n: nat) returns (q: nat, g: bool)
    requires BlocksAt(data, p0, bs, p, f) && n < |bs|
    ensures BlocksAt(data, p0, bs[..n], q, false)
    ensures OneBlockAt(data, q, bs[n], g) && BodyEnd(data, q + 3, bs[n]) <= p
    ensures g == (n + 1 == |bs| && f)
  {
    hide BodyAt, BodyEnd, BlocksAt;
    var m := |bs| - 1;
    var r := LastBlock(data, p0, bs, p, f);
    if n == m {
      q, g := r, f;
    } else {
      q, g := NthBlock(data, p0, bs[..m], r, false, n);
      assert bs[..m][..n] == bs[..n];
      BodyEndGrows(data, r + 3, bs[m]);
    }
  }

  lemma {:induction false} BlocksEndUnique(data: seq<byte>, p0: nat, bs: seq<Block>, p: nat, f: bool, q: nat, g: bool)
    requires BlocksAt(data, p0, bs, p, f) && BlocksAt(data, p0, bs, q, g)
    ensures p == q && f == g
  {
    hide BlocksAt, OneBlockAt, BodyAt, BodyEnd;
    if bs == [] {
      NoBlocks(data, p0, p, f);
      NoBlocks(data, p0, q, g);
    } else {
      var m := |bs| - 1;
      var r := LastBlock(data, p0, bs, p, f);
      var s := LastBlock(data, p0, bs, q, g);
      BlocksEndUnique(data, p0, bs[..m], r, false, s, false);
      SameFlag(data, r, bs[m], f, g);
    }
  }

  lemma NoBlocks(data: seq<byte>, p0: nat, p: nat, f: bool)
    requires BlocksAt(data, p0, [], p, f)
    ensures p == p0 && !f
  {
  }

  lemma SameFlag(data: seq<byte>, p: nat, b: Block, f: bool, g: bool)
    requires OneBlockAt(data, p, b, f) && OneBlockAt(data, p, b, g)
    ensures f == g
  {
  }

  /** Non-final blocks read from a position are the beginning of every complete list of blocks there. */
  lemma {:induction false} BlocksPrefix(data: seq<byte>, p0: nat, ts: seq<Block>, q: nat, bs: seq<Block>, p: nat)
    requires BlocksAt(data, p0, ts, q, false) && BlocksAt(data, p0, bs, p, true)
    ensures |ts| < |bs| && ts == bs[..|ts|]
  {
    hide OneBlockAt, BodyEnd;
    if ts != [] {
      var m := |ts| - 1;
      var r: nat :| BlocksAt(data, p0, ts[..m], r, false) && OneBlockAt(data, r, ts[m], false);
      BlocksPrefix(data, p0, ts[..m], r, bs, p);
      var s, g := NthBlock(data, p0, bs, p, true, m);
      BlocksEndUnique(data, p0, ts[..m], r, false, s, false);
      OneBlockUnique(data, r, ts[m], false, bs[m], g);
      assert ts == ts[..m] + [ts[m]];
    }
  }

  /** A position starts at most one complete list of blocks. */
  lemma StreamUnique(data: seq<byte>, p0: nat, bs: seq<Block>, p: nat, ds: seq<Block>, q: nat)
    requires BlocksAt(data, p0, bs, p, true) && BlocksAt(data, p0, ds, q, true)
    ensures bs == ds && p == q
  {
    hide OneBlockAt, BodyEnd;
    if |bs| <= |ds| {
      SameStream(data, p0, bs, p, ds, q);
    } else {
      SameStream(data, p0, ds, q, bs, p);
    }
    BlocksEndUnique(data, p0, bs, p, true, q, true);
  }

  lemma SameStream(data: seq<byte>, p0: nat, bs: seq<Block>, p: nat, ds: seq<Block>, q: nat)
    requires BlocksAt(data, p0, bs, p, true) && BlocksAt(data, p0, ds, q, true) && |bs| <= |ds|
    ensures bs == ds
  {
    hide OneBlockAt, BodyEnd;
    var m := |bs| - 1;
    var r, f := NthBlock(data, p0, bs, p, true, m);
    BlocksPrefix(data, p0, bs[..m], r, ds, q);
    var s, g := NthBlock(data, p0, ds, q, true, m);
    BlocksEndUnique(data, p0, bs[..m], r, false, s, false);
    OneBlockUnique(data, r, bs[m], f, ds[m], g);
    assert bs == bs[..m] + [bs[m]] && ds == ds[..m] + [ds[m]] + ds[m + 1..];
  }

  lemma {:induction false} ExpandBlocksPrefix(out: seq<byte>, bs: seq<Block>, n: nat)
    requires ExpandBlocks(out, bs).Some? && n < |bs|
    ensures ExpandBlocks(out, bs[..n]).Some?
    ensures ExpandBlock(ExpandBlocks(out, bs[..n]).value, bs[n]).Some?
    ensures |ExpandBlock(ExpandBlocks(out, bs[..n]).value, bs[n]).value| <= |ExpandBlocks(out, bs).value|
  {
    hide ExpandBlock;
    var m := |bs| - 1;
    if n < m {
      ExpandBlocksPrefix(out, bs[..m], n);
      assert bs[..m][..n] == bs[..n];
    }
  }
}
