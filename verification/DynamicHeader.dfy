/**
 Reading the code lengths of a dynamic block and building its two decoding tables.
 */
module DynamicHeader {
  import opened Options
  import opened Binary
  import opened BitStream
  import opened Canonical
  import opened Huffman
  import opened ZlibBuffer
  import opened Lz77
  import opened InflateBlock
  import opened Deflate
  import opened BitRefill
  import opened BlockRefill

  lemma {:induction false} MetaLengthsBound(data: seq<byte>, p: nat, n: nat)
    requires n <= 19
    ensures forall i :: 0 <= i < 19 ==> MetaLengths(data, p, n)[i] <= 7
  {
    if n > 0 {
      MetaLengthsBound(data, p, n - 1);
      BitsBound(data, p + 3 * (n - 1), 3);
      assert Pow2(3) == 8 by { Pow2Values(); }
    }
  }

  /** The operations ops were read from q and refill state r0 up to p and r, and give the lengths lens. */
  ghost predicate OpsRead(cl: seq<nat>, data: seq<byte>, q: nat, r0: Refill, ops: seq<LengthOp>, p: nat, r: Refill, lens: seq<nat>) {
    && OpsAt(cl, data, q, ops) && p == q + OpsSize(cl, ops) && ApplyOps(ops) == Some(lens)
    && OfOps(cl, |data|, q, r0, ops) == Some(r)
  }

  lemma OpsReadAppend(cl: seq<nat>, data: seq<byte>, q: nat, r0: Refill, ops: seq<LengthOp>, p: nat, r: Refill, lens: seq<nat>,
                      op: LengthOp, s: Refill, next: seq<nat>)
    requires OpsRead(cl, data, q, r0, ops, p, r, lens) && OpAt(cl, data, p, op) && ApplyOp(lens, op) == Some(next)
    requires OpSymbol(op) < |cl| && OfOp(cl, |data|, p, r, op) == Some(s)
    ensures OpsRead(cl, data, q, r0, ops + [op], p + OpSize(cl, op), s, next)
  {
    hide OpAt, OpSize, ApplyOp, OfOp;
    var us := ops + [op];
    assert us[..|us| - 1] == ops;
  }

  /** No operation that adds to lens without exceeding ntot can be read at p from refill state r. */
  ghost predicate OpsBlocked(cl: seq<nat>, data: seq<byte>, p: nat, r: Refill, lens: seq<nat>, ntot: nat) {
    forall op {:trigger OpAt(cl, data, p, op)} ::
      OpAt(cl, data, p, op) && ApplyOp(lens, op).Some? && |lens| + OpCount(op) <= ntot
      ==> OfOp(cl, |data|, p, r, op).None?
  }

  /** Every header at this position is refused by the bit reader. */
  ghost predicate NoHeader(data: seq<byte>, p: nat, r: Refill) {
    forall ops, c {:trigger HeaderAt(data, p, ops, c)} :: HeaderAt(data, p, ops, c) ==> OfHeader(data, p, r, ops).None?
  }

  lemma BlockedOps(cl: seq<nat>, data: seq<byte>, start: nat, r0: Refill, ts: seq<LengthOp>, q: nat, r: Refill, lens: seq<nat>, ntot: nat, us: seq<LengthOp>)
    requires Lengths(cl) && OpsRead(cl, data, start, r0, ts, q, r, lens) && |lens| < ntot
    requires OpsBlocked(cl, data, q, r, lens, ntot)
    requires OpsAt(cl, data, start, us) && ApplyOps(us).Some? && |ApplyOps(us).value| == ntot
    ensures OfOps(cl, |data|, start, r0, us).None?
  {
    hide OpAt, OpSize, OfOp, OfOps;
    if |us| <= |ts| {
      OpsAgree(cl, data, start, us, ts);
      ApplyOpsPrefix(ts, |us|);
    } else if OfOps(cl, |data|, start, r0, us).Some? {
      OpsAgree(cl, data, start, ts, us);
      NthOp(cl, data, start, us, |ts|);
      NthApplyOp(us, |ts|);
      OpsAcceptedPrefix(cl, |data|, start, r0, us, |ts|);
    }
  }

  lemma OpsBlockedIsFinal(data: seq<byte>, p: nat, r0: Refill, ts: seq<LengthOp>, q: nat, r: Refill, lens: seq<nat>, ntot: nat)
    requires Lengths(MetaCode(data, p)) && ntot == LitCount(data, p) + DistCount(data, p)
    requires OpsRead(MetaCode(data, p), data, OpsStart(data, p), OfFields(data, p, r0), ts, q, r, lens) && |lens| < ntot
    requires OpsBlocked(MetaCode(data, p), data, q, r, lens, ntot)
    ensures NoHeader(data, p, r0)
  {
    hide OpsAt, OpsSize, MetaCode, OpsStart, LitCount, DistCount, OpsRead, OpsBlocked, Usable, Lengths, OfOps, OfFields;
    forall us, c | HeaderAt(data, p, us, c)
      ensures OfHeader(data, p, r0, us).None?
    {
      BlockedOps(MetaCode(data, p), data, OpsStart(data, p), OfFields(data, p, r0), ts, q, r, lens, ntot, us);
    }
  }

  lemma OnlyOp(cl: seq<nat>, data: seq<byte>, p: nat, r: Refill, lens: seq<nat>, ntot: nat, op: LengthOp)
    requires Lengths(cl) && OpAt(cl, data, p, op)
    requires ApplyOp(lens, op).None? || ntot < |lens| + OpCount(op)
    ensures OpsBlocked(cl, data, p, r, lens, ntot)
  {
    hide OpAt, ApplyOp, OpCount, OfOp;
    forall other | OpAt(cl, data, p, other)
      ensures other == op
    {
      OpUnique(cl, data, p, other, op);
    }
  }

  lemma NoOp(cl: seq<nat>, data: seq<byte>, p: nat, r: Refill, lens: seq<nat>, ntot: nat)
    requires NoSymbol(cl, data, p, r)
    ensures OpsBlocked(cl, data, p, r, lens, ntot)
  {
    hide Look;
  }

  /** The three-bit lengths of the code length alphabet. */
  method ReadMetaLengths(a: ZBuf, ghost q: nat, hclen: nat) returns (sizes: seq<nat>)
    requires a.Reader() && hclen <= 19 && a.p == q
    modifies a`pos, a`codeBuffer, a`numBits, a`p, a`fetched
    ensures a.Reader() && a.p == q + 3 * hclen
    ensures sizes == MetaLengths(a.zbuffer, q, hclen)
    ensures a.State() == OfMeta(q, old(a.State()), hclen)
  {
    hide ZBuf.Reader, Receive, MetaLengths, OfMeta, LengthOrder, BitsAt;
    NoMetaLengths(a.zbuffer, q, a.State());
    var codeLengthSizes := new nat[19](_ => 0);
    assert codeLengthSizes[..] == Repeat(0, 19);
    for i := 0 to hclen
      invariant a.Reader() && a.p == q + 3 * i && a.State() == OfMeta(q, old(a.State()), i)
      invariant codeLengthSizes[..] == MetaLengths(a.zbuffer, q, i)
    {
      NextMetaLength(a.zbuffer, q, old(a.State()), i);
      var s := a.ZReceive(3);
      codeLengthSizes[LengthOrder(i)] := s;
    }
    sizes := codeLengthSizes[..];
  }

  lemma NoMetaLengths(data: seq<byte>, q: nat, r: Refill)
    ensures MetaLengths(data, q, 0) == Repeat(0, 19) && OfMeta(q, r, 0) == r
  {
  }

  lemma NextMetaLength(data: seq<byte>, q: nat, r: Refill, i: nat)
    requires i < 19
    ensures MetaLengths(data, q, i + 1) == MetaLengths(data, q, i)[LengthOrder(i) := BitsAt(data, q + 3 * i, 3)]
    ensures OfMeta(q, r, i + 1) == Receive(q + 3 * i, OfMeta(q, r, i), 3)
  {
  }

  method ReadOp(a: ZBuf, z: ZHuffman, ghost cl: seq<nat>) returns (ok: bool, op: LengthOp)
    requires a.Reader() && z.Shape() && z.Represents(cl) && |cl| == 19
    modifies a`pos, a`codeBuffer, a`numBits, a`hitZeof, a`p, a`fetched
    ensures a.Reader()
    ensures ok ==> OpAt(cl, a.zbuffer, old(a.p), op) && a.p == old(a.p) + OpSize(cl, op)
    ensures ok ==> OfOp(cl, |a.zbuffer|, old(a.p), old(a.State()), op) == Some(a.State())
    ensures !ok ==> NoSymbol(cl, a.zbuffer, old(a.p), old(a.State()))
  {
    hide ZBuf.Reader, SymbolAt, Look, Receive, OfOp, OpAt, OpSize, BitsAt;
    op := Single(0);
    var c := a.HuffmanDecode(z, cl);
    ghost var s := a.State();
    if c < 0 {
      return false, op;
    }
    SymbolInRange(cl, a.zbuffer, old(a.p), c);
    ok := true;
    if c < 16 {
      op := Single(c);
    } else if c == 16 {
      var x := a.ZReceive(2);
      op := CopyPrevious(x);
    } else if c == 17 {
      var x := a.ZReceive(3);
      op := ZerosShort(x);
    } else {
      var x := a.ZReceive(7);
      op := ZerosLong(x);
    }
    WholeOp(cl, a.zbuffer, old(a.p), old(a.State()), s, op);
  }

  /** The symbol and the extra bits of an operation. */
  lemma WholeOp(cl: seq<nat>, data: seq<byte>, p: nat, r: Refill, s: Refill, op: LengthOp)
    requires SymbolAt(cl, data, p, OpSymbol(op)) && OpSymbol(op) < |cl| && Look(|data|, p, r) == Some(s)
    requires op.Single? ==> op.v < 16
    requires !op.Single? ==> OpExtra(op) == BitsAt(data, p + cl[OpSymbol(op)], OpExtraBits(op))
    ensures OpAt(cl, data, p, op) && OpSize(cl, op) == cl[OpSymbol(op)] + OpExtraBits(op)
    ensures OfOp(cl, |data|, p, r, op) == Some(if op.Single? then s else Receive(p + cl[OpSymbol(op)], s, OpExtraBits(op)))
  {
    hide Look, Receive, SymbolAt;
  }

  lemma SymbolInRange(sl: seq<nat>, data: seq<byte>, p: nat, i: nat)
    requires SymbolAt(sl, data, p, i)
    ensures i < |sl|
  {
  }

  /** Append the lengths of one operation, if there is a length to copy and room for all of them. */
  method StoreOp(lencodes: array<nat>, n: nat, ntot: nat, op: LengthOp) returns (ok: bool, m: nat)
    requires n < ntot <= lencodes.Length
    requires op.Single? ==> op.v <= 15
    requires forall i :: 0 <= i < n ==> lencodes[i] <= 15
    modifies lencodes
    ensures ok <==> ApplyOp(old(lencodes[..n]), op).Some? && n + OpCount(op) <= ntot
    ensures ok ==> m == n + OpCount(op) <= ntot && ApplyOp(old(lencodes[..n]), op) == Some(lencodes[..m])
    ensures ok ==> forall i :: 0 <= i < m ==> lencodes[i] <= 15
  {
    m := n;
    match op {
      case Single(v) =>
        lencodes[n] := v;
        m := n + 1;
        assert lencodes[..m] == lencodes[..n] + [v];
        ok := true;
      case CopyPrevious(x) =>
        if n == 0 {
          return false, m;
        }
        ok, m := Fill(lencodes, n, ntot, lencodes[n - 1], x + 3);
      case ZerosShort(x) =>
        ok, m := Fill(lencodes, n, ntot, 0, x + 3);
      case ZerosLong(x) =>
        ok, m := Fill(lencodes, n, ntot, 0, x + 11);
    }
  }

  method Fill(lencodes: array<nat>, n: nat, ntot: nat, fill: nat, c: nat) returns (ok: bool, m: nat)
    requires n < ntot <= lencodes.Length && fill <= 15
    requires forall i :: 0 <= i < n ==> lencodes[i] <= 15
    modifies lencodes
    ensures ok <==> n + c <= ntot
    ensures ok ==> m == n + c && lencodes[..m] == old(lencodes[..n]) + Repeat(fill, c)
    ensures ok ==> forall i :: 0 <= i < m ==> lencodes[i] <= 15
  {
    m := n;
    if ntot - n < c {
      return false, m;
    }
    for j := 0 to c
      invariant forall i :: 0 <= i < n ==> lencodes[i] == old(lencodes[i])
      invariant forall i :: n <= i < n + j ==> lencodes[i] == fill
    {
      lencodes[n + j] := fill;
    }
    m := n + c;
    ok := true;
  }

  /** The code lengths of both alphabets, or the point where no operation can follow. */
  method ReadCodeLengths(a: ZBuf, z: ZHuffman, ghost cl: seq<nat>, ntot: nat)
    returns (ok: bool, lencodes: array<nat>, ghost ops: seq<LengthOp>, ghost q: nat, ghost r: Refill, ghost lens: seq<nat>)
    requires a.Reader() && z.Shape() && z.Represents(cl) && |cl| == 19 && a !in z.Repr
    requires 0 < ntot <= 455
    modifies a`pos, a`codeBuffer, a`numBits, a`hitZeof, a`p, a`fetched
    ensures a.Reader() && fresh(lencodes) && lencodes.Length == 455
    ensures OpsRead(cl, a.zbuffer, old(a.p), old(a.State()), ops, q, r, lens)
    ensures ok ==> q == a.p && r == a.State() && |lens| == ntot && lens == lencodes[..ntot] && AtMost15(lens)
    ensures !ok ==> |lens| < ntot && OpsBlocked(cl, a.zbuffer, q, r, lens, ntot)
  {
    hide ZBuf.Reader, ZHuffman.Represents, ZHuffman.Shape, OpsRead, OpsBlocked, OpAt, OpSize, ApplyOp, NoSymbol, OfOp;
    ghost var start, r0 := a.p, a.State();
    lencodes := new nat[455](_ => 0);
    var n := 0;
    ops, q, r, lens := [], a.p, a.State(), [];
    OpsReadStart(cl, a.zbuffer, start, r0);
    while n < ntot
      invariant a.Reader() && z.Represents(cl)
      invariant 0 <= n <= ntot && lens == lencodes[..n] && AtMost15(lens)
      invariant q == a.p && r == a.State() && OpsRead(cl, a.zbuffer, start, r0, ops, q, r, lens)
      decreases ntot - n
    {
      var more, op;
      more, op := ReadOp(a, z, cl);
      if !more {
        NoOp(cl, a.zbuffer, q, r, lens, ntot);
        return false, lencodes, ops, q, r, lens;
      }
      OpIsSmall(cl, a.zbuffer, q, op);
      more, n := StoreOp(lencodes, n, ntot, op);
      if !more {
        RepresentsLengths(z, cl);
        OnlyOp(cl, a.zbuffer, q, r, lens, ntot, op);
        return false, lencodes, ops, q, r, lens;
      }
      OpsReadAppend(cl, a.zbuffer, start, r0, ops, q, r, lens, op, a.State(), lencodes[..n]);
      ops, q, r, lens := ops + [op], q + OpSize(cl, op), a.State(), lencodes[..n];
    }
    ok := true;
  }

  ghost predicate AtMost15(lens: seq<nat>) {
    forall i :: 0 <= i < |lens| ==> lens[i] <= 15
  }

  lemma OpsReadStart(cl: seq<nat>, data: seq<byte>, p: nat, r: Refill)
    ensures OpsRead(cl, data, p, r, [], p, r, [])
  {
  }

  lemma OpIsSmall(cl: seq<nat>, data: seq<byte>, p: nat, op: LengthOp)
    requires OpAt(cl, data, p, op)
    ensures op.Single? ==> op.v <= 15
    ensures OpSymbol(op) < |cl|
  {
  }

  lemma RepresentsLengths(z: ZHuffman, sl: seq<nat>)
    requires z.Shape() && z.Represents(sl)
    ensures Lengths(sl)
  {
  }

  /** The lengths read determine the codes that any header at this position announces. */
  lemma CodesOfLengths(data: seq<byte>, p: nat, r0: Refill, ops: seq<LengthOp>, q: nat, r: Refill, lens: seq<nat>, us: seq<LengthOp>, c: Codes)
    requires Lengths(MetaCode(data, p)) && OpsRead(MetaCode(data, p), data, OpsStart(data, p), OfFields(data, p, r0), ops, q, r, lens)
    requires |lens| == LitCount(data, p) + DistCount(data, p)
    requires HeaderAt(data, p, us, c)
    ensures c.lit == lens[..LitCount(data, p)] && c.dist == lens[LitCount(data, p)..]
  {
    hide OpsAt, OpsSize, MetaCode, OpsStart, LitCount, DistCount, Usable, Lengths, OfOps, OfFields;
    if |us| <= |ops| {
      SameOps(MetaCode(data, p), data, OpsStart(data, p), us, ops);
    } else {
      SameOps(MetaCode(data, p), data, OpsStart(data, p), ops, us);
    }
    assert (c.lit + c.dist)[..|c.lit|] == c.lit && (c.lit + c.dist)[|c.lit|..] == c.dist;
  }

  lemma BadCodes(data: seq<byte>, p: nat, r0: Refill, ops: seq<LengthOp>, q: nat, r: Refill, lens: seq<nat>)
    requires Lengths(MetaCode(data, p)) && OpsRead(MetaCode(data, p), data, OpsStart(data, p), OfFields(data, p, r0), ops, q, r, lens)
    requires |lens| == LitCount(data, p) + DistCount(data, p)
    requires !Usable(lens[..LitCount(data, p)]) || !Usable(lens[LitCount(data, p)..])
    ensures NoHeader(data, p, r0)
  {
    hide OpsAt, OpsSize, OpsRead, MetaCode, OpsStart, LitCount, DistCount, Usable, Lengths;
    forall us, c
      ensures !HeaderAt(data, p, us, c)
    {
      if HeaderAt(data, p, us, c) {
        CodesOfLengths(data, p, r0, ops, q, r, lens, us, c);
      }
    }
  }

  lemma BadMetaCode(data: seq<byte>, p: nat, r: Refill)
    requires !Usable(MetaCode(data, p))
    ensures NoHeader(data, p, r)
  {
  }

  lemma CountBounds(data: seq<byte>, p: nat)
    ensures 257 <= LitCount(data, p) <= 288 && 1 <= DistCount(data, p) <= 32
    ensures Lengths(MetaCode(data, p))
  {
    assert Pow2(5) == 32 by { Pow2Values(); }
    BitsBound(data, p, 5);
    BitsBound(data, p + 5, 5);
    MetaLengthsBound(data, p + 14, MetaCount(data, p));
  }

  /** How many code lengths of each kind the header gives. */
  method ReadCounts(a: ZBuf) returns (hlit: nat, hdist: nat, hclen: nat)
    requires a.Reader()
    modifies a`pos, a`codeBuffer, a`numBits, a`p, a`fetched
    ensures a.Reader() && a.p == old(a.p) + 14 && a.State() == OfCounts(old(a.p), old(a.State()))
    ensures hlit == LitCount(a.zbuffer, old(a.p)) && hdist == DistCount(a.zbuffer, old(a.p))
    ensures hclen == MetaCount(a.zbuffer, old(a.p))
  {
    hide ZBuf.Reader, Receive, BitsAt;
    var k := a.ZReceive(5);
    hlit := k + 257;
    k := a.ZReceive(5);
    hdist := k + 1;
    k := a.ZReceive(4);
    hclen := k + 4;
  }

  method ComputeHuffmanCodes(a: ZBuf) returns (ok: bool, ghost ops: seq<LengthOp>, ghost c: Codes)
    requires a.Reader() && a.Separate()
    modifies a`pos, a`codeBuffer, a`numBits, a`hitZeof, a`p, a`fetched, a.zLength.Repr, a.zDistance.Repr
    ensures a.Reader()
    ensures ok ==> HeaderAt(a.zbuffer, old(a.p), ops, c) && a.p == HeaderEnd(a.zbuffer, old(a.p), ops)
    ensures ok ==> Tables(a, c)
    ensures ok ==> OfHeader(a.zbuffer, old(a.p), old(a.State()), ops) == Some(a.State())
    ensures !ok ==> NoHeader(a.zbuffer, old(a.p), old(a.State()))
  {
    hide ZBuf.Reader, NoHeader, HeaderAt, HeaderEnd, OfHeader, OfFields, MetaCode, OpsStart, LitCount, DistCount, Tables;
    ghost var p0, r0 := a.p, a.State();
    var sizes, hlit, hdist := ReadFields(a);
    ok, ops, c := ReadTables(a, sizes, hlit, hdist, p0, r0);
  }

  /** Everything before the operations. */
  method ReadFields(a: ZBuf) returns (sizes: seq<nat>, hlit: nat, hdist: nat)
    requires a.Reader()
    modifies a`pos, a`codeBuffer, a`numBits, a`p, a`fetched
    ensures a.Reader() && a.p == OpsStart(a.zbuffer, old(a.p)) && a.State() == OfFields(a.zbuffer, old(a.p), old(a.State()))
    ensures hlit == LitCount(a.zbuffer, old(a.p)) && hdist == DistCount(a.zbuffer, old(a.p))
    ensures sizes == MetaCode(a.zbuffer, old(a.p))
  {
    hide ZBuf.Reader, OfCounts, OfMeta, LitCount, DistCount, MetaCount, MetaLengths;
    var hclen;
    hlit, hdist, hclen := ReadCounts(a);
    sizes := ReadMetaLengths(a, old(a.p) + 14, hclen);
  }

  method ReadTables(a: ZBuf, sizes: seq<nat>, hlit: nat, hdist: nat, ghost p0: nat, ghost r0: Refill)
    returns (ok: bool, ghost ops: seq<LengthOp>, ghost c: Codes)
    requires a.Reader() && a.Separate() && a.State() == OfFields(a.zbuffer, p0, r0)
    requires sizes == MetaCode(a.zbuffer, p0) && a.p == OpsStart(a.zbuffer, p0)
    requires hlit == LitCount(a.zbuffer, p0) && hdist == DistCount(a.zbuffer, p0)
    modifies a`pos, a`codeBuffer, a`numBits, a`hitZeof, a`p, a`fetched, a.zLength.Repr, a.zDistance.Repr
    ensures a.Reader()
    ensures ok ==> HeaderAt(a.zbuffer, p0, ops, c) && a.p == HeaderEnd(a.zbuffer, p0, ops)
    ensures ok ==> Tables(a, c)
    ensures ok ==> OfHeader(a.zbuffer, p0, r0, ops) == Some(a.State())
    ensures !ok ==> NoHeader(a.zbuffer, p0, r0)
  {
    CountBounds(a.zbuffer, p0);
    hide ZBuf.Reader, ZHuffman.Represents, NoHeader, HeaderAt, HeaderEnd, MetaCode, OpsStart, LitCount, DistCount, OfHeader, OfFields;
    ops, c := [], Codes([], []);
    var zCodeLength := new ZHuffman();
    ok := zCodeLength.Build(sizes);
    if !ok {
      BadMetaCode(a.zbuffer, p0, r0);
    } else {
      ok, ops, c := ReadBoth(a, zCodeLength, hlit, hdist, p0, r0);
    }
  }

  method ReadBoth(a: ZBuf, z: ZHuffman, hlit: nat, hdist: nat, ghost p0: nat, ghost r0: Refill)
    returns (ok: bool, ghost ops: seq<LengthOp>, ghost c: Codes)
    requires a.Reader() && a.Separate() && a.State() == OfFields(a.zbuffer, p0, r0)
    requires z.Shape() && z.Represents(MetaCode(a.zbuffer, p0)) && a !in z.Repr
    requires Usable(MetaCode(a.zbuffer, p0)) && a.p == OpsStart(a.zbuffer, p0)
    requires hlit == LitCount(a.zbuffer, p0) && hdist == DistCount(a.zbuffer, p0)
    modifies a`pos, a`codeBuffer, a`numBits, a`hitZeof, a`p, a`fetched, a.zLength.Repr, a.zDistance.Repr
    ensures a.Reader()
    ensures ok ==> HeaderAt(a.zbuffer, p0, ops, c) && a.p == HeaderEnd(a.zbuffer, p0, ops)
    ensures ok ==> Tables(a, c)
    ensures ok ==> OfHeader(a.zbuffer, p0, r0, ops) == Some(a.State())
    ensures !ok ==> NoHeader(a.zbuffer, p0, r0)
  {
    ghost var data := a.zbuffer;
    CountBounds(data, p0);
    hide ZBuf.Reader, ZHuffman.Represents, ZHuffman.Shape, NoHeader, OpsRead, OpsBlocked, OpsAt, OpsSize, MetaCode, OpsStart,
         LitCount, DistCount, HeaderAt, HeaderEnd, Tables, OfHeader, OfFields;
    c := Codes([], []);
    var lencodes;
    ghost var q, r, lens;
    ok, lencodes, ops, q, r, lens := ReadCodeLengths(a, z, MetaCode(data, p0), hlit + hdist);
    if !ok {
      OpsBlockedIsFinal(data, p0, r0, ops, q, r, lens, hlit + hdist);
      return;
    }
    c := Codes(lens[..hlit], lens[hlit..]);
    assert lencodes[..hlit] == c.lit && lencodes[hlit..hlit + hdist] == c.dist;
    ok := BuildBoth(a, lencodes[..hlit], lencodes[hlit..hlit + hdist]);
    if !ok {
      BadCodes(data, p0, r0, ops, q, r, lens);
    } else {
      GoodCodes(data, p0, r0, ops, q, r, lens, c);
    }
  }

  lemma GoodCodes(data: seq<byte>, p: nat, r0: Refill, ops: seq<LengthOp>, q: nat, r: Refill, lens: seq<nat>, c: Codes)
    requires Usable(MetaCode(data, p)) && OpsRead(MetaCode(data, p), data, OpsStart(data, p), OfFields(data, p, r0), ops, q, r, lens)
    requires |lens| == LitCount(data, p) + DistCount(data, p)
    requires c == Codes(lens[..LitCount(data, p)], lens[LitCount(data, p)..])
    requires Usable(c.lit) && Usable(c.dist)
    ensures HeaderAt(data, p, ops, c) && q == HeaderEnd(data, p, ops)
    ensures OfHeader(data, p, r0, ops) == Some(r)
  {
    hide MetaCode, OpsStart, LitCount, DistCount, Usable, OfOps, OfFields;
    assert c.lit + c.dist == lens;
  }

  /** Build both decoding tables. */
  method BuildBoth(a: ZBuf, lit: seq<nat>, dist: seq<nat>) returns (ok: bool)
    requires a.Separate() && Lengths(lit) && Lengths(dist)
    modifies a.zLength.Repr, a.zDistance.Repr
    ensures ok <==> Usable(lit) && Usable(dist)
    ensures ok ==> Tables(a, Codes(lit, dist))
  {
    hide ZHuffman.Represents;
    ok := a.zLength.Build(lit);
    if ok {
      ok := a.zDistance.Build(dist);
    }
  }
}
