/**
 Stored blocks (section 3.2.4 of RFC 1951): the length field, whose bytes may already be in the bit
 buffer, and the copy of the bytes that follow it.
 */
module Inflate {
  import opened Binary
  import opened BitStream
  import opened ZlibBuffer
  import opened BitRefill
  import opened InflateBlock
  import opened Deflate

  /** Drop the bits up to the next byte boundary. */
  method DiscardBits(a: ZBuf)
    requires a.Reader()
    modifies a`pos, a`codeBuffer, a`numBits, a`p, a`fetched
    ensures a.Reader() && a.p == Align(old(a.p)) && a.p % 8 == 0
  {
    AlignBuffer(a);
    hide ZBuf.Reader, Align;
    if a.numBits % 8 != 0 {
      var k := a.ZReceive(a.numBits % 8);
    }
  }

  lemma AlignTo(p: nat, n: nat, k: nat)
    requires p + n == 8 * k
    ensures Align(p) == p + n % 8
  {
    var c, r := n / 8, n % 8;
    assert p + r == 8 * (k - c);
  }

  /** The bits to drop are those of the buffer beyond whole bytes. */
  lemma AlignBuffer(a: ZBuf)
    requires a.Reader()
    ensures Align(a.p) == a.p + a.numBits % 8
  {
    AlignTo(a.p, a.numBits, a.fetched);
  }

  lemma WholeBytes(a: ZBuf)
    requires a.Reader() && a.p % 8 == 0
    ensures a.numBits % 8 == 0 && a.numBits <= 32
  {
  }

  /** The length field and its complement, partly from the bit buffer and partly from the input. */
  method ReadStoredHeader(a: ZBuf) returns (header: seq<byte>)
    requires a.Reader() && a.p % 8 == 0
    modifies a`pos, a`codeBuffer, a`numBits, a`p, a`fetched
    ensures a.Reader() && a.numBits == 0 && a.p == old(a.p) + 32
    ensures |header| == 4 && forall i {:trigger header[i]} :: 0 <= i < 4 ==> header[i] == BitsAt(a.zbuffer, old(a.p) + 8 * i, 8)
  {
    ghost var q := a.p;
    WholeBytes(a);
    header := DrainBuffer(a, q);
    while |header| < 4
      invariant a.Reader() && a.numBits == 0
      invariant |header| <= 4 && HeaderBytes(a.zbuffer, q, header, a.p)
      decreases 4 - |header|
    {
      var b := FetchByte(a);
      header := header + [b];
    }
  }

  ghost predicate HeaderBytes(data: seq<byte>, q: nat, header: seq<byte>, p: nat) {
    p == q + 8 * |header| && forall i {:trigger header[i]} :: 0 <= i < |header| ==> header[i] == BitsAt(data, q + 8 * i, 8)
  }

  method DrainBuffer(a: ZBuf, ghost q: nat) returns (header: seq<byte>)
    requires a.Reader() && a.p == q && a.numBits % 8 == 0 && a.numBits <= 32
    modifies a`codeBuffer, a`numBits, a`p
    ensures a.Reader() && a.numBits == 0
    ensures |header| <= 4 && HeaderBytes(a.zbuffer, q, header, a.p)
  {
    hide ZBuf.Reader, HeaderBytes, BitsAt;
    header := [];
    assert HeaderBytes(a.zbuffer, q, header, a.p) by { NoHeaderBytes(a.zbuffer, q); }
    while a.numBits > 0
      invariant a.Reader() && HeaderBytes(a.zbuffer, q, header, a.p)
      invariant a.numBits + 8 * |header| <= 32 && a.numBits % 8 == 0
      decreases a.numBits
    {
      ghost var was, at := header, a.p;
      var b := DrainByte(a);
      header := header + [b];
      NextHeaderByte(a.zbuffer, q, was, at, b);
    }
  }

  lemma NoHeaderBytes(data: seq<byte>, q: nat)
    ensures HeaderBytes(data, q, [], q)
  {
  }

  lemma NextHeaderByte(data: seq<byte>, q: nat, header: seq<byte>, p: nat, b: byte)
    requires HeaderBytes(data, q, header, p) && b == BitsAt(data, p, 8)
    ensures HeaderBytes(data, q, header + [b], p + 8)
  {
  }

  method DrainByte(a: ZBuf) returns (b: byte)
    requires a.Reader() && 8 <= a.numBits
    modifies a`codeBuffer, a`numBits, a`p
    ensures a.Reader() && a.p == old(a.p) + 8 && a.numBits == old(a.numBits) - 8
    ensures b == BitsAt(a.zbuffer, old(a.p), 8)
  {
    assert Pow2(8) == 256 by { Pow2Values(); }
    AndMask(a.codeBuffer, 8);
    LowBound(a.codeBuffer, 8);
    b := And(a.codeBuffer, 255);
    a.Consume(8);
  }

  method FetchByte(a: ZBuf) returns (b: byte)
    requires a.Reader() && a.numBits == 0
    modifies a`pos, a`p, a`fetched
    ensures a.Reader() && a.p == old(a.p) + 8
    ensures b == BitsAt(a.zbuffer, old(a.p), 8)
  {
    ByteBits(a.zbuffer, a.fetched);
    b := a.ZGet8();
    a.p := a.p + 8;
    a.fetched := a.fetched + 1;
  }

  lemma TwoBytes(data: seq<byte>, p: nat)
    ensures BitsAt(data, p, 16) == BitsAt(data, p + 8, 8) * 256 + BitsAt(data, p, 8)
    ensures BitsAt(data, p, 16) < 0x10000
  {
    assert Pow2(8) == 256 && Pow2(16) == 0x10000 by { Pow2Values(); }
    BitsSplit(data, p, 8, 8);
    ShlIsProduct(BitsAt(data, p + 8, 8), 8);
    BitsBound(data, p, 16);
  }

  function Word(low: nat, high: nat): nat {
    high * 256 + low
  }

  lemma FieldsOfHeader(data: seq<byte>, q: nat, header: seq<byte>)
    requires |header| == 4 && forall i {:trigger header[i]} :: 0 <= i < 4 ==> header[i] == BitsAt(data, q + 8 * i, 8)
    ensures Word(header[0], header[1]) == BitsAt(data, q, 16) < 0x10000
    ensures Word(header[2], header[3]) == BitsAt(data, q + 16, 16) < 0x10000
  {
    hide BitsAt;
    TwoBytes(data, q);
    TwoBytes(data, q + 16);
    assert header[0] == BitsAt(data, q, 8) && header[1] == BitsAt(data, q + 8, 8);
    assert header[2] == BitsAt(data, q + 16, 8) && header[3] == BitsAt(data, q + 16 + 8, 8);
  }

  /** No stored block with room in the output stands at p. */
  ghost predicate NoStored(data: seq<byte>, p: nat, n: nat, max: nat) {
    forall bytes {:trigger BodyAt(data, p, Stored(bytes))} :: BodyAt(data, p, Stored(bytes)) ==> max < n + |bytes|
  }

  method ParseUncompressedBlock(a: ZBuf) returns (ok: bool, ghost bytes: seq<byte>)
    requires a.Reader() && Output(a)
    modifies a, a.zout
    ensures a.Reader() && Output(a) && MaxOutput(a) == old(MaxOutput(a))
    ensures a.zout == old(a.zout) || fresh(a.zout)
    ensures ok ==> BodyAt(a.zbuffer, old(a.p), Stored(bytes)) && a.p == BodyEnd(a.zbuffer, old(a.p), Stored(bytes))
    ensures ok ==> Out(a) == old(Out(a)) + bytes
    ensures ok ==> a.State() == Refill(BodyEnd(a.zbuffer, old(a.p), Stored(bytes)) / 8, old(a.hitZeof))
    ensures !ok ==> NoStored(a.zbuffer, old(a.p), old(a.outPos), MaxOutput(a))
  {
    hide ZBuf.Reader, BodyAt, BodyEnd, StoredAt, MaxOutput;
    ghost var data, p0, n0 := a.zbuffer, a.p, a.outPos;
    bytes := [];
    var len;
    ok, len := ReadStoredLength(a);
    if ok {
      StoredIsBody(data, p0, len);
      bytes := data[a.pos..a.pos + len];
      assert a.pos == Align(p0) / 8 + 4;
      ok := StoreBytes(a, len);
      OnlyStored(data, p0, len, n0, MaxOutput(a));
    } else {
      NoneStored(data, p0, n0, MaxOutput(a));
    }
  }

  lemma StoredIsBody(data: seq<byte>, p: nat, n: nat)
    requires StoredAt(data, Align(p), n)
    ensures var q := Align(p);
            var b := Stored(data[q / 8 + 4..q / 8 + 4 + n]);
            BodyAt(data, p, b) && BodyEnd(data, p, b) == q + 32 + 8 * n
  {
    hide BitsAt, Align;
  }

  lemma OnlyStored(data: seq<byte>, p: nat, n: nat, n0: nat, max: nat)
    requires StoredAt(data, Align(p), n)
    ensures max < n0 + n ==> NoStored(data, p, n0, max)
  {
    hide Align;
  }

  lemma NoneStored(data: seq<byte>, p: nat, n0: nat, max: nat)
    requires forall n :: !StoredAt(data, Align(p), n)
    ensures NoStored(data, p, n0, max)
  {
    hide BitsAt, Align;
    forall bytes | BodyAt(data, p, Stored(bytes))
      ensures StoredAt(data, Align(p), |bytes|)
    {
    }
  }

  /** The length of a stored block whose bytes are all in the input. */
  method ReadStoredLength(a: ZBuf) returns (ok: bool, len: nat)
    requires a.Reader()
    modifies a`pos, a`codeBuffer, a`numBits, a`p, a`fetched
    ensures a.Reader()
    ensures ok ==> a.numBits == 0 && !a.hitZeof && a.p == Align(old(a.p)) + 32 && a.p == 8 * a.pos
    ensures ok ==> a.pos + len <= |a.zbuffer| && StoredAt(a.zbuffer, Align(old(a.p)), len)
    ensures !ok ==> forall n :: !StoredAt(a.zbuffer, Align(old(a.p)), n)
  {
    ghost var q := Align(a.p);
    var nlen;
    ghost var top;
    len, nlen, top := ReadStoredFields(a);
    ComplementIsXor(len);
    hide ZBuf.Reader, Align, Xor, BitsAt;
    ok := false;
    if nlen == Xor(len, 0xFFFF) {
      StoredFits(a, q, len, top);
      if a.pos + len <= |a.zbuffer| {
        ok := true;
      }
    }
  }

  method ReadStoredFields(a: ZBuf) returns (len: nat, nlen: nat, ghost top: byte)
    requires a.Reader()
    modifies a`pos, a`codeBuffer, a`numBits, a`p, a`fetched
    ensures a.Reader() && a.numBits == 0 && a.p == Align(old(a.p)) + 32
    ensures len == BitsAt(a.zbuffer, Align(old(a.p)), 16) < 0x10000
    ensures nlen == BitsAt(a.zbuffer, Align(old(a.p)) + 16, 16)
    ensures top == BitsAt(a.zbuffer, Align(old(a.p)) + 24, 8)
  {
    hide ZBuf.Reader, Align, BitsAt, Word;
    ghost var q := Align(a.p);
    DiscardBits(a);
    var header := ReadStoredHeader(a);
    len, nlen := Word(header[0], header[1]), Word(header[2], header[3]);
    FieldsOfHeader(a.zbuffer, q, header);
    top := header[3];
  }

  /** The fields of a stored block of n bytes stand at q and its bytes lie inside the input. */
  ghost predicate StoredAt(data: seq<byte>, q: nat, n: nat) {
    BitsAt(data, q, 16) == n && BitsAt(data, q + 16, 16) == 0xFFFF - n && q / 8 + 4 + n <= |data|
  }

  lemma ComplementIsXor(len: nat)
    requires len < 0x10000
    ensures Xor(len, 0xFFFF) == 0xFFFF - len
  {
    assert Pow2(16) == 0x10000 by { Pow2Values(); }
    XorOnes(len, 16);
  }

  /** The test on the input pointer is exact, and then no byte of the header was made up. */
  lemma StoredFits(a: ZBuf, q: nat, len: nat, top: byte)
    requires a.Reader() && a.numBits == 0 && a.p == q + 32 && len < 0x10000
    requires top == BitsAt(a.zbuffer, q + 24, 8)
    requires BitsAt(a.zbuffer, q + 16, 16) == 0xFFFF - len
    ensures a.pos + len <= |a.zbuffer| <==> q / 8 + 4 + len <= |a.zbuffer|
    ensures a.pos + len <= |a.zbuffer| ==> !a.hitZeof && q + 32 == 8 * a.pos
  {
    TwoBytes(a.zbuffer, q + 16);
    assert q + 16 + 8 == q + 24 && BitsAt(a.zbuffer, q + 16, 16) == top * 256 + BitsAt(a.zbuffer, q + 16, 8);
    assert Pow2(8) == 256 by { Pow2Values(); }
    BitsBound(a.zbuffer, q + 16, 8);
    if 8 * |a.zbuffer| <= q + 24 {
      BitsPastEnd(a.zbuffer, q + 24, 8);
    }
  }

  method StoreBytes(a: ZBuf, len: nat) returns (ok: bool)
    requires a.Reader() && Output(a) && a.numBits == 0 && a.p == 8 * a.pos && !a.hitZeof
    requires a.pos + len <= |a.zbuffer|
    modifies a, a.zout
    ensures a.Reader() && Output(a) && MaxOutput(a) == old(MaxOutput(a))
    ensures a.zout == old(a.zout) || fresh(a.zout)
    ensures ok <==> old(a.outPos) + len <= MaxOutput(a)
    ensures ok ==> a.p == old(a.p) + 8 * len && Out(a) == old(Out(a)) + a.zbuffer[old(a.pos)..old(a.pos) + len]
    ensures ok ==> 8 * a.fetched == a.p && !a.hitZeof
  {
    ok := true;
    if a.outPos + len > a.zout.Length {
      ok := ZExpand(a, a.outPos, len);
      if !ok {
        return;
      }
    }
    CopyInput(a.zout, a.outPos, a.zbuffer, a.pos, len);
    a.pos := a.pos + len;
    a.p := a.p + 8 * len;
    a.fetched := a.fetched + len;
    a.outPos := a.outPos + len;
  }

  method CopyInput(z: array<byte>, to: nat, data: seq<byte>, from: nat, len: nat)
    requires to + len <= z.Length && from + len <= |data|
    modifies z
    ensures z[..to + len] == old(z[..to]) + data[from..from + len]
  {
    for i := 0 to len
      invariant z[..to + i] == old(z[..to]) + data[from..from + i]
    {
      z[to + i] := data[from + i];
      assert z[..to + i + 1] == z[..to + i] + [data[from + i]];
    }
  }
}
