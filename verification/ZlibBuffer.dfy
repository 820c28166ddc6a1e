/**
 The bit reader of the inflater and the decoding of one Huffman symbol.
 */
module ZlibBuffer {
  import opened Binary
  import opened Reversal
  import opened BitStream
  import opened Canonical
  import opened Huffman
  import opened Options
  import opened BitRefill

  /** A window that starts with no short code lies above all of them. */
  lemma NoShortMatch(sl: seq<nat>, data: seq<byte>, p: nat)
    requires Lengths(sl) && NotOversubscribed(sl)
    requires FastEntry(sl, |sl|, BitsAt(data, p, 9)) == 0
    ensures Shl(EndCode(sl, 9), 7) <= CodeAt(data, p, 16)
  {
    var k := CodeAt(data, p, 16);
    if k < Shl(EndCode(sl, 9), 7) {
      var i := MatchBelow(sl, 9, k);
      SymbolAtIsMatch(sl, data, p, i);
      FastHitIsSymbol(sl, data, p, i);
      FastEntryHits(sl, |sl|, BitsAt(data, p, 9));
      assert false;
    }
  }

  /** An entry of the fast table is the next symbol and its code length. */
  lemma FastEntryIsSymbol(sl: seq<nat>, data: seq<byte>, p: nat) returns (i: nat)
    requires Lengths(sl) && NotOversubscribed(sl)
    requires FastEntry(sl, |sl|, BitsAt(data, p, 9)) != 0
    ensures SymbolAt(sl, data, p, i) && sl[i] <= 9
    ensures Low(FastEntry(sl, |sl|, BitsAt(data, p, 9)), 9) == i
    ensures Shr(FastEntry(sl, |sl|, BitsAt(data, p, 9)), 9) == sl[i]
  {
    hide FastEntry, FastHit, SymbolAt, Low, Shr, BitsAt, NotOversubscribed;
    var e := FastEntry(sl, |sl|, BitsAt(data, p, 9));
    FastEntryHits(sl, |sl|, BitsAt(data, p, 9));
    i := e % 512;
    FastHitIsSymbol(sl, data, p, i);
    EntryFields(e);
  }

  lemma EntryFields(e: nat)
    ensures Low(e, 9) == e % 512 && Shr(e, 9) == e / 512
  {
    assert Pow2(9) == 512 by { Pow2Values(); }
    ShlIsProduct(e / 512, 9);
    hide Low, Shr, Shl, Pow2;
    FieldBelow(e % 512, e / 512, 9);
  }

  /** The search of the slow path stops at a symbol of that length. */
  lemma SlowMatch(sl: seq<nat>, data: seq<byte>, p: nat, s: nat) returns (i: nat)
    requires Lengths(sl) && 10 <= s <= 15
    requires Shl(EndCode(sl, s - 1), 16 - (s - 1)) <= CodeAt(data, p, 16) < Shl(EndCode(sl, s), 16 - s)
    ensures SymbolAt(sl, data, p, i) && sl[i] == s
    ensures Slot(sl, i) == Shr(CodeAt(data, p, 16), 16 - s) - FirstCode(sl, s) + FirstSymbol(sl, s)
  {
    LowerEnd(sl, s);
    i := MatchAtLength(sl, s, CodeAt(data, p, 16));
    SymbolAtIsMatch(sl, data, p, i);
  }

  /** A window above all codes starts with none of them. */
  lemma NoMatchAbove(sl: seq<nat>, data: seq<byte>, p: nat)
    requires Lengths(sl)
    requires Shl(EndCode(sl, 15), 1) <= CodeAt(data, p, 16)
    ensures forall i :: !SymbolAt(sl, data, p, i)
  {
    forall i | SymbolAt(sl, data, p, i)
      ensures false
    {
      SymbolAtIsMatch(sl, data, p, i);
      MatchIsBelow(sl, i, CodeAt(data, p, 16), 15);
    }
  }

  /** A buffer with at least 16 bits shows the next code to the reversal. */
  lemma WindowOf(data: seq<byte>, p: nat, n: nat)
    requires 16 <= n
    ensures Rev(BitsAt(data, p, n), 16) == CodeAt(data, p, 16)
    ensures Low(BitsAt(data, p, n), 9) == BitsAt(data, p, 9)
  {
    BitsConsume(data, p, 16, n - 16);
    assert 16 + (n - 16) == n && 9 + (n - 9) == n;
    RevLow(BitsAt(data, p, n), 16);
    RevBits(data, p, 16);
    BitsConsume(data, p, 9, n - 9);
  }

  /** The byte fetched next, or zero past the end of the input, supplies the next eight bits. */
  lemma AppendByte(data: seq<byte>, p: nat, n: nat, fetched: nat)
    requires p + n == 8 * fetched
    ensures BitsAt(data, p, n + 8) == BitsAt(data, p, n) + Shl(if fetched < |data| then data[fetched] else 0, n)
  {
    BitsSplit(data, p, n, 8);
    ByteBits(data, fetched);
  }

  lemma AppendZeros(data: seq<byte>, p: nat, n: nat, m: nat)
    requires 8 * |data| <= p + n
    ensures BitsAt(data, p, n + m) == BitsAt(data, p, n)
  {
    BitsSplit(data, p, n, m);
    BitsPastEnd(data, p + n, m);
    ShlZero(n);
  }

  class ZBuf {
    const zbuffer: seq<byte>
    var pos: nat
    var numBits: nat
    var codeBuffer: nat
    var hitZeof: bool
    /** Number of bits consumed from the start of zbuffer. */
    ghost var p: nat
    /** Number of bytes delivered to the bit buffer, counting zeros past the end. */
    ghost var fetched: nat

    var zout: array<byte>
    var outPos: nat
    const expandable: bool

    const zLength: ZHuffman
    const zDistance: ZHuffman

    constructor (buffer: seq<byte>, obuf: array<byte>, exp: bool)
      ensures zbuffer == buffer && pos == 0 && zout == obuf && outPos == 0 && expandable == exp
      ensures Reader() && p == 0 && numBits == 0 && !hitZeof
      ensures fresh(zLength) && fresh(zDistance) && zLength != zDistance
      ensures Separate()
      ensures fresh(zLength.Repr) && fresh(zDistance.Repr) && zLength.Repr !! zDistance.Repr
    {
      zbuffer, pos, numBits, codeBuffer, hitZeof := buffer, 0, 0, 0, false;
      p, fetched := 0, 0;
      zout, outPos, expandable := obuf, 0, exp;
      zLength := new ZHuffman();
      zDistance := new ZHuffman();
    }

    /** The tables share no memory with each other or with this object. */
    ghost predicate Separate() {
      && zLength.Shape() && zDistance.Shape()
      && this !in zLength.Repr && this !in zDistance.Repr && zLength.Repr !! zDistance.Repr
    }

    /** The buffered bits and the unread bytes are the stream from bit p on. */
    ghost predicate Reader()
      reads this`pos, this`numBits, this`codeBuffer, this`hitZeof, this`p, this`fetched
    {
      && pos <= |zbuffer| && numBits <= 32
      && codeBuffer == BitsAt(zbuffer, p, numBits)
      && p + numBits == 8 * fetched
      && pos == (if fetched < |zbuffer| then fetched else |zbuffer|)
      && (hitZeof ==> |zbuffer| + 2 <= fetched)
    }

    /** What was fetched so far. */
    ghost function State(): Refill
      reads this`fetched, this`hitZeof
    {
      Refill(fetched, hitZeof)
    }

    /** The reader state is sound at the current position. */
    lemma ReaderSound()
      requires Reader()
      ensures Sound(|zbuffer|, p, State())
    {
    }

    method ZGet8() returns (b: byte)
      requires pos <= |zbuffer|
      modifies this`pos
      ensures b == if old(pos) < |zbuffer| then zbuffer[old(pos)] else 0
      ensures pos == if old(pos) < |zbuffer| then old(pos) + 1 else old(pos)
    {
      if pos >= |zbuffer| {
        b := 0;
      } else {
        b := zbuffer[pos];
        pos := pos + 1;
      }
    }

    /** One turn of the loop of FillBits. The guard against stray bits never fires. */
    method FillByte()
      requires Reader() && numBits <= 24
      modifies this`pos, this`codeBuffer, this`numBits, this`fetched
      ensures Reader() && numBits == old(numBits) + 8 && fetched == old(fetched) + 1
    {
      hide BitsAt, Or, Shl, Pow2;
      BitsBound(zbuffer, p, numBits);
      if codeBuffer >= Pow2(numBits) {
        assert false;
      }
      AppendByte(zbuffer, p, numBits, fetched);
      var b := ZGet8();
      OrAbove(codeBuffer, b, numBits);
      codeBuffer := Or(codeBuffer, Shl(b, numBits));
      numBits := numBits + 8;
      fetched := fetched + 1;
    }

    method FillBits()
      requires Reader() && numBits <= 24
      modifies this`pos, this`codeBuffer, this`numBits, this`fetched
      ensures Reader() && 25 <= numBits && State() == Filled(p, old(State()))
    {
      FillByte();
      while numBits <= 24
        invariant Reader()
        decreases 32 - numBits
      {
        FillByte();
      }
    }

    /** The next n bits, as a number. */
    method ZReceive(n: nat) returns (k: nat)
      requires Reader() && n <= 16
      modifies this`pos, this`codeBuffer, this`numBits, this`p, this`fetched
      ensures Reader()
      ensures k == BitsAt(zbuffer, old(p), n) && p == old(p) + n
      ensures State() == Receive(old(p), old(State()), n)
    {
      if numBits < n {
        FillBits();
      }
      AndMask(codeBuffer, n);
      k := And(codeBuffer, Pow2(n) - 1);
      Consume(n);
    }

    method Consume(n: nat)
      requires Reader() && n <= numBits
      modifies this`codeBuffer, this`numBits, this`p
      ensures Reader() && p == old(p) + n && numBits == old(numBits) - n
      ensures Low(old(codeBuffer), n) == BitsAt(zbuffer, old(p), n)
    {
      assert n + (numBits - n) == numBits;
      BitsConsume(zbuffer, p, n, numBits - n);
      codeBuffer := Shr(codeBuffer, n);
      numBits := numBits - n;
      p := p + n;
    }

    /** Make sixteen bits available, with 16 zero bits appended once at the end of the input. */
    method Ensure16() returns (ok: bool)
      requires Reader()
      modifies this`pos, this`codeBuffer, this`numBits, this`hitZeof, this`fetched
      ensures Reader()
      ensures ok ==> 16 <= numBits
      ensures Look(|zbuffer|, p, old(State())) == if ok then Some(State()) else None
    {
      ok := true;
      if numBits < 16 {
        if pos >= |zbuffer| {
          if !hitZeof {
            hitZeof := true;
            AppendZeros(zbuffer, p, numBits, 16);
            numBits := numBits + 16;
            fetched := fetched + 2;
          } else {
            ok := false;
          }
        } else {
          FillBits();
        }
      }
    }

    /**
     Decode one symbol: the symbol whose code comes next in the stream, or -1 if there
     is none or the made-up bits at the end of the input are used up.
     */
    method HuffmanDecode(z: ZHuffman, ghost sl: seq<nat>) returns (r: int)
      requires Reader() && z.Shape() && z.Represents(sl)
      modifies this`pos, this`codeBuffer, this`numBits, this`hitZeof, this`p, this`fetched
      ensures Reader()
      ensures 0 <= r ==> SymbolAt(sl, zbuffer, old(p), r) && p == old(p) + sl[r]
      ensures r < 0 ==> r == -1 && p == old(p)
      ensures 0 <= r ==> Look(|zbuffer|, old(p), old(State())) == Some(State())
      ensures r < 0 ==> Look(|zbuffer|, p, old(State())).None? || forall i :: !SymbolAt(sl, zbuffer, p, i)
    {
      var ok := Ensure16();
      if !ok {
        return -1;
      }
      r := FastLookup(z, sl);
      if r < 0 {
        r := SlowPath(z, sl);
      }
    }

    /** The check at the end of a block, on the refill state. */
    lemma EndCheck()
      requires Reader()
      ensures EndAccepted(p, State()) <==> !(hitZeof && numBits < 16)
    {
    }

    method FastLookup(z: ZHuffman, ghost sl: seq<nat>) returns (r: int)
      requires Reader() && 16 <= numBits && z.Shape() && z.Represents(sl)
      modifies this`codeBuffer, this`numBits, this`p
      ensures Reader()
      ensures 0 <= r ==> SymbolAt(sl, zbuffer, old(p), r) && p == old(p) + sl[r]
      ensures r < 0 ==> p == old(p) && numBits == old(numBits)
      ensures r < 0 ==> FastEntry(sl, |sl|, BitsAt(zbuffer, p, 9)) == 0
    {
      WindowOf(zbuffer, p, numBits);
      AndMask511(codeBuffer);
      BitsBound512(zbuffer, p);
      var b := z.fast[And(codeBuffer, 511)];
      if b == 0 {
        return -1;
      }
      ghost var i := FastEntryIsSymbol(sl, zbuffer, p);
      var s := Shr(b, 9);
      Consume(s);
      AndMask511(b);
      r := And(b, 511);
    }

    /** Codes of ten bits or more. The guards on the table index never fire. */
    method SlowPath(z: ZHuffman, ghost sl: seq<nat>) returns (r: int)
      requires Reader() && 16 <= numBits && z.Shape() && z.Represents(sl)
      requires FastEntry(sl, |sl|, BitsAt(zbuffer, p, 9)) == 0
      modifies this`codeBuffer, this`numBits, this`p
      ensures Reader()
      ensures 0 <= r ==> SymbolAt(sl, zbuffer, old(p), r) && p == old(p) + sl[r]
      ensures r < 0 ==> r == -1 && p == old(p) && forall i :: !SymbolAt(sl, zbuffer, p, i)
    {
      var k := ReverseWindow();
      NoShortMatch(sl, zbuffer, p);
      var s := FindLength(z, sl, k);
      if s >= 16 {
        NoMatchAbove(sl, zbuffer, p);
        return -1;
      }
      ghost var i := SlowMatch(sl, zbuffer, p, s);
      assert z.SlotHolds(sl, i);
      var b := Shr(k, 16 - s) - z.firstcode[s] + z.firstsymbol[s];
      if b >= 288 {
        assert false;
      }
      if z.size[b] != s {
        assert false;
      }
      Consume(s);
      r := z.value[b];
    }

    method ReverseWindow() returns (k: nat)
      requires Reader() && 16 <= numBits
      ensures k == CodeAt(zbuffer, p, 16) < 0x10000
    {
      CodeBound(zbuffer, p, 16);
      assert Pow2(16) == 65536 by { Pow2Values(); }
      k := BitReverse(codeBuffer, 16);
      BitReverseIsRev(codeBuffer, 16);
      WindowOf(zbuffer, p, numBits);
    }

    static method FindLength(z: ZHuffman, ghost sl: seq<nat>, k: nat) returns (s: nat)
      requires z.Shape() && z.Represents(sl) && k < 0x10000
      requires Shl(EndCode(sl, 9), 7) <= k
      ensures 10 <= s <= 16
      ensures Shl(EndCode(sl, s - 1), 16 - (s - 1)) <= k
      ensures s < 16 ==> k < Shl(EndCode(sl, s), 16 - s)
    {
      s := FAST_BITS + 1;
      while k >= z.maxcode[s]
        invariant 10 <= s <= 16
        invariant Shl(EndCode(sl, s - 1), 16 - (s - 1)) <= k
        decreases 16 - s
      {
        s := s + 1;
      }
    }
  }

  lemma AndMask511(v: nat)
    ensures And(v, 511) == Low(v, 9)
  {
    assert Pow2(9) == 512 by { Pow2Values(); }
    AndMask(v, 9);
  }

  lemma BitsBound512(data: seq<byte>, p: nat)
    ensures BitsAt(data, p, 9) < 512
  {
    assert Pow2(9) == 512 by { Pow2Values(); }
    BitsBound(data, p, 9);
  }
}
