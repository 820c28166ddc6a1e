/**
 Two streams that are accepted although they end too early.
 */
module TruncatedStreams {
  import opened Options
  import opened Binary
  import opened BitStream
  import opened Canonical
  import opened Huffman
  import opened Lz77
  import opened BitRefill
  import opened TokenRefill
  import opened InflateBlock
  import opened Deflate
  import opened BlockRefill
  import opened Inflate
  import opened Zlib
  import opened Encoder
  import opened Truncation

  // A stream without its last two bits

  /** One final block with the fixed codes for the letter a, without the last two bits of its end of block. */
  const SHORT_STREAM: seq<byte> := [0x4B, 0x04]

  const LETTER_A: seq<Token> := [Literal(97)]

  lemma ShortBytes(k: nat)
    requires k < 8
    ensures Shr(0x4B, k) == [75, 37, 18, 9, 4, 2, 1, 0][k]
    ensures Shr(0x04, k) == [4, 2, 1, 0, 0, 0, 0, 0][k]
    decreases k
  {
    if k > 0 {
      ShortBytes(k - 1);
      ShrShr(0x4B, k - 1, 1);
      ShrShr(0x04, k - 1, 1);
    }
  }

  /** The bits of the short stream and the zeros after it. */
  lemma ShortBit(i: nat)
    requires i < 18
    ensures StreamBit(SHORT_STREAM, i) == [1, 1, 0, 1, 0, 0, 1, 0, 0, 0, 1, 0, 0, 0, 0, 0, 0, 0][i]
  {
    ShortBytes(i % 8);
  }

  lemma NextCode(data: seq<byte>, p: nat, n: nat)
    ensures CodeAt(data, p, n + 1) == 2 * CodeAt(data, p, n) + StreamBit(data, p + n)
    ensures CodeAt(data, p, 0) == 0
  {
  }

  lemma {:induction false} ShortZeros(n: nat)
    requires n <= 7
    ensures CodeAt(SHORT_STREAM, 11, n) == 0
    decreases n
  {
    hide StreamBit;
    if n > 0 {
      ShortZeros(n - 1);
      ShortBit(11 + n - 1);
    }
  }

  lemma ShortLetter()
    ensures CodeAt(SHORT_STREAM, 3, 8) == 145
  {
    hide CodeAt, StreamBit;
    ShortBit(3);
    NextCode(SHORT_STREAM, 3, 0);
    ShortBit(4);
    NextCode(SHORT_STREAM, 3, 1);
    ShortBit(5);
    NextCode(SHORT_STREAM, 3, 2);
    ShortBit(6);
    NextCode(SHORT_STREAM, 3, 3);
    ShortBit(7);
    NextCode(SHORT_STREAM, 3, 4);
    ShortBit(8);
    NextCode(SHORT_STREAM, 3, 5);
    ShortBit(9);
    NextCode(SHORT_STREAM, 3, 6);
    ShortBit(10);
    NextCode(SHORT_STREAM, 3, 7);
  }

  /** The letter stands in the stream, and its end of block after it ends in the made-up zeros. */
  lemma ShortBlock()
    ensures BlockAt(FixedCodes(), SHORT_STREAM, 3, LETTER_A) && BlockEnd(FixedCodes(), 3, LETTER_A) == 18
    ensures TokensSize(FixedCodes(), LETTER_A) == 8
  {
    ShortSymbols();
    assert FixedLit()[97] == 8 && FixedLit()[END_OF_BLOCK] == 7;
    hide FixedLit, FixedDist, SymbolAt, BlockAt;
    OneLiteral(FixedCodes(), SHORT_STREAM, 3, 97);
  }

  lemma OneLiteral(c: Codes, data: seq<byte>, p: nat, v: nat)
    requires v < 256 && v < |c.lit| && SymbolAt(c.lit, data, p, v)
    requires END_OF_BLOCK < |c.lit| && SymbolAt(c.lit, data, p + c.lit[v], END_OF_BLOCK)
    ensures BlockAt(c, data, p, [Literal(v)]) && TokensSize(c, [Literal(v)]) == c.lit[v]
    ensures BlockEnd(c, p, [Literal(v)]) == p + c.lit[v] + c.lit[END_OF_BLOCK]
  {
    hide SymbolAt;
    var ts := [Literal(v)];
    assert ts[..0] == [];
    assert TokensSize(c, []) == 0 && TokensAt(c, data, p, []);
    assert TokenAt(c, data, p, ts[0]);
  }

  lemma ShortSymbols()
    ensures SymbolAt(FixedLit(), SHORT_STREAM, 3, 97) && SymbolAt(FixedLit(), SHORT_STREAM, 11, END_OF_BLOCK)
  {
    FixedCodeTable(97);
    FixedCodeTable(END_OF_BLOCK);
    ShortLetter();
    ShortZeros(7);
    assert FixedLit()[97] == 8 && FixedLit()[END_OF_BLOCK] == 7;
    hide FixedLit, Code, CodeAt;
  }

  /** Reading the block, all four bytes of the first refill are enough, so nothing is noticed. */
  lemma ShortRefill()
    ensures OfFlags(0, Refill(0, false)) == Refill(4, false)
    ensures OfBlock(FixedCodes(), 2, 3, Refill(4, false), LETTER_A) == Some(Refill(4, false))
  {
    ShortBlock();
    assert FixedLit()[97] == 8 && FixedLit()[END_OF_BLOCK] == 7;
    hide FixedLit, FixedDist, BlockAt;
    assert LETTER_A[..0] == [];
    assert OfTokens(FixedCodes(), 2, 3, Refill(4, false), LETTER_A) == Some(Refill(4, false));
  }

  lemma ShortReading()
    ensures BlocksAt(SHORT_STREAM, 0, [Fixed(LETTER_A)], 18, true)
    ensures Reading(SHORT_STREAM, 0, Refill(0, false), [Fixed(LETTER_A)]) == Some(Reached(18, Refill(4, false), true))
  {
    ShortBlock();
    ShortRefill();
    ShortFlags();
    hide BlockAt, BlockEnd, FixedCodes, OfBlock, OfFlags, BitsAt;
    var b := Fixed(LETTER_A);
    assert [b][..0] == [];
    assert OneBlockAt(SHORT_STREAM, 0, b, true);
    assert BlocksAt(SHORT_STREAM, 0, [], 0, false);
  }

  lemma ShortFlags()
    ensures BitsAt(SHORT_STREAM, 0, 1) == 1 && BitsAt(SHORT_STREAM, 1, 2) == 1
  {
    ShortBit(0);
    ShortBit(1);
    ShortBit(2);
    assert BitsAt(SHORT_STREAM, 2, 1) == 0;
  }

  /** The short stream is accepted as the letter a, and is a complete encoding of nothing. */
  lemma ShortStreamAccepted(out: seq<byte>)
    ensures Accepted(SHORT_STREAM, false, [97]) && DecodesTo(SHORT_STREAM, false, [97])
    ensures !CompleteEncoding(SHORT_STREAM, false, out)
  {
    ShortReading();
    hide BlocksAt, Reading;
    var bs := [Fixed(LETTER_A)];
    assert bs[..0] == [];
    LiteralsExpand([97]);
    assert LiteralTokens([97]) == LETTER_A;
    assert ExpandBlocks([], bs) == Some([97]);
    assert StreamStart(false) == 0 && StartRefill(false) == Refill(0, false);
    assert Reading(SHORT_STREAM, StreamStart(false), StartRefill(false), bs).Some?;
    AcceptedIsDecoding(SHORT_STREAM, false, [97]);
    if CompleteEncoding(SHORT_STREAM, false, out) {
      var ds, p: nat :| BlocksAt(SHORT_STREAM, StreamStart(false), ds, p, true) && p <= 8 * |SHORT_STREAM|;
      StreamUnique(SHORT_STREAM, 0, bs, 18, ds, p);
      assert false;
    }
  }

  /** The decoder returns the letter, into a buffer of any size. */
  method DecodeShortStream(initialSize: nat) returns (r: Option<seq<byte>>)
    requires 0 < initialSize <= UINT_MAX
    ensures r == Some([97])
  {
    ShortStreamAccepted([]);
    hide Accepted;
    r := DecodeMalloc(SHORT_STREAM, initialSize, false);
  }

  // A stream without its last nineteen bits

  /** The letter a in a stored block, and the first five bits of a block that repeats it 115 times. */
  const CUT_STREAM: seq<byte> := [0x00, 0x01, 0x00, 0xFE, 0xFF, 0x61, 0x1B]

  const REPETITION: Token := Copy(280, 0, 0, 0)

  function Letters(n: nat): (s: seq<byte>)
    ensures |s| == n
  {
    seq(n, i => 97)
  }

  lemma {:induction false} LetterRun(n: nat)
    ensures CopyRun(Letters(1), 1, n) == Letters(n + 1)
  {
    if n == 0 {
      assert Letters(1) == Letters(0 + 1);
    } else {
      LetterRun(n - 1);
      assert Letters(n) + [97] == Letters(n + 1);
    }
  }

  lemma CutStored()
    ensures OneBlockAt(CUT_STREAM, 0, Stored([97]), false) && BodyEnd(CUT_STREAM, 3, Stored([97])) == 48
  {
    CutFields();
    ZeroByte(CUT_STREAM);
    hide BitsAt;
    assert CUT_STREAM[5..6] == [97];
  }

  lemma CutFields()
    ensures BitsAt(CUT_STREAM, 8, 16) == 1 && BitsAt(CUT_STREAM, 24, 16) == 0xFFFE
  {
    assert CUT_STREAM[1] == 1 && CUT_STREAM[2] == 0 && CUT_STREAM[3] == 0xFE && CUT_STREAM[4] == 0xFF;
    hide BitsAt;
    ByteFields(CUT_STREAM);
  }

  lemma ByteFields(data: seq<byte>)
    requires 4 < |data|
    ensures BitsAt(data, 8, 16) == Word(data[1], data[2]) && BitsAt(data, 24, 16) == Word(data[3], data[4])
  {
    ByteBits(data, 1);
    ByteBits(data, 2);
    ByteBits(data, 3);
    ByteBits(data, 4);
    hide BitsAt;
    TwoBytes(data, 8);
    TwoBytes(data, 24);
  }

  lemma ZeroByte(data: seq<byte>)
    requires data != [] && data[0] == 0
    ensures BitsAt(data, 0, 1) == 0 && BitsAt(data, 1, 2) == 0
  {
    assert Shr(0, 1) == 0 && Shr(0, 2) == 0;
    assert StreamBit(data, 0) == 0 && StreamBit(data, 1) == 0 && StreamBit(data, 2) == 0;
    assert BitsAt(data, 2, 1) == 0;
  }

  lemma CutByte(k: nat)
    requires k < 8
    ensures StreamBit(CUT_STREAM, 48 + k) == [1, 1, 0, 1, 1, 0, 0, 0][k]
    decreases k
  {
    CutShifts(k);
  }

  lemma CutShifts(k: nat)
    requires k < 8
    ensures Shr(0x1B, k) == [27, 13, 6, 3, 1, 0, 0, 0][k]
    decreases k
  {
    if k > 0 {
      CutShifts(k - 1);
      ShrShr(0x1B, k - 1, 1);
    }
  }

  lemma CutFlags()
    ensures BitsAt(CUT_STREAM, 48, 1) == 1 && BitsAt(CUT_STREAM, 49, 2) == 1
  {
    CutByte(0);
    CutByte(1);
    CutByte(2);
    assert BitsAt(CUT_STREAM, 50, 1) == 0;
  }

  lemma CutCode()
    ensures CodeAt(CUT_STREAM, 51, 5) == 24
  {
    hide CodeAt, StreamBit;
    CutByte(3);
    NextCode(CUT_STREAM, 51, 0);
    CutByte(4);
    NextCode(CUT_STREAM, 51, 1);
    CutByte(5);
    NextCode(CUT_STREAM, 51, 2);
    CutByte(6);
    NextCode(CUT_STREAM, 51, 3);
    CutByte(7);
    NextCode(CUT_STREAM, 51, 4);
  }

  lemma CutBlock()
    ensures BlockAt(FixedCodes(), CUT_STREAM, 51, [REPETITION]) && TokensSize(FixedCodes(), [REPETITION]) == 17
    ensures BlockEnd(FixedCodes(), 51, [REPETITION]) == 75
  {
    CutSymbols();
    assert FixedLit()[280] == 8 && FixedLit()[END_OF_BLOCK] == 7 && FixedDist()[0] == 5;
    assert LengthExtra(23) == 4;
    hide FixedLit, FixedDist, SymbolAt, BlockAt, BitsAt, LengthExtra, TokensSize;
    OneCopy(FixedCodes(), CUT_STREAM, 51, 280, 0);
  }

  lemma CutSymbols()
    ensures SymbolAt(FixedLit(), CUT_STREAM, 51, 280) && BitsAt(CUT_STREAM, 59, 4) == 0
    ensures SymbolAt(FixedDist(), CUT_STREAM, 63, 0) && SymbolAt(FixedLit(), CUT_STREAM, 68, END_OF_BLOCK)
  {
    BitsPastEnd(CUT_STREAM, 59, 4);
    assert FixedLit()[280] == 8 && FixedLit()[END_OF_BLOCK] == 7 && FixedDist()[0] == 5;
    hide FixedLit, FixedDist, CodeAt, Code, BitsAt;
    CutLength();
    CodePastEnd(CUT_STREAM, 63, 5);
    CodePastEnd(CUT_STREAM, 68, 7);
    FixedCodeTable(280);
    FixedCodeTable(END_OF_BLOCK);
    FixedDistTable(0);
  }

  lemma CutLength()
    ensures CodeAt(CUT_STREAM, 51, 8) == 192
  {
    CutCode();
    hide CodeAt;
    CodeTail(CUT_STREAM, 51, 8, 5);
    ShlShort(24, 3);
  }

  lemma CutRefill()
    ensures OfFlags(0, Refill(0, false)) == Refill(4, false) && OfFlags(48, Refill(6, false)) == Refill(10, false)
    ensures OfBlock(FixedCodes(), 7, 51, Refill(10, false), [REPETITION]) == Some(Refill(12, true))
  {
    CutBlock();
    assert FixedLit()[280] == 8 && FixedLit()[END_OF_BLOCK] == 7;
    hide FixedLit, FixedDist, BlockAt;
    assert [REPETITION][..0] == [];
    assert OfTokens(FixedCodes(), 7, 51, Refill(10, false), []) == Some(Refill(10, false));
    assert OfToken(FixedCodes(), 7, 51, Refill(10, false), REPETITION) == Some(Refill(10, false));
  }

  lemma CutReading()
    ensures Reading(CUT_STREAM, 0, Refill(0, false), [Stored([97]), Fixed([REPETITION])]) == Some(Reached(75, Refill(12, true), true))
  {
    hide Advance, Reading;
    CutFirst();
    CutSecond();
    TwoRead(CUT_STREAM, Reached(0, Refill(0, false), false), Stored([97]), Reached(48, Refill(6, false), false), Fixed([REPETITION]),
            Reached(75, Refill(12, true), true));
  }

  lemma TwoRead(data: seq<byte>, r: Reached, a: Block, s: Reached, b: Block, t: Reached)
    requires !r.final && !s.final && Advance(data, r, a) == Some(s) && Advance(data, s, b) == Some(t)
    ensures Reading(data, r.p, r.r, [a, b]) == Some(t)
  {
    hide Advance;
    var bs := [a, b];
    assert bs[..|bs| - 1] == [a] && [a][..0] == [];
    assert Reading(data, r.p, r.r, []) == Some(r);
    assert Reading(data, r.p, r.r, [a]) == Some(s);
  }

  lemma CutFirst()
    ensures Advance(CUT_STREAM, Reached(0, Refill(0, false), false), Stored([97])) == Some(Reached(48, Refill(6, false), false))
  {
    CutStored();
    CutRefill();
    hide BodyAt, BitsAt, OfFlags;
  }

  lemma CutSecond()
    ensures Advance(CUT_STREAM, Reached(48, Refill(6, false), false), Fixed([REPETITION])) == Some(Reached(75, Refill(12, true), true))
  {
    CutFlags();
    CutBlock();
    CutRefill();
    hide BlockAt, BlockEnd, FixedCodes, OfBlock, OfFlags, BitsAt;
  }

  lemma AcceptedFrom(data: seq<byte>, bs: seq<Block>, s: Reached, out: seq<byte>)
    requires Reading(data, 0, Refill(0, false), bs) == Some(s) && s.final && ExpandBlocks([], bs) == Some(out)
    ensures Accepted(data, false, out) && BlocksAt(data, 0, bs, s.p, true)
  {
    hide Reading, BlocksAt, ExpandBlocks;
    ReadingIsBlocks(data, 0, Refill(0, false), bs);
    assert StreamStart(false) == 0 && StartRefill(false) == Refill(0, false);
    assert Reading(data, StreamStart(false), StartRefill(false), bs).Some?;
  }

  /** The stream is accepted although the last nineteen bits of its encoding are missing. */
  lemma CutStreamAccepted()
    ensures Accepted(CUT_STREAM, false, Letters(116))
    ensures BlocksAt(CUT_STREAM, 0, [Stored([97]), Fixed([REPETITION])], 8 * |CUT_STREAM| + 19, true)
  {
    CutReading();
    hide BlocksAt, Reading, Letters, Accepted, ExpandBlocks;
    CutOutput(Stored([97]), Fixed([REPETITION]));
    AcceptedFrom(CUT_STREAM, [Stored([97]), Fixed([REPETITION])], Reached(75, Refill(12, true), true), Letters(116));
  }

  lemma CutOutput(a: Block, b: Block)
    requires a == Stored([97]) && b == Fixed([REPETITION])
    ensures ExpandBlocks([], [a, b]) == Some(Letters(116))
  {
    assert Letters(1) == [97];
    LetterCopy();
    hide Letters, ExpandBlocks, Expand, CanApply, Apply;
    TwoBlocks(a, b, Letters(1));
    OneToken(Letters(1), REPETITION);
  }

  lemma LetterCopy()
    ensures CanApply(1, REPETITION) && Apply(Letters(1), REPETITION) == Letters(116)
  {
    hide CopyRun, Letters, CopyDist, CopyLength;
    RepetitionRun();
    LetterRun(115);
  }

  lemma TwoBlocks(a: Block, b: Block, out: seq<byte>)
    requires a == Stored(out)
    ensures ExpandBlocks([], [a, b]) == ExpandBlock(out, b)
  {
    hide Expand;
    var bs := [a, b];
    assert bs[..|bs| - 1] == [a] && [a][..0] == [];
    assert ExpandBlocks([], []) == Some([]);
    assert [] + out == out;
    assert ExpandBlocks([], [a]) == Some(out);
  }

  lemma OneToken(out: seq<byte>, t: Token)
    requires CanApply(|out|, t)
    ensures Expand(out, [t]) == Some(Apply(out, t))
  {
    hide CanApply, Apply;
    assert [t][..0] == [] && Expand(out, []) == Some(out);
  }

  lemma RepetitionRun()
    ensures CanApply(1, REPETITION) && CopyDist(REPETITION) == 1 && CopyLength(REPETITION) == 115
  {
    LengthTable(23);
    DistTable(0);
    assert LengthBases()[23] == 115 && DistBases()[0] == 1;
  }
}
