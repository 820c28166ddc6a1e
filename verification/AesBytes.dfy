/**
 The cipher and its key schedule written once more, byte by byte from FIPS 197 (sections 5.1 and 5.2)
 and NIST SP 800-38A (section 6.2): byte 4 * c + r of a block is the byte in row r and column c. The
 cipher on words computes the same.
 */
module AesBytes {
  import opened GaloisField
  import opened AesTables
  import opened AesCipher
  import opened AesState
  import opened AesCbc

  function ByteOf(w: Word, r: nat): octet
    requires r < 4
  {
    if r == 0 then Byte0(w) else if r == 1 then Byte1(w) else if r == 2 then Byte2(w) else Byte3(w)
  }

  function WordOf(s: State, c: nat): Word
    requires c < 4
  {
    if c == 0 then s.w0 else if c == 1 then s.w1 else if c == 2 then s.w2 else s.w3
  }

  function Cell(s: State, r: nat, c: nat): octet
    requires r < 4 && c < 4
  {
    ByteOf(WordOf(s, c), r)
  }

  /** The byte in row r and column c, both counted modulo four. */
  function At(b: Block16, r: nat, c: nat): octet {
    b[4 * (c % 4) + r % 4]
  }

  // One round

  /** A byte after the substitution and the rotation of its row. */
  function Substituted(b: Block16, r: nat, c: nat): octet {
    Sbox(At(b, r, c + r % 4))
  }

  /** A row of the matrix times a column: 2, 3, 1, 1 from the byte itself downwards. */
  function Mixed(b: Block16, r: nat, c: nat): octet {
    Add(Add(MulFrom(Substituted(b, r, c), 2, 0), MulFrom(Substituted(b, r + 1, c), 3, 0)),
        Add(Substituted(b, r + 2, c), Substituted(b, r + 3, c)))
  }

  function RoundBytes(b: Block16, k: Block16): Block16 {
    Xor(seq(16, i requires 0 <= i < 16 => Mixed(b, i % 4, i / 4)), k)
  }

  function LastRoundBytes(b: Block16, k: Block16): Block16 {
    Xor(seq(16, i requires 0 <= i < 16 => Substituted(b, i % 4, i / 4)), k)
  }

  /** The block after n rounds. */
  function CipherRounds(keys: seq<Block16>, b: Block16, n: nat): Block16
    requires n < |keys|
    decreases n, b
  {
    if n == 0 then Xor(b, keys[0]) else RoundBytes(CipherRounds(keys, b, n - 1), keys[n])
  }

  function Cipher(keys: seq<Block16>, b: Block16): Block16
    requires 2 <= |keys|
  {
    LastRoundBytes(CipherRounds(keys, b, |keys| - 2), keys[|keys| - 1])
  }

  lemma QuarterAt(a: seq<octet>, b: seq<octet>, c: seq<octet>, d: seq<octet>, r: nat)
    requires |a| == |b| == |c| == |d| == 4 && r < 4
    ensures var s := a + b + c + d; s[r] == a[r] && s[4 + r] == b[r] && s[8 + r] == c[r] && s[12 + r] == d[r]
  {
  }

  lemma ToBytesAt(s: State, r: nat, c: nat)
    requires r < 4 && c < 4
    ensures ToBytes(s)[4 * c + r] == Cell(s, r, c) && At(ToBytes(s), r, c) == Cell(s, r, c)
  {
    hide Byte0, Byte1, Byte2, Byte3, ByteOf, WordBytes, ToBytes;
    assert c % 4 == c && r % 4 == r;
    if c == 0 {
      QuarterOfState(s, r);
    } else if c == 1 {
      QuarterOfState(s, r);
    } else if c == 2 {
      QuarterOfState(s, r);
    } else {
      QuarterOfState(s, r);
    }
  }

  lemma QuarterOfState(s: State, r: nat)
    requires r < 4
    ensures ToBytes(s)[r] == ByteOf(s.w0, r) && ToBytes(s)[4 + r] == ByteOf(s.w1, r)
    ensures ToBytes(s)[8 + r] == ByteOf(s.w2, r) && ToBytes(s)[12 + r] == ByteOf(s.w3, r)
  {
    hide ByteOf, WordBytes;
    WordBytesAt(s.w0, r);
    WordBytesAt(s.w1, r);
    WordBytesAt(s.w2, r);
    WordBytesAt(s.w3, r);
    QuarterAt(WordBytes(s.w0), WordBytes(s.w1), WordBytes(s.w2), WordBytes(s.w3), r);
  }

  lemma WordBytesAt(w: Word, r: nat)
    requires r < 4
    ensures WordBytes(w)[r] == ByteOf(w, r)
  {
    hide Byte0, Byte1, Byte2, Byte3;
  }

  lemma XorShifted(v: Word, w: Word)
    ensures (v ^ w) >> 8 == (v >> 8) ^ (w >> 8) && (v ^ w) >> 16 == (v >> 16) ^ (w >> 16)
    ensures (v ^ w) >> 24 == (v >> 24) ^ (w >> 24)
  {
  }


  lemma XorLow(v: Word, w: Word)
    ensures Byte0(v ^ w) == Add(Byte0(v), Byte0(w))
  {
  }

  lemma XorBytes(v: Word, w: Word)
    ensures Byte0(XorWord(v, w)) == Add(Byte0(v), Byte0(w)) && Byte1(XorWord(v, w)) == Add(Byte1(v), Byte1(w))
    ensures Byte2(XorWord(v, w)) == Add(Byte2(v), Byte2(w)) && Byte3(XorWord(v, w)) == Add(Byte3(v), Byte3(w))
  {
    hide Add;
    XorShifted(v, w);
    XorLow(v, w);
    XorLow(v >> 8, w >> 8);
    XorLow(v >> 16, w >> 16);
    XorLow(v >> 24, w >> 24);
  }

  lemma AddKeyCell(s: State, k: State, r: nat, c: nat)
    requires r < 4 && c < 4
    ensures Cell(AddRoundKey(s, k), r, c) == Add(Cell(s, r, c), Cell(k, r, c))
  {
    hide XorWord, Byte0, Byte1, Byte2, Byte3, Add;
    XorBytes(WordOf(s, c), WordOf(k, c));
  }

  lemma AddKeyBytes(s: State, k: State)
    ensures ToBytes(AddRoundKey(s, k)) == Xor(ToBytes(s), ToBytes(k))
  {
    hide AddRoundKey, ToBytes, Cell, Add;
    forall i | 0 <= i < 16
      ensures ToBytes(AddRoundKey(s, k))[i] == Xor(ToBytes(s), ToBytes(k))[i]
    {
      var r, c := i % 4, i / 4;
      ToBytesAt(s, r, c);
      ToBytesAt(k, r, c);
      ToBytesAt(AddRoundKey(s, k), r, c);
      AddKeyCell(s, k, r, c);
    }
  }

  lemma ColumnBytes(a: Word, b: Word, c: Word, d: Word, r: nat)
    requires r < 4
    ensures ByteOf(Column(a, b, c, d), r) == ByteOf(if r == 0 then a else if r == 1 then b else if r == 2 then c else d, r)
  {
    hide Byte0, Byte1, Byte2, Byte3, Pack;
  }

  lemma SubWordBytes(w: Word, r: nat)
    requires r < 4
    ensures ByteOf(SubWord(w), r) == Sbox(ByteOf(w, r))
  {
    hide Byte0, Byte1, Byte2, Byte3, Pack, Sbox;
  }

  /** c, i, j and k are successive columns. */
  predicate Successive(c: nat, i: nat, j: nat, k: nat) {
    || (c == 0 && i == 1 && j == 2 && k == 3) || (c == 1 && i == 2 && j == 3 && k == 0)
    || (c == 2 && i == 3 && j == 0 && k == 1) || (c == 3 && i == 0 && j == 1 && k == 2)
  }

  lemma NextColumns(c: nat)
    requires c < 4
    ensures Successive(c, (c + 1) % 4, (c + 2) % 4, (c + 3) % 4)
  {
  }

  lemma ShiftedColumns(s: State)
    ensures var t := ShiftRows(s);
      && WordOf(t, 0) == Column(WordOf(s, 0), WordOf(s, 1), WordOf(s, 2), WordOf(s, 3))
      && WordOf(t, 1) == Column(WordOf(s, 1), WordOf(s, 2), WordOf(s, 3), WordOf(s, 0))
      && WordOf(t, 2) == Column(WordOf(s, 2), WordOf(s, 3), WordOf(s, 0), WordOf(s, 1))
      && WordOf(t, 3) == Column(WordOf(s, 3), WordOf(s, 0), WordOf(s, 1), WordOf(s, 2))
  {
    hide Column;
  }

  lemma ShiftedColumn(s: State, c: nat, i: nat, j: nat, k: nat)
    requires Successive(c, i, j, k)
    ensures WordOf(ShiftRows(s), c) == Column(WordOf(s, c), WordOf(s, i), WordOf(s, j), WordOf(s, k))
  {
    hide Column, WordOf, ShiftRows;
    ShiftedColumns(s);
  }

  lemma ShiftedWord(s: State, r: nat, c: nat)
    requires r < 4 && c < 4
    ensures ByteOf(WordOf(ShiftRows(s), c), r) == ByteOf(WordOf(s, (c + r) % 4), r)
  {
    hide ByteOf, Column, ShiftRows, WordOf;
    var i, j, k := (c + 1) % 4, (c + 2) % 4, (c + 3) % 4;
    NextColumns(c);
    ShiftedColumn(s, c, i, j, k);
    ColumnBytes(WordOf(s, c), WordOf(s, i), WordOf(s, j), WordOf(s, k), r);
    assert c % 4 == c;
    if r == 0 {} else if r == 1 {} else if r == 2 {} else {}
  }

  /** The substitution acts on every byte by itself, and row r moves r columns to the left. */
  lemma ShiftedCell(s: State, r: nat, c: nat)
    requires r < 4 && c < 4
    ensures Cell(ShiftRows(SubBytes(s)), r, c) == Sbox(Cell(s, r, (c + r) % 4))
  {
    hide ByteOf, Sbox, ShiftRows, SubWord;
    ShiftedWord(SubBytes(s), r, c);
    SubWordBytes(WordOf(s, (c + r) % 4), r);
  }

  lemma LastRoundAt(s: State, k: State)
    ensures ToBytes(AddRoundKey(ShiftRows(SubBytes(s)), k)) == LastRoundBytes(ToBytes(s), ToBytes(k))
  {
    hide AddRoundKey, ToBytes, Cell, Add, ShiftRows, SubBytes, Sbox, At, Xor;
    var t := ShiftRows(SubBytes(s));
    AddKeyBytes(t, k);
    forall i | 0 <= i < 16
      ensures ToBytes(t)[i] == Substituted(ToBytes(s), i % 4, i / 4)
    {
      var r, c := i % 4, i / 4;
      ToBytesAt(t, r, c);
      SubstitutedCell(s, r, c);
    }
    assert ToBytes(t) == seq(16, i requires 0 <= i < 16 => Substituted(ToBytes(s), i % 4, i / 4));
  }

  lemma SubstitutedCell(s: State, r: nat, c: nat)
    requires c < 4
    ensures Substituted(ToBytes(s), r, c) == Cell(ShiftRows(SubBytes(s)), r % 4, c)
  {
    hide ToBytes, Cell, ShiftRows, SubBytes, Sbox;
    ToBytesAt(s, r % 4, (c + r % 4) % 4);
    ShiftedCell(s, r % 4, c);
  }

  lemma MulSmall(b: octet)
    ensures MulFrom(b, 2, 0) == Mul2(b) && MulFrom(b, 3, 0) == Add(Mul2(b), b)
  {
    hide Mul2, Add;
    AddLaws(b, Mul2(b), 0);
    AddLaws(Mul2(b), 0, 0);
    AddLaws(0, 0, 0);
    HighBits(2);
    HighBits(3);
    NoHighBits(Mul2(Mul2(b)), 2, 2);
    NoHighBits(Mul2(Mul2(b)), 3, 2);
  }

  lemma HighBits(m: octet)
    requires m == 2 || m == 3
    ensures forall i :: 2 <= i < 8 ==> !BitSet(m, i)
    ensures BitSet(m, 1) && (BitSet(m, 0) <==> m == 3)
  {
  }

  lemma {:induction false} NoHighBits(t: octet, m: octet, from: nat)
    requires from <= 8 && forall i :: from <= i < 8 ==> !BitSet(m, i)
    ensures MulFrom(t, m, from) == 0
    decreases 8 - from
  {
    hide BitSet, Mul2, Add;
    AddLaws(0, 0, 0);
    if from < 8 {
      NoHighBits(Mul2(t), m, from + 1);
    }
  }

  lemma MixWordBytes(w: Word, r: nat)
    requires r < 4
    ensures ByteOf(MixWord(w), r) ==
            Mix(ByteOf(w, r), ByteOf(w, (r + 1) % 4), ByteOf(w, (r + 2) % 4), ByteOf(w, (r + 3) % 4))
  {
    hide Byte0, Byte1, Byte2, Byte3, Mix, Pack;
    if r == 0 {} else if r == 1 {} else if r == 2 {} else {}
  }

  lemma MixIsMixed(a: octet, b: octet, c: octet, d: octet)
    ensures Mix(a, b, c, d) == Add(Add(MulFrom(a, 2, 0), MulFrom(b, 3, 0)), Add(c, d))
  {
    hide Add, Mul2;
    MulSmall(a);
    MulSmall(b);
    hide MulFrom;
    AddLaws(Mul2(a), Times3(b), c);
    AddLaws(Add(Mul2(a), Times3(b)), c, d);
  }

  lemma MixedCell(s: State, r: nat, c: nat)
    requires r < 4 && c < 4
    ensures Cell(MixColumns(ShiftRows(SubBytes(s))), r, c) == Mixed(ToBytes(s), r, c)
  {
    hide ByteOf, Mix, MixWord, ShiftRows, SubBytes, Substituted, ToBytes, Add, MulFrom;
    var t := ShiftRows(SubBytes(s));
    MixWordBytes(WordOf(t, c), r);
    assert r % 4 == r;
    SubstitutedCell(s, r, c);
    SubstitutedCell(s, r + 1, c);
    SubstitutedCell(s, r + 2, c);
    SubstitutedCell(s, r + 3, c);
    MixIsMixed(Cell(t, r, c), Cell(t, (r + 1) % 4, c), Cell(t, (r + 2) % 4, c), Cell(t, (r + 3) % 4, c));
  }

  lemma RoundAt(s: State, k: State)
    ensures ToBytes(Round(s, k)) == RoundBytes(ToBytes(s), ToBytes(k))
  {
    hide AddRoundKey, ToBytes, Cell, Add, ShiftRows, SubBytes, MixColumns, Mixed, At, Xor;
    var t := MixColumns(ShiftRows(SubBytes(s)));
    AddKeyBytes(t, k);
    forall i | 0 <= i < 16
      ensures ToBytes(t)[i] == Mixed(ToBytes(s), i % 4, i / 4)
    {
      var r, c := i % 4, i / 4;
      ToBytesAt(t, r, c);
      MixedCell(s, r, c);
    }
    assert ToBytes(t) == seq(16, i requires 0 <= i < 16 => Mixed(ToBytes(s), i % 4, i / 4));
  }

  // The whole cipher

  function KeyBlocks(keys: seq<State>): (ks: seq<Block16>)
    ensures |ks| == |keys|
  {
    seq(|keys|, i requires 0 <= i < |keys| => ToBytes(keys[i]))
  }

  lemma {:induction false} RoundsAt(keys: seq<State>, s: State, n: nat)
    requires n < |keys|
    ensures ToBytes(Rounds(keys, AddRoundKey(s, keys[0]), n)) == CipherRounds(KeyBlocks(keys), ToBytes(s), n)
    decreases n
  {
    hide AddRoundKey, ToBytes, Round, RoundBytes, Xor;
    if n == 0 {
      AddKeyBytes(s, keys[0]);
    } else {
      RoundsAt(keys, s, n - 1);
      RoundAt(Rounds(keys, AddRoundKey(s, keys[0]), n - 1), keys[n]);
    }
  }

  /** Encryption of a block on words is the cipher on bytes. */
  lemma EncryptIsCipher(keys: seq<State>, b: Block16)
    requires 2 <= |keys|
    ensures EncryptBlock(keys, b) == Cipher(KeyBlocks(keys), b)
  {
    hide AddRoundKey, ToBytes, FromBytes, Rounds, CipherRounds, LastRoundBytes, ShiftRows, SubBytes;
    var s := FromBytes(b);
    StateOfBytes(b);
    RoundsAt(keys, s, |keys| - 2);
    LastRoundAt(Rounds(keys, AddRoundKey(s, keys[0]), |keys| - 2), keys[|keys| - 1]);
  }

  // The key schedule

  /** x^n */
  function XPower(n: nat): octet {
    if n == 0 then 1 else MulFrom(XPower(n - 1), 2, 0)
  }

  lemma NextPower(n: nat)
    ensures XPower(n + 1) == Mul2(XPower(n))
  {
    hide Mul2;
    MulSmall(XPower(n));
    hide MulFrom;
  }

  lemma RconDoubles(i: nat)
    requires 1 <= i < 10
    ensures Byte0(Rcon(i + 1)) == Mul2(Byte0(Rcon(i)))
  {
    if {
      case i == 1 => case i == 2 => case i == 3 => case i == 4 => case i == 5 =>
      case i == 6 => case i == 7 => case i == 8 => case i == 9 =>
    }
  }

  lemma RconHigh(i: nat)
    requires i <= 10
    ensures Byte1(Rcon(i)) == Byte2(Rcon(i)) == Byte3(Rcon(i)) == 0
  {
    SmallBytes(Rcon(i));
  }

  lemma SmallBytes(w: Word)
    requires w <= 0xFF
    ensures Byte1(w) == Byte2(w) == Byte3(w) == 0
  {
  }

  /** The constants of the key schedule are the powers of x. */
  lemma {:induction false} RconPowers(i: nat)
    requires 1 <= i <= 10
    ensures Byte0(Rcon(i)) == XPower(i - 1) && Byte1(Rcon(i)) == Byte2(Rcon(i)) == Byte3(Rcon(i)) == 0
  {
    RconHigh(i);
    if i > 1 {
      RconPowers(i - 1);
      RconDoubles(i - 1);
      NextPower(i - 2);
      hide XPower, Byte0, Byte1, Byte2, Byte3, Rcon;
    }
  }

  /**
   What is added to the byte in row r of word i - nk to make that of word i, from the word before:
   word i is number k of the m-th stretch of nk words.
   */
  function Feed(previous: Word, nk: nat, m: nat, k: nat, r: nat): octet
    requires 1 <= m && r < 4
  {
    if k == 0 then Add(Sbox(ByteOf(previous, (r + 1) % 4)), if r == 0 then XPower(m - 1) else 0)
    else if nk == 8 && k == 4 then Sbox(ByteOf(previous, r))
    else ByteOf(previous, r)
  }

  lemma RotWordRow(w: Word, r: nat)
    requires r < 4
    ensures ByteOf(RotWord(w), r) == ByteOf(w, (r + 1) % 4)
  {
    hide RotWord, Byte0, Byte1, Byte2, Byte3, Pack;
    RotWordBytes(w);
    if r == 0 {} else if r == 1 {} else if r == 2 {} else {}
  }

  lemma XorRow(v: Word, w: Word, r: nat)
    requires r < 4
    ensures ByteOf(XorWord(v, w), r) == Add(ByteOf(v, r), ByteOf(w, r))
  {
    hide XorWord, Byte0, Byte1, Byte2, Byte3, Add;
    XorBytes(v, w);
  }

  lemma TempBytes(t: Word, i: nat, nk: nat, r: nat)
    requires nk in {4, 6, 8} && 1 <= i / nk <= 10 && r < 4
    ensures ByteOf(Temp(t, i, nk), r) == Feed(t, nk, i / nk, i % nk, r)
  {
    hide ByteOf, RotWord, SubWord, XorWord, Add, Sbox, XPower, Rcon;
    RotWordRow(t, r);
    SubWordBytes(RotWord(t), r);
    SubWordBytes(t, r);
    XorRow(SubWord(RotWord(t)), Rcon(i / nk), r);
    RconRow(i / nk, r);
  }

  lemma RconRow(i: nat, r: nat)
    requires 1 <= i <= 10 && r < 4
    ensures ByteOf(Rcon(i), r) == if r == 0 then XPower(i - 1) else 0
  {
    hide XPower, Byte0, Byte1, Byte2, Byte3, Rcon;
    RconPowers(i);
  }

  lemma KeyWordBytes(key: seq<octet>, i: nat, r: nat)
    requires 4 * i + 4 <= |key| && r < 4
    ensures ByteOf(KeyWord(key, i), r) == key[4 * i + r]
  {
    hide Pack, Byte0, Byte1, Byte2, Byte3;
    if r == 0 {} else if r == 1 {} else if r == 2 {} else {}
  }

  /** The schedule begins with the bytes of the key, and each later byte follows from two earlier words. */
  lemma ScheduleBytes(key: seq<octet>, n: nat, i: nat, r: nat)
    requires ValidKeySize(|key|) && i < n <= 4 * (RoundCount(|key|) + 1) && r < 4
    ensures var w := Schedule(key, n); var nk := |key| / 4;
      if i < nk then ByteOf(w[i], r) == key[4 * i + r]
      else i / nk >= 1 && ByteOf(w[i], r) == Add(ByteOf(w[i - nk], r), Feed(w[i - 1], nk, i / nk, i % nk, r))
  {
    hide Temp, XorWord, KeyWord, Schedule, Feed, ByteOf, Add;
    var w, nk := Schedule(key, n), |key| / 4;
    ScheduleRecurrence(key, n, i);
    if i < nk {
      KeyWordBytes(key, i, r);
    } else {
      TempBytes(w[i - 1], i, nk, r);
      XorRow(Temp(w[i - 1], i, nk), w[i - nk], r);
      AddLaws(ByteOf(Temp(w[i - 1], i, nk), r), ByteOf(w[i - nk], r), 0);
    }
  }

  lemma RoundKeyWord(key: seq<octet>, j: nat, c: nat)
    requires ValidKeySize(|key|) && j <= RoundCount(|key|) && c < 4
    ensures WordOf(RoundKeysOf(key)[j], c) == Schedule(key, 4 * (RoundCount(|key|) + 1))[4 * j + c]
  {
    hide Schedule, RoundCount;
  }

  /** The round keys are the words of the schedule, four by four. */
  lemma RoundKeyBytes(key: seq<octet>, j: nat, m: nat)
    requires ValidKeySize(|key|) && j <= RoundCount(|key|) && m < 16
    ensures RoundCount(|key|) == |key| / 4 + 6
    ensures var w := Schedule(key, 4 * (RoundCount(|key|) + 1));
      KeyBlocks(RoundKeysOf(key))[j][m] == ByteOf(w[4 * j + m / 4], m % 4)
  {
    hide Schedule, ByteOf, ToBytes, RoundKeysOf, WordOf;
    RoundKeyWord(key, j, m / 4);
    ToBytesAt(RoundKeysOf(key)[j], m % 4, m / 4);
  }

  // Chaining

  function BlockAt(s: seq<octet>, i: nat): Block16
    requires 16 * i + 16 <= |s|
  {
    s[16 * i..16 * i + 16]
  }

  lemma FrontBlock(c: seq<octet>, x: seq<octet>, i: nat)
    requires 16 * i + 16 <= |c|
    ensures BlockAt(c + x, i) == BlockAt(c, i)
  {
  }

  lemma EndBlock(c: seq<octet>, x: Block16, i: nat)
    requires |c| == 16 * i
    ensures BlockAt(c + x, i) == x
  {
  }

  lemma ChainedLast(keys: seq<State>, iv: Block16, p: seq<octet>, b: Block16, i: nat)
    requires 2 <= |keys| && |p| == 16 * i
    ensures Whole(p) && Whole(p + b)
    ensures var c := CbcEncrypt(keys, iv, p + b);
      BlockAt(c, i) == Cipher(KeyBlocks(keys), Xor(b, if i == 0 then iv else BlockAt(c, i - 1)))
  {
    hide EncryptBlock, Cipher, Xor, BlockAt, Previous, CbcEncrypt;
    var c := CbcEncrypt(keys, iv, p);
    var x := EncryptBlock(keys, Xor(b, Previous(iv, c)));
    CbcNext(keys, iv, p, b);
    EndBlock(c, x, i);
    PreviousBlock(iv, c, i);
    EncryptIsCipher(keys, Xor(b, Previous(iv, c)));
    if i > 0 {
      FrontBlock(c, x, i - 1);
    }
  }

  /** Each block is the cipher applied to the sum of the data and the block before. */
  lemma {:induction false} ChainedBlock(keys: seq<State>, iv: Block16, p: seq<octet>, i: nat)
    requires 2 <= |keys| && Whole(p) && 16 * i + 16 <= |p|
    ensures var c := CbcEncrypt(keys, iv, p);
      BlockAt(c, i) == Cipher(KeyBlocks(keys), Xor(BlockAt(p, i), if i == 0 then iv else BlockAt(c, i - 1)))
    decreases |p|
  {
    hide EncryptBlock, Cipher, Xor, BlockAt, Previous, CbcEncrypt;
    var front, last := p[..|p| - 16], LastBlock(p);
    assert p == front + last;
    if 16 * i < |front| {
      var c := CbcEncrypt(keys, iv, front);
      var x := EncryptBlock(keys, Xor(last, Previous(iv, c)));
      CbcNext(keys, iv, front, last);
      ChainedBlock(keys, iv, front, i);
      FrontBlock(c, x, i);
      FrontBlock(front, last, i);
      if i > 0 {
        FrontBlock(c, x, i - 1);
      }
    } else {
      ChainedLast(keys, iv, front, last, i);
      EndBlock(front, last, i);
    }
  }

  lemma PreviousBlock(iv: Block16, c: seq<octet>, i: nat)
    requires |c| == 16 * i
    ensures Previous(iv, c) == if i == 0 then iv else BlockAt(c, i - 1)
  {
  }
}
