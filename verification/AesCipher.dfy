/**
 The AES block cipher and its inverse (sections 5.1 and 5.3 of FIPS 197) on states of four
 words, one for each column, the first byte of a column in the low bits of its word.
 */
module AesCipher {
  import opened GaloisField
  import opened AesTables

  type Word = bv32

  datatype State = State(w0: Word, w1: Word, w2: Word, w3: Word)

  // Words as four bytes

  function Byte0(w: Word): octet { (w & 0xFF) as octet }
  function Byte1(w: Word): octet { ((w >> 8) & 0xFF) as octet }
  function Byte2(w: Word): octet { ((w >> 16) & 0xFF) as octet }
  function Byte3(w: Word): octet { ((w >> 24) & 0xFF) as octet }

  function Pack(b0: octet, b1: octet, b2: octet, b3: octet): (w: Word)
    ensures Byte0(w) == b0 && Byte1(w) == b1 && Byte2(w) == b2 && Byte3(w) == b3
  {
    (b0 as Word) | ((b1 as Word) << 8) | ((b2 as Word) << 16) | ((b3 as Word) << 24)
  }

  lemma PackBytes(w: Word)
    ensures Pack(Byte0(w), Byte1(w), Byte2(w), Byte3(w)) == w
  {
  }

  // Round steps as functions

  function SubWord(w: Word): Word {
    Pack(Sbox(Byte0(w)), Sbox(Byte1(w)), Sbox(Byte2(w)), Sbox(Byte3(w)))
  }

  function InvSubWord(w: Word): Word {
    Pack(InvSbox(Byte0(w)), InvSbox(Byte1(w)), InvSbox(Byte2(w)), InvSbox(Byte3(w)))
  }

  function SubBytes(s: State): State {
    State(SubWord(s.w0), SubWord(s.w1), SubWord(s.w2), SubWord(s.w3))
  }

  function InvSubBytes(s: State): State {
    State(InvSubWord(s.w0), InvSubWord(s.w1), InvSubWord(s.w2), InvSubWord(s.w3))
  }

  /** Byte r of the new column comes from the r-th argument. */
  function Column(a: Word, b: Word, c: Word, d: Word): Word {
    Pack(Byte0(a), Byte1(b), Byte2(c), Byte3(d))
  }

  function ShiftRows(s: State): State {
    State(Column(s.w0, s.w1, s.w2, s.w3), Column(s.w1, s.w2, s.w3, s.w0),
          Column(s.w2, s.w3, s.w0, s.w1), Column(s.w3, s.w0, s.w1, s.w2))
  }

  function InvShiftRows(s: State): State {
    State(Column(s.w0, s.w3, s.w2, s.w1), Column(s.w1, s.w0, s.w3, s.w2),
          Column(s.w2, s.w1, s.w0, s.w3), Column(s.w3, s.w2, s.w1, s.w0))
  }

  function MixWord(w: Word): Word {
    var a, b, c, d := Byte0(w), Byte1(w), Byte2(w), Byte3(w);
    Pack(Mix(a, b, c, d), Mix(b, c, d, a), Mix(c, d, a, b), Mix(d, a, b, c))
  }

  function InvMixWord(w: Word): Word {
    var a, b, c, d := Byte0(w), Byte1(w), Byte2(w), Byte3(w);
    Pack(InvMix(a, b, c, d), InvMix(b, c, d, a), InvMix(c, d, a, b), InvMix(d, a, b, c))
  }

  function MixColumns(s: State): State {
    State(MixWord(s.w0), MixWord(s.w1), MixWord(s.w2), MixWord(s.w3))
  }

  function InvMixColumns(s: State): State {
    State(InvMixWord(s.w0), InvMixWord(s.w1), InvMixWord(s.w2), InvMixWord(s.w3))
  }

  function XorWord(w: Word, k: Word): Word { w ^ k }

  function AddRoundKey(s: State, k: State): State {
    State(XorWord(s.w0, k.w0), XorWord(s.w1, k.w1), XorWord(s.w2, k.w2), XorWord(s.w3, k.w3))
  }

  // Each step has its inverse

  lemma SubWordInverse(w: Word)
    ensures InvSubWord(SubWord(w)) == w
  {
    hide Pack, Byte0, Byte1, Byte2, Byte3, Sbox, InvSbox;
    SboxInverse(Byte0(w));
    SboxInverse(Byte1(w));
    SboxInverse(Byte2(w));
    SboxInverse(Byte3(w));
    PackBytes(w);
  }

  lemma SubBytesInverse(s: State)
    ensures InvSubBytes(SubBytes(s)) == s
  {
    hide SubWord, InvSubWord;
    SubWordInverse(s.w0);
    SubWordInverse(s.w1);
    SubWordInverse(s.w2);
    SubWordInverse(s.w3);
  }

  lemma ShiftRowsInverse(s: State)
    ensures InvShiftRows(ShiftRows(s)) == s
  {
    hide Pack, Byte0, Byte1, Byte2, Byte3;
    PackBytes(s.w0);
    PackBytes(s.w1);
    PackBytes(s.w2);
    PackBytes(s.w3);
  }

  lemma MixWordInverse(w: Word)
    ensures InvMixWord(MixWord(w)) == w
  {
    hide Pack, Byte0, Byte1, Byte2, Byte3, Mix, InvMix;
    var a, b, c, d := Byte0(w), Byte1(w), Byte2(w), Byte3(w);
    MixInverse(a, b, c, d);
    MixInverse(b, c, d, a);
    MixInverse(c, d, a, b);
    MixInverse(d, a, b, c);
    PackBytes(w);
  }

  lemma MixColumnsInverse(s: State)
    ensures InvMixColumns(MixColumns(s)) == s
  {
    hide MixWord, InvMixWord;
    MixWordInverse(s.w0);
    MixWordInverse(s.w1);
    MixWordInverse(s.w2);
    MixWordInverse(s.w3);
  }

  lemma XorTwice(w: Word, k: Word)
    ensures XorWord(XorWord(w, k), k) == w
  {
  }

  lemma AddRoundKeyInverse(s: State, k: State)
    ensures AddRoundKey(AddRoundKey(s, k), k) == s
  {
    hide XorWord;
    XorTwice(s.w0, k.w0);
    XorTwice(s.w1, k.w1);
    XorTwice(s.w2, k.w2);
    XorTwice(s.w3, k.w3);
  }

  // The cipher

  function Round(s: State, k: State): State {
    AddRoundKey(MixColumns(ShiftRows(SubBytes(s))), k)
  }

  function InvRound(s: State, k: State): State {
    InvSubBytes(InvShiftRows(InvMixColumns(AddRoundKey(s, k))))
  }

  /** The state after the rounds 1 to n. */
  function Rounds(keys: seq<State>, s: State, n: nat): State
    requires n < |keys|
    decreases n, s
  {
    if n == 0 then s else Round(Rounds(keys, s, n - 1), keys[n])
  }

  /** The state after the inverse rounds n down to 1. */
  function InvRounds(keys: seq<State>, s: State, n: nat): State
    requires n < |keys|
    decreases n, s
  {
    if n == 0 then s else InvRounds(keys, InvRound(s, keys[n]), n - 1)
  }

  function Encrypt(keys: seq<State>, s: State): State
    requires 2 <= |keys|
  {
    var last := |keys| - 1;
    AddRoundKey(ShiftRows(SubBytes(Rounds(keys, AddRoundKey(s, keys[0]), last - 1))), keys[last])
  }

  function Decrypt(keys: seq<State>, s: State): State
    requires 2 <= |keys|
  {
    var last := |keys| - 1;
    AddRoundKey(InvRounds(keys, InvSubBytes(InvShiftRows(AddRoundKey(s, keys[last]))), last - 1), keys[0])
  }

  lemma RoundInverse(s: State, k: State)
    ensures InvRound(Round(s, k), k) == s
  {
    hide SubBytes, InvSubBytes, ShiftRows, InvShiftRows, MixColumns, InvMixColumns, AddRoundKey;
    AddRoundKeyInverse(MixColumns(ShiftRows(SubBytes(s))), k);
    MixColumnsInverse(ShiftRows(SubBytes(s)));
    ShiftRowsInverse(SubBytes(s));
    SubBytesInverse(s);
  }

  lemma {:induction false} RoundsInverse(keys: seq<State>, s: State, n: nat)
    requires n < |keys|
    ensures InvRounds(keys, Rounds(keys, s, n), n) == s
  {
    hide Round, InvRound;
    if n > 0 {
      RoundInverse(Rounds(keys, s, n - 1), keys[n]);
      RoundsInverse(keys, s, n - 1);
    }
  }

  /** Decryption undoes encryption, for every list of at least two round keys. */
  lemma DecryptEncrypt(keys: seq<State>, s: State)
    requires 2 <= |keys|
    ensures Decrypt(keys, Encrypt(keys, s)) == s
  {
    hide SubBytes, InvSubBytes, ShiftRows, InvShiftRows, AddRoundKey, Rounds, InvRounds;
    var last := |keys| - 1;
    var t := Rounds(keys, AddRoundKey(s, keys[0]), last - 1);
    AddRoundKeyInverse(ShiftRows(SubBytes(t)), keys[last]);
    ShiftRowsInverse(SubBytes(t));
    SubBytesInverse(t);
    RoundsInverse(keys, AddRoundKey(s, keys[0]), last - 1);
    AddRoundKeyInverse(s, keys[0]);
  }

  // Blocks of sixteen bytes

  type Block16 = b: seq<octet> | |b| == 16 witness seq(16, i => 0)

  function FromBytes(b: Block16): State {
    State(Pack(b[0], b[1], b[2], b[3]), Pack(b[4], b[5], b[6], b[7]),
          Pack(b[8], b[9], b[10], b[11]), Pack(b[12], b[13], b[14], b[15]))
  }

  function WordBytes(w: Word): (b: seq<octet>)
    ensures |b| == 4
  {
    [Byte0(w), Byte1(w), Byte2(w), Byte3(w)]
  }

  function ToBytes(s: State): Block16 {
    WordBytes(s.w0) + WordBytes(s.w1) + WordBytes(s.w2) + WordBytes(s.w3)
  }

  lemma BytesOfState(s: State)
    ensures FromBytes(ToBytes(s)) == s
  {
    hide Pack, Byte0, Byte1, Byte2, Byte3;
    PackBytes(s.w0);
    PackBytes(s.w1);
    PackBytes(s.w2);
    PackBytes(s.w3);
  }

  lemma StateOfBytes(b: Block16)
    ensures ToBytes(FromBytes(b)) == b
  {
    hide Pack, Byte0, Byte1, Byte2, Byte3;
  }

  function EncryptBlock(keys: seq<State>, b: Block16): Block16
    requires 2 <= |keys|
  {
    ToBytes(Encrypt(keys, FromBytes(b)))
  }

  function DecryptBlock(keys: seq<State>, b: Block16): Block16
    requires 2 <= |keys|
  {
    ToBytes(Decrypt(keys, FromBytes(b)))
  }

  lemma DecryptEncryptBlock(keys: seq<State>, b: Block16)
    requires 2 <= |keys|
    ensures DecryptBlock(keys, EncryptBlock(keys, b)) == b
  {
    hide FromBytes, ToBytes, Encrypt, Decrypt;
    BytesOfState(Encrypt(keys, FromBytes(b)));
    DecryptEncrypt(keys, FromBytes(b));
    StateOfBytes(b);
  }
}
