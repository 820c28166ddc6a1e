/**
 The steps of the cipher as the implementation takes them: in place on a state of four words,
 and the key expansion.
 */
module AesState {
  import opened GaloisField
  import opened AesCipher

  function StateOf(w: seq<Word>): State
    requires |w| == 4
  {
    State(w[0], w[1], w[2], w[3])
  }

  method AddKeyTo(key: State, s: array<Word>)
    requires s.Length == 4
    modifies s
    ensures StateOf(s[..]) == AddRoundKey(old(StateOf(s[..])), key)
  {
    hide XorWord;
    var k := [key.w0, key.w1, key.w2, key.w3];
    for i := 0 to 4
      invariant forall j :: 0 <= j < 4 ==> s[j] == if j < i then XorWord(old(s[j]), k[j]) else old(s[j])
    {
      s[i] := XorWord(s[i], k[i]);
    }
  }

  method SubBytesOf(s: array<Word>)
    requires s.Length == 4
    modifies s
    ensures StateOf(s[..]) == SubBytes(old(StateOf(s[..])))
  {
    hide SubWord;
    for i := 0 to 4
      invariant forall j :: 0 <= j < 4 ==> s[j] == if j < i then SubWord(old(s[j])) else old(s[j])
    {
      s[i] := SubWord(s[i]);
    }
  }

  method InvSubBytesOf(s: array<Word>)
    requires s.Length == 4
    modifies s
    ensures StateOf(s[..]) == InvSubBytes(old(StateOf(s[..])))
  {
    hide InvSubWord;
    for i := 0 to 4
      invariant forall j :: 0 <= j < 4 ==> s[j] == if j < i then InvSubWord(old(s[j])) else old(s[j])
    {
      s[i] := InvSubWord(s[i]);
    }
  }

  /** The byte of row r. */
  function RowMask(r: nat): Word
    requires r < 4
  {
    (0xFF as Word) << (8 * r)
  }

  /** The bytes selected by m2 come from v, the others from w. */
  function Blend(w: Word, v: Word, m2: Word): Word {
    (w & !m2) | (v & m2)
  }

  /** A column in which the rows below r are already replaced. */
  function Shifted(a: Word, b: Word, c: Word, d: Word, r: nat): Word {
    Column(a, if r > 1 then b else a, if r > 2 then c else a, if r > 3 then d else a)
  }

  lemma ShiftedFirst(a: Word, b: Word, c: Word, d: Word)
    ensures Shifted(a, b, c, d, 1) == a && Shifted(a, b, c, d, 4) == Column(a, b, c, d)
  {
    hide Pack, Byte0, Byte1, Byte2, Byte3;
    PackBytes(a);
  }

  lemma ReplaceByte1(a: Word, b: Word)
    ensures Blend(Column(a, a, a, a), b, 0xFF00) == Column(a, b, a, a)
  {
  }

  lemma ReplaceByte2(a: Word, b: Word, c: Word)
    ensures Blend(Column(a, b, a, a), c, 0xFF_0000) == Column(a, b, c, a)
  {
  }

  lemma ReplaceByte3(a: Word, b: Word, c: Word, d: Word)
    ensures Blend(Column(a, b, c, a), d, 0xFF00_0000) == Column(a, b, c, d)
  {
  }

  lemma RowMasks()
    ensures RowMask(1) == 0xFF00 && RowMask(2) == 0xFF_0000 && RowMask(3) == 0xFF00_0000
  {
  }

  /** Masking in the next row. */
  lemma ShiftedNext(a: Word, b: Word, c: Word, d: Word, r: nat)
    requires 1 <= r <= 3
    ensures var v := if r == 1 then b else if r == 2 then c else d;
      Blend(Shifted(a, b, c, d, r), v, RowMask(r)) == Shifted(a, b, c, d, r + 1)
  {
    hide Column, RowMask, Blend;
    RowMasks();
    if r == 1 {
      ReplaceByte1(a, b);
    } else if r == 2 {
      ReplaceByte2(a, b, c);
    } else {
      ReplaceByte3(a, b, c, d);
    }
  }

  function ShiftedAt(ori: seq<Word>, c: nat, r: nat): Word
    requires |ori| == 4 && c < 4
  {
    Shifted(ori[c], ori[(c + 1) % 4], ori[(c + 2) % 4], ori[(c + 3) % 4], r)
  }

  lemma ShiftedAtNext(ori: seq<Word>, c: nat, r: nat)
    requires |ori| == 4 && c < 4 && 1 <= r <= 3
    ensures Blend(ShiftedAt(ori, c, r), ori[(c + r) % 4], RowMask(r)) == ShiftedAt(ori, c, r + 1)
  {
    hide Shifted, Column, RowMask, Blend;
    ShiftedNext(ori[c], ori[(c + 1) % 4], ori[(c + 2) % 4], ori[(c + 3) % 4], r);
  }

  /** Rotate row r left by r columns. */
  method ShiftRowsOf(s: array<Word>)
    requires s.Length == 4
    modifies s
    ensures StateOf(s[..]) == ShiftRows(old(StateOf(s[..])))
  {
    hide Shifted, Column, RowMask, Blend, ShiftedAt;
    var ori := s[..];
    Bounds(ori);
    for r := 1 to 4
      invariant forall k :: 0 <= k < 4 ==> s[k] == ShiftedAt(ori, k, r)
    {
      var m2 := RowMask(r);
      for c := 0 to 4
        invariant forall k :: 0 <= k < 4 ==> s[k] == ShiftedAt(ori, k, if k < c then r + 1 else r)
      {
        ShiftedAtNext(ori, c, r);
        s[c] := Blend(s[c], ori[(c + r) % 4], m2);
      }
    }
    ShiftedColumns(ori);
  }

  lemma ShiftedColumns(ori: seq<Word>)
    requires |ori| == 4
    ensures State(ShiftedAt(ori, 0, 4), ShiftedAt(ori, 1, 4), ShiftedAt(ori, 2, 4), ShiftedAt(ori, 3, 4)) == ShiftRows(StateOf(ori))
  {
    hide Column, Shifted;
    Bounds(ori);
  }

  lemma Bounds(ori: seq<Word>)
    requires |ori| == 4
    ensures forall k :: 0 <= k < 4 ==> ShiftedAt(ori, k, 1) == ori[k]
    ensures forall k :: 0 <= k < 4 ==> ShiftedAt(ori, k, 4) == Column(ori[k], ori[(k + 1) % 4], ori[(k + 2) % 4], ori[(k + 3) % 4])
  {
    hide Shifted, Column;
    forall k | 0 <= k < 4
      ensures ShiftedAt(ori, k, 1) == ori[k]
      ensures ShiftedAt(ori, k, 4) == Column(ori[k], ori[(k + 1) % 4], ori[(k + 2) % 4], ori[(k + 3) % 4])
    {
      ShiftedFirst(ori[k], ori[(k + 1) % 4], ori[(k + 2) % 4], ori[(k + 3) % 4]);
    }
  }

  function InvShiftedAt(ori: seq<Word>, c: nat, r: nat): Word
    requires |ori| == 4 && c < 4
  {
    Shifted(ori[c], ori[(c + 3) % 4], ori[(c + 2) % 4], ori[(c + 1) % 4], r)
  }

  lemma InvShiftedAtNext(ori: seq<Word>, c: nat, r: nat)
    requires |ori| == 4 && c < 4 && 1 <= r <= 3
    ensures Blend(InvShiftedAt(ori, c, r), ori[(c + 4 - r) % 4], RowMask(r)) == InvShiftedAt(ori, c, r + 1)
  {
    hide Shifted, Column, RowMask, Blend;
    ShiftedNext(ori[c], ori[(c + 3) % 4], ori[(c + 2) % 4], ori[(c + 1) % 4], r);
  }

  /** Rotate row r right by r columns. */
  method InvShiftRowsOf(s: array<Word>)
    requires s.Length == 4
    modifies s
    ensures StateOf(s[..]) == InvShiftRows(old(StateOf(s[..])))
  {
    hide Shifted, Column, RowMask, Blend, InvShiftedAt;
    var ori := s[..];
    InvBounds(ori);
    for r := 1 to 4
      invariant forall k :: 0 <= k < 4 ==> s[k] == InvShiftedAt(ori, k, r)
    {
      var m2 := RowMask(r);
      for c := 0 to 4
        invariant forall k :: 0 <= k < 4 ==> s[k] == InvShiftedAt(ori, k, if k < c then r + 1 else r)
      {
        InvShiftedAtNext(ori, c, r);
        s[c] := Blend(s[c], ori[(c + 4 - r) % 4], m2);
      }
    }
    InvShiftedColumns(ori);
  }

  lemma InvShiftedColumns(ori: seq<Word>)
    requires |ori| == 4
    ensures State(InvShiftedAt(ori, 0, 4), InvShiftedAt(ori, 1, 4), InvShiftedAt(ori, 2, 4), InvShiftedAt(ori, 3, 4)) == InvShiftRows(StateOf(ori))
  {
    hide Column, Shifted;
    InvBounds(ori);
  }

  lemma InvBounds(ori: seq<Word>)
    requires |ori| == 4
    ensures forall k :: 0 <= k < 4 ==> InvShiftedAt(ori, k, 1) == ori[k]
    ensures forall k :: 0 <= k < 4 ==> InvShiftedAt(ori, k, 4) == Column(ori[k], ori[(k + 3) % 4], ori[(k + 2) % 4], ori[(k + 1) % 4])
  {
    hide Shifted, Column;
    forall k | 0 <= k < 4
      ensures InvShiftedAt(ori, k, 1) == ori[k]
      ensures InvShiftedAt(ori, k, 4) == Column(ori[k], ori[(k + 3) % 4], ori[(k + 2) % 4], ori[(k + 1) % 4])
    {
      ShiftedFirst(ori[k], ori[(k + 3) % 4], ori[(k + 2) % 4], ori[(k + 1) % 4]);
    }
  }

  /** Multiply one column by the matrix of the transformation. */
  method MixColumn(w: Word) returns (r: Word)
    ensures r == MixWord(w)
  {
    hide Add, Mul2, Pack, Byte0, Byte1, Byte2, Byte3;
    var v01, v11, v21, v31 := Byte0(w), Byte1(w), Byte2(w), Byte3(w);
    var v02, v12, v22, v32 := Mul2(v01), Mul2(v11), Mul2(v21), Mul2(v31);
    var v03, v13, v23, v33 := Add(v02, v01), Add(v12, v11), Add(v22, v21), Add(v32, v31);
    Sum4Rotate(v12, v23, v31, v01);
    Sum4Rotate(v22, v33, v01, v11);
    Sum4Rotate(v11, v22, v33, v01);
    Sum4Rotate(v03, v11, v21, v32);
    r := Pack(Sum4(v02, v13, v21, v31), Sum4(v01, v12, v23, v31),
              Sum4(v01, v11, v22, v33), Sum4(v03, v11, v21, v32));
  }

  /** Multiply one column by the inverse matrix, with the general multiplication. */
  method InvMixColumn(w: Word) returns (r: Word)
    ensures r == InvMixWord(w)
  {
    hide Add, Mul2, Pack, Byte0, Byte1, Byte2, Byte3, MulFrom, Times9, TimesB, TimesD, TimesE, Sum4;
    var v0, v1, v2, v3 := Byte0(w), Byte1(w), Byte2(w), Byte3(w);
    var b0 := InvMixByte(v0, v1, v2, v3);
    var b1 := InvMixByte(v1, v2, v3, v0);
    var b2 := InvMixByte(v2, v3, v0, v1);
    var b3 := InvMixByte(v3, v0, v1, v2);
    r := Pack(b0, b1, b2, b3);
  }

  method InvMixByte(a: octet, b: octet, c: octet, d: octet) returns (r: octet)
    ensures r == InvMix(a, b, c, d)
  {
    hide Add, MulFrom, Times9, TimesB, TimesD, TimesE;
    MulConstants(a);
    MulConstants(b);
    MulConstants(c);
    MulConstants(d);
    var e := Mul(a, 0x0E);
    var f := Mul(b, 0x0B);
    var g := Mul(c, 0x0D);
    var h := Mul(d, 0x09);
    r := Sum4(e, f, g, h);
  }

  method MixColumnsOf(s: array<Word>)
    requires s.Length == 4
    modifies s
    ensures StateOf(s[..]) == MixColumns(old(StateOf(s[..])))
  {
    hide MixWord;
    for i := 0 to 4
      invariant forall j :: 0 <= j < 4 ==> s[j] == if j < i then MixWord(old(s[j])) else old(s[j])
    {
      s[i] := MixColumn(s[i]);
    }
  }

  method InvMixColumnsOf(s: array<Word>)
    requires s.Length == 4
    modifies s
    ensures StateOf(s[..]) == InvMixColumns(old(StateOf(s[..])))
  {
    hide InvMixWord;
    for i := 0 to 4
      invariant forall j :: 0 <= j < 4 ==> s[j] == if j < i then InvMixWord(old(s[j])) else old(s[j])
    {
      s[i] := InvMixColumn(s[i]);
    }
  }

  /** Write the bytes of the state into a buffer. */
  method CopyStateToBytes(s: State, buf: array<octet>, at: nat)
    requires at + 16 <= buf.Length
    modifies buf
    ensures buf[..] == old(buf[..at]) + ToBytes(s) + old(buf[at + 16..])
  {
    hide ToBytes;
    var b := ToBytes(s);
    for i := 0 to 16
      invariant forall k :: 0 <= k < buf.Length ==> buf[k] == if at <= k < at + i then b[k - at] else old(buf[k])
    {
      buf[at + i] := b[i];
    }
  }

  /** Encrypt one block into a buffer. */
  method EncryptState(rkeys: seq<State>, data: Block16, encrypted: array<octet>, at: nat)
    requires 2 <= |rkeys| && at + 16 <= encrypted.Length
    modifies encrypted
    ensures encrypted[..] == old(encrypted[..at]) + EncryptBlock(rkeys, data) + old(encrypted[at + 16..])
  {
    hide FromBytes, ToBytes, AddRoundKey, SubBytes, ShiftRows, MixColumns;
    var from := FromBytes(data);
    var s := new Word[4] [from.w0, from.w1, from.w2, from.w3];
    AddKeyTo(rkeys[0], s);
    ghost var t := AddRoundKey(from, rkeys[0]);
    for i := 1 to |rkeys| - 1
      invariant StateOf(s[..]) == Rounds(rkeys, t, i - 1)
      invariant encrypted[..] == old(encrypted[..])
    {
      SubBytesOf(s);
      ShiftRowsOf(s);
      MixColumnsOf(s);
      AddKeyTo(rkeys[i], s);
    }
    SubBytesOf(s);
    ShiftRowsOf(s);
    AddKeyTo(rkeys[|rkeys| - 1], s);
    CopyStateToBytes(StateOf(s[..]), encrypted, at);
  }

  /** Decrypt one block into a buffer. */
  method DecryptState(rkeys: seq<State>, data: Block16, decrypted: array<octet>, at: nat)
    requires 2 <= |rkeys| && at + 16 <= decrypted.Length
    modifies decrypted
    ensures decrypted[..] == old(decrypted[..at]) + DecryptBlock(rkeys, data) + old(decrypted[at + 16..])
  {
    hide FromBytes, ToBytes, AddRoundKey, InvSubBytes, InvShiftRows, InvMixColumns;
    var from := FromBytes(data);
    var s := new Word[4] [from.w0, from.w1, from.w2, from.w3];
    var last := |rkeys| - 1;
    AddKeyTo(rkeys[last], s);
    InvShiftRowsOf(s);
    InvSubBytesOf(s);
    ghost var t := StateOf(s[..]);
    var i := last - 1;
    while i > 0
      invariant 0 <= i < last
      invariant InvRounds(rkeys, StateOf(s[..]), i) == InvRounds(rkeys, t, last - 1)
      invariant decrypted[..] == old(decrypted[..])
    {
      AddKeyTo(rkeys[i], s);
      InvMixColumnsOf(s);
      InvShiftRowsOf(s);
      InvSubBytesOf(s);
      i := i - 1;
    }
    AddKeyTo(rkeys[0], s);
    CopyStateToBytes(StateOf(s[..]), decrypted, at);
  }

  // Key expansion (section 5.2)

  predicate ValidKeySize(n: nat) {
    n == 16 || n == 24 || n == 32
  }

  function RoundCount(n: nat): nat
    requires ValidKeySize(n)
  {
    if n == 16 then 10 else if n == 24 then 12 else 14
  }

  function RotWord(v: Word): Word {
    ((v >> 8) & 0x00FF_FFFF) | ((v & 0xFF) << 24)
  }

  /** The rotation moves every byte down by one. */
  lemma RotWordBytes(v: Word)
    ensures RotWord(v) == Pack(Byte1(v), Byte2(v), Byte3(v), Byte0(v))
  {
  }

  function Rcon(i: nat): Word
    requires i <= 10
  {
    [0x00, 0x01, 0x02, 0x04, 0x08, 0x10, 0x20, 0x40, 0x80, 0x1b, 0x36][i]
  }

  /** What is added to word i - nk to make word i. */
  function Temp(t: Word, i: nat, nk: nat): Word
    requires nk in {4, 6, 8} && i / nk <= 10
  {
    if i % nk == 0 then XorWord(SubWord(RotWord(t)), Rcon(i / nk))
    else if nk > 6 && i % nk == 4 then SubWord(t)
    else t
  }

  function KeyWord(key: seq<octet>, i: nat): Word
    requires 4 * i + 4 <= |key|
  {
    Pack(key[4 * i], key[4 * i + 1], key[4 * i + 2], key[4 * i + 3])
  }

  /** The first n words of the key schedule. */
  function Schedule(key: seq<octet>, n: nat): (w: seq<Word>)
    requires ValidKeySize(|key|) && n <= 4 * (RoundCount(|key|) + 1)
    ensures |w| == n
    decreases n, key
  {
    var nk := |key| / 4;
    if n == 0 then []
    else
      var w := Schedule(key, n - 1);
      if n <= nk then w + [KeyWord(key, n - 1)]
      else w + [XorWord(Temp(w[n - 2], n - 1, nk), w[n - 1 - nk])]
  }

  function RoundKeysOf(key: seq<octet>): (keys: seq<State>)
    requires ValidKeySize(|key|)
    ensures |keys| == RoundCount(|key|) + 1
  {
    var nr := RoundCount(|key|);
    var w := Schedule(key, 4 * (nr + 1));
    seq(nr + 1, i requires 0 <= i < nr + 1 => State(w[4 * i], w[4 * i + 1], w[4 * i + 2], w[4 * i + 3]))
  }

  /** One step of the recurrence. */
  method ExpandWord(key: seq<octet>, w: array<Word>, i: nat)
    requires ValidKeySize(|key|) && w.Length == 4 * (RoundCount(|key|) + 1) && |key| / 4 <= i < w.Length
    requires w[..i] == Schedule(key, i)
    modifies w
    ensures w[..i + 1] == Schedule(key, i + 1)
  {
    hide Temp, XorWord, KeyWord;
    var nk := |key| / 4;
    ghost var done := w[..i];
    var t := Temp(w[i - 1], i, nk);
    assert done[i - 1] == w[i - 1] && done[i - nk] == w[i - nk];
    w[i] := XorWord(t, w[i - nk]);
    assert w[..i + 1] == done + [w[i]];
  }

  /** Expand the key; other key sizes are refused. */
  method ExpandKey(key: seq<octet>) returns (ok: bool, keys: seq<State>)
    ensures ok <==> ValidKeySize(|key|)
    ensures ok ==> keys == RoundKeysOf(key)
  {
    hide Temp, XorWord, KeyWord;
    if !ValidKeySize(|key|) {
      return false, [];
    }
    var nk, nr := |key| / 4, RoundCount(|key|);
    var w := new Word[4 * (nr + 1)];
    for i := 0 to nk
      invariant w[..i] == Schedule(key, i)
    {
      w[i] := KeyWord(key, i);
    }
    for i := nk to 4 * (nr + 1)
      invariant w[..i] == Schedule(key, i)
    {
      ExpandWord(key, w, i);
    }
    assert w[..4 * (nr + 1)] == w[..];
    ok := true;
    keys := seq(nr + 1, i requires 0 <= i < nr + 1 && w.Length == 4 * (nr + 1) reads w => State(w[4 * i], w[4 * i + 1], w[4 * i + 2], w[4 * i + 3]));
  }

  lemma {:induction false} SchedulePrefix(key: seq<octet>, n: nat, m: nat)
    requires ValidKeySize(|key|) && m <= n <= 4 * (RoundCount(|key|) + 1)
    ensures Schedule(key, n)[..m] == Schedule(key, m)
    decreases n
  {
    hide Temp, XorWord, KeyWord;
    if m < n {
      SchedulePrefix(key, n - 1, m);
    }
  }

  /** The schedule begins with the key, and each later word follows from two earlier ones. */
  lemma ScheduleRecurrence(key: seq<octet>, n: nat, i: nat)
    requires ValidKeySize(|key|) && i < n <= 4 * (RoundCount(|key|) + 1)
    ensures var w := Schedule(key, n); var nk := |key| / 4;
      if i < nk then w[i] == KeyWord(key, i) else w[i] == XorWord(Temp(w[i - 1], i, nk), w[i - nk])
  {
    hide Temp, XorWord, KeyWord;
    SchedulePrefix(key, n, i + 1);
    SchedulePrefix(key, n, i);
    assert Schedule(key, n)[..i + 1][i] == Schedule(key, n)[i];
  }
}
