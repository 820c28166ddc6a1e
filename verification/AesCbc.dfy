/**
 Cipher block chaining (section 6.2 of NIST SP 800-38A) with padding: the buffers, the error
 codes, and the proof that decryption gives back what was encrypted.
 */
module AesCbc {
  import opened GaloisField
  import opened AesCipher
  import opened AesState
  import opened AesAccess
  import opened Options
  import Words

  const BLOCK: nat := 16

  datatype Error = Ok | InvalidDataSize | InvalidKeySize | InvalidBufferSize | InvalidKey

  // Chaining as a function

  function Xor(a: Block16, b: Block16): Block16
  {
    seq(16, i requires 0 <= i < 16 => Add(a[i], b[i]))
  }

  lemma XorTwiceBlock(a: Block16, b: Block16)
    ensures Xor(Xor(a, b), b) == a
  {
    hide Add;
    forall i | 0 <= i < 16
      ensures Xor(Xor(a, b), b)[i] == a[i]
    {
      AddLaws(a[i], b[i], b[i]);
      AddLaws(b[i], a[i], 0);
      AddLaws(a[i], 0, 0);
    }
  }

  function ZeroBlock(): Block16 { seq(16, i => 0) }

  lemma XorZero(a: Block16)
    ensures Xor(a, ZeroBlock()) == a
  {
    forall i | 0 <= i < 16
      ensures Add(a[i], 0) == a[i]
    {
      AddLaws(a[i], 0, 0);
    }
  }

  predicate Whole(p: seq<octet>) {
    |p| % BLOCK == 0
  }

  function LastBlock(p: seq<octet>): Block16
    requires Whole(p) && p != []
  {
    p[|p| - BLOCK..]
  }

  /** The block that is chained after the ciphertext c. */
  function Previous(iv: Block16, c: seq<octet>): Block16
    requires Whole(c)
  {
    if c == [] then iv else LastBlock(c)
  }

  function CbcEncrypt(keys: seq<State>, iv: Block16, p: seq<octet>): (c: seq<octet>)
    requires 2 <= |keys| && Whole(p)
    ensures |c| == |p|
  {
    if p == [] then []
    else
      var c := CbcEncrypt(keys, iv, p[..|p| - BLOCK]);
      c + EncryptBlock(keys, Xor(LastBlock(p), Previous(iv, c)))
  }

  function CbcDecrypt(keys: seq<State>, iv: Block16, c: seq<octet>): (p: seq<octet>)
    requires 2 <= |keys| && Whole(c)
    ensures |p| == |c|
  {
    if c == [] then []
    else
      var front := c[..|c| - BLOCK];
      CbcDecrypt(keys, iv, front) + Xor(DecryptBlock(keys, LastBlock(c)), Previous(iv, front))
  }

  /** Decrypting a chain undoes encrypting it. */
  lemma {:induction false} CbcInverse(keys: seq<State>, iv: Block16, p: seq<octet>)
    requires 2 <= |keys| && Whole(p)
    ensures CbcDecrypt(keys, iv, CbcEncrypt(keys, iv, p)) == p
  {
    hide EncryptBlock, DecryptBlock, Xor;
    if p != [] {
      var front := p[..|p| - BLOCK];
      var c := CbcEncrypt(keys, iv, front);
      var x := Xor(LastBlock(p), Previous(iv, c));
      CbcInverse(keys, iv, front);
      DecryptEncryptBlock(keys, x);
      XorTwiceBlock(LastBlock(p), Previous(iv, c));
      assert (c + EncryptBlock(keys, x))[..|c|] == c;
      assert LastBlock(c + EncryptBlock(keys, x)) == EncryptBlock(keys, x);
    }
  }

  lemma CbcNext(keys: seq<State>, iv: Block16, p: seq<octet>, b: Block16)
    requires 2 <= |keys| && Whole(p)
    ensures CbcEncrypt(keys, iv, p + b) == CbcEncrypt(keys, iv, p) + EncryptBlock(keys, Xor(b, Previous(iv, CbcEncrypt(keys, iv, p))))
  {
    hide EncryptBlock, Xor;
    assert (p + b)[..|p|] == p && LastBlock(p + b) == b;
  }

  lemma CbcDecryptNext(keys: seq<State>, iv: Block16, c: seq<octet>, b: Block16)
    requires 2 <= |keys| && Whole(c)
    ensures CbcDecrypt(keys, iv, c + b) == CbcDecrypt(keys, iv, c) + Xor(DecryptBlock(keys, b), Previous(iv, c))
  {
    hide DecryptBlock, Xor;
    assert (c + b)[..|c|] == c && LastBlock(c + b) == b;
  }

  // Padding

  function PadCount(n: nat): (r: nat)
    ensures 1 <= r <= 16 && (n + r) % 16 == 0
  {
    16 - n % 16
  }

  function Padding(n: nat): seq<octet> {
    seq(PadCount(n), i => PadCount(n) as octet)
  }

  /** What is encrypted: the data with its padding. Without padding, empty data is still one block. */
  function Message(data: seq<octet>, pads: bool): (m: seq<octet>)
    requires pads || |data| % 16 == 0
    ensures Whole(m) && m != []
  {
    if pads || data == [] then data + Padding(|data|) else data
  }

  function Iv(iv: Option<Block16>): Block16 {
    match iv
    case None => ZeroBlock()
    case Some(b) => b
  }

  /** Room that the encrypted data needs. */
  function EncryptedSize(n: nat, pads: bool): nat {
    if pads then n + 16 - n % 16 else n
  }

  function CheckEncrypt(dataSize: nat, keySize: nat, encryptedSize: nat, pads: bool): Error {
    if !pads && dataSize % 16 != 0 then InvalidDataSize
    else if !ValidKeySize(keySize) then InvalidKeySize
    else if encryptedSize < EncryptedSize(dataSize, pads) then InvalidBufferSize
    else Ok
  }

  /** The checks do not see that empty data without padding still writes one block. */
  predicate EncryptRoom(dataSize: nat, encryptedSize: nat, pads: bool) {
    !(!pads && dataSize == 0 && encryptedSize < 16)
  }

  // Encryption

  method XorData(data: array<octet>, v: Block16)
    requires data.Length == 16
    modifies data
    ensures data[..] == Xor(old(data[..]), v)
  {
    hide Add;
    for i := 0 to 16
      invariant forall k :: 0 <= k < 16 ==> data[k] == if k < i then Add(old(data[k]), v[k]) else old(data[k])
    {
      data[i] := Add(data[i], v[i]);
    }
  }

  method Fill(s: array<octet>, v: octet, data: seq<octet>)
    requires s.Length == 16 && |data| <= 16
    modifies s
    ensures s[..] == data + seq(16 - |data|, i => v)
  {
    for i := 0 to 16
      invariant forall k :: 0 <= k < i ==> s[k] == if k < |data| then data[k] else v
    {
      s[i] := if i < |data| then data[i] else v;
    }
  }

  /** Chain one block, unless there is nothing to chain it with, and encrypt it after the ciphertext written so far. */
  method EncryptNext(rkeys: seq<State>, iv: Block16, b: Block16, v: Option<Block16>, encrypted: array<octet>, at: nat, ghost p: seq<octet>)
    requires 2 <= |rkeys| && Whole(p) && Whole(p + b) && at == |p| && at + 16 <= encrypted.Length
    requires encrypted[..at] == CbcEncrypt(rkeys, iv, p)
    requires Iv(v) == Previous(iv, CbcEncrypt(rkeys, iv, p))
    modifies encrypted
    ensures encrypted[..] == CbcEncrypt(rkeys, iv, p + b) + old(encrypted[at + 16..])
  {
    hide EncryptBlock, Xor, CbcEncrypt, Previous, ZeroBlock;
    var s := new octet[16];
    Fill(s, 0, b);
    assert s[..] == b;
    match v {
      case None => XorZero(b);
      case Some(w) => XorData(s, w);
    }
    CbcNext(rkeys, iv, p, b);
    EncryptState(rkeys, s[..], encrypted, at);
  }

  /** Chain a block with the ciphertext block before it. */
  method EncryptChained(rkeys: seq<State>, iv: Block16, b: Block16, encrypted: array<octet>, at: nat, ghost p: seq<octet>, ghost rest: seq<octet>)
    requires 2 <= |rkeys| && Whole(p) && Whole(p + b) && 16 <= at == |p| && at + 16 <= encrypted.Length
    requires encrypted[..] == CbcEncrypt(rkeys, iv, p) + rest
    modifies encrypted
    ensures |rest| >= 16 && encrypted[..] == CbcEncrypt(rkeys, iv, p + b) + rest[16..]
  {
    hide CbcEncrypt;
    ghost var was := encrypted[..];
    SplitAt(was, CbcEncrypt(rkeys, iv, p), rest, at);
    assert encrypted[..at] == was[..at] && encrypted[at + 16..] == was[at..][16..];
    var v: Block16 := encrypted[at - 16..at];
    assert v == was[at - 16..at];
    EncryptNext(rkeys, iv, b, Some(v), encrypted, at, p);
  }

  /** The whole blocks of data that has at least one. */
  method EncryptWhole(rkeys: seq<State>, iv: Option<Block16>, data: seq<octet>, encrypted: array<octet>)
    returns (n: nat, ghost log: iset<Access>)
    requires 2 <= |rkeys| && 16 <= |data| <= encrypted.Length
    modifies encrypted
    ensures n == |data| - |data| % 16
    ensures forall a :: a in log <==> EncryptsBlocks(|data| / 16, a)
    ensures encrypted[..] == CbcEncrypt(rkeys, Iv(iv), data[..n]) + old(encrypted[n..])
  {
    hide CbcEncrypt, Iv, EncryptsBlocks;
    n := 16;
    assert [] + data[..16] == data[..16];
    CbcEmpty(rkeys, Iv(iv));
    EncryptNext(rkeys, Iv(iv), data[..16], iv, encrypted, 0, []);
    log := iset{Read(0, 16), Write(0, 16)};
    FirstEncrypted(log);
    var bc := |data| / 16;
    for i := 1 to bc
      invariant n == 16 * i
      invariant forall a :: a in log <==> EncryptsBlocks(i, a)
      invariant encrypted[..] == CbcEncrypt(rkeys, Iv(iv), data[..n]) + old(encrypted[n..])
    {
      assert data[..n] + data[n..n + 16] == data[..n + 16];
      assert old(encrypted[n..])[16..] == old(encrypted[n + 16..]);
      EncryptChained(rkeys, Iv(iv), data[n..n + 16], encrypted, n, data[..n], old(encrypted[n..]));
      ghost var before := log;
      log := log + iset{Read(n, 16), Write(n, 16)};
      MoreEncrypted(i, before, log);
      n := n + 16;
    }
  }

  /** The accesses to one more block. */
  lemma MoreEncrypted(k: nat, log: iset<Access>, next: iset<Access>)
    requires 1 <= k && forall a :: a in log <==> EncryptsBlocks(k, a)
    requires next == log + iset{Read(16 * k, 16), Write(16 * k, 16)}
    ensures forall a :: a in next <==> EncryptsBlocks(k + 1, a)
  {
    hide EncryptsBlocks;
    forall a
      ensures a in next <==> EncryptsBlocks(k + 1, a)
    {
      NextEncrypts(k, a);
    }
  }

  lemma FirstEncrypted(log: iset<Access>)
    requires log == iset{Read(0, 16), Write(0, 16)}
    ensures forall a :: a in log <==> EncryptsBlocks(1, a)
  {
    forall a
      ensures a in log <==> EncryptsBlocks(1, a)
    {
      NextEncrypts(1, a);
    }
  }

  lemma CbcEmpty(keys: seq<State>, iv: Block16)
    requires 2 <= |keys|
    ensures CbcEncrypt(keys, iv, []) == []
  {
  }

  lemma SplitAt(s: seq<octet>, a: seq<octet>, b: seq<octet>, n: nat)
    requires s == a + b && |a| == n
    ensures s[..n] == a && s[n..] == b
    ensures n >= 16 ==> s[n - 16..n] == a[n - 16..]
  {
  }

  /** Encrypt data of any length into the buffer; on an error the buffer is unchanged. */
  method EncryptCbc(data: seq<octet>, key: seq<octet>, iv: Option<Block16>, encrypted: array<octet>, pads: bool)
    returns (e: Error, ghost log: iset<Access>)
    requires CheckEncrypt(|data|, |key|, encrypted.Length, pads) == Ok ==> EncryptRoom(|data|, encrypted.Length, pads)
    modifies encrypted
    ensures e == CheckEncrypt(|data|, |key|, encrypted.Length, pads)
    ensures e != Ok ==> encrypted[..] == old(encrypted[..]) && log == iset{}
    ensures e == Ok ==> forall a :: a in log <==> Encrypts(|data|, pads, a)
    ensures e == Ok ==> encrypted[..] == CbcEncrypt(RoundKeysOf(key), Iv(iv), Message(data, pads)) + old(encrypted[|Message(data, pads)|..])
  {
    hide CbcEncrypt, Iv, RoundKeysOf, Encrypts;
    e, log := CheckEncrypt(|data|, |key|, encrypted.Length, pads), iset{};
    if e != Ok {
      return;
    }
    var ok, rkeys := ExpandKey(key);
    log := EncryptChecked(rkeys, data, iv, encrypted, pads);
  }

  /** Data of less than a block is padded in any case. */
  method EncryptShort(rkeys: seq<State>, data: seq<octet>, iv: Option<Block16>, encrypted: array<octet>)
    returns (ghost log: iset<Access>)
    requires 2 <= |rkeys| && |data| < 16 <= encrypted.Length
    modifies encrypted
    ensures encrypted[..] == CbcEncrypt(rkeys, Iv(iv), data + Padding(|data|)) + old(encrypted[16..])
    ensures log == iset{Read(0, |data|), Write(0, 16)}
  {
    hide CbcEncrypt, Iv;
    var b: Block16 := data + Padding(|data|);
    assert [] + b == b;
    CbcEmpty(rkeys, Iv(iv));
    EncryptNext(rkeys, Iv(iv), b, iv, encrypted, 0, []);
    log := iset{Read(0, |data|), Write(0, 16)};
  }

  method EncryptLong(rkeys: seq<State>, data: seq<octet>, iv: Option<Block16>, encrypted: array<octet>, pads: bool)
    returns (ghost log: iset<Access>)
    requires 2 <= |rkeys| && 16 <= |data| && (pads || |data| % 16 == 0) && |Message(data, pads)| <= encrypted.Length
    modifies encrypted
    ensures encrypted[..] == CbcEncrypt(rkeys, Iv(iv), Message(data, pads)) + old(encrypted[|Message(data, pads)|..])
    ensures forall a :: a in log <==>
      EncryptsBlocks(|data| / 16, a) || (pads && (a == Read(|data| - |data| % 16, |data| % 16) || a == Write(|data| - |data| % 16, 16)))
  {
    hide CbcEncrypt, Iv, EncryptsBlocks;
    var n;
    n, log := EncryptWhole(rkeys, iv, data, encrypted);
    assert data[..|data|] == data;
    if pads {
      ghost var rest := old(encrypted[n..]);
      assert rest[16..] == old(encrypted[n + 16..]);
      ghost var more := EncryptPadded(rkeys, data, iv, encrypted, n, rest);
      log := log + more;
    }
  }

  /** The last block, which is partly or wholly padding. */
  method EncryptPadded(rkeys: seq<State>, data: seq<octet>, iv: Option<Block16>, encrypted: array<octet>, n: nat, ghost rest: seq<octet>)
    returns (ghost log: iset<Access>)
    requires 2 <= |rkeys| && 16 <= n == |data| - |data| % 16 && n % 16 == 0 && n + 16 <= encrypted.Length
    requires encrypted[..] == CbcEncrypt(rkeys, Iv(iv), data[..n]) + rest
    modifies encrypted
    ensures |rest| >= 16 && encrypted[..] == CbcEncrypt(rkeys, Iv(iv), Message(data, true)) + rest[16..]
    ensures log == iset{Read(n, |data| - n), Write(n, 16)}
  {
    hide CbcEncrypt, Iv;
    LastPadded(data, n);
    EncryptChained(rkeys, Iv(iv), data[n..] + Padding(|data|), encrypted, n, data[..n], rest);
    log := iset{Read(n, |data| - n), Write(n, 16)};
  }

  method EncryptChecked(rkeys: seq<State>, data: seq<octet>, iv: Option<Block16>, encrypted: array<octet>, pads: bool)
    returns (ghost log: iset<Access>)
    requires 2 <= |rkeys| && (pads || |data| % 16 == 0) && |Message(data, pads)| <= encrypted.Length
    modifies encrypted
    ensures encrypted[..] == CbcEncrypt(rkeys, Iv(iv), Message(data, pads)) + old(encrypted[|Message(data, pads)|..])
    ensures forall a :: a in log <==> Encrypts(|data|, pads, a)
  {
    hide CbcEncrypt, Iv, EncryptsBlocks, Encrypts;
    if |data| < 16 {
      log := EncryptShort(rkeys, data, iv, encrypted);
    } else {
      log := EncryptLong(rkeys, data, iv, encrypted, pads);
    }
    forall a
      ensures a in log <==> Encrypts(|data|, pads, a)
    {
      if |data| < 16 {
        EncryptsShort(|data|, pads, a);
      } else {
        EncryptsParts(|data|, pads, a);
      }
    }
  }

  lemma LastPadded(data: seq<octet>, n: nat)
    requires n == |data| - |data| % 16
    ensures |data[n..] + Padding(|data|)| == 16
    ensures data[..n] + (data[n..] + Padding(|data|)) == data + Padding(|data|)
  {
  }

  // Decryption

  /** The subtraction is unsigned: empty data asks for an impossible buffer. */
  function CheckDecrypt(dataSize: nat, keySize: nat, decryptedSize: nat, removePadding: bool): Error {
    if dataSize % 16 != 0 then InvalidDataSize
    else if !ValidKeySize(keySize) then InvalidKeySize
    else if decryptedSize < (if removePadding then (dataSize - 16) % Words.U64 else dataSize) then InvalidBufferSize
    else Ok
  }

  /** The checks do not see that a block is always read, and that it is decrypted in the buffer even when less of it is kept. */
  predicate DecryptRoom(dataSize: nat, decryptedSize: nat, removePadding: bool) {
    dataSize != 0 && !(dataSize == 16 && removePadding && decryptedSize < 16)
  }

  /** The last pad bytes all say how many they are. */
  predicate PaddingOk(last: Block16) {
    var pad := last[15] as nat;
    pad <= 16 && forall k :: 16 - pad <= k < 16 ==> last[k] as nat == pad
  }

  method CheckPadding(padding: nat, data: Block16) returns (ok: bool)
    requires padding == data[15] as nat
    ensures ok == PaddingOk(data)
  {
    if padding > 16 {
      return false;
    }
    for i := 0 to padding
      invariant forall k :: 16 - i <= k < 16 ==> data[k] as nat == padding
    {
      if data[15 - i] as nat != padding {
        return false;
      }
    }
    return true;
  }

  /** Decrypt one block and unchain it, unless there is nothing to unchain it from. */
  method DecryptNext(rkeys: seq<State>, iv: Block16, b: Block16, v: Option<Block16>, decrypted: array<octet>, at: nat, ghost c: seq<octet>)
    requires 2 <= |rkeys| && Whole(c) && Whole(c + b) && at == |c| && at + 16 <= decrypted.Length
    requires decrypted[..at] == CbcDecrypt(rkeys, iv, c) && Iv(v) == Previous(iv, c)
    modifies decrypted
    ensures decrypted[..] == CbcDecrypt(rkeys, iv, c + b) + old(decrypted[at + 16..])
  {
    hide DecryptBlock, Xor, CbcDecrypt, Previous, ZeroBlock;
    var s := new octet[16];
    DecryptState(rkeys, b, s, 0);
    assert s[..] == DecryptBlock(rkeys, b);
    match v {
      case None => XorZero(s[..]);
      case Some(w) => XorData(s, w);
    }
    CbcDecryptNext(rkeys, iv, c, b);
    CopyBlock(s, decrypted, at);
  }

  method CopyBlock(s: array<octet>, out: array<octet>, at: nat)
    requires s.Length == 16 && at + 16 <= out.Length && s != out
    modifies out
    ensures out[..] == old(out[..at]) + s[..] + old(out[at + 16..])
  {
    for i := 0 to 16
      invariant forall k :: 0 <= k < out.Length ==> out[k] == if at <= k < at + i then s[k - at] else old(out[k])
    {
      out[at + i] := s[i];
    }
  }

  /** The first n bytes, whole blocks, of the data. */
  method DecryptWhole(rkeys: seq<State>, iv: Option<Block16>, data: seq<octet>, n: nat, decrypted: array<octet>)
    returns (ghost log: iset<Access>)
    requires 2 <= |rkeys| && 16 <= n <= |data| && n % 16 == 0 && n <= decrypted.Length
    modifies decrypted
    ensures decrypted[..] == CbcDecrypt(rkeys, Iv(iv), data[..n]) + old(decrypted[n..])
    ensures forall a :: a in log <==> DecryptsBlocks(n / 16, a)
  {
    hide CbcDecrypt, Iv, DecryptsBlocks;
    assert [] + data[..16] == data[..16];
    CbcDecryptEmpty(rkeys, Iv(iv));
    DecryptNext(rkeys, Iv(iv), data[..16], iv, decrypted, 0, []);
    log := iset{Read(0, 16), Write(0, 16)};
    FirstDecrypted(log);
    for i := 1 to n / 16
      invariant forall a :: a in log <==> DecryptsBlocks(i, a)
      invariant decrypted[..] == CbcDecrypt(rkeys, Iv(iv), data[..16 * i]) + old(decrypted[16 * i..])
    {
      DecryptChained(rkeys, Iv(iv), data, decrypted, 16 * i, old(decrypted[16 * i..]));
      assert old(decrypted[16 * i..])[16..] == old(decrypted[16 * i + 16..]);
      ghost var before := log;
      log := log + iset{Read(16 * i - 16, 16), Read(16 * i, 16), Write(16 * i, 16)};
      MoreDecrypted(i, before, log);
    }
  }

  lemma CbcDecryptEmpty(keys: seq<State>, iv: Block16)
    requires 2 <= |keys|
    ensures CbcDecrypt(keys, iv, []) == []
  {
  }

  /** The accesses to one more block. */
  lemma MoreDecrypted(k: nat, log: iset<Access>, next: iset<Access>)
    requires 1 <= k && forall a :: a in log <==> DecryptsBlocks(k, a)
    requires next == log + iset{Read(16 * k - 16, 16), Read(16 * k, 16), Write(16 * k, 16)}
    ensures forall a :: a in next <==> DecryptsBlocks(k + 1, a)
  {
    hide DecryptsBlocks;
    forall a
      ensures a in next <==> DecryptsBlocks(k + 1, a)
    {
      NextDecrypts(k, a);
    }
  }

  lemma FirstDecrypted(log: iset<Access>)
    requires log == iset{Read(0, 16), Write(0, 16)}
    ensures forall a :: a in log <==> DecryptsBlocks(1, a)
  {
    forall a
      ensures a in log <==> DecryptsBlocks(1, a)
    {
      NextDecrypts(1, a);
    }
  }

  method DecryptChained(rkeys: seq<State>, iv: Block16, data: seq<octet>, decrypted: array<octet>, at: nat, ghost rest: seq<octet>)
    requires 2 <= |rkeys| && 16 <= at && at + 16 <= |data| && at + 16 <= decrypted.Length
    requires Whole(data[..at]) && Whole(data[..at + 16])
    requires decrypted[..] == CbcDecrypt(rkeys, iv, data[..at]) + rest
    modifies decrypted
    ensures |rest| >= 16 && decrypted[..] == CbcDecrypt(rkeys, iv, data[..at + 16]) + rest[16..]
  {
    hide CbcDecrypt;
    ghost var was := decrypted[..];
    SplitAt(was, CbcDecrypt(rkeys, iv, data[..at]), rest, at);
    assert decrypted[..at] == was[..at] && decrypted[at + 16..] == was[at..][16..];
    assert data[..at] + data[at..at + 16] == data[..at + 16];
    assert LastBlock(data[..at]) == data[at - 16..at];
    DecryptNext(rkeys, iv, data[at..at + 16], Some(data[at - 16..at]), decrypted, at, data[..at]);
  }

  /** How the padding at the end of the decrypted data is judged. */
  function PaddingError(p: seq<octet>, decryptedSize: nat): Error
    requires Whole(p) && p != []
  {
    var last := LastBlock(p);
    if !PaddingOk(last) then InvalidKey
    else if decryptedSize < |p| - (last[15] as nat) then InvalidBufferSize
    else Ok
  }

  /** Store the first cs bytes of the last block. */
  method CopyLast(last: array<octet>, cs: nat, decrypted: array<octet>, at: nat)
    requires last.Length == 16 && last != decrypted && cs <= 16 && at + cs <= decrypted.Length
    modifies decrypted
    ensures decrypted[..] == old(decrypted[..at]) + last[..cs] + old(decrypted[at + cs..])
  {
    for i := 0 to cs
      invariant forall k :: 0 <= k < decrypted.Length ==> decrypted[k] == if at <= k < at + i then last[k - at] else old(decrypted[k])
    {
      decrypted[at + i] := last[i];
    }
  }

  method Clear(a: array<octet>)
    modifies a
    ensures a[..] == Zeros(a.Length)
  {
    for i := 0 to a.Length
      invariant forall k :: 0 <= k < i ==> a[k] == 0
    {
      a[i] := 0;
    }
  }

  function Zeros(n: nat): seq<octet> { seq(n, i => 0) }

  /** Several blocks: the last one is left in its own buffer, the others in the output. */
  method DecryptMany(rkeys: seq<State>, iv: Option<Block16>, data: seq<octet>, decrypted: array<octet>)
    returns (last: array<octet>, ghost log: iset<Access>)
    requires 2 <= |rkeys| && Whole(data) && 16 < |data| && |data| - 16 <= decrypted.Length
    modifies decrypted
    ensures fresh(last) && last.Length == 16
    ensures var p := CbcDecrypt(rkeys, Iv(iv), data); var at := |data| - 16;
      last[..] == LastBlock(p) && decrypted[..] == p[..at] + old(decrypted[at..])
    ensures forall a :: a in log <==> BeforeLast(|data|, decrypted.Length, a)
  {
    hide CbcDecrypt, Iv, Xor, DecryptBlock, DecryptsBlocks;
    last := new octet[16];
    var at := |data| - 16;
    assert data[..at] + data[at..] == data;
    log := DecryptWhole(rkeys, iv, data, at, decrypted);
    CbcDecryptNext(rkeys, Iv(iv), data[..at], data[at..]);
    DecryptState(rkeys, data[at..], last, 0);
    assert last[..] == DecryptBlock(rkeys, data[at..]);
    assert LastBlock(data[..at]) == data[at - 16..at];
    XorData(last, data[at - 16..at]);
    log := log + iset{Read(at, 16), Read(at - 16, 16)};
    ghost var front, x: Block16 := CbcDecrypt(rkeys, Iv(iv), data[..at]), last[..];
    assert LastBlock(front + x) == x && (front + x)[..at] == front;
  }

  /** One block: it is moved from the output to its own buffer, and the output is cleared. */
  method DecryptOne(rkeys: seq<State>, iv: Option<Block16>, data: seq<octet>, decrypted: array<octet>)
    returns (last: array<octet>, ghost log: iset<Access>)
    requires 2 <= |rkeys| && |data| == 16 <= decrypted.Length
    modifies decrypted
    ensures fresh(last) && last.Length == 16
    ensures last[..] == CbcDecrypt(rkeys, Iv(iv), data) && decrypted[..] == Zeros(decrypted.Length)
    ensures forall a :: a in log <==> BeforeLast(16, decrypted.Length, a)
  {
    hide CbcDecrypt, Iv, DecryptsBlocks;
    last := new octet[16];
    assert data[..16] == data;
    log := DecryptWhole(rkeys, iv, data, 16, decrypted);
    CopyFirst(decrypted, last);
    Clear(decrypted);
    log := log + iset{Write(0, decrypted.Length)};
  }

  method DecryptBlocks(rkeys: seq<State>, iv: Option<Block16>, data: seq<octet>, decrypted: array<octet>)
    returns (last: array<octet>, ghost log: iset<Access>)
    requires 2 <= |rkeys| && Whole(data) && 16 <= |data| && 16 <= decrypted.Length && |data| - 16 <= decrypted.Length
    modifies decrypted
    ensures fresh(last) && last.Length == 16
    ensures var p := CbcDecrypt(rkeys, Iv(iv), data); var at := |data| - 16;
      && last[..] == LastBlock(p)
      && decrypted[..] == p[..at] + if at == 0 then Zeros(decrypted.Length) else old(decrypted[at..])
    ensures forall a :: a in log <==> BeforeLast(|data|, decrypted.Length, a)
  {
    hide CbcDecrypt, Iv, BeforeLast;
    if |data| > 16 {
      last, log := DecryptMany(rkeys, iv, data, decrypted);
    } else {
      last, log := DecryptOne(rkeys, iv, data, decrypted);
    }
  }

  method CopyFirst(decrypted: array<octet>, last: array<octet>)
    requires last.Length == 16 <= decrypted.Length && last != decrypted
    modifies last
    ensures last[..] == decrypted[..16]
  {
    for i := 0 to 16
      invariant forall k :: 0 <= k < i ==> last[k] == decrypted[k]
    {
      last[i] := decrypted[i];
    }
  }

  /** Result, reported padding and buffer contents after decrypting to p, from a buffer that held `before`. */
  ghost predicate Outcome(p: seq<octet>, removePadding: bool, before: seq<octet>, after: seq<octet>, e: Error, paddedSize: nat)
    requires Whole(p) && p != [] && |before| == |after|
  {
    && e == (if removePadding then PaddingError(p, |after|) else Ok)
    && paddedSize == (if removePadding then LastBlock(p)[15] as nat else 0)
    && (e == Ok ==>
         var n := |p| - paddedSize;
         0 <= n <= |after| && after[..n] == p[..n]
         && after[n..] == if |p| == 16 then Zeros(|after| - n) else before[n..])
  }

  /** Decrypt data and, if asked, remove its padding and report its length. */
  method DecryptCbc(data: seq<octet>, key: seq<octet>, iv: Option<Block16>, decrypted: array<octet>, removePadding: bool)
    returns (e: Error, paddedSize: nat, ghost log: iset<Access>)
    requires |data| < Words.U64
    requires CheckDecrypt(|data|, |key|, decrypted.Length, removePadding) == Ok ==> DecryptRoom(|data|, decrypted.Length, removePadding)
    modifies decrypted
    ensures var check := CheckDecrypt(|data|, |key|, decrypted.Length, removePadding);
      if check != Ok then e == check && decrypted[..] == old(decrypted[..]) && log == iset{}
      else Whole(data) && data != [] &&
           Outcome(CbcDecrypt(RoundKeysOf(key), Iv(iv), data), removePadding, old(decrypted[..]), decrypted[..], e, paddedSize) &&
           (var pad := PadFound(CbcDecrypt(RoundKeysOf(key), Iv(iv), data));
            forall a :: a in log <==> Decrypts(|data|, decrypted.Length, removePadding, pad, a))
  {
    hide CbcDecrypt, Iv, RoundKeysOf, Outcome;
    e, paddedSize, log := CheckDecrypt(|data|, |key|, decrypted.Length, removePadding), 0, iset{};
    if e != Ok {
      return;
    }
    assert |data| != 0;
    var ok, rkeys := ExpandKey(key);
    e, paddedSize, log := DecryptChecked(rkeys, data, iv, decrypted, removePadding);
    forall a
      ensures a in log <==> Decrypts(|data|, decrypted.Length, removePadding, PadFound(CbcDecrypt(rkeys, Iv(iv), data)), a)
    {
      DecryptsParts(|data|, decrypted.Length, removePadding, PadFound(CbcDecrypt(rkeys, Iv(iv), data)), a);
    }
  }

  /** The padding that is recognised, or more than a block has. */
  function PadFound(p: seq<octet>): nat
    requires Whole(p) && p != []
  {
    if PaddingOk(LastBlock(p)) then LastBlock(p)[15] as nat else 17
  }

  method DecryptChecked(rkeys: seq<State>, data: seq<octet>, iv: Option<Block16>, decrypted: array<octet>, removePadding: bool)
    returns (e: Error, paddedSize: nat, ghost log: iset<Access>)
    requires 2 <= |rkeys| && Whole(data) && 16 <= |data| && 16 <= decrypted.Length
    requires (if removePadding then |data| - 16 else |data|) <= decrypted.Length
    modifies decrypted
    ensures Outcome(CbcDecrypt(rkeys, Iv(iv), data), removePadding, old(decrypted[..]), decrypted[..], e, paddedSize)
    ensures var pad := PadFound(CbcDecrypt(rkeys, Iv(iv), data));
      forall a :: a in log <==> BeforeLast(|data|, decrypted.Length, a) || StoresLast(|data|, decrypted.Length, removePadding, pad, a)
  {
    hide CbcDecrypt, Iv, PaddingError, BeforeLast, StoresLast, PadFound, Outcome, LastBlock;
    ghost var before := decrypted[..];
    var last;
    last, log := DecryptBlocks(rkeys, iv, data, decrypted);
    ghost var p := CbcDecrypt(rkeys, Iv(iv), data);
    var at := |data| - 16;
    ghost var mid := decrypted[..];
    assert decrypted[..at] == p[..at];
    ghost var stores;
    e, paddedSize, stores := StoreLast(last, decrypted, at, removePadding, p);
    log := log + stores;
    OutcomeOf(p, removePadding, before, mid, decrypted[..], at, e, paddedSize);
  }

  lemma OutcomeOf(p: seq<octet>, removePadding: bool, before: seq<octet>, mid: seq<octet>, after: seq<octet>, at: nat, e: Error, paddedSize: nat)
    requires Whole(p) && |p| == at + 16 && |before| == |mid| == |after| && at <= |mid|
    requires mid == p[..at] + if at == 0 then Zeros(|before|) else before[at..]
    requires e == if removePadding then PaddingError(p, |after|) else Ok
    requires paddedSize == if removePadding then LastBlock(p)[15] as nat else 0
    requires e == Ok ==> var n := |p| - paddedSize;
      at <= n <= |after| && after[..n] == p[..n] && after[n..] == mid[at..][n - at..]
    ensures Outcome(p, removePadding, before, after, e, paddedSize)
  {
    hide PaddingError;
    assert mid[at..] == if at == 0 then Zeros(|before|) else before[at..];
    RestOf(before, at, |p| - paddedSize);
  }

  lemma RestOf(before: seq<octet>, at: nat, n: int)
    requires at <= |before|
    ensures at <= n <= |before| ==> before[at..][n - at..] == before[n..]
    ensures 0 <= n <= |before| ==> Zeros(|before|)[n..] == Zeros(|before| - n)
  {
  }

  /** The kept part of the last block completes the decrypted data. */
  lemma KeepLast(p: seq<octet>, last: Block16, cs: nat, decrypted: seq<octet>, at: nat)
    requires Whole(p) && |p| == at + 16 && last == LastBlock(p) && cs <= 16 && at + cs <= |decrypted|
    requires decrypted[..at] == p[..at]
    ensures decrypted[..at] + last[..cs] == p[..at + cs]
  {
  }

  method RemovePadding(last: array<octet>, decrypted: array<octet>, at: nat, ghost p: seq<octet>)
    returns (e: Error, paddedSize: nat, ghost stores: iset<Access>)
    requires last.Length == 16 && last != decrypted && at <= decrypted.Length
    requires Whole(p) && |p| == at + 16 && last[..] == LastBlock(p) && decrypted[..at] == p[..at]
    modifies decrypted
    ensures e == PaddingError(p, decrypted.Length) && paddedSize == LastBlock(p)[15] as nat
    ensures forall a :: a in stores <==> StoresLast(|p|, decrypted.Length, true, PadFound(p), a)
    ensures e == Ok ==> var n := |p| - paddedSize;
      at <= n <= decrypted.Length && decrypted[..n] == p[..n] && decrypted[n..] == old(decrypted[at..])[n - at..]
  {
    var b: Block16 := last[..];
    assert b[15] == last[15];
    paddedSize, stores := last[15] as nat, iset{};
    var good := CheckPadding(paddedSize, b);
    if !good {
      e := InvalidKey;
    } else if decrypted.Length >= at + (16 - paddedSize) {
      KeepLast(p, b, 16 - paddedSize, decrypted[..], at);
      CopyLast(last, 16 - paddedSize, decrypted, at);
      stores := iset{Write(at, 16 - paddedSize)};
      e := Ok;
    } else {
      e := InvalidBufferSize;
    }
  }

  /** Store the last block, or what is left of it without its padding. */
  method StoreLast(last: array<octet>, decrypted: array<octet>, at: nat, removePadding: bool, ghost p: seq<octet>)
    returns (e: Error, paddedSize: nat, ghost stores: iset<Access>)
    requires last.Length == 16 && last != decrypted && at <= decrypted.Length && (removePadding || at + 16 <= decrypted.Length)
    requires Whole(p) && |p| == at + 16 && last[..] == LastBlock(p) && decrypted[..at] == p[..at]
    modifies decrypted
    ensures e == if removePadding then PaddingError(p, decrypted.Length) else Ok
    ensures paddedSize == if removePadding then LastBlock(p)[15] as nat else 0
    ensures forall a :: a in stores <==> StoresLast(|p|, decrypted.Length, removePadding, PadFound(p), a)
    ensures e == Ok ==> var n := |p| - paddedSize;
      at <= n <= decrypted.Length && decrypted[..n] == p[..n] && decrypted[n..] == old(decrypted[at..])[n - at..]
  {
    hide PadFound;
    if removePadding {
      e, paddedSize, stores := RemovePadding(last, decrypted, at, p);
    } else {
      KeepLast(p, last[..], 16, decrypted[..], at);
      CopyLast(last, 16, decrypted, at);
      e, paddedSize, stores := Ok, 0, iset{Write(at, 16)};
    }
  }

  lemma PadOctet(r: nat)
    requires r <= 16
    ensures (r as octet) as nat == r
  {
  }

  /** The padding of a message is found to be right, and says how long it is. */
  lemma PaddingRecognised(data: seq<octet>)
    ensures var last := LastBlock(Message(data, true));
      PaddingOk(last) && last[15] as nat == PadCount(|data|)
  {
    var r := PadCount(|data|);
    PadOctet(r);
    var last := LastBlock(Message(data, true));
    LastOfPadded(data);
    forall k | 16 - r <= k < 16
      ensures last[k] == r as octet
    {
      assert last[k] == Padding(|data|)[k - (16 - r)];
    }
  }

  lemma LastOfPadded(data: seq<octet>)
    ensures LastBlock(Message(data, true)) == data[|data| - |data| % 16..] + Padding(|data|)
  {
    var n := |data| - |data| % 16;
    LastPadded(data, n);
    SplitAt(Message(data, true), data[..n], data[n..] + Padding(|data|), n);
  }

  /** Encrypt and decrypt again: data of any length comes back, with or without padding. */
  method RoundTrip(data: seq<octet>, key: seq<octet>, iv: Option<Block16>, pads: bool, encrypted: array<octet>, decrypted: array<octet>)
    returns (e: Error, f: Error, paddedSize: nat)
    requires ValidKeySize(|key|) && |data| < Words.U64 - 32 && encrypted != decrypted
    requires !pads ==> |data| % 16 == 0 && data != []
    requires EncryptedSize(|data|, pads) <= encrypted.Length && EncryptedSize(|data|, pads) <= decrypted.Length
    modifies encrypted, decrypted
    ensures e == Ok && f == Ok && decrypted[..|data|] == data
    ensures paddedSize == if pads then PadCount(|data|) else 0
  {
    hide CbcEncrypt, CbcDecrypt, Iv, RoundKeysOf, PaddingOk, LastBlock;
    ghost var m := Message(data, pads);
    ghost var log;
    e, log := EncryptCbc(data, key, iv, encrypted, pads);
    var n := EncryptedSize(|data|, pads);
    assert n == |m|;
    SplitAt(encrypted[..], CbcEncrypt(RoundKeysOf(key), Iv(iv), m), encrypted[n..], n);
    CbcInverse(RoundKeysOf(key), Iv(iv), m);
    if pads {
      PaddingRecognised(data);
    }
    f, paddedSize, log := DecryptCbc(encrypted[..n], key, iv, decrypted, pads);
    assert m[..|data|] == data;
  }
}
