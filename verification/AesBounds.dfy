/**
 For which sizes the accesses of the chained modes stay inside their buffers, once the checks on the
 sizes have passed.
 */
module AesBounds {
  import opened AesAccess
  import opened AesCbc
  import opened GaloisField
  import Words

  predicate InBounds(a: Access, dataSize: nat, outSize: nat) {
    match a
    case Read(at, count) => at + count <= dataSize
    case Write(at, count) => at + count <= outSize
  }

  // Encryption

  ghost predicate EncryptInBounds(n: nat, len: nat, pads: bool) {
    forall a :: Encrypts(n, pads, a) ==> InBounds(a, n, len)
  }

  /** After the checks, encryption stays in its buffers except for empty data without padding in a short buffer. */
  lemma EncryptBounds(n: nat, keySize: nat, len: nat, pads: bool)
    requires CheckEncrypt(n, keySize, len, pads) == Ok
    ensures EncryptInBounds(n, len, pads) <==> EncryptRoom(n, len, pads)
  {
    if EncryptRoom(n, len, pads) {
      forall a | Encrypts(n, pads, a)
        ensures InBounds(a, n, len)
      {
      }
    } else {
      assert Encrypts(n, pads, Write(0, 16)) && !InBounds(Write(0, 16), n, len);
    }
  }

  /** Empty data without padding: the checks pass for any buffer, and sixteen bytes are written. */
  lemma EncryptOverrun(len: nat)
    requires len < 16
    ensures CheckEncrypt(0, 16, len, false) == Ok && !EncryptInBounds(0, len, false)
  {
    EncryptBounds(0, 16, len, false);
  }

  // Decryption

  ghost predicate DecryptInBounds(n: nat, len: nat, removePadding: bool, pad: nat) {
    forall a :: Decrypts(n, len, removePadding, pad, a) ==> InBounds(a, n, len)
  }

  /**
   After the checks, decryption stays in its buffers except for empty data and for a single block
   whose padding is to be removed in a short buffer.
   */
  lemma DecryptBounds(n: nat, keySize: nat, len: nat, removePadding: bool, pad: nat)
    requires n < Words.U64 && CheckDecrypt(n, keySize, len, removePadding) == Ok
    ensures DecryptInBounds(n, len, removePadding, pad) <==> DecryptRoom(n, len, removePadding)
  {
    if n == 0 {
      assert Decrypts(n, len, removePadding, pad, Read(0, 16)) && !InBounds(Read(0, 16), n, len);
    } else if len < 16 {
      assert Decrypts(n, len, removePadding, pad, Write(0, 16)) && !InBounds(Write(0, 16), n, len);
    } else {
      assert FrontBlocks(n) == n / 16 - 1;
      forall a | Decrypts(n, len, removePadding, pad, a)
        ensures InBounds(a, n, len)
      {
      }
    }
  }

  /** A single block whose padding is to be removed: the checks pass for any buffer, and sixteen bytes are written. */
  lemma DecryptOverrun(len: nat, pad: nat)
    requires len < 16
    ensures CheckDecrypt(16, 16, len, true) == Ok && !DecryptInBounds(16, len, true, pad)
  {
    DecryptBounds(16, 16, len, true, pad);
  }

  /** Empty data whose padding is kept: the checks pass, and the number of blocks before the last wraps around. */
  lemma DecryptEmpty(len: nat, pad: nat)
    ensures CheckDecrypt(0, 16, len, false) == Ok && !DecryptInBounds(0, len, false, pad)
    ensures FrontBlocks(0) == Words.U64 - 1
  {
    DecryptBounds(0, 16, len, false, pad);
  }

  // The errors

  /**
   The errors of encrypt_cbc in their order. The room asked for is that of the message, except that
   nothing is asked for empty data without padding.
   */
  lemma EncryptErrors(data: seq<octet>, keySize: nat, len: nat, pads: bool)
    ensures var e := CheckEncrypt(|data|, keySize, len, pads);
      if !pads && |data| % 16 != 0 then e == InvalidDataSize
      else if keySize !in {16, 24, 32} then e == InvalidKeySize
      else if len < (if pads || data != [] then |Message(data, pads)| else 0) then e == InvalidBufferSize
      else e == Ok
  {
  }

  /**
   The errors of decrypt_cbc in their order. The room asked for is that of the data, or one block less
   if padding is removed; for empty data this wraps around to a size that no buffer has.
   */
  lemma DecryptErrors(n: nat, keySize: nat, len: nat, removePadding: bool)
    requires n < Words.U64 && len < Words.U64 - 16
    ensures var e := CheckDecrypt(n, keySize, len, removePadding);
      if n % 16 != 0 then e == InvalidDataSize
      else if keySize !in {16, 24, 32} then e == InvalidKeySize
      else if removePadding && n < 16 then e == InvalidBufferSize
      else if len < (if removePadding then n - 16 else n) then e == InvalidBufferSize
      else e == Ok
  {
  }

  /** The padding that is taken off again is the one that was put on: as many bytes as are missing to the next block. */
  lemma PaddingErrors(data: seq<octet>, len: nat)
    ensures PaddingError(data + Padding(|data|), len) == if len < |data| then InvalidBufferSize else Ok
  {
    PaddingRecognised(data);
  }
}
