/**
 Which bytes the chained modes read and write.
 */
module AesAccess {
  import Words

  /** A run of bytes read from the input or written to the output. */
  datatype Access = Read(at: nat, count: nat) | Write(at: nat, count: nat)

  // Encryption

  /** A block after the first one. */
  predicate EncryptsBlock(i: nat, a: Access) {
    a == Read(16 * i, 16) || a == Write(16 * i, 16)
  }

  /** The accesses of an encryption, in the order of the code: the first block, the others, the padded one. */
  ghost predicate Encrypts(n: nat, pads: bool, a: Access) {
    || a == Read(0, if n < 16 then n else 16)
    || a == Write(0, 16)
    || (exists i: nat :: 1 <= i < n / 16 && EncryptsBlock(i, a))
    || (pads && 16 <= n && (a == Read(n - n % 16, n % 16) || a == Write(n - n % 16, 16)))
  }

  /** The accesses to the first k blocks. */
  ghost predicate EncryptsBlocks(k: nat, a: Access) {
    || a == Read(0, 16)
    || a == Write(0, 16)
    || (exists i: nat :: 1 <= i < k && EncryptsBlock(i, a))
  }

  lemma NextEncrypts(k: nat, a: Access)
    requires 1 <= k
    ensures EncryptsBlocks(k + 1, a) <==> EncryptsBlocks(k, a) || EncryptsBlock(k, a)
    ensures EncryptsBlocks(1, a) <==> a == Read(0, 16) || a == Write(0, 16)
  {
  }

  /** The accesses of data of at least one block: whole blocks, and a padded one. */
  lemma EncryptsParts(n: nat, pads: bool, a: Access)
    requires 16 <= n
    ensures Encrypts(n, pads, a) <==>
            EncryptsBlocks(n / 16, a) || (pads && (a == Read(n - n % 16, n % 16) || a == Write(n - n % 16, 16)))
  {
    hide EncryptsBlock;
  }

  lemma EncryptsShort(n: nat, pads: bool, a: Access)
    requires n < 16
    ensures Encrypts(n, pads, a) <==> a == Read(0, n) || a == Write(0, 16)
  {
  }

  // Decryption

  /** A block after the first one, and the one before it. */
  predicate DecryptsBlock(i: nat, a: Access)
    requires 1 <= i
  {
    a == Read(16 * i - 16, 16) || a == Read(16 * i, 16) || a == Write(16 * i, 16)
  }

  /** The number of blocks before the last one, as an unsigned number: it wraps around for empty data. */
  function FrontBlocks(n: nat): nat {
    (n / 16 - 1) % Words.U64
  }

  /** The accesses of a decryption that finds pad bytes of padding: the first block, the others, the last one. */
  ghost predicate Decrypts(n: nat, len: nat, removePadding: bool, pad: nat, a: Access) {
    var at := 16 * FrontBlocks(n);
    || a == Read(0, 16)
    || a == Write(0, 16)
    || (exists i: nat :: 1 <= i < FrontBlocks(n) && DecryptsBlock(i, a))
    || (16 < n && (a == Read(at, 16) || (16 <= at && a == Read(at - 16, 16))))
    || (n <= 16 && a == Write(0, len))
    || (removePadding && pad <= 16 && at + 16 - pad <= len && a == Write(at, 16 - pad))
    || (!removePadding && a == Write(at, 16))
  }

  /** The accesses to the first k blocks. */
  ghost predicate DecryptsBlocks(k: nat, a: Access) {
    || a == Read(0, 16)
    || a == Write(0, 16)
    || (exists i: nat :: 1 <= i < k && DecryptsBlock(i, a))
  }

  lemma NextDecrypts(k: nat, a: Access)
    requires 1 <= k
    ensures DecryptsBlocks(k + 1, a) <==> DecryptsBlocks(k, a) || DecryptsBlock(k, a)
    ensures DecryptsBlocks(1, a) <==> a == Read(0, 16) || a == Write(0, 16)
  {
  }

  /** The accesses before the last block is stored. */
  ghost predicate BeforeLast(n: nat, len: nat, a: Access)
    requires 16 <= n && n % 16 == 0
  {
    if n == 16 then DecryptsBlocks(1, a) || a == Write(0, len)
    else DecryptsBlocks(n / 16 - 1, a) || a == Read(n - 16, 16) || a == Read(n - 32, 16)
  }

  /** The access that stores the last block. */
  predicate StoresLast(n: nat, len: nat, removePadding: bool, pad: nat, a: Access)
    requires 16 <= n
  {
    || (removePadding && pad <= 16 && n - pad <= len && a == Write(n - 16, 16 - pad))
    || (!removePadding && a == Write(n - 16, 16))
  }

  lemma DecryptsParts(n: nat, len: nat, removePadding: bool, pad: nat, a: Access)
    requires 16 <= n < Words.U64 && n % 16 == 0
    ensures Decrypts(n, len, removePadding, pad, a) <==> BeforeLast(n, len, a) || StoresLast(n, len, removePadding, pad, a)
  {
    assert FrontBlocks(n) == n / 16 - 1 && 16 * FrontBlocks(n) == n - 16;
    hide FrontBlocks, DecryptsBlock;
  }
}
