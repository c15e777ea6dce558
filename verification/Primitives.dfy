/**
 What the model takes from the crates it cannot see.

 A `Suite` bundles the hash functions, the block ciphers and the algorithm tables. `Primitives`
 are the suites of which the model assumes exactly `Valid`: digest lengths, block ciphers that are
 permutations under every key of the right length, and the documented table rows.
 `ToySuite` shows that the assumptions hold together.
 */
module Primitives {
  import opened Bytes
  import opened Results

  const CALG_SHA1: u32 := 0x8004
  const CALG_HMAC: u32 := 0x8009
  const CALG_SHA_512: u32 := 0x800e
  const CALG_AES_256: u32 := 0x6610

  datatype HashAlg = HashAlg(isSha512: bool, digestLen: nat, deriveBlockLen: nat, hashBlockLen: nat)

  datatype CipherAlg = CipherAlg(keyLen: nat, ivLen: nat)

  datatype BlockCipher = BlockCipher(
    keyLen: nat,
    blockLen: nat,
    enc: (bytes, bytes) -> bytes,
    dec: (bytes, bytes) -> bytes)
  {
    /** Under every key, `enc` and `dec` are inverse permutations of the blocks. */
    ghost predicate Valid() {
      && 0 < blockLen < 256
      && (forall k: bytes, b: bytes {:trigger enc(k, b)} ::
            |k| == keyLen && |b| == blockLen ==> |enc(k, b)| == blockLen && dec(k, enc(k, b)) == b)
      && (forall k: bytes, b: bytes {:trigger dec(k, b)} ::
            |k| == keyLen && |b| == blockLen ==> |dec(k, b)| == blockLen && enc(k, dec(k, b)) == b)
    }
  }

  /** The external library functions of the stores, about which nothing is assumed. */
  datatype Library = Library(
    utf8: bytes -> Option<string>,
    utf8Lossy: bytes -> string,
    base64: bytes -> Option<bytes>,
    encryptedKeyField: string -> Option<string>,
    gcmDecrypt: (bytes, bytes, bytes) -> Option<bytes>)

  datatype Suite = Suite(
    sha1: bytes -> bytes,
    sha512: bytes -> bytes,
    aes: BlockCipher,
    tdes: BlockCipher,
    hashInfo: u32 -> Option<HashAlg>,
    cipherInfo: u32 -> Option<CipherAlg>)
  {
    ghost predicate Valid() {
      && (forall m: bytes :: |sha1(m)| == 20)
      && (forall m: bytes :: |sha512(m)| == 64)
      && aes.Valid() && aes.keyLen == 32 && aes.blockLen == 16
      && tdes.Valid() && tdes.keyLen == 24 && tdes.blockLen == 8
      && TablesValid()
    }

    /** The rows of the two knowledge tables; any 3DES identifiers are left open. */
    ghost predicate TablesValid() {
      && hashInfo(CALG_SHA1) == Some(HashAlg(false, 20, 64, 64))
      && hashInfo(CALG_HMAC).Some?
      && hashInfo(CALG_HMAC).value == HashAlg(true, hashInfo(CALG_HMAC).value.digestLen, 64, 128)
      && hashInfo(CALG_SHA_512).Some?
      && hashInfo(CALG_SHA_512).value == HashAlg(true, hashInfo(CALG_SHA_512).value.digestLen, 128, 128)
      && (forall id: u32 :: hashInfo(id).Some? ==> id == CALG_SHA1 || id == CALG_HMAC || id == CALG_SHA_512)
      && cipherInfo(CALG_AES_256) == Some(CipherAlg(32, 16))
      && (forall id: u32 :: cipherInfo(id).Some? && id != CALG_AES_256 ==> cipherInfo(id) == Some(CipherAlg(24, 8)))
    }
  }

  type Cipher = c: BlockCipher | c.Valid() ghost witness ToyCipher(0, 1)

  type Primitives = s: Suite | s.Valid() ghost witness ToySuite()

  function EncBlock(c: Cipher, key: bytes, block: bytes): (r: bytes)
    requires |key| == c.keyLen && |block| == c.blockLen
    ensures |r| == c.blockLen
  {
    c.enc(key, block)
  }

  function DecBlock(c: Cipher, key: bytes, block: bytes): (r: bytes)
    requires |key| == c.keyLen && |block| == c.blockLen
    ensures |r| == c.blockLen
  {
    c.dec(key, block)
  }

  lemma BlockInverses(c: Cipher, key: bytes, block: bytes)
    requires |key| == c.keyLen && |block| == c.blockLen
    ensures DecBlock(c, key, EncBlock(c, key, block)) == block
    ensures EncBlock(c, key, DecBlock(c, key, block)) == block
  {
    assert |c.enc(key, block)| == c.blockLen && |c.dec(key, block)| == c.blockLen;
  }

  /** A cipher that leaves every block as it is. */
  function ToyCipher(keyLen: nat, blockLen: nat): (c: BlockCipher)
    requires 0 < blockLen < 256
    ensures c.Valid() && c.keyLen == keyLen && c.blockLen == blockLen
  {
    BlockCipher(keyLen, blockLen, (k, b) => b, (k, b) => b)
  }

  /** A hash that drops one block and keeps what fits in the digest. */
  function ToyHash(m: bytes, block: nat, digest: nat): (d: bytes)
    ensures |d| == digest
  {
    Resize(if |m| < block then [] else m[block..], digest)
  }

  function ToyHashInfo(id: u32): Option<HashAlg> {
    if id == CALG_SHA1 then Some(HashAlg(false, 20, 64, 64))
    else if id == CALG_HMAC then Some(HashAlg(true, 20, 64, 128))
    else if id == CALG_SHA_512 then Some(HashAlg(true, 64, 128, 128))
    else None
  }

  function ToyCipherInfo(id: u32): Option<CipherAlg> {
    if id == CALG_AES_256 then Some(CipherAlg(32, 16)) else Some(CipherAlg(24, 8))
  }

  /** The assumptions are consistent: this suite meets all of them. */
  function ToySuite(): (s: Suite)
    ensures s.Valid()
  {
    Suite((m: bytes) => ToyHash(m, 64, 20), (m: bytes) => ToyHash(m, 128, 64),
          ToyCipher(32, 16), ToyCipher(24, 8),
          (id: u32) => ToyHashInfo(id), (id: u32) => ToyCipherInfo(id))
  }

  /** The parameters of a hash identifier; anything unrecognised is treated as SHA-1. */
  function HashAlgOf(p: Primitives, id: u32): (a: HashAlg)
    ensures a.hashBlockLen == HashBlockLen(a.isSha512)
    ensures a.deriveBlockLen == 64 || (a.isSha512 && a.deriveBlockLen == 128)
    ensures a.isSha512 <==> id == CALG_HMAC || id == CALG_SHA_512
  {
    match p.hashInfo(id)
    case Some(a) => a
    case None => HashAlg(false, 20, 64, 64)
  }

  /** AES-256 for its own identifier, 3DES for every other one. */
  function CipherOf(p: Primitives, id: u32): (c: Cipher)
    ensures p.cipherInfo(id).Some? ==>
              p.cipherInfo(id).value.keyLen == c.keyLen && p.cipherInfo(id).value.ivLen == c.blockLen
    ensures c.keyLen <= 32 && (c.blockLen == 16 || c.blockLen == 8)
  {
    if id == CALG_AES_256 then p.aes else p.tdes
  }

  function DigestLen(isSha512: bool): nat {
    if isSha512 then 64 else 20
  }

  /** The input block of the hash module. */
  function HashBlockLen(isSha512: bool): nat {
    if isSha512 then 128 else 64
  }

  function Digest(p: Primitives, isSha512: bool, m: bytes): (d: bytes)
    ensures |d| == DigestLen(isSha512)
  {
    if isSha512 then p.sha512(m) else p.sha1(m)
  }
}
