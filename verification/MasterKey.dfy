/** The master-key file and the master key in it (`core/src/masterkey.rs`). */
module MasterKey {
  import opened Bytes
  import opened Results
  import opened Primitives
  import opened Mac
  import opened Cbc
  import opened Wire
  import opened Text
  import opened KeyDerivation

  const MASTER_KEY_LEN := 64

  // ---------- The file ----------

  type guidText = b: bytes | |b| == 72 witness Zeros(72)
  type blob64 = b: bytes | |b| < 0x1_0000_0000_0000_0000

  datatype FileHeader = FileHeader(
    version: u32,
    unk1: u32,
    unk2: u32,
    guid: guidText,
    unknown: u32,
    policy: u32,
    flags: u32)

  /** Everything a master-key file stores. */
  datatype WireFile = WireFile(
    header: FileHeader,
    masterKey: blob64,
    backupKey: blob64,
    credHist: blob64,
    domainKey: blob64)

  datatype MasterKeyFile = MasterKeyFile(
    version: u32,
    guid: string,
    policy: u32,
    flags: u32,
    masterKey: bytes,
    backupKey: bytes,
    credHist: bytes,
    domainKey: bytes)

  function FileView(f: WireFile): MasterKeyFile {
    MasterKeyFile(f.header.version, DecodeUtf16Le(f.header.guid), f.header.policy, f.header.flags,
                  f.masterKey, f.backupKey, f.credHist, f.domainKey)
  }

  function HeaderThen(h: FileHeader, t: bytes): bytes {
    Le32(h.version) + (Le32(h.unk1) + (Le32(h.unk2) + (h.guid + (Le32(h.unknown) + (Le32(h.policy) + (Le32(h.flags) + t))))))
  }

  function LengthsThen(f: WireFile, t: bytes): bytes {
    Le64(|f.masterKey|) + (Le64(|f.backupKey|) + (Le64(|f.credHist|) + (Le64(|f.domainKey|) + t)))
  }

  function BlobsThen(f: WireFile, t: bytes): bytes {
    f.masterKey + (f.backupKey + (f.credHist + (f.domainKey + t)))
  }

  /** The writer: header, four lengths, four sub-blobs, further bytes. */
  function WriteFile(f: WireFile, t: bytes): bytes {
    HeaderThen(f.header, LengthsThen(f, BlobsThen(f, t)))
  }

  function TakeHeader(s: bytes): (r: Result<(FileHeader, bytes)>)
    ensures r.Ok? ==> s == HeaderThen(r.value.0, r.value.1) && |s| == 96 + |r.value.1|
    ensures r.Ok? <==> |s| >= 96
    ensures r.Err? ==> r == Err(TooShort)
  {
    var (version, s) :- TakeU32(s);
    var (unk1, s) :- TakeU32(s);
    var (unk2, s) :- TakeU32(s);
    var (guid, s) :- TakeBytes(s, 72);
    var (unknown, s) :- TakeU32(s);
    var (policy, s) :- TakeU32(s);
    var (flags, s) :- TakeU32(s);
    Ok((FileHeader(version, unk1, unk2, guid, unknown, policy, flags), s))
  }

  /** The four lengths, then the four sub-blobs of those lengths. */
  function TakeBlobs(header: FileHeader, s: bytes): (r: Result<(WireFile, bytes)>)
    ensures r.Ok? ==> r.value.0.header == header && s == LengthsThen(r.value.0, BlobsThen(r.value.0, r.value.1))
    ensures r.Ok? ==> |s| >= 32
    ensures r.Err? ==> r == Err(TooShort)
  {
    var (mk, s) :- TakeU64(s);
    var (bk, s) :- TakeU64(s);
    var (ch, s) :- TakeU64(s);
    var (dk, s) :- TakeU64(s);
    var (masterKey, s) :- TakeBytes(s, mk);
    var (backupKey, s) :- TakeBytes(s, bk);
    var (credHist, s) :- TakeBytes(s, ch);
    var (domainKey, s) :- TakeBytes(s, dk);
    Ok((WireFile(header, masterKey, backupKey, credHist, domainKey), s))
  }

  /** The specification parser of the file. */
  function ParseWireFile(data: bytes): (r: Result<(WireFile, bytes)>)
    ensures r.Ok? ==> data == WriteFile(r.value.0, r.value.1) && |data| >= 128
    ensures r.Err? ==> r == Err(TooShort)
  {
    var (header, s) :- TakeHeader(data);
    TakeBlobs(header, s)
  }

  function ParseFile(data: bytes): Result<MasterKeyFile> {
    var (f, _) :- ParseWireFile(data);
    Ok(FileView(f))
  }

  lemma TakeHeaderPut(h: FileHeader, t: bytes)
    ensures TakeHeader(HeaderThen(h, t)) == Ok((h, t))
  {
    var t6 := Le32(h.flags) + t;
    var t5 := Le32(h.policy) + t6;
    var t4 := Le32(h.unknown) + t5;
    var t3 := h.guid + t4;
    TakeU32Put(h.version, Le32(h.unk1) + (Le32(h.unk2) + t3));
    TakeU32Put(h.unk1, Le32(h.unk2) + t3);
    TakeU32Put(h.unk2, t3);
    TakeBytesPut(h.guid, t4);
    TakeU32Put(h.unknown, t5);
    TakeU32Put(h.policy, t6);
    TakeU32Put(h.flags, t);
  }

  lemma TakeBlobsPut(f: WireFile, t: bytes)
    ensures TakeBlobs(f.header, LengthsThen(f, BlobsThen(f, t))) == Ok((f, t))
  {
    var b := BlobsThen(f, t);
    var t3 := Le64(|f.domainKey|) + b;
    var t2 := Le64(|f.credHist|) + t3;
    TakeU64Put(|f.masterKey|, Le64(|f.backupKey|) + t2);
    TakeU64Put(|f.backupKey|, t2);
    TakeU64Put(|f.credHist|, t3);
    TakeU64Put(|f.domainKey|, b);
    TakeBytesPut(f.masterKey, f.backupKey + (f.credHist + (f.domainKey + t)));
    TakeBytesPut(f.backupKey, f.credHist + (f.domainKey + t));
    TakeBytesPut(f.credHist, f.domainKey + t);
    TakeBytesPut(f.domainKey, t);
  }

  /** Parsing the file inverts writing it, and accepts nothing that was not written. */
  lemma ParseFileExact(data: bytes, view: MasterKeyFile)
    ensures ParseFile(data) == Ok(view) <==>
            exists f, t {:trigger WriteFile(f, t)} ::
              && data == WriteFile(f, t)
              && view == MasterKeyFile(f.header.version, DecodeUtf16Le(f.header.guid), f.header.policy, f.header.flags,
                                       f.masterKey, f.backupKey, f.credHist, f.domainKey)
  {
    if ParseFile(data) == Ok(view) {
      var (f, t) := ParseWireFile(data).value;
      assert data == WriteFile(f, t);
    }
    forall f, t | data == WriteFile(f, t) && view == FileView(f)
      ensures ParseFile(data) == Ok(view)
    {
      ParseFileOfWrite(f, t);
    }
  }

  lemma ParseFileOfWrite(f: WireFile, t: bytes)
    ensures ParseFile(WriteFile(f, t)) == Ok(FileView(f))
  {
    TakeHeaderPut(f.header, LengthsThen(f, BlobsThen(f, t)));
    TakeBlobsPut(f, t);
  }

  /** The checked read of a number: out of range is an error. */
  method ReadU32Checked(data: bytes, pos: nat) returns (r: Result<u32>, next: nat)
    ensures r.Ok? <==> pos + 4 <= |data|
    ensures r.Ok? ==> next == pos + 4 && TakeU32(data[pos..]) == Ok((r.value, data[next..]))
    ensures r.Err? ==> r == Err(TooShort)
  {
    var v;
    v, next := ReadU32(data, pos);
    r := if next <= |data| then Ok(v) else Err(TooShort);
  }

  method ReadU64Checked(data: bytes, pos: nat) returns (r: Result<u64>, next: nat)
    ensures r.Ok? <==> pos + 8 <= |data|
    ensures r.Ok? ==> next == pos + 8 && TakeU64(data[pos..]) == Ok((r.value, data[next..]))
    ensures r.Err? ==> r == Err(TooShort)
  {
    next := pos + 8;
    if next <= |data| {
      assert Pow256(8) == 0x1_0000_0000_0000_0000;
      LeOfFromLe(data[pos..next]);
      r := Ok(FromLe(data[pos..next]));
      TakeBytesAt(data, pos, 8);
      assert data[pos..][..8] == data[pos..next];
    } else {
      r := Err(TooShort);
    }
  }

  /** The parser as it runs: a length check, a cursor over the header, and the four sub-blobs taken in turn. */
  method ParseMasterkeyFile(data: bytes) returns (r: Result<MasterKeyFile>)
    ensures r == ParseFile(data)
  {
    if |data| < 128 {
      return Err(TooShort);
    }
    var header, pos := ReadHeader(data);
    var f;
    f, pos := ReadBlobs(data, pos, header);
    r := if f.Ok? then Ok(FileView(f.value)) else Err(f.error);
  }

  method ReadHeader(data: bytes) returns (h: FileHeader, pos: nat)
    requires |data| >= 128
    ensures pos == 96 && TakeHeader(data) == Ok((h, data[pos..]))
  {
    pos := 0;
    assert data[0..] == data;
    var version, unk1, unk2, unknown, policy, flags;
    version, pos := ReadU32Checked(data, pos);
    unk1, pos := ReadU32Checked(data, pos);
    unk2, pos := ReadU32Checked(data, pos);
    var guid := data[pos..pos + 72];
    TakeBytesAt(data, pos, 72);
    pos := pos + 72;
    unknown, pos := ReadU32Checked(data, pos);
    policy, pos := ReadU32Checked(data, pos);
    flags, pos := ReadU32Checked(data, pos);
    h := FileHeader(version.value, unk1.value, unk2.value, guid, unknown.value, policy.value, flags.value);
  }

  method ReadBlobs(data: bytes, start: nat, header: FileHeader) returns (r: Result<WireFile>, pos: nat)
    requires start + 32 <= |data|
    ensures r.Err? ==> TakeBlobs(header, data[start..]) == Err(r.error)
    ensures r.Ok? ==> pos <= |data| && TakeBlobs(header, data[start..]) == Ok((r.value, data[pos..]))
  {
    var mk, bk, ch, dk;
    mk, pos := ReadU64Checked(data, start);
    bk, pos := ReadU64Checked(data, pos);
    ch, pos := ReadU64Checked(data, pos);
    dk, pos := ReadU64Checked(data, pos);
    var masterKey, backupKey, credHist, domainKey;
    masterKey, pos := ReadBytes(data, pos, mk.value);
    if masterKey.Err? {
      return Err(masterKey.error), pos;
    }
    backupKey, pos := ReadBytes(data, pos, bk.value);
    if backupKey.Err? {
      return Err(backupKey.error), pos;
    }
    credHist, pos := ReadBytes(data, pos, ch.value);
    if credHist.Err? {
      return Err(credHist.error), pos;
    }
    domainKey, pos := ReadBytes(data, pos, dk.value);
    if domainKey.Err? {
      return Err(domainKey.error), pos;
    }
    r := Ok(WireFile(header, masterKey.value, backupKey.value, credHist.value, domainKey.value));
  }

  // ---------- The MasterKey sub-blob ----------

  /** The sub-blob; everything behind the fixed fields is the encrypted payload. */
  datatype MasterKeyBlob = MasterKeyBlob(
    version: u32,
    salt: guid,
    rounds: u32,
    algHash: u32,
    algEncrypt: u32,
    data: bytes)

  function WriteMasterKey(mk: MasterKeyBlob): bytes {
    Le32(mk.version) + (mk.salt + (Le32(mk.rounds) + (Le32(mk.algHash) + (Le32(mk.algEncrypt) + mk.data))))
  }

  function ParseMasterKey(data: bytes): (r: Result<MasterKeyBlob>)
    ensures r.Ok? ==> data == WriteMasterKey(r.value)
    ensures r.Ok? <==> |data| >= 32
    ensures r.Err? ==> r == Err(TooShort)
  {
    var (version, s) :- TakeU32(data);
    var (salt, s) :- TakeBytes(s, 16);
    var (rounds, s) :- TakeU32(s);
    var (algHash, s) :- TakeU32(s);
    var (algEncrypt, s) :- TakeU32(s);
    Ok(MasterKeyBlob(version, salt, rounds, algHash, algEncrypt, s))
  }

  /** The sub-blob parser is a bijection between the strings of at least 32 bytes and the records. */
  lemma ParseMasterKeyExact(data: bytes, mk: MasterKeyBlob)
    ensures ParseMasterKey(data) == Ok(mk) <==> data == WriteMasterKey(mk)
  {
    var t4 := Le32(mk.algEncrypt) + mk.data;
    var t3 := Le32(mk.algHash) + t4;
    var t2 := Le32(mk.rounds) + t3;
    TakeU32Put(mk.version, mk.salt + t2);
    TakeBytesPut(mk.salt, t2);
    TakeU32Put(mk.rounds, t3);
    TakeU32Put(mk.algHash, t4);
    TakeU32Put(mk.algEncrypt, mk.data);
  }

  method ParseMasterKeyBytes(data: bytes) returns (r: Result<MasterKeyBlob>)
    ensures r == ParseMasterKey(data)
  {
    if |data| < 32 {
      return Err(TooShort);
    }
    var pos := 0;
    assert data[0..] == data;
    var version, rounds, algHash, algEncrypt;
    version, pos := ReadU32Checked(data, pos);
    var salt := data[pos..pos + 16];
    TakeBytesAt(data, pos, 16);
    pos := pos + 16;
    rounds, pos := ReadU32Checked(data, pos);
    algHash, pos := ReadU32Checked(data, pos);
    algEncrypt, pos := ReadU32Checked(data, pos);
    r := Ok(MasterKeyBlob(version.value, salt, rounds.value, algHash.value, algEncrypt.value, data[pos..]));
  }

  // ---------- Opening the master key ----------

  /** `CALG_HMAC` means SHA-1 here; every other identifier must have a table row. */
  function UsesSha512(p: Primitives, algHash: u32): (r: Result<bool>)
    ensures r.Ok? <==> p.hashInfo(algHash).Some?
    ensures r.Ok? ==> (r.value <==> algHash == CALG_SHA_512)
    ensures r.Err? ==> r == Err(UnsupportedAlgId(algHash))
  {
    if algHash == CALG_HMAC then Ok(false)
    else match p.hashInfo(algHash)
         case Some(h) => Ok(h.isSha512)
         case None => Err(UnsupportedAlgId(algHash))
  }

  /** The stored digest length of a recognised hash identifier. */
  function StoredLen(p: Primitives, algHash: u32): nat
    requires p.hashInfo(algHash).Some?
  {
    p.hashInfo(algHash).value.digestLen
  }

  /** Cipher key and IV, derived in one go. */
  function KeyAndIv(p: Primitives, mk: MasterKeyBlob, preKey: bytes): (k: (bytes, bytes))
    ensures |k.0| == CipherOf(p, mk.algEncrypt).keyLen && |k.1| == CipherOf(p, mk.algEncrypt).blockLen
  {
    var c := CipherOf(p, mk.algEncrypt);
    var derived := DerivedKey(HmacPrf(p, mk.algHash == CALG_SHA_512, preKey), mk.salt, c.keyLen + c.blockLen, mk.rounds);
    (derived[..c.keyLen], derived[c.keyLen..])
  }

  /** The cipher key comes first and does not depend on the length of the IV behind it. */
  lemma KeyAndIvExact(p: Primitives, mk: MasterKeyBlob, preKey: bytes)
    ensures var (key, iv) := KeyAndIv(p, mk, preKey);
            var prf := HmacPrf(p, mk.algHash == 0x800e, preKey);
            var keyLen, ivLen := if mk.algEncrypt == 0x6610 then 32 else 24, if mk.algEncrypt == 0x6610 then 16 else 8;
            && key == DerivedKey(prf, mk.salt, keyLen, mk.rounds)
            && key + iv == DerivedKey(prf, mk.salt, keyLen + ivLen, mk.rounds)
  {
    hide DerivedKey;
    var c := CipherOf(p, mk.algEncrypt);
    DerivedKeyPrefix(HmacPrf(p, mk.algHash == CALG_SHA_512, preKey), mk.salt, mk.rounds, c.keyLen, c.keyLen + c.blockLen);
  }

  /** The HMAC of a key under the HMAC of the salt. */
  function KeyMac(p: Primitives, isSha512: bool, preKey: bytes, hmacSalt: bytes, key: bytes): (d: bytes)
    ensures |d| == DigestLen(isSha512)
  {
    Hmac(p, isSha512, Hmac(p, isSha512, preKey, hmacSalt), key)
  }

  /** `key` ends the cleartext, and the cleartext holds the first `len` bytes of its HMAC. */
  predicate Authentic(p: Primitives, isSha512: bool, preKey: bytes, len: nat, clear: bytes, key: bytes) {
    && |clear| >= MASTER_KEY_LEN && |clear| >= 16 + len
    && key == clear[|clear| - MASTER_KEY_LEN..]
    && len <= DigestLen(isSha512)
    && KeyMac(p, isSha512, preKey, clear[..16], key)[..len] == clear[16..16 + len]
  }

  /** The key at the end of a cleartext, if the cleartext is long enough and holds its HMAC. */
  function ClearKey(p: Primitives, isSha512: bool, preKey: bytes, len: nat, clear: bytes): Result<bytes> {
    if |clear| < MASTER_KEY_LEN || |clear| < 16 + len then Err(DecryptionFailed)
    else
      var masterKey := clear[|clear| - MASTER_KEY_LEN..];
      if Authentic(p, isSha512, preKey, len, clear, masterKey) then Ok(masterKey) else Err(HmacMismatch)
  }

  function OpenMasterKey(p: Primitives, mk: MasterKeyBlob, preKey: bytes): Result<bytes> {
    var isSha512 :- UsesSha512(p, mk.algHash);
    if p.cipherInfo(mk.algEncrypt).None? then Err(UnsupportedAlgId(mk.algEncrypt))
    else
      var (key, iv) := KeyAndIv(p, mk, preKey);
      var clear :- DecryptNoPad(CipherOf(p, mk.algEncrypt), key, iv, mk.data);
      ClearKey(p, isSha512, preKey, StoredLen(p, mk.algHash), clear)
  }

  method DeriveMasterKeyFromPrekey(p: Primitives, mk: MasterKeyBlob, preKey: bytes) returns (r: Result<bytes>)
    ensures r == OpenMasterKey(p, mk, preKey)
  {
    var sha := UsesSha512(p, mk.algHash);
    if sha.Err? {
      return Err(sha.error);
    }
    var cipher := p.cipherInfo(mk.algEncrypt);
    if cipher.None? {
      return Err(UnsupportedAlgId(mk.algEncrypt));
    }
    var len := p.hashInfo(mk.algHash).value.digestLen;
    var clear := DecryptPayload(p, mk, preKey, sha.value, cipher.value);
    if clear.Err? {
      return clear;
    }
    r := CheckCleartext(p, sha.value, preKey, len, clear.value);
  }

  /** Derives `cipher key ‖ IV` and decrypts the payload. */
  method DecryptPayload(p: Primitives, mk: MasterKeyBlob, preKey: bytes, isSha512: bool, cipher: CipherAlg)
    returns (clear: Result<bytes>)
    requires p.cipherInfo(mk.algEncrypt) == Some(cipher) && (isSha512 <==> mk.algHash == CALG_SHA_512)
    ensures var (key, iv) := KeyAndIv(p, mk, preKey);
            clear == DecryptNoPad(CipherOf(p, mk.algEncrypt), key, iv, mk.data)
  {
    var derived := DeriveKey(p, isSha512, preKey, mk.salt, cipher.keyLen + cipher.ivLen, mk.rounds);
    var cryptKey, iv := derived[..cipher.keyLen], derived[cipher.keyLen..cipher.keyLen + cipher.ivLen];
    assert iv == derived[cipher.keyLen..];
    assert (cryptKey, iv) == KeyAndIv(p, mk, preKey);
    if mk.algEncrypt == CALG_AES_256 {
      clear := DecryptNoPad(p.aes, cryptKey, iv, mk.data);
    } else {
      clear := DecryptNoPad(p.tdes, cryptKey, iv, mk.data);
    }
  }

  /** Cuts HMAC salt, stored HMAC and master key out of the cleartext and compares the HMAC. */
  method CheckCleartext(p: Primitives, isSha512: bool, preKey: bytes, len: nat, clear: bytes) returns (r: Result<bytes>)
    ensures r == ClearKey(p, isSha512, preKey, len, clear)
  {
    if |clear| < MASTER_KEY_LEN || |clear| < 16 + len {
      return Err(DecryptionFailed);
    }
    var masterKey := clear[|clear| - MASTER_KEY_LEN..];
    var hmacSalt := clear[..16];
    var storedHmac := clear[16..16 + len];
    var hmacKey := Hmac(p, isSha512, preKey, hmacSalt);
    var computed := Hmac(p, isSha512, hmacKey, masterKey);
    if |computed| < len || computed[..len] != storedHmac {
      return Err(HmacMismatch);
    }
    r := Ok(masterKey);
  }

  /**
   A master key comes out exactly when both algorithms are known and the payload is the CBC
   encryption, under the derived key and IV, of whole blocks that end in this key and hold its HMAC.
   */
  lemma OpenMasterKeyExact(p: Primitives, mk: MasterKeyBlob, preKey: bytes, key: bytes)
    ensures OpenMasterKey(p, mk, preKey) == Ok(key) <==>
            exists clear: bytes :: SealedAs(p, mk, preKey, clear, key)
  {
    if OpenMasterKey(p, mk, preKey) == Ok(key) {
      var clear := OpenedClear(p, mk, preKey, key);
      assert SealedAs(p, mk, preKey, clear, key);
    }
    forall clear: bytes | SealedAs(p, mk, preKey, clear, key)
      ensures OpenMasterKey(p, mk, preKey) == Ok(key)
    {
      SealedAsOpens(p, mk, preKey, clear, key);
    }
  }

  /**
   The payload is the CBC encryption of `clear`, under AES-256 or 3DES, with key and IV cut one
   behind the other from the derived bytes. It ends in the 64 bytes of `key` and holds, behind a
   salt of 16 bytes, the stored part of the HMAC of `key` under the HMAC of that salt.
   */
  ghost predicate SealedAs(p: Primitives, mk: MasterKeyBlob, preKey: bytes, clear: bytes, key: bytes) {
    && p.hashInfo(mk.algHash).Some? && p.cipherInfo(mk.algEncrypt).Some?
    && var sha, aes := mk.algHash == 0x800e, mk.algEncrypt == 0x6610;
       var len := p.hashInfo(mk.algHash).value.digestLen;
       var derived := DerivedKey(HmacPrf(p, sha, preKey), mk.salt, if aes then 32 + 16 else 24 + 8, mk.rounds);
       && Whole(|clear|, if aes then 16 else 8)
       && mk.data == (if aes then CbcEncrypt(p.aes, derived[..32], derived[32..], clear)
                      else CbcEncrypt(p.tdes, derived[..24], derived[24..], clear))
       && |clear| >= 64 && |clear| >= 16 + len && key == clear[|clear| - 64..]
       && len <= (if sha then 64 else 20)
       && Hmac(p, sha, Hmac(p, sha, preKey, clear[..16]), key)[..len] == clear[16..16 + len]
  }

  /** The parts of `SealedAs` as the code computes them. */
  lemma SealedAsParts(p: Primitives, mk: MasterKeyBlob, preKey: bytes, clear: bytes, key: bytes)
    ensures SealedAs(p, mk, preKey, clear, key) <==>
            && p.hashInfo(mk.algHash).Some? && p.cipherInfo(mk.algEncrypt).Some?
            && Whole(|clear|, CipherOf(p, mk.algEncrypt).blockLen)
            && mk.data == PayloadOf(p, mk, preKey, clear)
            && Authentic(p, mk.algHash == CALG_SHA_512, preKey, StoredLen(p, mk.algHash), clear, key)
  {
    hide Hmac, DerivedKey, CbcEncrypt, Rem;
  }

  lemma OpenedClear(p: Primitives, mk: MasterKeyBlob, preKey: bytes, key: bytes) returns (clear: bytes)
    requires OpenMasterKey(p, mk, preKey) == Ok(key)
    ensures SealedAs(p, mk, preKey, clear, key)
  {
    hide SealedAs;
    var (k, iv) := KeyAndIv(p, mk, preKey);
    clear := CbcDecrypt(CipherOf(p, mk.algEncrypt), k, iv, mk.data);
    CbcEncryptDecrypt(CipherOf(p, mk.algEncrypt), k, iv, mk.data);
    SealedAsParts(p, mk, preKey, clear, key);
  }

  lemma SealedAsOpens(p: Primitives, mk: MasterKeyBlob, preKey: bytes, clear: bytes, key: bytes)
    requires SealedAs(p, mk, preKey, clear, key)
    ensures OpenMasterKey(p, mk, preKey) == Ok(key)
  {
    hide SealedAs;
    SealedAsParts(p, mk, preKey, clear, key);
    var (k, iv) := KeyAndIv(p, mk, preKey);
    CbcDecryptEncrypt(CipherOf(p, mk.algEncrypt), k, iv, clear);
  }

  /** The encrypted payload of a cleartext. */
  function PayloadOf(p: Primitives, mk: MasterKeyBlob, preKey: bytes, clear: bytes): (r: bytes)
    requires Whole(|clear|, CipherOf(p, mk.algEncrypt).blockLen)
    ensures |r| == |clear|
  {
    var (k, iv) := KeyAndIv(p, mk, preKey);
    CbcEncrypt(CipherOf(p, mk.algEncrypt), k, iv, clear)
  }

  // ---------- Sealing ----------

  /** HMAC salt, the stored part of the HMAC, filler, master key. */
  function SealedClear(p: Primitives, isSha512: bool, preKey: bytes, len: nat, hmacSalt: guid, filler: bytes, key: bytes)
    : (clear: bytes)
    requires len <= DigestLen(isSha512)
    ensures |clear| == 16 + len + |filler| + |key|
  {
    hmacSalt + KeyMac(p, isSha512, preKey, hmacSalt, key)[..len] + filler + key
  }

  /** Salt, rounds and algorithms are known, the row stores no more than a digest, and the cleartext is whole blocks. */
  predicate MasterKeySealable(p: Primitives, mk: MasterKeyBlob, filler: bytes) {
    && p.hashInfo(mk.algHash).Some? && p.cipherInfo(mk.algEncrypt).Some?
    && StoredLen(p, mk.algHash) <= DigestLen(mk.algHash == CALG_SHA_512)
    && Whole(16 + StoredLen(p, mk.algHash) + |filler| + MASTER_KEY_LEN, CipherOf(p, mk.algEncrypt).blockLen)
  }

  function SealMasterKey(p: Primitives, mk: MasterKeyBlob, preKey: bytes, hmacSalt: guid, filler: bytes, key: bytes)
    : MasterKeyBlob
    requires MasterKeySealable(p, mk, filler) && |key| == MASTER_KEY_LEN
  {
    var clear := SealedClear(p, mk.algHash == CALG_SHA_512, preKey, StoredLen(p, mk.algHash), hmacSalt, filler, key);
    mk.(data := PayloadOf(p, mk, preKey, clear))
  }

  lemma SealedClearAuthentic(p: Primitives, isSha512: bool, preKey: bytes, len: nat, hmacSalt: guid, filler: bytes,
                             key: bytes)
    requires len <= DigestLen(isSha512) && |key| == MASTER_KEY_LEN
    ensures Authentic(p, isSha512, preKey, len, SealedClear(p, isSha512, preKey, len, hmacSalt, filler, key), key)
  {
    var clear := SealedClear(p, isSha512, preKey, len, hmacSalt, filler, key);
    assert clear[..16] == hmacSalt;
    assert clear[16..16 + len] == KeyMac(p, isSha512, preKey, hmacSalt, key)[..len];
    assert clear[|clear| - MASTER_KEY_LEN..] == key;
  }

  /** Opening inverts sealing. */
  lemma OpenOfSealMasterKey(p: Primitives, mk: MasterKeyBlob, preKey: bytes, hmacSalt: guid, filler: bytes, key: bytes)
    requires MasterKeySealable(p, mk, filler) && |key| == MASTER_KEY_LEN
    ensures OpenMasterKey(p, SealMasterKey(p, mk, preKey, hmacSalt, filler, key), preKey) == Ok(key)
  {
    var isSha512, len := mk.algHash == CALG_SHA_512, StoredLen(p, mk.algHash);
    var clear := SealedClear(p, isSha512, preKey, len, hmacSalt, filler, key);
    SealedClearAuthentic(p, isSha512, preKey, len, hmacSalt, filler, key);
    var sealed := SealMasterKey(p, mk, preKey, hmacSalt, filler, key);
    assert KeyAndIv(p, sealed, preKey) == KeyAndIv(p, mk, preKey);
    assert sealed.data == PayloadOf(p, sealed, preKey, clear);
    SealedAsOpens(p, sealed, preKey, clear, key);
  }

  /** `mk` is what sealing this key writes, under some HMAC salt and filler. */
  ghost predicate IsSealedKey(p: Primitives, mk: MasterKeyBlob, preKey: bytes, key: bytes) {
    && |key| == MASTER_KEY_LEN
    && exists hmacSalt, filler :: MasterKeySealable(p, mk, filler) && mk == SealMasterKey(p, mk, preKey, hmacSalt, filler, key)
  }

  /** The payload has room for HMAC salt, stored HMAC and key one behind the other. */
  predicate HasRoom(p: Primitives, mk: MasterKeyBlob) {
    p.hashInfo(mk.algHash).Some? && |mk.data| >= 16 + StoredLen(p, mk.algHash) + MASTER_KEY_LEN
  }

  /**
   On payloads with room for its three parts, opening accepts exactly the sealed keys. The code does
   not ask for that room: a shorter payload is accepted exactly when its cleartext is authentic,
   although the key then begins inside the HMAC salt or the HMAC, and sealing never writes it.
   */
  lemma OpenAcceptsSealedOrOverlapping(p: Primitives, mk: MasterKeyBlob, preKey: bytes, key: bytes)
    ensures OpenMasterKey(p, mk, preKey) == Ok(key) && HasRoom(p, mk) <==> IsSealedKey(p, mk, preKey, key)
    ensures OpenMasterKey(p, mk, preKey) == Ok(key) && !HasRoom(p, mk) <==>
            !HasRoom(p, mk) && exists clear: bytes :: SealedAs(p, mk, preKey, clear, key)
  {
    hide OpenMasterKey, SealMasterKey;
    OpenMasterKeyExact(p, mk, preKey, key);
    if OpenMasterKey(p, mk, preKey) == Ok(key) && HasRoom(p, mk) {
      var hmacSalt, filler := OpenedIsSealed(p, mk, preKey, key);
    }
    if IsSealedKey(p, mk, preKey, key) {
      var hmacSalt, filler :| MasterKeySealable(p, mk, filler) && mk == SealMasterKey(p, mk, preKey, hmacSalt, filler, key);
      OpenOfSealMasterKey(p, mk, preKey, hmacSalt, filler, key);
      SealedHasRoom(p, mk, preKey, hmacSalt, filler, key);
    }
  }

  lemma SealedHasRoom(p: Primitives, mk: MasterKeyBlob, preKey: bytes, hmacSalt: guid, filler: bytes, key: bytes)
    requires MasterKeySealable(p, mk, filler) && |key| == MASTER_KEY_LEN
    ensures HasRoom(p, SealMasterKey(p, mk, preKey, hmacSalt, filler, key))
  {
  }

  /** What opens and has room is what sealing its own parts writes. */
  lemma OpenedIsSealed(p: Primitives, mk: MasterKeyBlob, preKey: bytes, key: bytes)
    returns (hmacSalt: guid, filler: bytes)
    requires OpenMasterKey(p, mk, preKey) == Ok(key) && HasRoom(p, mk)
    ensures |key| == MASTER_KEY_LEN && MasterKeySealable(p, mk, filler)
    ensures mk == SealMasterKey(p, mk, preKey, hmacSalt, filler, key)
  {
    hide Hmac, KeyMac, OpenMasterKey, KeyAndIv, SealedAs;
    var len := StoredLen(p, mk.algHash);
    var clear := OpenedClear(p, mk, preKey, key);
    SealedAsParts(p, mk, preKey, clear, key);
    hmacSalt, filler := clear[..16], clear[16 + len..|clear| - MASTER_KEY_LEN];
    assert clear == SealedClear(p, mk.algHash == CALG_SHA_512, preKey, len, hmacSalt, filler, key);
    assert mk == mk.(data := mk.data);
  }

  /** A sub-blob whose payload is 64 encrypted zeros: the whole cleartext is the key, its salt and its HMAC. */
  function OverlappingBlob(preKey: bytes): (mk: MasterKeyBlob)
    ensures |mk.data| == MASTER_KEY_LEN
  {
    var mk := MasterKeyBlob(2, Zeros(16), 8000, CALG_SHA1, CALG_AES_256, []);
    mk.(data := PayloadOf(ToySuite(), mk, preKey, Zeros(64)))
  }

  /** Under every pre-key there is a sub-blob that opens and that sealing writes for no pre-key, salt, filler and key. */
  lemma OverlapOpens(preKey: bytes)
    ensures var p, mk := ToySuite(), OverlappingBlob(preKey);
            && OpenMasterKey(p, mk, preKey) == Ok(Zeros(64))
            && forall preKey', key :: !IsSealedKey(p, mk, preKey', key)
  {
    hide Hmac, KeyMac, OpenMasterKey, IsSealedKey, KeyAndIv, CbcEncrypt, SealedAs;
    var p: Primitives, mk := ToySuite(), OverlappingBlob(preKey);
    var clear := Zeros(64);
    ToyMacOfZeros(p, preKey, clear[..16]);
    SamePayload(p, MasterKeyBlob(2, Zeros(16), 8000, CALG_SHA1, CALG_AES_256, []), mk, preKey, clear);
    SealedAsParts(p, mk, preKey, clear, Zeros(64));
    SealedAsOpens(p, mk, preKey, clear, Zeros(64));
    forall preKey', key
      ensures !IsSealedKey(p, mk, preKey', key)
    {
      OpenAcceptsSealedOrOverlapping(p, mk, preKey', key);
    }
  }

  /** The payload of a cleartext does not depend on the payload that was there. */
  lemma SamePayload(p: Primitives, a: MasterKeyBlob, b: MasterKeyBlob, preKey: bytes, clear: bytes)
    requires b == a.(data := b.data) && Whole(|clear|, CipherOf(p, a.algEncrypt).blockLen)
    ensures PayloadOf(p, a, preKey, clear) == PayloadOf(p, b, preKey, clear)
  {
  }

  /** Under the toy hash the HMAC of zeros is zeros, whatever the key. */
  lemma ToyMacOfZeros(p: Primitives, preKey: bytes, hmacSalt: bytes)
    requires p == ToySuite()
    ensures KeyMac(p, false, preKey, hmacSalt, Zeros(64)) == Zeros(20)
  {
    var hmacKey := Hmac(p, false, preKey, hmacSalt);
    ToyDigestOfZeros(p, InnerPad(p, false, hmacKey), 64);
    ToyDigestOfZeros(p, OuterPad(p, false, hmacKey), 20);
  }

  lemma ToyDigestOfZeros(p: Primitives, pad: bytes, n: nat)
    requires p == ToySuite() && |pad| == 64 && n >= 20
    ensures Digest(p, false, pad + Zeros(n)) == Zeros(20)
  {
    assert (pad + Zeros(n))[64..] == Zeros(n);
    assert Digest(p, false, pad + Zeros(n)) == ToyHash(pad + Zeros(n), 64, 20);
  }

  /** A row that promises more bytes than the PRF yields can never be opened. */
  lemma TooLongRowNeverOpens(p: Primitives, mk: MasterKeyBlob, preKey: bytes)
    requires p.hashInfo(mk.algHash).Some? && StoredLen(p, mk.algHash) > DigestLen(mk.algHash == CALG_SHA_512)
    ensures OpenMasterKey(p, mk, preKey).Err?
  {
    if OpenMasterKey(p, mk, preKey).Ok? {
      var clear := OpenedClear(p, mk, preKey, OpenMasterKey(p, mk, preKey).value);
    }
  }

  // ---------- The password path ----------

  function PrekeyFromSha1(p: Primitives, sid: string, pwdSha1: bytes): bytes {
    Hmac(p, false, pwdSha1, Utf16LeWithNul(sid))
  }

  function PrekeyFromPassword(p: Primitives, sid: string, password: string): bytes {
    PrekeyFromSha1(p, sid, Digest(p, false, Utf16Le(password)))
  }

  function DeriveFromPassword(p: Primitives, file: MasterKeyFile, sid: string, password: string): Result<bytes> {
    var mk :- ParseMasterKey(file.masterKey);
    OpenMasterKey(p, mk, PrekeyFromPassword(p, sid, password))
  }

  method DeriveMasterKeyFromPassword(p: Primitives, file: MasterKeyFile, sid: string, password: string)
    returns (r: Result<bytes>)
    ensures r == DeriveFromPassword(p, file, sid, password)
  {
    var mk := ParseMasterKeyBytes(file.masterKey);
    if mk.Err? {
      return Err(mk.error);
    }
    r := DeriveMasterKeyFromPrekey(p, mk.value, PrekeyFromPassword(p, sid, password));
  }

  /** The pre-key hashes the password and keys an HMAC over the SID, both as UTF-16LE, the SID with its NUL. */
  lemma PrekeyLayout(p: Primitives, sid: string, password: string)
    ensures PrekeyFromPassword(p, sid, password) == Hmac(p, false, p.sha1(Utf16Le(password)), Utf16Le(sid + "\0"))
  {
    NulIsEncoded(sid);
  }

  /**
   A master key sealed under a password and written into a file comes back from the bytes of
   that file, whatever the other sub-blobs and the bytes behind them are.
   */
  lemma FileRoundTrip(p: Primitives, f: WireFile, t: bytes, sid: string, password: string, mk: MasterKeyBlob,
                      hmacSalt: guid, filler: bytes, key: bytes)
    requires MasterKeySealable(p, mk, filler) && |key| == MASTER_KEY_LEN
    requires var preKey := Hmac(p, false, p.sha1(Utf16Le(password)), Utf16Le(sid + "\0"));
             f.masterKey == WriteMasterKey(SealMasterKey(p, mk, preKey, hmacSalt, filler, key))
    ensures var file := ParseFile(WriteFile(f, t));
            file.Ok? && DeriveFromPassword(p, file.value, sid, password) == Ok(key)
  {
    hide Hmac, OpenMasterKey, SealMasterKey, TakeHeader, TakeBlobs, Utf16Le;
    ParseFileOfWrite(f, t);
    PrekeyLayout(p, sid, password);
    var preKey := PrekeyFromPassword(p, sid, password);
    ParseMasterKeyExact(f.masterKey, SealMasterKey(p, mk, preKey, hmacSalt, filler, key));
    OpenOfSealMasterKey(p, mk, preKey, hmacSalt, filler, key);
  }

  /** The key from the bytes of a file and a password. */
  function OpenFile(p: Primitives, data: bytes, sid: string, password: string): Result<bytes> {
    var file :- ParseFile(data);
    DeriveFromPassword(p, file, sid, password)
  }

  /** The file was written with a sub-blob whose payload encrypts `clear` under the pre-key, and `key` ends it. */
  ghost predicate HoldsKey(p: Primitives, data: bytes, preKey: bytes, f: WireFile, t: bytes, mk: MasterKeyBlob,
                           clear: bytes, key: bytes) {
    data == WriteFile(f, t) && f.masterKey == WriteMasterKey(mk) && SealedAs(p, mk, preKey, clear, key)
  }

  /**
   A key comes out of a file exactly when the file was written around a sub-blob that holds it
   encrypted and authentic under the pre-key of this SID and password.
   */
  lemma OpenFileExact(p: Primitives, data: bytes, sid: string, password: string, key: bytes)
    ensures OpenFile(p, data, sid, password) == Ok(key) <==>
            exists f, t, mk, clear ::
              HoldsKey(p, data, Hmac(p, false, p.sha1(Utf16Le(password)), Utf16Le(sid + "\0")), f, t, mk, clear, key)
  {
    hide Hmac, OpenMasterKey, SealedAs, WriteFile, ParseMasterKey, Utf16Le, DecodeUtf16Le, PrekeyFromPassword;
    var preKey := PrekeyFromPassword(p, sid, password);
    PrekeyLayout(p, sid, password);
    if OpenFile(p, data, sid, password) == Ok(key) {
      var (f, t) := ParseWireFile(data).value;
      var mk := ParseMasterKey(f.masterKey).value;
      OpenMasterKeyExact(p, mk, preKey, key);
      var clear :| SealedAs(p, mk, preKey, clear, key);
      assert HoldsKey(p, data, preKey, f, t, mk, clear, key);
    }
    forall f, t, mk, clear | HoldsKey(p, data, preKey, f, t, mk, clear, key)
      ensures OpenFile(p, data, sid, password) == Ok(key)
    {
      ParseFileOfWrite(f, t);
      ParseMasterKeyExact(f.masterKey, mk);
      OpenMasterKeyExact(p, mk, preKey, key);
    }
  }
}
