/** Opening a blob with its master key (`core/src/decrypt.rs`). */
module Decrypt {
  import opened Bytes
  import opened Results
  import opened Primitives
  import opened Mac
  import opened Cbc
  import opened Wire
  import opened Blob

  // ---------- DES parity ----------

  function Popcount(n: nat): nat {
    if n == 0 then 0 else n % 2 + Popcount(n / 2)
  }

  function OddParity(b: byte): byte {
    var high7 := b / 2;
    2 * high7 + if Popcount(high7) % 2 == 0 then 1 else 0
  }

  function OddParityAll(s: bytes): (r: bytes)
    ensures |r| == |s|
    ensures forall i :: 0 <= i < |s| ==> r[i] == OddParity(s[i])
  {
    seq(|s|, i requires 0 <= i < |s| => OddParity(s[i]))
  }

  /** The number of set bits of a byte. */
  function Ones(b: byte): nat {
    Bit(b, 0) + Bit(b, 1) + Bit(b, 2) + Bit(b, 3) + Bit(b, 4) + Bit(b, 5) + Bit(b, 6) + Bit(b, 7)
  }

  lemma PopcountIsOnes(b: byte)
    ensures Popcount(b) == Ones(b)
  {
    var b1, b2, b3 := b / 2, b / 4, b / 8;
    assert Popcount(b3) == Bit(b3, 0) + Bit(b3, 1) + Bit(b3, 2) + Bit(b3, 3) + Bit(b3, 4) by {
      PopcountOfFive(b3);
    }
    assert b1 / 2 == b2 && b2 / 2 == b3;
    assert Popcount(b) == b % 2 + Popcount(b1);
    assert Popcount(b1) == b1 % 2 + Popcount(b2);
    assert Popcount(b2) == b2 % 2 + Popcount(b3);
    ShiftBits(b, b1, b2, b3);
  }

  lemma PopcountOfFive(n: nat)
    requires n < 32
    ensures Popcount(n) == Bit(n, 0) + Bit(n, 1) + Bit(n, 2) + Bit(n, 3) + Bit(n, 4)
  {
    var n1, n2, n3, n4 := n / 2, n / 4, n / 8, n / 16;
    assert n1 / 2 == n2 && n2 / 2 == n3 && n3 / 2 == n4 && n4 / 2 == 0;
    assert Popcount(n4) == n4 % 2 + Popcount(0);
    assert Popcount(n3) == n3 % 2 + Popcount(n4);
    assert Popcount(n2) == n2 % 2 + Popcount(n3);
    assert Popcount(n1) == n1 % 2 + Popcount(n2);
    assert Bit(n, 4) == Bit(n1, 3) == Bit(n2, 2) == Bit(n3, 1) == Bit(n4, 0);
    assert Bit(n, 3) == Bit(n1, 2) == Bit(n2, 1) == Bit(n3, 0);
    assert Bit(n, 2) == Bit(n1, 1) == Bit(n2, 0);
  }

  lemma ShiftBits(b: byte, b1: nat, b2: nat, b3: nat)
    requires b1 == b / 2 && b2 == b1 / 2 && b3 == b2 / 2
    ensures Bit(b, 0) == b % 2 && Bit(b, 1) == b1 % 2 && Bit(b, 2) == b2 % 2
    ensures forall i :: 0 <= i <= 4 ==> Bit(b, i + 3) == Bit(b3, i)
  {
    assert Bit(b, 2) == Bit(b1, 1) == Bit(b2, 0);
    forall i | 0 <= i <= 4
      ensures Bit(b, i + 3) == Bit(b3, i)
    {
      assert Bit(b, i + 3) == Bit(b1, i + 2) == Bit(b2, i + 1) == Bit(b3, i);
    }
  }

  /** The fix-up keeps the top seven bits, makes the parity odd, and is the only byte that does both. */
  lemma OddParityExact(b: byte, c: byte)
    ensures c == OddParity(b) <==> c / 2 == b / 2 && Ones(c) % 2 == 1
    ensures Popcount(c) == Ones(c)
  {
    hide Ones;
    PopcountIsOnes(c);
    assert OddParity(b) / 2 == b / 2;
  }

  lemma OddParityIdempotent(s: bytes)
    ensures OddParityAll(OddParityAll(s)) == OddParityAll(s)
  {
    forall i | 0 <= i < |s|
      ensures OddParity(OddParity(s[i])) == OddParity(s[i])
    {
      OddParityExact(s[i], OddParity(s[i]));
      OddParityExact(OddParity(s[i]), OddParity(s[i]));
    }
  }

  method FixParity(key: array<byte>)
    modifies key
    ensures key[..] == OddParityAll(old(key[..]))
  {
    for i := 0 to key.Length
      invariant forall k :: 0 <= k < i ==> key[k] == OddParity(old(key[k]))
      invariant forall k :: i <= k < key.Length ==> key[k] == old(key[k])
    {
      var high7 := key[i] / 2;
      var ones := Popcount(high7);
      key[i] := 2 * high7 + if ones % 2 == 0 then 1 else 0;
    }
  }

  // ---------- The cipher key ----------

  /** The expansion of key material that is too short: two digests, parity fixed. */
  function Expanded(p: Primitives, alg: HashAlg, material: bytes): (r: bytes)
    ensures |r| == 2 * DigestLen(alg.isSha512)
  {
    var padded := Resize(material, alg.deriveBlockLen);
    OddParityAll(Digest(p, alg.isSha512, XorConst(padded, 0x36)) + Digest(p, alg.isSha512, XorConst(padded, 0x5c)))
  }

  function CipherKeyMaterial(p: Primitives, alg: HashAlg, session: bytes, keyLen: nat): bytes {
    var material := if |session| > alg.deriveBlockLen then Hmac(p, alg.isSha512, session, []) else session;
    if |material| < keyLen then Expanded(p, alg, material) else material
  }

  method DeriveKey(p: Primitives, alg: HashAlg, session: bytes, keyLen: nat) returns (derived: bytes)
    ensures derived == CipherKeyMaterial(p, alg, session, keyLen)
  {
    derived := session;
    if |session| > alg.deriveBlockLen {
      derived := Hmac(p, alg.isSha512, session, []);
    }
    if |derived| < keyLen {
      var padded := Resize(derived, alg.deriveBlockLen);
      var ipad := XorConst(padded, 0x36);
      var opad := XorConst(padded, 0x5c);
      var out := Digest(p, alg.isSha512, ipad);
      out := out + Digest(p, alg.isSha512, opad);
      var buf := new byte[|out|](i requires 0 <= i < |out| => out[i]);
      assert buf[..] == out;
      FixParity(buf);
      derived := buf[..];
    }
  }

  /**
   For every hash identifier and every cipher key of at most 40 bytes the key material is long
   enough, and the session key is never hashed again. For the two ciphers the material is the
   session key itself under SHA-512, and 40 bytes of odd parity under SHA-1.
   */
  lemma KeyMaterialSuffices(p: Primitives, algId: u32, key: bytes, msg: bytes, keyLen: nat)
    requires keyLen <= 40
    ensures var alg := HashAlgOf(p, algId);
            var session := Hmac(p, alg.isSha512, key, msg);
            var material := CipherKeyMaterial(p, alg, session, keyLen);
            && |session| <= alg.deriveBlockLen
            && |material| >= keyLen
            && (alg.isSha512 || keyLen <= 20 ==> material == session)
            && (!alg.isSha512 && keyLen > 20 ==>
                  |material| == 40 && forall i :: 0 <= i < 40 ==> Ones(material[i]) % 2 == 1)
  {
    var alg := HashAlgOf(p, algId);
    var session := Hmac(p, alg.isSha512, key, msg);
    var material := CipherKeyMaterial(p, alg, session, keyLen);
    if !alg.isSha512 && keyLen > 20 {
      var padded := Resize(session, alg.deriveBlockLen);
      var raw := Digest(p, false, XorConst(padded, 0x36)) + Digest(p, false, XorConst(padded, 0x5c));
      assert material == OddParityAll(raw);
      forall i | 0 <= i < 40
        ensures Ones(material[i]) % 2 == 1
      {
        OddParityExact(raw[i], material[i]);
      }
    }
  }

  // ---------- The signature ----------

  function EntropyBytes(entropy: Option<bytes>): bytes {
    match entropy
    case None => []
    case Some(e) => e
  }

  /** A digest under the outer pad of the digest of the HMac field, then entropy and signed region. */
  function Form1(p: Primitives, isSha512: bool, key: bytes, hmac: bytes, entropy: bytes, toSign: bytes): bytes {
    Digest(p, isSha512,
           OuterPad(p, isSha512, key) + Digest(p, isSha512, InnerPad(p, isSha512, key) + hmac) + entropy + toSign)
  }

  /** The HMAC over HMac field, entropy and signed region. */
  function Form2(p: Primitives, isSha512: bool, key: bytes, hmac: bytes, entropy: bytes, toSign: bytes): bytes {
    Hmac(p, isSha512, key, hmac + entropy + toSign)
  }

  predicate Signed(p: Primitives, keyHash: bytes, blob: DpapiBlob, entropy: bytes) {
    var isSha512 := HashAlgOf(p, blob.algIdHash).isSha512;
    || blob.sign == Form1(p, isSha512, keyHash, blob.hmac, entropy, blob.toSign)
    || blob.sign == Form2(p, isSha512, keyHash, blob.hmac, entropy, blob.toSign)
  }

  /** With nothing behind the HMac field the two accepted forms are one. */
  lemma FormsCoincide(p: Primitives, isSha512: bool, key: bytes, hmac: bytes)
    ensures Form1(p, isSha512, key, hmac, [], []) == Form2(p, isSha512, key, hmac, [], [])
  {
    var outer := OuterPad(p, isSha512, key) + Digest(p, isSha512, InnerPad(p, isSha512, key) + hmac);
    assert outer + [] + [] == outer;
    assert hmac + [] + [] == hmac;
  }

  /** Extended by a whole block of zeros and cut to one block, a short key is the padded key of RFC 2104. */
  lemma HandBuiltPads(p: Primitives, isSha512: bool, key: bytes)
    requires |key| <= HashBlockLen(isSha512)
    ensures Resize(key, |key| + HashBlockLen(isSha512))[..HashBlockLen(isSha512)] == PadKey(p, isSha512, key)
  {
  }

  method VerifyBlobSignature(p: Primitives, alg: HashAlg, keyHash: bytes, blob: DpapiBlob, entropy: Option<bytes>)
    returns (ok: bool)
    requires alg == HashAlgOf(p, blob.algIdHash) && |keyHash| == 20
    ensures ok <==> Signed(p, keyHash, blob, EntropyBytes(entropy))
  {
    var block := alg.hashBlockLen;
    var keyHash2 := Resize(keyHash, |keyHash| + block);
    var ipad := XorConst(keyHash2[..block], 0x36);
    var opad := XorConst(keyHash2[..block], 0x5c);
    HandBuiltPads(p, alg.isSha512, keyHash);

    var inner := ipad + blob.hmac;
    var innerDigest := Digest(p, alg.isSha512, inner);
    var outer := opad + innerDigest;
    var msg2 := blob.hmac;
    if entropy.Some? {
      outer := outer + entropy.value;
      msg2 := msg2 + entropy.value;
    } else {
      assert outer + [] == outer && msg2 + [] == msg2;
    }
    outer := outer + blob.toSign;
    msg2 := msg2 + blob.toSign;
    var calc1 := Digest(p, alg.isSha512, outer);
    var calc2 := Hmac(p, alg.isSha512, keyHash, msg2);
    ok := calc1 == blob.sign || calc2 == blob.sign;
  }

  // ---------- Opening ----------

  function SessionKey(p: Primitives, blob: DpapiBlob, masterKey: bytes, entropy: bytes): bytes {
    Hmac(p, HashAlgOf(p, blob.algIdHash).isSha512, Digest(p, false, masterKey), blob.salt + entropy)
  }

  /** The key of the blob's cipher. */
  function BlobKey(p: Primitives, blob: DpapiBlob, masterKey: bytes, entropy: bytes): (key: bytes)
    ensures |key| == CipherOf(p, blob.algIdEncrypt).keyLen
  {
    var alg := HashAlgOf(p, blob.algIdHash);
    var keyLen := CipherOf(p, blob.algIdEncrypt).keyLen;
    KeyMaterialSuffices(p, blob.algIdHash, Digest(p, false, masterKey), blob.salt + entropy, keyLen);
    CipherKeyMaterial(p, alg, SessionKey(p, blob, masterKey, entropy), keyLen)[..keyLen]
  }

  /** What opening a parsed blob yields. */
  function OpenBlob(p: Primitives, blob: DpapiBlob, masterKey: bytes, entropy: Option<bytes>): Result<bytes> {
    if p.cipherInfo(blob.algIdEncrypt).None? then Err(UnsupportedAlgId(blob.algIdEncrypt))
    else
      var cipher := CipherOf(p, blob.algIdEncrypt);
      var key := BlobKey(p, blob, masterKey, EntropyBytes(entropy));
      var cleartext :- DecryptPadded(cipher, key, Zeros(cipher.blockLen), blob.ciphertext);
      if Signed(p, Digest(p, false, masterKey), blob, EntropyBytes(entropy)) then Ok(cleartext) else Err(HmacMismatch)
  }

  method DecryptDpapiBlob(p: Primitives, blob: DpapiBlob, masterKey: bytes, entropy: Option<bytes>)
    returns (r: Result<bytes>)
    ensures r == OpenBlob(p, blob, masterKey, entropy)
  {
    var alg := HashAlgOf(p, blob.algIdHash);
    var info := p.cipherInfo(blob.algIdEncrypt);
    if info.None? {
      return Err(UnsupportedAlgId(blob.algIdEncrypt));
    }
    var isAes256 := blob.algIdEncrypt == CALG_AES_256;
    var keyHash := Digest(p, false, masterKey);
    var saltMsg := blob.salt;
    if entropy.Some? {
      saltMsg := saltMsg + entropy.value;
    } else {
      assert saltMsg + [] == saltMsg;
    }
    var session := Hmac(p, alg.isSha512, keyHash, saltMsg);
    KeyMaterialSuffices(p, blob.algIdHash, keyHash, saltMsg, info.value.keyLen);
    var derived := DeriveKey(p, alg, session, info.value.keyLen);
    if |derived| < info.value.keyLen {
      return Err(InvalidKeyLength);
    }
    var iv := Zeros(info.value.ivLen);
    var cleartext;
    if isAes256 {
      cleartext := DecryptPadded(p.aes, derived[..info.value.keyLen], iv, blob.ciphertext);
    } else {
      cleartext := DecryptPadded(p.tdes, derived[..info.value.keyLen], iv, blob.ciphertext);
    }
    if cleartext.Err? {
      return cleartext;
    }
    var ok := VerifyBlobSignature(p, alg, keyHash, blob, entropy);
    r := if ok then cleartext else Err(HmacMismatch);
  }

  /** Opening yields `plain` exactly when cipher, ciphertext and signature fit. */
  lemma OpenParts(p: Primitives, blob: DpapiBlob, masterKey: bytes, entropy: Option<bytes>, plain: bytes)
    ensures OpenBlob(p, blob, masterKey, entropy) == Ok(plain) <==>
            var cipher := CipherOf(p, blob.algIdEncrypt);
            && p.cipherInfo(blob.algIdEncrypt).Some?
            && blob.ciphertext == CbcEncrypt(cipher, BlobKey(p, blob, masterKey, EntropyBytes(entropy)),
                                             Zeros(cipher.blockLen), Pad(plain, cipher.blockLen))
            && Signed(p, Digest(p, false, masterKey), blob, EntropyBytes(entropy))
  {
    var cipher := CipherOf(p, blob.algIdEncrypt);
    DecryptPaddedExact(cipher, BlobKey(p, blob, masterKey, EntropyBytes(entropy)), Zeros(cipher.blockLen),
                       blob.ciphertext, plain);
  }

  /** The identifiers whose blobs use SHA-512. */
  predicate SelectsSha512(algIdHash: u32) {
    algIdHash == 0x8009 || algIdHash == 0x800e
  }

  /**
   The cipher key in full. The session key is the HMAC of salt and entropy under the SHA-1 of the
   master key; the 20 bytes of SHA-1 are expanded through two digests with odd parity.
   */
  lemma BlobKeyExact(p: Primitives, blob: DpapiBlob, masterKey: bytes, entropy: bytes)
    ensures var sha := SelectsSha512(blob.algIdHash);
            var n := if blob.algIdEncrypt == 0x6610 then 32 else 24;
            var s := Hmac(p, sha, p.sha1(masterKey), blob.salt + entropy);
            BlobKey(p, blob, masterKey, entropy) ==
            if sha then s[..n]
            else OddParityAll(p.sha1(XorConst(s + Zeros(44), 0x36)) + p.sha1(XorConst(s + Zeros(44), 0x5c)))[..n]
  {
    var sha := SelectsSha512(blob.algIdHash);
    var s := Hmac(p, sha, p.sha1(masterKey), blob.salt + entropy);
    assert HashAlgOf(p, blob.algIdHash).isSha512 == sha;
    if !sha {
      assert Resize(s, 64) == s + Zeros(44);
    }
  }

  /** The two accepted signatures in full: under the pads of a 20-byte key hash. */
  lemma SignedExact(p: Primitives, keyHash: bytes, blob: DpapiBlob, e: bytes)
    requires |keyHash| == 20
    ensures var sha := SelectsSha512(blob.algIdHash);
            var k := keyHash + Zeros((if sha then 128 else 64) - 20);
            var i, o := XorConst(k, 0x36), XorConst(k, 0x5c);
            Signed(p, keyHash, blob, e) <==>
            || blob.sign == Digest(p, sha, o + Digest(p, sha, i + blob.hmac) + e + blob.toSign)
            || blob.sign == Digest(p, sha, o + Digest(p, sha, i + (blob.hmac + e + blob.toSign)))
  {
    assert HashAlgOf(p, blob.algIdHash).isSha512 == SelectsSha512(blob.algIdHash);
  }

  /**
   Refuse, don't fabricate: opening yields `plain` exactly when the cipher is known, the ciphertext
   is the CBC encryption of the padded `plain` under a zero IV and the key derived from master key,
   salt and entropy, and the signature over HMac field, entropy and signed region has one of its
   two forms.
   */
  lemma OpenExact(p: Primitives, blob: DpapiBlob, masterKey: bytes, entropy: Option<bytes>, plain: bytes)
    ensures OpenBlob(p, blob, masterKey, entropy) == Ok(plain) <==>
            var e := if entropy.Some? then entropy.value else [];
            var sha := SelectsSha512(blob.algIdHash);
            var h := p.sha1(masterKey);
            var s := Hmac(p, sha, h, blob.salt + e);
            var key := if sha then s else OddParityAll(p.sha1(XorConst(s + Zeros(44), 0x36)) +
                                                       p.sha1(XorConst(s + Zeros(44), 0x5c)));
            var k := h + Zeros((if sha then 128 else 64) - 20);
            var i, o := XorConst(k, 0x36), XorConst(k, 0x5c);
            && p.cipherInfo(blob.algIdEncrypt).Some?
            && blob.ciphertext == (if blob.algIdEncrypt == 0x6610
                                   then CbcEncrypt(p.aes, key[..32], Zeros(16), Pad(plain, 16))
                                   else CbcEncrypt(p.tdes, key[..24], Zeros(8), Pad(plain, 8)))
            && (|| blob.sign == Digest(p, sha, o + Digest(p, sha, i + blob.hmac) + e + blob.toSign)
                || blob.sign == Digest(p, sha, o + Digest(p, sha, i + (blob.hmac + e + blob.toSign))))
  {
    hide OpenBlob, BlobKey, Signed, Hmac, CbcEncrypt, OddParityAll, XorConst, Pad;
    var e := EntropyBytes(entropy);
    OpenParts(p, blob, masterKey, entropy, plain);
    BlobKeyExact(p, blob, masterKey, e);
    SignedExact(p, p.sha1(masterKey), blob, e);
  }

  /** The only refusals of an open: an unknown cipher, bad ciphertext or padding, a bad signature. */
  lemma OpenErrors(p: Primitives, blob: DpapiBlob, masterKey: bytes, entropy: Option<bytes>)
    requires OpenBlob(p, blob, masterKey, entropy).Err?
    ensures OpenBlob(p, blob, masterKey, entropy).error in
            {UnsupportedAlgId(blob.algIdEncrypt), DecryptionFailed, HmacMismatch}
    ensures OpenBlob(p, blob, masterKey, entropy).error.UnsupportedAlgId? <==> p.cipherInfo(blob.algIdEncrypt).None?
  {
    var cipher := CipherOf(p, blob.algIdEncrypt);
    DecryptPaddedExact(cipher, BlobKey(p, blob, masterKey, EntropyBytes(entropy)), Zeros(cipher.blockLen),
                       blob.ciphertext, []);
  }

  // ---------- Sealing ----------

  /** The ciphertext of a sealed blob. */
  function SealedText(p: Primitives, w: WireBlob, masterKey: bytes, entropy: bytes, plain: bytes): bytes {
    var cipher := CipherOf(p, w.head.algEncrypt);
    CbcEncrypt(cipher, BlobKey(p, View(w), masterKey, entropy), Zeros(cipher.blockLen), Pad(plain, cipher.blockLen))
  }

  /** The header is one the parser accepts, its cipher is known, and the ciphertext fits its length field. */
  predicate Sealable(p: Primitives, w: WireBlob, plain: bytes) {
    && Supported(w) && p.cipherInfo(w.head.algEncrypt).Some?
    && |Pad(plain, CipherOf(p, w.head.algEncrypt).blockLen)| < 0x1_0000_0000
  }

  /** The signature of either form over a blob that already holds its ciphertext. */
  function Signature(p: Primitives, w: WireBlob, masterKey: bytes, entropy: bytes, form1: bool): (s: bytes)
    ensures |s| <= 64
  {
    var isSha512 := HashAlgOf(p, w.body.algHash).isSha512;
    var keyHash := Digest(p, false, masterKey);
    if form1 then Form1(p, isSha512, keyHash, w.body.hmac, entropy, ToSign(w))
    else Form2(p, isSha512, keyHash, w.body.hmac, entropy, ToSign(w))
  }

  /** The writer: `w` gives every stored field but ciphertext and signature, which are computed. */
  function Seal(p: Primitives, w: WireBlob, masterKey: bytes, entropy: bytes, plain: bytes, form1: bool): (r: WireBlob)
    requires Sealable(p, w, plain)
    ensures r.version == w.version && r.head == w.head && r.body == w.body.(ciphertext := r.body.ciphertext)
  {
    var filled := w.(body := w.body.(ciphertext := SealedText(p, w, masterKey, entropy, plain)));
    filled.(sign := Signature(p, filled, masterKey, entropy, form1))
  }

  /** Parse and open, as every store does. */
  function OpenBytes(p: Primitives, data: bytes, masterKey: bytes, entropy: Option<bytes>): Result<bytes> {
    var blob :- ParseBlob(data);
    OpenBlob(p, blob, masterKey, entropy)
  }

  /** The two calls every store begins with. */
  method ParseAndDecrypt(p: Primitives, data: bytes, masterKey: bytes, entropy: Option<bytes>)
    returns (r: Result<bytes>)
    ensures r == OpenBytes(p, data, masterKey, entropy)
  {
    hide OpenBlob, ParseWire;
    var blob := ParseDpapiBlob(data);
    if blob.Err? {
      return Err(blob.error);
    }
    r := DecryptDpapiBlob(p, blob.value, masterKey, entropy);
  }

  /** Sealing, writing, parsing and opening give the cleartext back, whatever follows the blob. */
  lemma OpenOfSeal(p: Primitives, w: WireBlob, masterKey: bytes, entropy: Option<bytes>, plain: bytes, form1: bool,
                   t: bytes)
    requires Sealable(p, w, plain)
    ensures OpenBytes(p, Write(Seal(p, w, masterKey, EntropyBytes(entropy), plain, form1), t), masterKey, entropy)
            == Ok(plain)
  {
    var e := EntropyBytes(entropy);
    var sealed := Seal(p, w, masterKey, e, plain, form1);
    ParseOfWrite(sealed, t);
    assert BlobKey(p, View(sealed), masterKey, e) == BlobKey(p, View(w), masterKey, e);
    assert ToSign(sealed) == ToSign(sealed.(sign := w.sign));
    OpenParts(p, View(sealed), masterKey, entropy, plain);
  }

  /** `data` begins with a blob that sealing `plain` writes. */
  ghost predicate IsSealed(p: Primitives, data: bytes, masterKey: bytes, entropy: Option<bytes>, plain: bytes) {
    exists w, form1, t {:trigger Write(Seal(p, w, masterKey, EntropyBytes(entropy), plain, form1), t)} ::
      Sealable(p, w, plain) && data == Write(Seal(p, w, masterKey, EntropyBytes(entropy), plain, form1), t)
  }

  /** The open path accepts exactly the blobs that sealing can write. */
  lemma OpenAcceptsExactlySealed(p: Primitives, data: bytes, masterKey: bytes, entropy: Option<bytes>, plain: bytes)
    ensures OpenBytes(p, data, masterKey, entropy) == Ok(plain) <==> IsSealed(p, data, masterKey, entropy, plain)
  {
    var e := EntropyBytes(entropy);
    if OpenBytes(p, data, masterKey, entropy) == Ok(plain) {
      var (w, t) := ParseWire(data).value;
      var form1 := OpenedIsSealed(p, w, masterKey, entropy, plain);
      assert data == Write(Seal(p, w, masterKey, e, plain, form1), t);
    }
    if IsSealed(p, data, masterKey, entropy, plain) {
      var w, form1, t :| Sealable(p, w, plain) && data == Write(Seal(p, w, masterKey, e, plain, form1), t);
      OpenOfSeal(p, w, masterKey, entropy, plain, form1, t);
    }
  }

  /** A blob that opens is what sealing its own cleartext writes. */
  lemma OpenedIsSealed(p: Primitives, w: WireBlob, masterKey: bytes, entropy: Option<bytes>, plain: bytes)
    returns (form1: bool)
    requires Supported(w) && OpenBlob(p, View(w), masterKey, entropy) == Ok(plain)
    ensures Sealable(p, w, plain) && Seal(p, w, masterKey, EntropyBytes(entropy), plain, form1) == w
  {
    var e := EntropyBytes(entropy);
    OpenParts(p, View(w), masterKey, entropy, plain);
    form1 := w.sign == Signature(p, w, masterKey, e, true);
    assert w.body.ciphertext == SealedText(p, w, masterKey, e, plain);
    assert w == w.(body := w.body.(ciphertext := w.body.ciphertext));
  }
}
