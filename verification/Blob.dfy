/** The `DPAPI_BLOB` wire format (`core/src/blob.rs`). */
module Blob {
  import opened Bytes
  import opened Results
  import opened Wire
  import opened Text

  /** The DPAPI provider GUID as it is stored. */
  const PROVIDER_GUID: guid :=
    [0xd0, 0x8c, 0x9d, 0xdf, 0x01, 0x15, 0xd1, 0x11, 0x8c, 0x7a, 0x00, 0xc0, 0x4f, 0xc2, 0x97, 0xeb]

  /** The stored fields from the master-key version to the cipher. */
  datatype BlobHead = BlobHead(
    mkVersion: u32,
    mkGuid: guid,
    flags: u32,
    description: field,
    algEncrypt: u32,
    algEncryptLen: u32)

  /** The stored fields from the salt to the ciphertext. */
  datatype BlobBody = BlobBody(
    salt: field,
    hmacKey: field,
    algHash: u32,
    algHashLen: u32,
    hmac: field,
    ciphertext: field)

  /** Everything a blob stores, fields that the parser skips included. */
  datatype WireBlob = WireBlob(version: u32, head: BlobHead, body: BlobBody, sign: field)

  /** The parsed blob. */
  datatype DpapiBlob = DpapiBlob(
    version: u32,
    masterKeyGuid: guid,
    description: string,
    algIdEncrypt: u32,
    algIdHash: u32,
    salt: bytes,
    hmacKey: bytes,
    hmac: bytes,
    ciphertext: bytes,
    sign: bytes,
    toSign: bytes)

  predicate Supported(w: WireBlob) {
    w.version == 1 || w.version == 2
  }

  function HeadThen(h: BlobHead, t: bytes): bytes {
    Le32(h.mkVersion) + (h.mkGuid + (Le32(h.flags) + (Prefixed(h.description) + (Le32(h.algEncrypt) +
    (Le32(h.algEncryptLen) + t)))))
  }

  function BodyThen(b: BlobBody, t: bytes): bytes {
    Prefixed(b.salt) + (Prefixed(b.hmacKey) + (Le32(b.algHash) + (Le32(b.algHashLen) + (Prefixed(b.hmac) +
    (Prefixed(b.ciphertext) + t)))))
  }

  /** The signed region, from the master-key version up to the ciphertext, in front of `t`. */
  function SignedThen(w: WireBlob, t: bytes): bytes {
    HeadThen(w.head, BodyThen(w.body, t))
  }

  function ToSign(w: WireBlob): bytes {
    SignedThen(w, [])
  }

  /** The writer: the blob in front of any further bytes. */
  function Write(w: WireBlob, t: bytes): bytes {
    Le32(w.version) + (PROVIDER_GUID + SignedThen(w, Prefixed(w.sign) + t))
  }

  function View(w: WireBlob): DpapiBlob {
    DpapiBlob(w.version, w.head.mkGuid, DecodeUtf16Le(w.head.description), w.head.algEncrypt, w.body.algHash,
              w.body.salt, w.body.hmacKey, w.body.hmac, w.body.ciphertext, w.sign, ToSign(w))
  }

  /** The head cut off the front; never reads beyond the end. */
  function TakeHead(s: bytes): (r: Result<(BlobHead, bytes)>)
    ensures r.Ok? ==> s == HeadThen(r.value.0, r.value.1)
    ensures r.Err? ==> r == Err(TooShort)
  {
    var (mkVersion, s) :- TakeU32(s);
    var (mkGuid, s) :- TakeBytes(s, 16);
    var (flags, s) :- TakeU32(s);
    var (description, s) :- TakePrefixed(s);
    var (algEncrypt, s) :- TakeU32(s);
    var (algEncryptLen, s) :- TakeU32(s);
    Ok((BlobHead(mkVersion, mkGuid, flags, description, algEncrypt, algEncryptLen), s))
  }

  function TakeBody(s: bytes): (r: Result<(BlobBody, bytes)>)
    ensures r.Ok? ==> s == BodyThen(r.value.0, r.value.1)
    ensures r.Err? ==> r == Err(TooShort)
  {
    var (salt, s) :- TakePrefixed(s);
    var (hmacKey, s) :- TakePrefixed(s);
    var (algHash, s) :- TakeU32(s);
    var (algHashLen, s) :- TakeU32(s);
    var (hmac, s) :- TakePrefixed(s);
    var (ciphertext, s) :- TakePrefixed(s);
    Ok((BlobBody(salt, hmacKey, algHash, algHashLen, hmac, ciphertext), s))
  }

  /** The specification parser: the blob at the front of `data` and the bytes behind it. */
  function ParseWire(data: bytes): (r: Result<(WireBlob, bytes)>)
    ensures r.Ok? ==> Supported(r.value.0) && data == Write(r.value.0, r.value.1)
    ensures r.Err? ==> r.error.TooShort? || r.error.UnsupportedVersion? || r.error.NotDpapiProvider?
  {
    if |data| < 48 then Err(TooShort)
    else
      var (version, s) := TakeU32(data).value;
      if version != 1 && version != 2 then Err(UnsupportedVersion(version))
      else
        var (provider, s) := TakeBytes(s, 16).value;
        if provider != PROVIDER_GUID then Err(NotDpapiProvider(provider))
        else
          var (head, s) :- TakeHead(s);
          var (body, s) :- TakeBody(s);
          var (sign, s) :- TakePrefixed(s);
          Ok((WireBlob(version, head, body, sign), s))
  }

  function ParseBlob(data: bytes): (r: Result<DpapiBlob>)
    ensures r.Err? ==> r.error.TooShort? || r.error.UnsupportedVersion? || r.error.NotDpapiProvider?
  {
    var (w, _) :- ParseWire(data);
    Ok(View(w))
  }

  lemma TakeHeadPut(h: BlobHead, t: bytes)
    ensures TakeHead(HeadThen(h, t)) == Ok((h, t))
  {
    var t5 := Le32(h.algEncryptLen) + t;
    var t4 := Le32(h.algEncrypt) + t5;
    var t3 := Prefixed(h.description) + t4;
    var t2 := Le32(h.flags) + t3;
    TakeU32Put(h.mkVersion, h.mkGuid + t2);
    TakeBytesPut(h.mkGuid, t2);
    TakeU32Put(h.flags, t3);
    TakePrefixedPut(h.description, t4);
    TakeU32Put(h.algEncrypt, t5);
    TakeU32Put(h.algEncryptLen, t);
  }

  lemma TakeBodyPut(b: BlobBody, t: bytes)
    ensures TakeBody(BodyThen(b, t)) == Ok((b, t))
  {
    var t5 := Prefixed(b.ciphertext) + t;
    var t4 := Prefixed(b.hmac) + t5;
    var t3 := Le32(b.algHashLen) + t4;
    var t2 := Le32(b.algHash) + t3;
    TakePrefixedPut(b.salt, Prefixed(b.hmacKey) + t2);
    TakePrefixedPut(b.hmacKey, t2);
    TakeU32Put(b.algHash, t3);
    TakeU32Put(b.algHashLen, t4);
    TakePrefixedPut(b.hmac, t5);
    TakePrefixedPut(b.ciphertext, t);
  }

  lemma HeadThenAppends(h: BlobHead, s: bytes, t: bytes)
    ensures HeadThen(h, s + t) == HeadThen(h, s) + t
  {
    var s5 := Le32(h.algEncryptLen) + s;
    var s4 := Le32(h.algEncrypt) + s5;
    var s3 := Prefixed(h.description) + s4;
    var s2 := Le32(h.flags) + s3;
    Associates(Le32(h.algEncryptLen), s, t);
    Associates(Le32(h.algEncrypt), s5, t);
    Associates(Prefixed(h.description), s4, t);
    Associates(Le32(h.flags), s3, t);
    Associates(h.mkGuid, s2, t);
    Associates(Le32(h.mkVersion), h.mkGuid + s2, t);
  }

  lemma BodyThenAppends(b: BlobBody, s: bytes, t: bytes)
    ensures BodyThen(b, s + t) == BodyThen(b, s) + t
  {
    var s5 := Prefixed(b.ciphertext) + s;
    var s4 := Prefixed(b.hmac) + s5;
    var s3 := Le32(b.algHashLen) + s4;
    var s2 := Le32(b.algHash) + s3;
    Associates(Prefixed(b.ciphertext), s, t);
    Associates(Prefixed(b.hmac), s5, t);
    Associates(Le32(b.algHashLen), s4, t);
    Associates(Le32(b.algHash), s3, t);
    Associates(Prefixed(b.hmacKey), s2, t);
    Associates(Prefixed(b.salt), Prefixed(b.hmacKey) + s2, t);
  }

  /** What stands behind the signed region moves out of it. */
  lemma SignedThenAppends(w: WireBlob, t: bytes)
    ensures SignedThen(w, t) == ToSign(w) + t
  {
    assert [] + t == t;
    BodyThenAppends(w.body, [], t);
    HeadThenAppends(w.head, BodyThen(w.body, []), t);
  }

  lemma CutBehind(a: bytes, b: bytes, s: bytes, k: nat)
    requires |a| + |b| <= k <= |a| + |b| + |s|
    ensures (a + (b + s))[..k] == a + (b + s[..k - |a| - |b|])
  {
  }

  /** The header is at least 48 bytes. */
  lemma SignedLength(w: WireBlob)
    ensures |ToSign(w)| >= 48 + |w.body.ciphertext|
  {
  }

  /**
   What the parser consumes: the 20 bytes before the signed region, the signed region,
   the signature length and the signature.
   */
  lemma WriteLayout(w: WireBlob, t: bytes)
    ensures Write(w, t) == Write(w, []) + t
    ensures Write(w, []) == Le32(w.version) + PROVIDER_GUID + ToSign(w) + Le32(|w.sign|) + w.sign
  {
    SignedThenAppends(w, Prefixed(w.sign) + t);
    SignedThenAppends(w, Prefixed(w.sign) + []);
    assert Prefixed(w.sign) + [] == Le32(|w.sign|) + w.sign;
    assert Prefixed(w.sign) + t == Le32(|w.sign|) + w.sign + t;
  }

  /** Parsing inverts writing, whatever follows the blob. */
  lemma ParseOfWrite(w: WireBlob, t: bytes)
    requires Supported(w)
    ensures ParseWire(Write(w, t)) == Ok((w, t))
    ensures ParseBlob(Write(w, t)) == Ok(View(w))
  {
    var s := SignedThen(w, Prefixed(w.sign) + t);
    TakeU32Put(w.version, PROVIDER_GUID + s);
    TakeBytesPut(PROVIDER_GUID, s);
    TakeHeadPut(w.head, BodyThen(w.body, Prefixed(w.sign) + t));
    TakeBodyPut(w.body, Prefixed(w.sign) + t);
    TakePrefixedPut(w.sign, t);
    SignedThenAppends(w, Prefixed(w.sign) + t);
    SignedLength(w);
  }

  /** The parser accepts exactly what the writer can produce, and reads back what was written. */
  lemma ParseExact(data: bytes, b: DpapiBlob)
    ensures ParseBlob(data) == Ok(b) <==>
            exists w, t {:trigger Write(w, t)} ::
              && Supported(w) && data == Write(w, t)
              && b == DpapiBlob(w.version, w.head.mkGuid, DecodeUtf16Le(w.head.description), w.head.algEncrypt,
                                w.body.algHash, w.body.salt, w.body.hmacKey, w.body.hmac, w.body.ciphertext,
                                w.sign, ToSign(w))
  {
    if ParseBlob(data) == Ok(b) {
      var (w, t) := ParseWire(data).value;
      assert data == Write(w, t);
    }
    forall w, t | Supported(w) && data == Write(w, t) && b == View(w)
      ensures ParseBlob(data) == Ok(b)
    {
      ParseOfWrite(w, t);
    }
  }

  /** The signed region field by field. */
  lemma SignedRegionLayout(w: WireBlob)
    ensures var h, b := w.head, w.body;
            ToSign(w) == Le32(h.mkVersion) + h.mkGuid + Le32(h.flags) + Le32(|h.description|) + h.description +
                         Le32(h.algEncrypt) + Le32(h.algEncryptLen) +
                         (Le32(|b.salt|) + b.salt + Le32(|b.hmacKey|) + b.hmacKey + Le32(b.algHash) + Le32(b.algHashLen) +
                          Le32(|b.hmac|) + b.hmac + Le32(|b.ciphertext|) + b.ciphertext)
  {
    HeadLayout(w.head, BodyThen(w.body, []));
    BodyLayout(w.body);
  }

  lemma HeadLayout(h: BlobHead, t: bytes)
    ensures HeadThen(h, t) == Le32(h.mkVersion) + h.mkGuid + Le32(h.flags) + Le32(|h.description|) + h.description +
                              Le32(h.algEncrypt) + Le32(h.algEncryptLen) + t
  {
    hide Le;
    Joined4(Le32(|h.description|), h.description, Le32(h.algEncrypt), Le32(h.algEncryptLen) + t);
    Joined4(Le32(h.mkVersion), h.mkGuid, Le32(h.flags),
            Le32(|h.description|) + h.description + Le32(h.algEncrypt) + (Le32(h.algEncryptLen) + t));
    Joined5(Le32(h.mkVersion) + h.mkGuid + Le32(h.flags), Le32(|h.description|), h.description, Le32(h.algEncrypt),
            Le32(h.algEncryptLen), t);
  }

  lemma BodyLayout(b: BlobBody)
    ensures BodyThen(b, []) == Le32(|b.salt|) + b.salt + Le32(|b.hmacKey|) + b.hmacKey + Le32(b.algHash) +
                               Le32(b.algHashLen) + Le32(|b.hmac|) + b.hmac + Le32(|b.ciphertext|) + b.ciphertext
  {
    hide Le;
    var four := Prefixed(b.hmac) + (Prefixed(b.ciphertext) + []);
    assert four == Le32(|b.hmac|) + b.hmac + Le32(|b.ciphertext|) + b.ciphertext;
    Joined5(Prefixed(b.salt), Le32(|b.hmacKey|), b.hmacKey, Le32(b.algHash), Le32(b.algHashLen), four);
    assert BodyThen(b, []) == Prefixed(b.salt) + (Prefixed(b.hmacKey) + (Le32(b.algHash) + (Le32(b.algHashLen) + four)));
    Joined4(Le32(|b.hmacKey|), b.hmacKey, Le32(b.algHash), Le32(b.algHashLen) + four);
    Joined5(Prefixed(b.salt) + Le32(|b.hmacKey|) + b.hmacKey + Le32(b.algHash) + Le32(b.algHashLen),
            Le32(|b.hmac|), b.hmac, Le32(|b.ciphertext|), b.ciphertext, []);
  }

  lemma Joined4(a: bytes, b: bytes, c: bytes, d: bytes)
    ensures (a + b) + (c + d) == a + b + c + d == a + (b + (c + d))
  {
  }

  lemma Joined5(a: bytes, b: bytes, c: bytes, d: bytes, e: bytes, t: bytes)
    ensures a + (b + c + d + (e + t)) == a + b + c + d + e + t
  {
  }

  /**
   What is refused before any field is read: fewer than 48 bytes, a version other than 1 and 2, a
   provider other than df9d8cd0-1501-11d1-8c7a-00c04fc297eb. Behind these only truncation is.
   */
  lemma RefusalsExact(data: bytes)
    ensures |data| < 48 ==> ParseBlob(data) == Err(TooShort)
    ensures |data| >= 48 ==>
              var version := FromLe(data[..4]);
              var fits := data[4..20] == [0xd0, 0x8c, 0x9d, 0xdf, 0x01, 0x15, 0xd1, 0x11,
                                          0x8c, 0x7a, 0x00, 0xc0, 0x4f, 0xc2, 0x97, 0xeb];
              if version != 1 && version != 2 then ParseBlob(data) == Err(UnsupportedVersion(version))
              else if !fits then ParseBlob(data) == Err(NotDpapiProvider(data[4..20]))
              else ParseBlob(data).Ok? || ParseBlob(data) == Err(TooShort)
  {
    hide TakeHead, TakeBody;
    if |data| >= 48 {
      assert data[4..][..16] == data[4..20];
    }
  }

  /** The GUID of the master key stands at offset 24. */
  lemma GuidOffset(data: bytes)
    requires ParseBlob(data).Ok?
    ensures |data| >= 48 && ParseBlob(data).value.masterKeyGuid == data[24..40]
  {
    var (w, t) := ParseWire(data).value;
    var behind := Le32(w.head.flags) + (Prefixed(w.head.description) + (Le32(w.head.algEncrypt) +
                  (Le32(w.head.algEncryptLen) + BodyThen(w.body, Prefixed(w.sign) + t))));
    GuidBehind(Le32(w.version), PROVIDER_GUID, Le32(w.head.mkVersion), w.head.mkGuid, behind);
  }

  lemma GuidBehind(a: bytes, b: bytes, c: bytes, g: guid, t: bytes)
    requires |a| == |c| == 4 && |b| == 16
    ensures var s := a + (b + (c + (g + t)));
            |s| >= 40 && s[24..40] == g
  {
    var s := a + (b + (c + (g + t)));
    assert s == (a + b + c) + (g + t);
    assert s[24..] == g + t && s[24..40] == s[24..][..16];
  }

  /** The length of the blob at the front of `data`. */
  function Consumed(data: bytes): nat
    requires ParseWire(data).Ok?
  {
    |data| - |ParseWire(data).value.1|
  }

  /**
   The format is prefix-free: the consumed bytes decide the result, and every shorter
   truncation is refused with `TooShort`.
   */
  lemma PrefixFree(x: bytes, ext: bytes, k: nat)
    requires ParseWire(x).Ok? && k < Consumed(x)
    ensures ParseBlob(x[..Consumed(x)] + ext) == ParseBlob(x)
    ensures ParseBlob(x[..k]) == Err(TooShort)
  {
    var (w, t) := ParseWire(x).value;
    WriteLayout(w, t);
    assert x[..Consumed(x)] == Write(w, []);
    WriteLayout(w, ext);
    ParseOfWrite(w, ext);
    ParseOfWrite(w, t);
    TruncationRefused(w, t, k);
  }

  lemma TruncationRefused(w: WireBlob, t: bytes, k: nat)
    requires Supported(w) && k < |Write(w, t)| - |t|
    ensures ParseBlob(Write(w, t)[..k]) == Err(TooShort)
  {
    ParseOfWrite(w, t);
    TruncationNotParsed(Write(w, t), k);
    if k >= 48 {
      TruncationError(w, t, k);
    }
  }

  lemma TruncationError(w: WireBlob, t: bytes, k: nat)
    requires Supported(w) && 48 <= k <= |Write(w, t)|
    ensures var r := ParseWire(Write(w, t)[..k]); r.Err? ==> r == Err(TooShort)
  {
    var s := SignedThen(w, Prefixed(w.sign) + t);
    CutBehind(Le32(w.version), PROVIDER_GUID, s, k);
    OnlyTooShort(w.version, s[..k - 20]);
  }

  /** Behind a supported version and the provider GUID the only refusal is `TooShort`. */
  lemma OnlyTooShort(version: u32, s: bytes)
    requires version == 1 || version == 2
    ensures var r := ParseWire(Le32(version) + (PROVIDER_GUID + s)); r.Err? ==> r == Err(TooShort)
  {
    TakeU32Put(version, PROVIDER_GUID + s);
    TakeBytesPut(PROVIDER_GUID, s);
  }

  lemma TruncationNotParsed(x: bytes, k: nat)
    requires ParseWire(x).Ok? && k < Consumed(x)
    ensures ParseWire(x[..k]).Err?
  {
    hide ParseWire;
    assert x == x[..k] + x[k..];
    if ParseWire(x[..k]).Ok? {
      ParseExtends(x[..k], x[k..]);
    }
  }

  /** Bytes behind a parsed blob stay behind it. */
  lemma ParseExtends(data: bytes, ext: bytes)
    requires ParseWire(data).Ok?
    ensures ParseWire(data + ext) == Ok((ParseWire(data).value.0, ParseWire(data).value.1 + ext))
  {
    var (w, t) := ParseWire(data).value;
    WriteLayout(w, t);
    WriteLayout(w, t + ext);
    Associates(Write(w, []), t, ext);
    ParseOfWrite(w, t + ext);
  }

  /**
   The parser as it runs: a cursor over the whole input, numbers read as 0 beyond the end.
   It agrees with the specification parser on every input, so no such 0 reaches a result
   and the check on the position of the signature never refuses.
   */
  method ParseDpapiBlob(data: bytes) returns (r: Result<DpapiBlob>)
    ensures r == ParseBlob(data)
  {
    if |data| < 48 {
      return Err(TooShort);
    }
    var pos := 0;
    assert data[0..] == data;
    var version;
    version, pos := ReadU32(data, pos);
    if version != 1 && version != 2 {
      return Err(UnsupportedVersion(version));
    }
    var provider := data[pos..pos + 16];
    TakeBytesAt(data, pos, 16);
    if provider != PROVIDER_GUID {
      return Err(NotDpapiProvider(provider));
    }
    pos := pos + 16;
    var head, bodyPos := ParseHead(data);
    if head.Err? {
      return Err(head.error);
    }
    var body, signLenPos := ParseBody(data, bodyPos);
    if body.Err? {
      return Err(body.error);
    }
    var sign;
    sign, pos := ReadLenPrefixed(data, signLenPos);
    if sign.Err? {
      return Err(sign.error);
    }
    if signLenPos < 20 {
      return Err(TooShort);
    }
    var h, b := head.value, body.value;
    SignedSlice(data, WireBlob(version, h, b, sign.value), signLenPos);
    r := Ok(DpapiBlob(version, h.mkGuid, DecodeUtf16Le(h.description), h.algEncrypt, b.algHash,
                      b.salt, b.hmacKey, b.hmac, b.ciphertext, sign.value, data[20..signLenPos]));
  }

  lemma SignedSlice(data: bytes, w: WireBlob, pos: nat)
    requires 20 <= pos <= |data| && data[20..] == SignedThen(w, data[pos..])
    ensures data[20..pos] == ToSign(w)
  {
    SignedThenAppends(w, data[pos..]);
    assert data[20..] == data[20..pos] + data[pos..];
    assert |ToSign(w)| == |data[20..pos]|;
    assert data[20..pos] == data[20..][..pos - 20] == ToSign(w);
  }

  /** The fields from position 20 on; `pos` is where the body begins. */
  method ParseHead(data: bytes) returns (r: Result<BlobHead>, pos: nat)
    requires |data| >= 48
    ensures r.Err? ==> TakeHead(data[20..]) == Err(r.error)
    ensures r.Ok? ==> pos >= 20
    ensures r.Ok? && pos > |data| ==> TakeHead(data[20..]) == Err(TooShort)
    ensures r.Ok? && pos <= |data| ==> TakeHead(data[20..]) == Ok((r.value, data[pos..]))
  {
    pos := 20;
    var mkVersion, flags, algEncrypt, algEncryptLen;
    mkVersion, pos := ReadU32(data, pos);
    var mkGuid := data[pos..pos + 16];
    TakeBytesAt(data, pos, 16);
    pos := pos + 16;
    flags, pos := ReadU32(data, pos);
    var description;
    description, pos := ReadLenPrefixed(data, pos);
    if description.Err? {
      return Err(description.error), pos;
    }
    algEncrypt, pos := ReadU32(data, pos);
    algEncryptLen, pos := ReadU32(data, pos);
    r := Ok(BlobHead(mkVersion, mkGuid, flags, description.value, algEncrypt, algEncryptLen));
  }

  /** The fields from `start` on; a start beyond the data, left by a 0 read there, is refused. */
  method ParseBody(data: bytes, start: nat) returns (r: Result<BlobBody>, pos: nat)
    ensures r.Err? ==> r == Err(TooShort)
    ensures r.Ok? ==> start <= pos <= |data|
    ensures start <= |data| ==> TakeBody(data[start..]) == if r.Ok? then Ok((r.value, data[pos..])) else Err(TooShort)
  {
    var salt, hmacKey, hmac, ciphertext, algHash, algHashLen;
    salt, pos := ReadLenPrefixed(data, start);
    if salt.Err? {
      return Err(TooShort), pos;
    }
    hmacKey, pos := ReadLenPrefixed(data, pos);
    if hmacKey.Err? {
      return Err(TooShort), pos;
    }
    algHash, pos := ReadU32(data, pos);
    algHashLen, pos := ReadU32(data, pos);
    hmac, pos := ReadLenPrefixed(data, pos);
    if hmac.Err? {
      return Err(TooShort), pos;
    }
    ciphertext, pos := ReadLenPrefixed(data, pos);
    if ciphertext.Err? {
      return Err(TooShort), pos;
    }
    r := Ok(BlobBody(salt.value, hmacKey.value, algHash, algHashLen, hmac.value, ciphertext.value));
  }
}
