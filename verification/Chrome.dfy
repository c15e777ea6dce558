/** The browser cookie key and the classification of cookie values (`core/src/chrome.rs`). */
module Chrome {
  import opened Bytes
  import opened Results
  import opened Primitives
  import opened Decrypt

  const V10: bytes := [0x76, 0x31, 0x30]
  const V20: bytes := [0x76, 0x32, 0x30]
  const DPAPI: bytes := [0x44, 0x50, 0x41, 0x50, 0x49]

  datatype CookieEncoding =
    | Raw
    | DpapiBlob(data: bytes)
    | V10Cookie(nonce: bytes, ciphertext: bytes)
    | V20Cookie(nonce: bytes, ciphertext: bytes)

  function DetectCookieEncoding(data: bytes): CookieEncoding {
    if |data| > 15 && V20 <= data then V20Cookie(data[3..15], data[15..])
    else if |data| > 15 && V10 <= data then V10Cookie(data[3..15], data[15..])
    else if DPAPI <= data then DpapiBlob(data[5..])
    else Raw
  }

  /** A value is of an AES-GCM form exactly when it is prefix, 12 bytes of nonce and a text that is not empty. */
  lemma CookieEncodingExact(data: bytes, nonce: bytes, text: bytes)
    ensures DetectCookieEncoding(data) == V10Cookie(nonce, text) <==>
            |nonce| == 12 && text != [] && data == [0x76, 0x31, 0x30] + nonce + text
    ensures DetectCookieEncoding(data) == V20Cookie(nonce, text) <==>
            |nonce| == 12 && text != [] && data == [0x76, 0x32, 0x30] + nonce + text
  {
    if |data| > 15 {
      assert data == data[..3] + data[3..15] + data[15..];
      assert V10 <= data <==> data[..3] == V10;
      assert V20 <= data <==> data[..3] == V20;
    }
    if |nonce| == 12 && text != [] {
      Parts([0x76, 0x31, 0x30], nonce, text);
      Parts([0x76, 0x32, 0x30], nonce, text);
    }
  }

  lemma Parts(prefix: bytes, nonce: bytes, text: bytes)
    requires |prefix| == 3 && |nonce| == 12
    ensures var s := prefix + nonce + text;
            s[..3] == prefix && s[3..15] == nonce && s[15..] == text
  {
  }

  /** Base64, then the mandatory prefix. */
  function ParseLocalStateKey(lib: Library, encoded: bytes): Result<bytes> {
    match lib.base64(encoded)
    case None => Err(Base64Error)
    case Some(decoded) =>
      if DPAPI <= decoded then Ok(decoded[5..])
      else Err(MissingDpapiPrefix(decoded[..if |decoded| < 8 then |decoded| else 8]))
  }

  /** The stored value is the base64 of `DPAPI` in front of the blob. */
  lemma LocalStateKeyExact(lib: Library, encoded: bytes, blob: bytes)
    ensures ParseLocalStateKey(lib, encoded) == Ok(blob) <==>
            lib.base64(encoded) == Some([0x44, 0x50, 0x41, 0x50, 0x49] + blob)
  {
    if ParseLocalStateKey(lib, encoded) == Ok(blob) {
      var decoded := lib.base64(encoded).value;
      assert decoded[..5] == DPAPI && decoded == decoded[..5] + decoded[5..];
    }
    assert DPAPI <= DPAPI + blob && (DPAPI + blob)[5..] == blob;
  }

  /** Parse and open the blob; the cleartext must be a key of 32 bytes. */
  function OpenLocalStateKey(p: Primitives, blobBytes: bytes, masterKey: bytes): Result<bytes> {
    var plain :- OpenBytes(p, blobBytes, masterKey, None);
    if |plain| == 32 then Ok(plain) else Err(UnexpectedKeyLength(32, |plain|))
  }

  method DecryptLocalStateKey(p: Primitives, blobBytes: bytes, masterKey: bytes) returns (r: Result<bytes>)
    ensures r == OpenLocalStateKey(p, blobBytes, masterKey)
  {
    hide OpenBytes;
    r := ParseAndDecrypt(p, blobBytes, masterKey, None);
    if r.Ok? && |r.value| != 32 {
      r := Err(UnexpectedKeyLength(32, |r.value|));
    }
  }

  function DecryptV10Cookie(lib: Library, nonce: bytes, ciphertext: bytes, key: bytes): Result<bytes> {
    match lib.gcmDecrypt(key, nonce, ciphertext)
    case None => Err(DecryptionFailed)
    case Some(plain) => Ok(plain)
  }
}
