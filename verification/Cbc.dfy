/** Cipher block chaining (section 6.2 of NIST SP 800-38A) and the padding of section 6.3 of RFC 5652. */
module Cbc {
  import opened Bytes
  import opened Primitives
  import opened Results

  /** The remainder of `m` by `n`, by repeated subtraction; `RemIsMod` shows that it is `m % n`. */
  function Rem(m: nat, n: nat): (r: nat)
    requires n > 0
    ensures r < n
  {
    if m < n then m else Rem(m - n, n)
  }

  /** `m` bytes are whole blocks of `n`. */
  predicate Whole(m: nat, n: nat)
    requires n > 0
  {
    Rem(m, n) == 0
  }

  lemma {:induction false} RemIsMod(m: nat, n: nat)
    requires n > 0
    ensures Rem(m, n) == m % n
  {
    if m < n {
      RemainderUnique(n, 0, m / n, m, m % n);
    } else {
      RemIsMod(m - n, n);
      var q := (m - n) / n;
      assert m == (q + 1) * n + (m - n) % n;
      RemainderUnique(n, q + 1, m / n, (m - n) % n, m % n);
    }
  }

  lemma RemainderUnique(n: nat, q: int, q': int, r: nat, r': nat)
    requires r < n && r' < n && q * n + r == q' * n + r'
    ensures r == r'
  {
    AtLeastOne(q - q', n);
    assert (q - q') * n == r' - r;
  }

  lemma AtLeastOne(a: int, n: nat)
    ensures a >= 1 ==> a * n >= n
    ensures a <= -1 ==> a * n + n <= 0
  {
  }

  function CbcEncrypt(c: Cipher, key: bytes, iv: bytes, plain: bytes): (r: bytes)
    requires |key| == c.keyLen && |iv| == c.blockLen && Whole(|plain|, c.blockLen)
    ensures |r| == |plain|
    decreases |plain|
  {
    if plain == [] then []
    else
      var n := c.blockLen;
      var block := EncBlock(c, key, XorBytes(plain[..n], iv));
      block + CbcEncrypt(c, key, block, plain[n..])
  }

  function CbcDecrypt(c: Cipher, key: bytes, iv: bytes, text: bytes): (r: bytes)
    requires |key| == c.keyLen && |iv| == c.blockLen && Whole(|text|, c.blockLen)
    ensures |r| == |text|
    decreases |text|
  {
    if text == [] then []
    else
      var n := c.blockLen;
      XorBytes(DecBlock(c, key, text[..n]), iv) + CbcDecrypt(c, key, text[..n], text[n..])
  }

  lemma {:induction false} CbcDecryptEncrypt(c: Cipher, key: bytes, iv: bytes, plain: bytes)
    requires |key| == c.keyLen && |iv| == c.blockLen && Whole(|plain|, c.blockLen)
    ensures CbcDecrypt(c, key, iv, CbcEncrypt(c, key, iv, plain)) == plain
    decreases |plain|
  {
    if plain != [] {
      var n := c.blockLen;
      var x := XorBytes(plain[..n], iv);
      var block := EncBlock(c, key, x);
      var text := CbcEncrypt(c, key, iv, plain);
      assert text[..n] == block && text[n..] == CbcEncrypt(c, key, block, plain[n..]);
      BlockInverses(c, key, x);
      XorBytesUndone(plain[..n], iv);
      CbcDecryptEncrypt(c, key, block, plain[n..]);
    }
  }

  lemma {:induction false} CbcEncryptDecrypt(c: Cipher, key: bytes, iv: bytes, text: bytes)
    requires |key| == c.keyLen && |iv| == c.blockLen && Whole(|text|, c.blockLen)
    ensures CbcEncrypt(c, key, iv, CbcDecrypt(c, key, iv, text)) == text
    decreases |text|
  {
    if text != [] {
      var n := c.blockLen;
      var x := DecBlock(c, key, text[..n]);
      var plain := CbcDecrypt(c, key, iv, text);
      assert plain[..n] == XorBytes(x, iv) && plain[n..] == CbcDecrypt(c, key, text[..n], text[n..]);
      XorBytesUndone(x, iv);
      BlockInverses(c, key, text[..n]);
      CbcEncryptDecrypt(c, key, text[..n], text[n..]);
    }
  }

  lemma WholeWithout(m: nat, n: nat)
    requires n > 0 && Whole(m, n) && m > 0
    ensures m >= n && Whole(m - n, n)
  {
  }

  /** The block at `at`. */
  function BlockAt(s: bytes, n: nat, at: nat): (r: bytes)
    requires at + n <= |s|
    ensures |r| == n
  {
    s[at..at + n]
  }

  /** The ciphertext block before `at`, the IV before the first. */
  function BlockBefore(iv: bytes, text: bytes, n: nat, at: nat): (r: bytes)
    requires |iv| == n && at <= |text| && (at == 0 || at >= n)
    ensures |r| == n
  {
    if at == 0 then iv else text[at - n..at]
  }

  /** Behind the first block, the block before is the one before in the rest. */
  lemma BlockShift(iv: bytes, s: bytes, n: nat, at: nat)
    requires |iv| == n > 0 && n <= at && at + n <= |s| && (at == n || at >= 2 * n)
    ensures BlockAt(s, n, at) == BlockAt(s[n..], n, at - n)
    ensures BlockBefore(iv, s, n, at) == BlockBefore(s[..n], s[n..], n, at - n)
  {
  }

  /** Each block of the ciphertext encrypts the plain block added to the ciphertext block before it, the first to the IV. */
  lemma {:induction false} CbcEncryptBlock(c: Cipher, key: bytes, iv: bytes, plain: bytes, at: nat)
    requires |key| == c.keyLen && |iv| == c.blockLen && Whole(|plain|, c.blockLen)
    requires Whole(at, c.blockLen) && at + c.blockLen <= |plain|
    ensures at == 0 || at >= c.blockLen
    ensures var text := CbcEncrypt(c, key, iv, plain);
            BlockAt(text, c.blockLen, at) ==
            EncBlock(c, key, XorBytes(BlockAt(plain, c.blockLen, at), BlockBefore(iv, text, c.blockLen, at)))
    decreases at
  {
    hide Rem, XorBytes, EncBlock;
    var n := c.blockLen;
    var text := CbcEncrypt(c, key, iv, plain);
    var block := EncBlock(c, key, XorBytes(plain[..n], iv));
    CbcFirst(c, key, iv, plain);
    if at > 0 {
      WholeWithout(at, n);
      WholeWithout(|plain|, n);
      if at > n {
        WholeWithout(at - n, n);
      }
      CbcEncryptBlock(c, key, block, plain[n..], at - n);
      BlockShift(iv, plain, n, at);
      BlockShift(iv, text, n, at);
    }
  }

  lemma CbcFirst(c: Cipher, key: bytes, iv: bytes, plain: bytes)
    requires |key| == c.keyLen && |iv| == c.blockLen && Whole(|plain|, c.blockLen) && |plain| >= c.blockLen
    ensures Whole(|plain[c.blockLen..]|, c.blockLen)
    ensures var n := c.blockLen;
            var text := CbcEncrypt(c, key, iv, plain);
            && text[..n] == EncBlock(c, key, XorBytes(plain[..n], iv))
            && text[n..] == CbcEncrypt(c, key, text[..n], plain[n..])
  {
    hide Rem, XorBytes, EncBlock;
    WholeWithout(|plain|, c.blockLen);
    var n := c.blockLen;
    var block := EncBlock(c, key, XorBytes(plain[..n], iv));
    assert CbcEncrypt(c, key, iv, plain) == block + CbcEncrypt(c, key, block, plain[n..]);
  }

  /** Each plain block is the decrypted block added to the ciphertext block before it, the first to the IV. */
  lemma CbcDecryptBlock(c: Cipher, key: bytes, iv: bytes, text: bytes, at: nat)
    requires |key| == c.keyLen && |iv| == c.blockLen && Whole(|text|, c.blockLen)
    requires Whole(at, c.blockLen) && at + c.blockLen <= |text|
    ensures at == 0 || at >= c.blockLen
    ensures BlockAt(CbcDecrypt(c, key, iv, text), c.blockLen, at) ==
            XorBytes(DecBlock(c, key, BlockAt(text, c.blockLen, at)), BlockBefore(iv, text, c.blockLen, at))
  {
    hide Rem, XorBytes, EncBlock, DecBlock, CbcEncrypt, CbcDecrypt;
    var n := c.blockLen;
    var plain := CbcDecrypt(c, key, iv, text);
    CbcEncryptDecrypt(c, key, iv, text);
    CbcEncryptBlock(c, key, iv, plain, at);
    var before := BlockBefore(iv, text, n, at);
    BlockInverses(c, key, XorBytes(BlockAt(plain, n, at), before));
    XorBytesUndone(BlockAt(plain, n, at), before);
  }

  /** Section 6.2 of NIST SP 800-38A, block by block, in terms of the block cipher itself. */
  lemma CbcLayout(c: Cipher, key: bytes, iv: bytes, s: bytes, at: nat)
    requires |key| == c.keyLen && |iv| == c.blockLen && Whole(|s|, c.blockLen)
    requires Whole(at, c.blockLen) && at + c.blockLen <= |s|
    ensures at == 0 || at >= c.blockLen
    ensures var n, text := c.blockLen, CbcEncrypt(c, key, iv, s);
            text[at..at + n] == c.enc(key, XorBytes(s[at..at + n], if at == 0 then iv else text[at - n..at]))
    ensures var n, plain := c.blockLen, CbcDecrypt(c, key, iv, s);
            |c.dec(key, s[at..at + n])| == n &&
            plain[at..at + n] == XorBytes(c.dec(key, s[at..at + n]), if at == 0 then iv else s[at - n..at])
  {
    hide CbcEncrypt, CbcDecrypt, XorBytes, Rem;
    CbcEncryptBlock(c, key, iv, s, at);
    CbcDecryptBlock(c, key, iv, s, at);
  }

  /** CBC decryption without unpadding: key and IV lengths first, then whole blocks. */
  function DecryptNoPad(c: Cipher, key: bytes, iv: bytes, text: bytes): Result<bytes> {
    if |key| != c.keyLen || |iv| != c.blockLen then Err(InvalidKeyLength)
    else if !Whole(|text|, c.blockLen) then Err(DecryptionFailed)
    else Ok(CbcDecrypt(c, key, iv, text))
  }

  /** As many copies of a number as it says. */
  function Copies(k: byte): (r: bytes)
    ensures |r| == k
  {
    seq(k, _ => k)
  }

  /** Fills up to whole blocks of `n` with copies of the number of bytes added, at least one. */
  function Pad(s: bytes, n: nat): (r: bytes)
    requires 0 < n < 256
    ensures |r| == |s| + n - Rem(|s|, n) && Whole(|r|, n) && |r| > 0
  {
    var k := n - Rem(|s|, n);
    PadFills(|s|, k, n);
    s + Copies(k)
  }

  lemma {:induction false} PadFills(m: nat, k: nat, n: nat)
    requires 1 <= k <= n
    ensures Whole(m + k, n) <==> k == n - Rem(m, n)
  {
    if m >= n {
      PadFills(m - n, k, n);
      assert Rem(m + k, n) == Rem(m - n + k, n);
    } else if m + k >= n {
      assert Rem(m + k, n) == Rem(m + k - n, n);
    }
  }

  /** Removes the padding, or refuses: the last byte must be in 1..n and be repeated that often. */
  function Unpad(s: bytes, n: nat): Result<bytes> {
    if s == [] then Err(DecryptionFailed)
    else
      var pad := s[|s| - 1];
      if pad == 0 || pad > n || pad > |s| then Err(DecryptionFailed)
      else if exists i :: |s| - pad <= i < |s| && s[i] != pad then Err(DecryptionFailed)
      else Ok(s[..|s| - pad])
  }

  lemma UnpadPad(s: bytes, n: nat)
    requires 0 < n < 256
    ensures Unpad(Pad(s, n), n) == Ok(s)
  {
    var r := Pad(s, n);
    assert r[..|s|] == s;
  }

  /** On whole blocks, unpadding succeeds exactly on padded strings. */
  lemma UnpadExact(r: bytes, n: nat, s: bytes)
    requires 0 < n < 256 && Whole(|r|, n)
    ensures Unpad(r, n) == Ok(s) <==> r == Pad(s, n)
  {
    if Unpad(r, n) == Ok(s) {
      var pad := r[|r| - 1];
      assert |s| == |r| - pad;
      PadFills(|s|, pad, n);
      assert r == s + Copies(pad);
    }
    UnpadPad(s, n);
  }

  /** Unpadding accepts any string that ends in 1 to `n` copies of their own number, and cuts them off. */
  lemma UnpadLayout(r: bytes, n: nat, s: bytes)
    requires 0 < n < 256
    ensures Unpad(r, n) == Ok(s) <==> exists k: byte :: 1 <= k <= n && r == s + Copies(k)
  {
    if Unpad(r, n) == Ok(s) {
      var k := r[|r| - 1];
      assert r == s + Copies(k);
    }
    forall k: byte | 1 <= k <= n && r == s + Copies(k)
      ensures Unpad(r, n) == Ok(s)
    {
      assert r[..|s|] == s;
    }
  }

  /** CBC decryption followed by unpadding. */
  function DecryptPadded(c: Cipher, key: bytes, iv: bytes, text: bytes): Result<bytes> {
    var out :- DecryptNoPad(c, key, iv, text);
    Unpad(out, c.blockLen)
  }

  /** Decryption yields `plain` exactly when the text is the encryption of the padded `plain`. */
  lemma DecryptPaddedExact(c: Cipher, key: bytes, iv: bytes, text: bytes, plain: bytes)
    requires |key| == c.keyLen && |iv| == c.blockLen
    ensures DecryptPadded(c, key, iv, text) == Ok(plain) <==>
            text == CbcEncrypt(c, key, iv, Pad(plain, c.blockLen))
    ensures DecryptPadded(c, key, iv, text).Err? ==> DecryptPadded(c, key, iv, text) == Err(DecryptionFailed)
  {
    var n := c.blockLen;
    CbcDecryptEncrypt(c, key, iv, Pad(plain, n));
    UnpadExact(Pad(plain, n), n, plain);
    if Whole(|text|, n) {
      CbcEncryptDecrypt(c, key, iv, text);
      UnpadExact(CbcDecrypt(c, key, iv, text), n, plain);
    }
  }
}
