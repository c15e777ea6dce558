/** The Vault policy, its keys, and the web credentials under them (`core/src/vault.rs`). */
module Vault {
  import opened Bytes
  import opened Results
  import opened Primitives
  import opened Cbc
  import opened Wire
  import opened Text
  import opened Blob
  import opened Decrypt

  /** `advance`: the position behind the next `n` bytes, if they exist. */
  function Advance(pos: nat, n: nat, len: nat): Result<nat> {
    if pos + n > len then Err(TooShort) else Ok(pos + n)
  }

  // ---------- The VAULT_VPOL wrapper ----------

  type unknown12 = b: bytes | |b| == 12 witness Zeros(12)
  type guids32 = b: bytes | |b| == 32 witness Zeros(32)

  datatype WireVpol = WireVpol(
    version: u32,
    guid: guid,
    description: field,
    unknown: unknown12,
    size: u32,
    guids: guids32,
    blob: field)

  function WriteVpol(v: WireVpol, t: bytes): bytes {
    Le32(v.version) + (v.guid + (Prefixed(v.description) + (v.unknown + (Le32(v.size) + (v.guids + (Prefixed(v.blob) + t))))))
  }

  /** The specification parser: every field inside the data. */
  function TakeVpol(s: bytes): (r: Result<(WireVpol, bytes)>)
    ensures r.Ok? ==> s == WriteVpol(r.value.0, r.value.1)
    ensures r.Err? ==> r == Err(TooShort)
  {
    var (version, s) :- TakeU32(s);
    var (guid, s) :- TakeBytes(s, 16);
    var (description, s) :- TakePrefixed(s);
    var (unknown, s) :- TakeBytes(s, 12);
    var (size, s) :- TakeU32(s);
    var (guids, s) :- TakeBytes(s, 32);
    var (blob, s) :- TakePrefixed(s);
    Ok((WireVpol(version, guid, description, unknown, size, guids, blob), s))
  }

  function ParseVpol(data: bytes): Result<bytes> {
    var (v, _) :- TakeVpol(data);
    Ok(v.blob)
  }

  lemma TakeVpolPut(v: WireVpol, t: bytes)
    ensures TakeVpol(WriteVpol(v, t)) == Ok((v, t))
  {
    var t6 := Prefixed(v.blob) + t;
    var t5 := v.guids + t6;
    var t4 := Le32(v.size) + t5;
    var t3 := v.unknown + t4;
    var t2 := Prefixed(v.description) + t3;
    TakeU32Put(v.version, v.guid + t2);
    TakeBytesPut(v.guid, t2);
    TakePrefixedPut(v.description, t3);
    TakeBytesPut(v.unknown, t4);
    TakeU32Put(v.size, t5);
    TakeBytesPut(v.guids, t6);
    TakePrefixedPut(v.blob, t);
  }

  /** The wrapper yields a blob exactly when it was written around that blob. */
  lemma ParseVpolExact(data: bytes, blob: bytes)
    ensures ParseVpol(data) == Ok(blob) <==>
            exists v, t {:trigger WriteVpol(v, t)} :: data == WriteVpol(v, t) && blob == v.blob
  {
    if ParseVpol(data) == Ok(blob) {
      var (v, t) := TakeVpol(data).value;
      assert data == WriteVpol(v, t);
    }
    forall v, t | data == WriteVpol(v, t) && blob == v.blob
      ensures ParseVpol(data) == Ok(blob)
    {
      TakeVpolPut(v, t);
    }
  }

  /** The parser as it runs; no number read as 0 beyond the end reaches a result. */
  method ParseVpolFile(data: bytes) returns (r: Result<bytes>)
    ensures r == ParseVpol(data)
  {
    var pos := 0;
    assert data[0..] == data;
    var version, descLen;
    version, pos := ReadU32(data, pos);
    if pos + 16 <= |data| {
      TakeBytesAt(data, pos, 16);
    }
    pos := pos + 16;
    descLen, pos := ReadU32(data, pos);
    var next := Advance(pos, descLen, |data|);
    if next.Err? {
      return Err(next.error);
    }
    TakeBytesAt(data, pos, descLen);
    pos := next.value;
    next := Advance(pos, 12, |data|);
    if next.Err? {
      return Err(next.error);
    }
    TakeBytesAt(data, pos, 12);
    pos := next.value;
    r := ParseVpolTail(data, pos);
  }

  function TakeVpolTail(s: bytes): Result<bytes> {
    var (size, s) :- TakeU32(s);
    var (guids, s) :- TakeBytes(s, 32);
    var (blob, s) :- TakePrefixed(s);
    Ok(blob)
  }

  /** `Size`, the two GUIDs and the inner blob. */
  method ParseVpolTail(data: bytes, start: nat) returns (r: Result<bytes>)
    requires start <= |data|
    ensures r == TakeVpolTail(data[start..])
  {
    var size, pos := ReadU32(data, start);
    var next := Advance(pos, 32, |data|);
    if next.Err? {
      return Err(next.error);
    }
    TakeBytesAt(data, pos, 32);
    var blob;
    blob, pos := ReadLenPrefixed(data, next.value);
    if blob.Err? {
      return Err(blob.error);
    }
    r := Ok(blob.value);
  }

  // ---------- The two keys ----------

  /** A `BCRYPT_KEY_WRAP`; the `Size` field is not used to delimit it. */
  datatype KeyWrap = KeyWrap(size: u32, version: u32, unknown2: u32, magic: u32, headerVersion: u32, key: field)

  datatype VaultKeys = VaultKeys(key1: bytes, key2: bytes)

  function WriteKeyWrap(k: KeyWrap, t: bytes): bytes {
    Le32(k.size) + (Le32(k.version) + (Le32(k.unknown2) + (Le32(k.magic) + (Le32(k.headerVersion) + (Prefixed(k.key) + t)))))
  }

  function TakeKeyWrap(s: bytes): (r: Result<(KeyWrap, bytes)>)
    ensures r.Ok? ==> s == WriteKeyWrap(r.value.0, r.value.1)
    ensures r.Err? ==> r == Err(TooShort)
  {
    var (size, s) :- TakeU32(s);
    var (version, s) :- TakeU32(s);
    var (unknown2, s) :- TakeU32(s);
    var (magic, s) :- TakeU32(s);
    var (headerVersion, s) :- TakeU32(s);
    var (key, s) :- TakePrefixed(s);
    Ok((KeyWrap(size, version, unknown2, magic, headerVersion, key), s))
  }

  function ParseKeys(clear: bytes): (r: Result<VaultKeys>)
    ensures r.Err? ==> r == Err(TooShort)
  {
    var (k1, s) :- TakeKeyWrap(clear);
    var (k2, s) :- TakeKeyWrap(s);
    Ok(VaultKeys(k1.key, k2.key))
  }

  lemma TakeKeyWrapPut(k: KeyWrap, t: bytes)
    ensures TakeKeyWrap(WriteKeyWrap(k, t)) == Ok((k, t))
  {
    var t5 := Prefixed(k.key) + t;
    var t4 := Le32(k.headerVersion) + t5;
    var t3 := Le32(k.magic) + t4;
    var t2 := Le32(k.unknown2) + t3;
    TakeU32Put(k.size, Le32(k.version) + t2);
    TakeU32Put(k.version, t2);
    TakeU32Put(k.unknown2, t3);
    TakeU32Put(k.magic, t4);
    TakeU32Put(k.headerVersion, t5);
    TakePrefixedPut(k.key, t);
  }

  /** Both keys come out exactly when two wraps were written one behind the other. */
  lemma ParseKeysExact(clear: bytes, keys: VaultKeys)
    ensures ParseKeys(clear) == Ok(keys) <==>
            exists k1, k2, t {:trigger WriteKeyWrap(k1, WriteKeyWrap(k2, t))} ::
              clear == WriteKeyWrap(k1, WriteKeyWrap(k2, t)) && keys == VaultKeys(k1.key, k2.key)
  {
    if ParseKeys(clear) == Ok(keys) {
      var (k1, s) := TakeKeyWrap(clear).value;
      var (k2, t) := TakeKeyWrap(s).value;
      assert clear == WriteKeyWrap(k1, WriteKeyWrap(k2, t));
    }
    forall k1, k2, t | clear == WriteKeyWrap(k1, WriteKeyWrap(k2, t)) && keys == VaultKeys(k1.key, k2.key)
      ensures ParseKeys(clear) == Ok(keys)
    {
      TakeKeyWrapPut(k1, WriteKeyWrap(k2, t));
      TakeKeyWrapPut(k2, t);
    }
  }

  /** Five numbers with the fallback, then the key with the bounds check. */
  method ReadBcryptKey(data: bytes, start: nat) returns (r: Result<field>, pos: nat)
    requires start <= |data|
    ensures r.Err? ==> TakeKeyWrap(data[start..]) == Err(r.error)
    ensures r.Ok? ==> pos <= |data| && TakeKeyWrap(data[start..]).Ok?
    ensures r.Ok? ==> TakeKeyWrap(data[start..]).value.0.key == r.value
    ensures r.Ok? ==> TakeKeyWrap(data[start..]).value.1 == data[pos..]
  {
    var size, version, unknown2, magic, headerVersion;
    size, pos := ReadU32(data, start);
    version, pos := ReadU32(data, pos);
    unknown2, pos := ReadU32(data, pos);
    magic, pos := ReadU32(data, pos);
    headerVersion, pos := ReadU32(data, pos);
    r, pos := ReadLenPrefixed(data, pos);
  }

  /** The two keys protected by the policy blob. */
  function OpenVpolKeys(p: Primitives, vpolBlob: bytes, masterKey: bytes): Result<VaultKeys> {
    var clear :- OpenBytes(p, vpolBlob, masterKey, None);
    ParseKeys(clear)
  }

  method DecryptVpolKeys(p: Primitives, vpolBlob: bytes, masterKey: bytes) returns (r: Result<VaultKeys>)
    ensures r == OpenVpolKeys(p, vpolBlob, masterKey)
  {
    var clear := ParseAndDecrypt(p, vpolBlob, masterKey, None);
    if clear.Err? {
      return Err(clear.error);
    }
    var pos := 0;
    assert clear.value[0..] == clear.value;
    var key1, key2;
    key1, pos := ReadBcryptKey(clear.value, pos);
    if key1.Err? {
      return Err(key1.error);
    }
    key2, pos := ReadBcryptKey(clear.value, pos);
    if key2.Err? {
      return Err(key2.error);
    }
    r := Ok(VaultKeys(key1.value, key2.value));
  }

  // ---------- Web credentials ----------

  datatype VcrdAttribute = VcrdAttribute(id: u32, iv: bytes, data: bytes)

  datatype WebCredential = WebCredential(username: string, resource: string, password: string)

  /** The stored `VAULT_INTERNET_EXPLORER` record. */
  datatype WireCredential = WireCredential(
    head: unknown12,
    id1: u32,
    username: field,
    id2: u32,
    resource: field,
    id3: u32,
    password: field)

  function CredentialView(c: WireCredential): WebCredential {
    WebCredential(DecodeUtf16Le(c.username), DecodeUtf16Le(c.resource), DecodeUtf16Le(c.password))
  }

  function WriteCredential(c: WireCredential, t: bytes): bytes {
    c.head + (Le32(c.id1) + (Prefixed(c.username) + (Le32(c.id2) + (Prefixed(c.resource) + (Le32(c.id3) + (Prefixed(c.password) + t))))))
  }

  function TakeCredential(s: bytes): (r: Result<(WireCredential, bytes)>)
    ensures r.Ok? ==> s == WriteCredential(r.value.0, r.value.1)
    ensures r.Err? ==> r == Err(TooShort)
  {
    var (head, s) :- TakeBytes(s, 12);
    var (id1, s) :- TakeU32(s);
    var (username, s) :- TakePrefixed(s);
    var (id2, s) :- TakeU32(s);
    var (resource, s) :- TakePrefixed(s);
    var (id3, s) :- TakeU32(s);
    var (password, s) :- TakePrefixed(s);
    Ok((WireCredential(head, id1, username, id2, resource, id3, password), s))
  }

  function ParseCredential(clear: bytes): Result<WebCredential> {
    var (c, _) :- TakeCredential(clear);
    Ok(CredentialView(c))
  }

  lemma TakeCredentialPut(c: WireCredential, t: bytes)
    ensures TakeCredential(WriteCredential(c, t)) == Ok((c, t))
  {
    var t6 := Prefixed(c.password) + t;
    var t5 := Le32(c.id3) + t6;
    var t4 := Prefixed(c.resource) + t5;
    var t3 := Le32(c.id2) + t4;
    var t2 := Prefixed(c.username) + t3;
    TakeBytesPut(c.head, Le32(c.id1) + t2);
    TakeU32Put(c.id1, t2);
    TakePrefixedPut(c.username, t3);
    TakeU32Put(c.id2, t4);
    TakePrefixedPut(c.resource, t5);
    TakeU32Put(c.id3, t6);
    TakePrefixedPut(c.password, t);
  }

  /** A web credential comes out exactly when it was written, in this field order. */
  lemma ParseCredentialExact(clear: bytes, view: WebCredential)
    ensures ParseCredential(clear) == Ok(view) <==>
            exists c, t {:trigger WriteCredential(c, t)} ::
              && clear == WriteCredential(c, t)
              && view == WebCredential(DecodeUtf16Le(c.username), DecodeUtf16Le(c.resource), DecodeUtf16Le(c.password))
  {
    if ParseCredential(clear) == Ok(view) {
      var (c, t) := TakeCredential(clear).value;
      assert clear == WriteCredential(c, t);
    }
    forall c, t | clear == WriteCredential(c, t) && view == CredentialView(c)
      ensures ParseCredential(clear) == Ok(view)
    {
      TakeCredentialPut(c, t);
    }
  }

  /** An identifier with the fallback, then a length-prefixed value. */
  method ReadIdLen(data: bytes, start: nat) returns (id: u32, r: Result<field>, pos: nat)
    ensures r.Err? ==> r == Err(TooShort)
    ensures r.Ok? ==> start + 8 <= pos <= |data|
    ensures start <= |data| && r.Ok? ==>
              TakeU32(data[start..]) == Ok((id, data[start + 4..])) &&
              TakePrefixed(data[start + 4..]) == Ok((r.value, data[pos..]))
    ensures start <= |data| && r.Err? ==>
              TakeU32(data[start..]).Err? || TakePrefixed(TakeU32(data[start..]).value.1).Err?
  {
    id, pos := ReadU32(data, start);
    r, pos := ReadLenPrefixed(data, pos);
    if r.Ok? {
      assert |data[start + 4..]| >= 4;
    }
  }

  /** The parser as it runs, with a cursor that starts behind a header it never looks at. */
  method ParseInternetExplorer(clear: bytes) returns (r: Result<WebCredential>)
    ensures r == ParseCredential(clear)
  {
    var pos := 12;
    if 12 <= |clear| {
      assert clear[0..] == clear;
      TakeBytesAt(clear, 0, 12);
    }
    var id1, id2, id3, username, resource, password;
    id1, username, pos := ReadIdLen(clear, pos);
    if username.Err? {
      return Err(TooShort);
    }
    id2, resource, pos := ReadIdLen(clear, pos);
    if resource.Err? {
      return Err(TooShort);
    }
    id3, password, pos := ReadIdLen(clear, pos);
    if password.Err? {
      return Err(TooShort);
    }
    r := Ok(WebCredential(DecodeUtf16Le(username.value), DecodeUtf16Le(resource.value), DecodeUtf16Le(password.value)));
  }

  /** The IV in use: the stored one when it has 16 bytes, zeros otherwise. */
  function UsedIv(iv: bytes): (r: bytes)
    ensures |r| == 16
  {
    if |iv| == 16 then iv else Zeros(16)
  }

  /** AES-CBC without unpadding. */
  function DecryptVcrdAttribute(p: Primitives, attr: VcrdAttribute, key: bytes): Result<bytes> {
    DecryptNoPad(p.aes, key, UsedIv(attr.iv), attr.data)
  }

  /** The attribute is a web credential and further bytes, encrypted under a key of 32 bytes. */
  predicate Carries(p: Primitives, attr: VcrdAttribute, key: bytes, c: WireCredential, slack: bytes) {
    var clear := WriteCredential(c, slack);
    var iv := if |attr.iv| == 16 then attr.iv else Zeros(16);
    |key| == 32 && Whole(|clear|, 16) && attr.data == CbcEncrypt(p.aes, key, iv, clear)
  }

  /** A credential comes out of an attribute exactly when it was encrypted into it. */
  lemma CredentialOfAttributeExact(p: Primitives, attr: VcrdAttribute, key: bytes, view: WebCredential)
    ensures (DecryptVcrdAttribute(p, attr, key).Ok? &&
             ParseCredential(DecryptVcrdAttribute(p, attr, key).value) == Ok(view)) <==>
            exists c, slack :: Carries(p, attr, key, c, slack) && view == CredentialView(c)
  {
    if |key| == 32 {
      var iv := UsedIv(attr.iv);
      if Whole(|attr.data|, 16) {
        CbcEncryptDecrypt(p.aes, key, iv, attr.data);
        var clear := CbcDecrypt(p.aes, key, iv, attr.data);
        if ParseCredential(clear) == Ok(view) {
          var (c, slack) := TakeCredential(clear).value;
          assert Carries(p, attr, key, c, slack);
        }
      }
      forall c, slack | Carries(p, attr, key, c, slack)
        ensures DecryptVcrdAttribute(p, attr, key) == Ok(WriteCredential(c, slack))
        ensures ParseCredential(WriteCredential(c, slack)) == Ok(CredentialView(c))
      {
        CbcDecryptEncrypt(p.aes, key, iv, WriteCredential(c, slack));
        TakeCredentialPut(c, slack);
      }
    }
  }
}
