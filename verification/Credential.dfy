/** Credential Manager files and the credential inside (`core/src/credential.rs`). */
module Credential {
  import opened Bytes
  import opened Results
  import opened Primitives
  import opened Wire
  import opened Text
  import opened Blob
  import opened Decrypt

  // ---------- The file wrapper ----------

  /** `Size` is read with the fallback at offset 4; the slice behind the header is bounds-checked. */
  function ParseCredentialFile(data: bytes): Result<bytes> {
    var end := 12 + U32At(data, 4) as int;
    if end > |data| then Err(TooShort) else Ok(data[12..end])
  }

  function WriteCredentialFile(version: u32, unknown: u32, blob: field, t: bytes): bytes {
    Le32(version) + (Le32(|blob|) + (Le32(unknown) + (blob + t)))
  }

  /** The wrapper yields a blob exactly when it was written around that blob. */
  lemma ParseCredentialFileExact(data: bytes, blob: bytes)
    ensures ParseCredentialFile(data) == Ok(blob) <==>
            |blob| < 0x1_0000_0000 &&
            exists version, unknown, t {:trigger WriteCredentialFile(version, unknown, blob, t)} ::
              data == WriteCredentialFile(version, unknown, blob, t)
  {
    if ParseCredentialFile(data) == Ok(blob) {
      var version, size, unknown := TakeU32(data).value.0, U32At(data, 4), TakeU32(data[8..]).value.0;
      assert data[..4] == Le32(version) && data[8..12] == Le32(unknown);
      LeOfFromLe(data[4..8]);
      assert data[4..8] == Le32(size);
      var t := data[12 + size..];
      assert data == data[..4] + (data[4..8] + (data[8..12] + (blob + t)));
      assert data == WriteCredentialFile(version, unknown, blob, t);
    }
    if |blob| < 0x1_0000_0000 {
      forall version, unknown, t | data == WriteCredentialFile(version, unknown, blob, t)
        ensures ParseCredentialFile(data) == Ok(blob)
      {
        ParseOfWriteFile(version, unknown, blob, t);
      }
    }
  }

  lemma ParseOfWriteFile(version: u32, unknown: u32, blob: field, t: bytes)
    ensures ParseCredentialFile(WriteCredentialFile(version, unknown, blob, t)) == Ok(blob)
  {
    var data := WriteCredentialFile(version, unknown, blob, t);
    assert data == Le32(version) + Le32(|blob|) + (Le32(unknown) + (blob + t));
    U32AtPut(Le32(version), |blob|, Le32(unknown) + (blob + t));
    assert data[12..12 + |blob|] == blob;
  }

  // ---------- The credential ----------

  type part20 = b: bytes | |b| == 20 witness Zeros(20)

  datatype Fields = Fields(target: field, targetAlias: field, description: field, secret: field, username: field)

  /** The stored `CREDENTIAL_BLOB`. */
  datatype WireCredential = WireCredential(head: part20, lastWritten: u64, rest: part20, fields: Fields)

  datatype Cred = Cred(target: string, username: string, secret: string, lastWritten: u64)

  function View(c: WireCredential): Cred {
    Cred(DecodeUtf16Le(c.fields.target), DecodeUtf16Le(c.fields.username), DecodeUtf16Le(c.fields.secret), c.lastWritten)
  }

  function FieldsThen(f: Fields, t: bytes): bytes {
    Prefixed(f.target) + (Prefixed(f.targetAlias) + (Prefixed(f.description) + (Prefixed(f.secret) + (Prefixed(f.username) + t))))
  }

  function WriteCredential(c: WireCredential, t: bytes): bytes {
    c.head + (Le64(c.lastWritten) + (c.rest + FieldsThen(c.fields, t)))
  }

  function TakeFields(s: bytes): (r: Result<(Fields, bytes)>)
    ensures r.Ok? ==> s == FieldsThen(r.value.0, r.value.1)
    ensures r.Err? ==> r == Err(TooShort)
  {
    var (target, s) :- TakePrefixed(s);
    var (targetAlias, s) :- TakePrefixed(s);
    var (description, s) :- TakePrefixed(s);
    var (secret, s) :- TakePrefixed(s);
    var (username, s) :- TakePrefixed(s);
    Ok((Fields(target, targetAlias, description, secret, username), s))
  }

  function TakeCredential(s: bytes): (r: Result<(WireCredential, bytes)>)
    ensures r.Ok? ==> s == WriteCredential(r.value.0, r.value.1) && |s| >= 48
    ensures r.Err? ==> r == Err(TooShort)
  {
    var (head, s) :- TakeBytes(s, 20);
    var (lastWritten, s) :- TakeU64(s);
    var (rest, s) :- TakeBytes(s, 20);
    var (fields, s) :- TakeFields(s);
    Ok((WireCredential(head, lastWritten, rest, fields), s))
  }

  function ParseCredential(data: bytes): (r: Result<Cred>)
    ensures r.Err? ==> r == Err(TooShort)
  {
    var (c, _) :- TakeCredential(data);
    Ok(View(c))
  }

  lemma TakeFieldsPut(f: Fields, t: bytes)
    ensures TakeFields(FieldsThen(f, t)) == Ok((f, t))
  {
    var t4 := Prefixed(f.username) + t;
    var t3 := Prefixed(f.secret) + t4;
    var t2 := Prefixed(f.description) + t3;
    TakePrefixedPut(f.target, Prefixed(f.targetAlias) + t2);
    TakePrefixedPut(f.targetAlias, t2);
    TakePrefixedPut(f.description, t3);
    TakePrefixedPut(f.secret, t4);
    TakePrefixedPut(f.username, t);
  }

  lemma TakeCredentialPut(c: WireCredential, t: bytes)
    ensures TakeCredential(WriteCredential(c, t)) == Ok((c, t))
  {
    var f := FieldsThen(c.fields, t);
    TakeBytesPut(c.head, Le64(c.lastWritten) + (c.rest + f));
    TakeU64Put(c.lastWritten, c.rest + f);
    TakeBytesPut(c.rest, f);
    TakeFieldsPut(c.fields, t);
  }

  /** A credential comes out exactly when it was written, in this field order. */
  lemma ParseCredentialExact(data: bytes, view: Cred)
    ensures ParseCredential(data) == Ok(view) <==>
            exists c, t {:trigger WriteCredential(c, t)} ::
              && data == WriteCredential(c, t)
              && view == Cred(DecodeUtf16Le(c.fields.target), DecodeUtf16Le(c.fields.username),
                              DecodeUtf16Le(c.fields.secret), c.lastWritten)
  {
    if ParseCredential(data) == Ok(view) {
      var (c, t) := TakeCredential(data).value;
      assert data == WriteCredential(c, t);
    }
    forall c, t | data == WriteCredential(c, t) && view == View(c)
      ensures ParseCredential(data) == Ok(view)
    {
      TakeCredentialPut(c, t);
    }
  }

  /** The five fields behind the header, read with the cursor. */
  method ReadFields(data: bytes, start: nat) returns (r: Result<Fields>)
    requires start <= |data|
    ensures r.Err? ==> TakeFields(data[start..]) == Err(r.error)
    ensures r.Ok? ==> TakeFields(data[start..]).Ok? && TakeFields(data[start..]).value.0 == r.value
  {
    var target, targetAlias, description, secret, username;
    var pos := start;
    target, pos := ReadLenPrefixed(data, pos);
    if target.Err? {
      return Err(target.error);
    }
    targetAlias, pos := ReadLenPrefixed(data, pos);
    if targetAlias.Err? {
      return Err(targetAlias.error);
    }
    description, pos := ReadLenPrefixed(data, pos);
    if description.Err? {
      return Err(description.error);
    }
    secret, pos := ReadLenPrefixed(data, pos);
    if secret.Err? {
      return Err(secret.error);
    }
    username, pos := ReadLenPrefixed(data, pos);
    if username.Err? {
      return Err(username.error);
    }
    r := Ok(Fields(target.value, targetAlias.value, description.value, secret.value, username.value));
  }

  /** The parser as it runs: a length check, the time at its offset, a cursor over the five fields. */
  method ParseCredentialBlob(data: bytes) returns (r: Result<Cred>)
    ensures r == ParseCredential(data)
  {
    if |data| < 48 {
      return Err(TooShort);
    }
    HeaderSkipped(data);
    var lastWritten := TakeU64(data[20..]).value.0;
    var fields := ReadFields(data, 48);
    if fields.Err? {
      return Err(fields.error);
    }
    var f := fields.value;
    r := Ok(Cred(DecodeUtf16Le(f.target), DecodeUtf16Le(f.username), DecodeUtf16Le(f.secret), lastWritten));
  }

  lemma HeaderSkipped(data: bytes)
    requires |data| >= 48
    ensures TakeBytes(data, 20) == Ok((data[..20], data[20..]))
    ensures TakeU64(data[20..]).Ok? && TakeU64(data[20..]).value.1 == data[28..]
    ensures TakeBytes(data[28..], 20) == Ok((data[28..48], data[48..]))
  {
    assert data[20..][8..] == data[28..];
    TakeBytesAt(data, 28, 20);
  }

  /** Parse and open the blob, then parse the credential in it. */
  function OpenCredential(p: Primitives, blobBytes: bytes, masterKey: bytes): Result<Cred> {
    var clear :- OpenBytes(p, blobBytes, masterKey, None);
    ParseCredential(clear)
  }

  method DecryptCredential(p: Primitives, blobBytes: bytes, masterKey: bytes) returns (r: Result<Cred>)
    ensures r == OpenCredential(p, blobBytes, masterKey)
  {
    hide OpenBytes;
    var clear := ParseAndDecrypt(p, blobBytes, masterKey, None);
    if clear.Err? {
      return Err(clear.error);
    }
    r := ParseCredentialBlob(clear.value);
  }
}
