/** The store decoders of the command line (`forensic/src/lib.rs`). */
module Forensic {
  import opened Bytes
  import opened Results
  import opened Primitives
  import opened Wire
  import opened Text
  import opened Blob
  import opened Decrypt
  import opened Cbc
  import opened Hex
  import opened Wifi
  import opened Chrome
  import Credential
  import Vault
  import Vcrd
  import VcrdProperties

  datatype StoreResult = StoreResult(store: string, itemLabel: string, secret: string, account: Option<string>)

  datatype CliError =
    | Dpapi(error: DpapiError)
    | Io
    | BadMasterKey
    | Locked(store: string, mkGuid: string)

  datatype Outcome<+T> = Done(value: T) | Failed(error: CliError) {
    predicate IsFailure() {
      Failed?
    }

    function PropagateFailure<U>(): Outcome<U>
      requires Failed?
    {
      Failed(error)
    }

    function Extract(): T
      requires Done?
    {
      value
    }
  }

  /** `?` on a library result: the error is wrapped. */
  function Lift<T>(r: Result<T>): Outcome<T> {
    match r
    case Ok(v) => Done(v)
    case Err(e) => Failed(Dpapi(e))
  }

  // ---------- GUIDs ----------

  /** The mixed-endian rendering: three little-endian groups, two groups as stored. */
  function GuidText(g: guid): string {
    HexText(Reverse(g[..4])) + "-" + HexText(Reverse(g[4..6])) + "-" + HexText(Reverse(g[6..8])) + "-" +
    HexText(g[8..10]) + "-" + HexText(g[10..])
  }

  /** The bytes of a GUID in the order in which they are shown. */
  function ShownOrder(g: guid): (b: bytes)
    ensures |b| == 16
  {
    [g[3], g[2], g[1], g[0], g[5], g[4], g[7], g[6], g[8], g[9], g[10], g[11], g[12], g[13], g[14], g[15]]
  }

  /** Hyphens stand at 8, 13, 18 and 23; the digits between them are those of the bytes as shown. */
  lemma GuidTextLayout(g: guid)
    ensures var t := GuidText(g);
            && |t| == 36 && t[8] == t[13] == t[18] == t[23] == '-'
            && AsBytes(t[..8]) + AsBytes(t[9..13]) + AsBytes(t[14..18]) + AsBytes(t[19..23]) + AsBytes(t[24..])
               == HexDigits(ShownOrder(g))
  {
    var a, b, c, d, e := Reverse(g[..4]), Reverse(g[4..6]), Reverse(g[6..8]), g[8..10], g[10..];
    CutGroups(HexText(a), HexText(b), HexText(c), HexText(d), HexText(e));
    assert ShownOrder(g) == a + b + c + d + e;
    HexDigitsAppend(a, b);
    HexDigitsAppend(a + b, c);
    HexDigitsAppend(a + b + c, d);
    HexDigitsAppend(a + b + c + d, e);
  }

  lemma CutGroups(a: string, b: string, c: string, d: string, e: string)
    requires |a| == 8 && |b| == |c| == |d| == 4 && |e| == 12
    ensures var t := a + "-" + b + "-" + c + "-" + d + "-" + e;
            && |t| == 36 && t[8] == t[13] == t[18] == t[23] == '-'
            && t[..8] == a && t[9..13] == b && t[14..18] == c && t[19..23] == d && t[24..] == e
  {
  }

  lemma {:induction false} ReverseInjective(a: bytes, b: bytes)
    requires |a| == |b| && Reverse(a) == Reverse(b)
    ensures a == b
  {
    forall i | 0 <= i < |a|
      ensures a[i] == b[i]
    {
      assert Reverse(a)[|a| - 1 - i] == a[i] && Reverse(b)[|b| - 1 - i] == b[i];
    }
  }

  lemma SameGroup(s: string, t: string, x: string, y: string)
    requires s + x == t + y && |s| == |t|
    ensures s == t && x == y
  {
    assert s == (s + x)[..|s|] && t == (t + y)[..|t|];
    assert x == (s + x)[|s|..] && y == (t + y)[|t|..];
  }

  /** No two GUIDs have the same rendering. */
  lemma GuidTextInjective(g: guid, h: guid)
    requires GuidText(g) == GuidText(h)
    ensures g == h
  {
    var a1, b1 := HexText(Reverse(g[..4])), HexText(Reverse(h[..4]));
    var a2, b2 := HexText(Reverse(g[4..6])), HexText(Reverse(h[4..6]));
    var a3, b3 := HexText(Reverse(g[6..8])), HexText(Reverse(h[6..8]));
    var a4, b4 := HexText(g[8..10]), HexText(h[8..10]);
    var a5, b5 := HexText(g[10..]), HexText(h[10..]);
    GroupsEqual(a1, a2, a3, a4, a5, b1, b2, b3, b4, b5);
    HexTextInjective(Reverse(g[..4]), Reverse(h[..4]));
    HexTextInjective(Reverse(g[4..6]), Reverse(h[4..6]));
    HexTextInjective(Reverse(g[6..8]), Reverse(h[6..8]));
    HexTextInjective(g[8..10], h[8..10]);
    HexTextInjective(g[10..], h[10..]);
    ReverseInjective(g[..4], h[..4]);
    ReverseInjective(g[4..6], h[4..6]);
    ReverseInjective(g[6..8], h[6..8]);
    assert g == g[..4] + g[4..6] + g[6..8] + g[8..10] + g[10..];
    assert h == h[..4] + h[4..6] + h[6..8] + h[8..10] + h[10..];
  }

  lemma GroupsEqual(a1: string, a2: string, a3: string, a4: string, a5: string,
                    b1: string, b2: string, b3: string, b4: string, b5: string)
    requires |a1| == |b1| && |a2| == |b2| && |a3| == |b3| && |a4| == |b4| && |a5| == |b5|
    requires a1 + "-" + a2 + "-" + a3 + "-" + a4 + "-" + a5 == b1 + "-" + b2 + "-" + b3 + "-" + b4 + "-" + b5
    ensures a1 == b1 && a2 == b2 && a3 == b3 && a4 == b4 && a5 == b5
  {
    SameGroup(a1 + "-" + a2 + "-" + a3 + "-" + a4 + "-", b1 + "-" + b2 + "-" + b3 + "-" + b4 + "-", a5, b5);
    SameGroup(a1 + "-" + a2 + "-" + a3 + "-" + a4, b1 + "-" + b2 + "-" + b3 + "-" + b4, "-", "-");
    SameGroup(a1 + "-" + a2 + "-" + a3 + "-", b1 + "-" + b2 + "-" + b3 + "-", a4, b4);
    SameGroup(a1 + "-" + a2 + "-" + a3, b1 + "-" + b2 + "-" + b3, "-", "-");
    SameGroup(a1 + "-" + a2 + "-", b1 + "-" + b2 + "-", a3, b3);
    SameGroup(a1 + "-" + a2, b1 + "-" + b2, "-", "-");
    SameGroup(a1 + "-", b1 + "-", a2, b2);
    SameGroup(a1, b1, "-", "-");
  }

  // ---------- Locked stores ----------

  const UNKNOWN := "unknown"

  predicate MeansLocked(e: DpapiError) {
    e == HmacMismatch || e == DecryptionFailed || e == DomainBackupUnsupported
  }

  function LockedOrErr(store: string, blobBytes: bytes, e: DpapiError): CliError {
    if MeansLocked(e) then
      Locked(store, match ParseBlob(blobBytes) case Ok(b) => GuidText(b.masterKeyGuid) case Err(_) => UNKNOWN)
    else Dpapi(e)
  }

  /** A library result whose locking errors name the master key of `blobBytes`. */
  function LockedLift<T>(store: string, blobBytes: bytes, r: Result<T>): Outcome<T> {
    match r
    case Ok(v) => Done(v)
    case Err(e) => Failed(LockedOrErr(store, blobBytes, e))
  }

  /** The blob parses, its cipher is known, and sealing nothing under this key gives it. */
  ghost predicate CannotOpen(p: Primitives, blobBytes: bytes, masterKey: bytes) {
    && ParseBlob(blobBytes).Ok?
    && p.cipherInfo(ParseBlob(blobBytes).value.algIdEncrypt).Some?
    && forall clear :: !IsSealed(p, blobBytes, masterKey, None, clear)
  }

  /** The GUID of the master key that a blob names at offset 24. */
  function NamedKey(blobBytes: bytes): string {
    if |blobBytes| < 40 then UNKNOWN else GuidText(blobBytes[24..40])
  }

  /**
   What becomes of a library error: of the three locking errors a report that names the key at offset
   24 of the blob, or "unknown" if it does not parse; every other error stays what it is.
   */
  lemma LockedOrErrExact(store: string, blobBytes: bytes, e: DpapiError)
    ensures LockedOrErr(store, blobBytes, e) ==
            if e != HmacMismatch && e != DecryptionFailed && e != DomainBackupUnsupported then Dpapi(e)
            else Locked(store, if ParseBlob(blobBytes).Err? then "unknown" else NamedKey(blobBytes))
    ensures ParseBlob(blobBytes).Ok? ==> |blobBytes| >= 48
  {
    hide ParseBlob, GuidText;
    if ParseBlob(blobBytes).Ok? {
      GuidOffset(blobBytes);
    }
  }

  /** The errors that parsing and opening a blob can give. */
  predicate BlobError(e: DpapiError) {
    e.TooShort? || e.UnsupportedVersion? || e.NotDpapiProvider? || e.UnsupportedAlgId? || e.DecryptionFailed? || e.HmacMismatch?
  }

  lemma OpenBytesErrors(p: Primitives, data: bytes, masterKey: bytes)
    requires OpenBytes(p, data, masterKey, None).Err?
    ensures BlobError(OpenBytes(p, data, masterKey, None).error)
  {
    if ParseBlob(data).Ok? {
      OpenErrors(p, ParseBlob(data).value, masterKey, None);
    }
  }

  /** A locking error is exactly what a blob gives that parsed and was not sealed under this key. */
  lemma CannotOpenExact(p: Primitives, data: bytes, masterKey: bytes)
    ensures CannotOpen(p, data, masterKey) <==>
            OpenBytes(p, data, masterKey, None).Err? && MeansLocked(OpenBytes(p, data, masterKey, None).error)
  {
    hide OpenBlob, ParseWire, IsSealed;
    var r := OpenBytes(p, data, masterKey, None);
    forall clear
      ensures r == Ok(clear) <==> IsSealed(p, data, masterKey, None, clear)
    {
      OpenAcceptsExactlySealed(p, data, masterKey, None, clear);
    }
    if r.Ok? {
      assert IsSealed(p, data, masterKey, None, r.value);
    } else if ParseBlob(data).Ok? {
      OpenErrors(p, ParseBlob(data).value, masterKey, None);
    }
  }

  /** What opening first and parsing the cleartext then gives, when the latter has no locking errors. */
  lemma LockedAfterOpen<T>(p: Primitives, store: string, data: bytes, masterKey: bytes, r: Result<T>,
                           s: string, guidText: string)
    requires r.Err? && MeansLocked(r.error) <==>
             OpenBytes(p, data, masterKey, None).Err? && MeansLocked(OpenBytes(p, data, masterKey, None).error)
    ensures LockedLift(store, data, r) == Failed(Locked(s, guidText)) <==>
            CannotOpen(p, data, masterKey) && s == store && guidText == NamedKey(data)
  {
    hide OpenBlob, ParseBlob, IsSealed, GuidText;
    CannotOpenExact(p, data, masterKey);
    if ParseBlob(data).Ok? {
      GuidOffset(data);
    }
  }

  /** A blob that does not parse, or names an unknown cipher, is reported as the error it is. */
  lemma NotOpened<T>(p: Primitives, store: string, data: bytes, masterKey: bytes, r: Result<T>)
    requires OpenBytes(p, data, masterKey, None).Err? ==> r == Err(OpenBytes(p, data, masterKey, None).error)
    ensures NotABlob(p, data).Some? ==> LockedLift(store, data, r) == Failed(Dpapi(NotABlob(p, data).value))
  {
    hide ParseWire;
  }

  /** The error of a blob that is not refused for its key: it does not parse, or its cipher is unknown. */
  function NotABlob(p: Primitives, data: bytes): Option<DpapiError> {
    match ParseBlob(data)
    case Err(e) => Some(e)
    case Ok(b) => if p.cipherInfo(b.algIdEncrypt).None? then Some(UnsupportedAlgId(b.algIdEncrypt)) else None
  }

  // ---------- Credential Manager ----------

  function CredmanResult(c: Credential.Cred): seq<StoreResult> {
    [StoreResult("credman", c.target, c.secret, Some(c.username))]
  }

  function CredmanOutcome(p: Primitives, file: bytes, masterKey: bytes): Outcome<seq<StoreResult>> {
    var blob :- Lift(Credential.ParseCredentialFile(file));
    var c :- LockedLift("credman", blob, Credential.OpenCredential(p, blob, masterKey));
    Done(CredmanResult(c))
  }

  /** The store decoder as it runs. */
  method DecodeCredman(p: Primitives, file: bytes, masterKey: bytes) returns (r: Outcome<seq<StoreResult>>)
    ensures r == CredmanOutcome(p, file, masterKey)
  {
    hide OpenBlob, ParseWire;
    var blob := Credential.ParseCredentialFile(file);
    if blob.Err? {
      return Failed(Dpapi(blob.error));
    }
    var c := Credential.DecryptCredential(p, blob.value, masterKey);
    if c.Err? {
      return Failed(LockedOrErr("credman", blob.value, c.error));
    }
    r := Done([StoreResult("credman", c.value.target, c.value.secret, Some(c.value.username))]);
  }

  /** A locked report arises exactly when the wrapped blob parses and cannot be opened, and names its key. */
  lemma CredmanLockedExact(p: Primitives, file: bytes, masterKey: bytes, store: string, guidText: string)
    ensures CredmanOutcome(p, file, masterKey) == Failed(Locked(store, guidText)) <==>
            && Credential.ParseCredentialFile(file).Ok?
            && var blob := Credential.ParseCredentialFile(file).value;
               CannotOpen(p, blob, masterKey) && store == "credman" && guidText == NamedKey(blob)
  {
    hide OpenBlob, ParseWire, Credential.TakeCredential;
    if Credential.ParseCredentialFile(file).Ok? {
      var blob := Credential.ParseCredentialFile(file).value;
      LockedAfterOpen(p, "credman", blob, masterKey, Credential.OpenCredential(p, blob, masterKey), store, guidText);
    }
  }

  /** The file wraps a blob that sealing this credential writes. */
  ghost predicate HoldsCredential(p: Primitives, file: bytes, masterKey: bytes, c: Credential.WireCredential, slack: bytes) {
    && Credential.ParseCredentialFile(file).Ok?
    && IsSealed(p, Credential.ParseCredentialFile(file).value, masterKey, None, Credential.WriteCredential(c, slack))
  }

  /**
   A result is reported exactly for the files that hold a sealed credential, and it is this
   credential: target, secret and user name unchanged.
   */
  lemma CredmanExact(p: Primitives, file: bytes, masterKey: bytes, results: seq<StoreResult>)
    ensures CredmanOutcome(p, file, masterKey) == Done(results) <==>
            exists c, slack :: HoldsCredential(p, file, masterKey, c, slack) &&
              results == [StoreResult("credman", DecodeUtf16Le(c.fields.target), DecodeUtf16Le(c.fields.secret),
                                      Some(DecodeUtf16Le(c.fields.username)))]
  {
    hide OpenBlob, ParseWire, IsSealed;
    if CredmanOutcome(p, file, masterKey) == Done(results) {
      var blob := Credential.ParseCredentialFile(file).value;
      var clear := OpenBytes(p, blob, masterKey, None).value;
      var (c, slack) := Credential.TakeCredential(clear).value;
      OpenAcceptsExactlySealed(p, blob, masterKey, None, clear);
      assert HoldsCredential(p, file, masterKey, c, slack);
    }
    forall c, slack | HoldsCredential(p, file, masterKey, c, slack)
      ensures CredmanOutcome(p, file, masterKey) == Done(CredmanResult(Credential.View(c)))
    {
      var blob := Credential.ParseCredentialFile(file).value;
      OpenAcceptsExactlySealed(p, blob, masterKey, None, Credential.WriteCredential(c, slack));
      Credential.TakeCredentialPut(c, slack);
    }
  }

  /** Everything else is an error of its own: of the wrapper, of the blob, or of the cleartext. */
  lemma CredmanRefusals(p: Primitives, file: bytes, masterKey: bytes)
    ensures Credential.ParseCredentialFile(file).Err? ==>
              CredmanOutcome(p, file, masterKey) == Failed(Dpapi(TooShort))
    ensures Credential.ParseCredentialFile(file).Ok? ==>
              var blob := Credential.ParseCredentialFile(file).value;
              && (NotABlob(p, blob).Some? ==>
                    CredmanOutcome(p, file, masterKey) == Failed(Dpapi(NotABlob(p, blob).value)))
              && (forall clear :: IsSealed(p, blob, masterKey, None, clear) && Credential.ParseCredential(clear).Err? ==>
                    CredmanOutcome(p, file, masterKey) == Failed(Dpapi(TooShort)))
  {
    hide OpenBytes, NotABlob, ParseBlob, IsSealed, Credential.ParseCredential;
    if Credential.ParseCredentialFile(file).Ok? {
      var blob := Credential.ParseCredentialFile(file).value;
      NotOpened(p, "credman", blob, masterKey, Credential.OpenCredential(p, blob, masterKey));
      forall clear | IsSealed(p, blob, masterKey, None, clear)
        ensures OpenBytes(p, blob, masterKey, None) == Ok(clear)
      {
        OpenAcceptsExactlySealed(p, blob, masterKey, None, clear);
      }
    }
  }

  /** The stored fields are these texts, with or without NULs behind them. */
  ghost predicate StoresLogin(f: Credential.Fields, target: string, secret: string, username: string) {
    StoresText(f.target, target) && StoresText(f.secret, secret) && StoresText(f.username, username)
  }

  /** A credential of texts, sealed and wrapped by a writer whatever its header and form, comes back unchanged. */
  lemma CredmanRoundTrip(p: Primitives, version: u32, unknown: u32, blob: field, masterKey: bytes,
                         c: Credential.WireCredential, slack: bytes, t: bytes,
                         target: string, secret: string, username: string)
    requires IsSealed(p, blob, masterKey, None, Credential.WriteCredential(c, slack))
    requires StoresLogin(c.fields, target, secret, username)
    ensures CredmanOutcome(p, Credential.WriteCredentialFile(version, unknown, blob, t), masterKey) ==
            Done([StoreResult("credman", target, secret, Some(username))])
  {
    hide IsSealed, CredmanOutcome, StoresText, DecodeUtf16Le;
    var file := Credential.WriteCredentialFile(version, unknown, blob, t);
    Credential.ParseOfWriteFile(version, unknown, blob, t);
    assert HoldsCredential(p, file, masterKey, c, slack);
    DecodeOfStored(c.fields.target, target);
    DecodeOfStored(c.fields.secret, secret);
    DecodeOfStored(c.fields.username, username);
    CredmanExact(p, file, masterKey, [StoreResult("credman", target, secret, Some(username))]);
  }

  // ---------- Wi-Fi ----------

  function WifiResult(psk: string): seq<StoreResult> {
    [StoreResult("wifi", "PSK", psk, None)]
  }

  /** The key material is decoded twice: here for the report, and again by the library. */
  function WifiOutcome(p: Primitives, lib: Library, xml: string, masterKey: bytes): Outcome<seq<StoreResult>> {
    match ExtractKeyMaterial(xml)
    case None => Failed(Io)
    case Some(text) =>
      match HexBytes(AsBytes(text))
      case None => Failed(BadMasterKey)
      case Some(blob) =>
        var psk :- LockedLift("wifi", blob, OpenWlanKeyMaterial(p, lib, text, masterKey));
        Done(WifiResult(psk))
  }

  /** The store decoder as it runs: its own hexadecimal decoder first, then the library with the other one. */
  method DecodeWifi(p: Primitives, lib: Library, xml: string, masterKey: bytes) returns (r: Outcome<seq<StoreResult>>)
    ensures r == WifiOutcome(p, lib, xml, masterKey)
  {
    hide OpenBlob, ParseWire, HexBytes;
    var text := ExtractKeyMaterial(xml);
    if text.None? {
      return Failed(Io);
    }
    var blob := CliHexDecode(text.value);
    if blob.None? {
      return Failed(BadMasterKey);
    }
    var psk := DecryptWlanKeyMaterial(p, lib, text.value, masterKey);
    if psk.Err? {
      return Failed(LockedOrErr("wifi", blob.value, psk.error));
    }
    r := Done([StoreResult("wifi", "PSK", psk.value, None)]);
  }

  /** The blob in the first `<keyMaterial>` element of a profile. */
  function WifiBlob(xml: string): Option<bytes> {
    match ExtractKeyMaterial(xml)
    case None => None
    case Some(text) => HexBytes(AsBytes(text))
  }

  /** A locked report arises exactly when that blob parses and cannot be opened, and names its key. */
  lemma WifiLockedExact(p: Primitives, lib: Library, xml: string, masterKey: bytes, store: string, guidText: string)
    ensures WifiOutcome(p, lib, xml, masterKey) == Failed(Locked(store, guidText)) <==>
            && WifiBlob(xml).Some? && CannotOpen(p, WifiBlob(xml).value, masterKey)
            && store == "wifi" && guidText == NamedKey(WifiBlob(xml).value)
  {
    hide OpenBlob, ParseWire, HexBytes, FindFrom;
    if WifiBlob(xml).Some? {
      var text := ExtractKeyMaterial(xml).value;
      LockedAfterOpen(p, "wifi", WifiBlob(xml).value, masterKey, OpenWlanKeyMaterial(p, lib, text, masterKey),
                      store, guidText);
    }
  }

  /** The two decoders agree, so malformed key material is never reported by the library. */
  lemma WifiNeverInvalidHex(p: Primitives, lib: Library, xml: string, masterKey: bytes)
    ensures WifiOutcome(p, lib, xml, masterKey) != Failed(Dpapi(InvalidHex))
    ensures WifiOutcome(p, lib, xml, masterKey) == Failed(BadMasterKey) <==>
            ExtractKeyMaterial(xml).Some? && WifiBlob(xml).None?
  {
    hide OpenBlob, ParseWire, HexBytes, FindFrom;
    if WifiBlob(xml).Some? {
      var blob := WifiBlob(xml).value;
      if OpenBytes(p, blob, masterKey, None).Err? {
        OpenBytesErrors(p, blob, masterKey);
      }
    }
  }

  /** The first element holds, between white space and in hexadecimal of any case, this blob. */
  ghost predicate HoldsBlob(xml: string, blob: bytes) {
    exists pre, inner, post, text ::
      FirstElement(xml, pre, inner, post) && Surrounded(inner, text) && LowerAll(AsBytes(text)) == HexDigits(blob)
  }

  lemma WifiBlobExact(xml: string, blob: bytes)
    ensures WifiBlob(xml) == Some(blob) <==> HoldsBlob(xml, blob)
  {
    hide ExtractKeyMaterial, FirstElement, Surrounded, HexBytes, HexDigits, LowerAll;
    if WifiBlob(xml) == Some(blob) {
      var text := ExtractKeyMaterial(xml).value;
      HexExact(AsBytes(text), blob);
      ExtractExact(xml, text);
    }
    forall pre, inner, post, text |
      FirstElement(xml, pre, inner, post) && Surrounded(inner, text) && LowerAll(AsBytes(text)) == HexDigits(blob)
      ensures WifiBlob(xml) == Some(blob)
    {
      ExtractExact(xml, text);
      HexExact(AsBytes(text), blob);
    }
  }

  /** The profile holds a blob that sealing `clear` writes, and the bytes before its first NUL are `psk`. */
  ghost predicate HoldsPsk(p: Primitives, lib: Library, xml: string, masterKey: bytes, blob: bytes, clear: bytes,
                           psk: string) {
    && HoldsBlob(xml, blob)
    && IsSealed(p, blob, masterKey, None, clear)
    && lib.utf8(UpToNul(clear)) == Some(psk)
  }

  /** A result is reported exactly for the profiles that hold a sealed key, and it is this key. */
  lemma WifiExact(p: Primitives, lib: Library, xml: string, masterKey: bytes, results: seq<StoreResult>)
    ensures WifiOutcome(p, lib, xml, masterKey) == Done(results) <==>
            exists blob, clear, psk ::
              HoldsPsk(p, lib, xml, masterKey, blob, clear, psk) && results == [StoreResult("wifi", "PSK", psk, None)]
  {
    hide OpenBlob, ParseWire, HexBytes, ExtractKeyMaterial, IsSealed, HoldsBlob;
    if WifiOutcome(p, lib, xml, masterKey) == Done(results) {
      var blob := WifiBlob(xml).value;
      var clear := OpenBytes(p, blob, masterKey, None).value;
      OpenAcceptsExactlySealed(p, blob, masterKey, None, clear);
      WifiBlobExact(xml, blob);
      assert HoldsPsk(p, lib, xml, masterKey, blob, clear, lib.utf8(UpToNul(clear)).value);
    }
    forall blob, clear, psk | HoldsPsk(p, lib, xml, masterKey, blob, clear, psk)
      ensures WifiOutcome(p, lib, xml, masterKey) == Done(WifiResult(psk))
    {
      WifiBlobExact(xml, blob);
      OpenAcceptsExactlySealed(p, blob, masterKey, None, clear);
    }
  }

  /** Everything else is an error of its own: no element, bad digits, no blob, no UTF-8. */
  lemma WifiRefusals(p: Primitives, lib: Library, xml: string, masterKey: bytes)
    ensures ExtractKeyMaterial(xml).None? ==> WifiOutcome(p, lib, xml, masterKey) == Failed(Io)
    ensures ExtractKeyMaterial(xml).Some? && WifiBlob(xml).None? ==>
              WifiOutcome(p, lib, xml, masterKey) == Failed(BadMasterKey)
    ensures forall blob :: HoldsBlob(xml, blob) ==>
              && (NotABlob(p, blob).Some? ==>
                    WifiOutcome(p, lib, xml, masterKey) == Failed(Dpapi(NotABlob(p, blob).value)))
              && (forall clear :: IsSealed(p, blob, masterKey, None, clear) && lib.utf8(UpToNul(clear)).None? ==>
                    WifiOutcome(p, lib, xml, masterKey) == Failed(Dpapi(Utf16Error)))
  {
    hide OpenBytes, NotABlob, ParseBlob, IsSealed, HexBytes, ExtractKeyMaterial, HoldsBlob;
    if WifiBlob(xml).Some? {
      var text, blob := ExtractKeyMaterial(xml).value, WifiBlob(xml).value;
      NotOpened(p, "wifi", blob, masterKey, OpenWlanKeyMaterial(p, lib, text, masterKey));
      forall clear | IsSealed(p, blob, masterKey, None, clear)
        ensures OpenBytes(p, blob, masterKey, None) == Ok(clear)
      {
        OpenAcceptsExactlySealed(p, blob, masterKey, None, clear);
      }
    }
    forall blob | HoldsBlob(xml, blob)
      ensures WifiBlob(xml) == Some(blob)
    {
      WifiBlobExact(xml, blob);
    }
  }

  /**
   A pre-shared key without NUL, stored with a NUL behind it, sealed, written in hexadecimal of any
   letter case into the first element of any XML, comes back unchanged.
   */
  lemma WifiRoundTrip(p: Primitives, lib: Library, blob: bytes, masterKey: bytes, key: bytes, rest: bytes, psk: string,
                      pre: string, lead: string, text: string, trail: string, post: string)
    requires 0 !in key && lib.utf8(key) == Some(psk)
    requires IsSealed(p, blob, masterKey, None, key + [0] + rest)
    requires LowerAll(AsBytes(text)) == HexDigits(blob)
    requires NoneIn(pre, OPEN) && AllWhite(lead) && AllWhite(trail)
    ensures WifiOutcome(p, lib, pre + OPEN + (lead + text + trail + CLOSE + post), masterKey) ==
            Done([StoreResult("wifi", "PSK", psk, None)])
  {
    hide HexBytes, WifiOutcome, HoldsBlob, IsSealed;
    var xml := PlantedBlob(blob, pre, lead, text, trail, post);
    UpToNulOf(key, rest);
    assert HoldsPsk(p, lib, xml, masterKey, blob, key + [0] + rest, psk);
    WifiExact(p, lib, xml, masterKey, [StoreResult("wifi", "PSK", psk, None)]);
  }

  lemma PlantedBlob(blob: bytes, pre: string, lead: string, text: string, trail: string, post: string)
    returns (xml: string)
    requires LowerAll(AsBytes(text)) == HexDigits(blob)
    requires NoneIn(pre, OPEN) && AllWhite(lead) && AllWhite(trail)
    ensures xml == pre + OPEN + (lead + text + trail + CLOSE + post) && HoldsBlob(xml, blob)
  {
    xml := pre + OPEN + (lead + text + trail + CLOSE + post);
    EncodingIsPlain(text, blob);
    PlainSurrounded(lead, text, trail);
    assert FirstElement(xml, pre, lead + text + trail, post);
  }

  /** Hexadecimal text holds neither white space nor a tag. */
  lemma EncodingIsPlain(text: string, blob: bytes)
    requires LowerAll(AsBytes(text)) == HexDigits(blob)
    ensures PlainText(text)
  {
    hide HexDigits;
    EncodingIsDigits(text, blob);
  }

  // ---------- Vault ----------

  function VaultResult(c: Vault.WebCredential): StoreResult {
    StoreResult("vault", c.resource, c.password, Some(c.username))
  }

  /** What one attribute contributes: nothing unless it decrypts and holds a credential. */
  function AttributeResult(p: Primitives, attr: Vault.VcrdAttribute, key: bytes): seq<StoreResult> {
    match Vault.DecryptVcrdAttribute(p, attr, key)
    case Err(_) => []
    case Ok(clear) =>
      match Vault.ParseCredential(clear)
      case Err(_) => []
      case Ok(c) => [VaultResult(c)]
  }

  function AttributeResults(p: Primitives, attrs: seq<Vault.VcrdAttribute>, key: bytes): seq<StoreResult> {
    if attrs == [] then [] else AttributeResult(p, attrs[0], key) + AttributeResults(p, attrs[1..], key)
  }

  function VaultOutcome(p: Primitives, vpol: bytes, vcrd: bytes, masterKey: bytes): Outcome<seq<StoreResult>> {
    var blob :- Lift(Vault.ParseVpol(vpol));
    var keys :- LockedLift("vault", blob, Vault.OpenVpolKeys(p, blob, masterKey));
    var attrs :- Lift(Vcrd.ParseVcrd(vcrd));
    Done(AttributeResults(p, attrs, keys.key1))
  }

  /** The store decoder as it runs: results are pushed attribute by attribute, failures skipped. */
  method DecodeVault(p: Primitives, vpol: bytes, vcrd: bytes, masterKey: bytes) returns (r: Outcome<seq<StoreResult>>)
    ensures r == VaultOutcome(p, vpol, vcrd, masterKey)
  {
    hide OpenBlob, ParseWire, Vcrd.ParseVcrd, AttributeResults;
    var blob := Vault.ParseVpolFile(vpol);
    if blob.Err? {
      return Failed(Dpapi(blob.error));
    }
    var keys := Vault.DecryptVpolKeys(p, blob.value, masterKey);
    if keys.Err? {
      return Failed(LockedOrErr("vault", blob.value, keys.error));
    }
    var parsed := Vcrd.ParseVcrdAttributes(vcrd);
    if parsed.Err? {
      return Failed(Dpapi(parsed.error));
    }
    var results := CollectResults(p, parsed.value, keys.value.key1);
    r := Done(results);
  }

  method CollectResults(p: Primitives, attrs: seq<Vault.VcrdAttribute>, key: bytes) returns (results: seq<StoreResult>)
    ensures results == AttributeResults(p, attrs, key)
  {
    results := [];
    var i := 0;
    assert attrs[0..] == attrs;
    while i < |attrs|
      invariant 0 <= i <= |attrs|
      invariant AttributeResults(p, attrs, key) == results + AttributeResults(p, attrs[i..], key)
    {
      ghost var before := results;
      assert attrs[i..][1..] == attrs[i + 1..];
      var cleartext := Vault.DecryptVcrdAttribute(p, attrs[i], key);
      if cleartext.Ok? {
        var cred := Vault.ParseInternetExplorer(cleartext.value);
        if cred.Ok? {
          results := results + [VaultResult(cred.value)];
        }
      }
      PushedResult(before, AttributeResult(p, attrs[i], key), AttributeResults(p, attrs[i + 1..], key));
      i := i + 1;
    }
    assert attrs[i..] == [];
  }

  lemma PushedResult(before: seq<StoreResult>, one: seq<StoreResult>, rest: seq<StoreResult>)
    ensures before + (one + rest) == (before + one) + rest
    ensures one == [] ==> before + one == before
  {
  }

  /** A locked report arises exactly when the policy blob parses and cannot be opened, and names its key. */
  lemma VaultLockedExact(p: Primitives, vpol: bytes, vcrd: bytes, masterKey: bytes, store: string, guidText: string)
    ensures VaultOutcome(p, vpol, vcrd, masterKey) == Failed(Locked(store, guidText)) <==>
            && Vault.ParseVpol(vpol).Ok?
            && var blob := Vault.ParseVpol(vpol).value;
               CannotOpen(p, blob, masterKey) && store == "vault" && guidText == NamedKey(blob)
  {
    hide OpenBlob, ParseWire, CannotOpen, GuidText, Vault.ParseVpol, Vault.ParseKeys;
    if Vault.ParseVpol(vpol).Ok? {
      var blob := Vault.ParseVpol(vpol).value;
      LockedAfterOpen(p, "vault", blob, masterKey, Vault.OpenVpolKeys(p, blob, masterKey), store, guidText);
    }
  }

  /** The policy holds the two keys sealed, the record parses, and the results are those of its attributes. */
  ghost predicate HoldsKeys(p: Primitives, vpol: bytes, masterKey: bytes, k1: Vault.KeyWrap, k2: Vault.KeyWrap, slack: bytes) {
    && Vault.ParseVpol(vpol).Ok?
    && IsSealed(p, Vault.ParseVpol(vpol).value, masterKey, None, Vault.WriteKeyWrap(k1, Vault.WriteKeyWrap(k2, slack)))
  }

  /** What an attribute contributes: the report of the credential encrypted into it, or nothing if there is none. */
  ghost predicate Contributes(p: Primitives, attr: Vault.VcrdAttribute, key: bytes, part: seq<StoreResult>) {
    || (part == [] && forall c, slack :: !Vault.Carries(p, attr, key, c, slack))
    || exists c, slack ::
         && Vault.Carries(p, attr, key, c, slack)
         && part == [StoreResult("vault", DecodeUtf16Le(c.resource), DecodeUtf16Le(c.password),
                                 Some(DecodeUtf16Le(c.username)))]
  }

  lemma AttributeExact(p: Primitives, attr: Vault.VcrdAttribute, key: bytes, part: seq<StoreResult>)
    ensures Contributes(p, attr, key, part) <==> part == AttributeResult(p, attr, key)
  {
    hide Vault.ParseCredential, Vault.DecryptVcrdAttribute, Vault.Carries, DecodeUtf16Le;
    var clear := Vault.DecryptVcrdAttribute(p, attr, key);
    if clear.Ok? && Vault.ParseCredential(clear.value).Ok? {
      var view := Vault.ParseCredential(clear.value).value;
      Vault.CredentialOfAttributeExact(p, attr, key, view);
      var c, slack :| Vault.Carries(p, attr, key, c, slack) && view == Vault.CredentialView(c);
    }
    forall c, slack | Vault.Carries(p, attr, key, c, slack)
      ensures AttributeResult(p, attr, key) == [VaultResult(Vault.CredentialView(c))]
    {
      Vault.CredentialOfAttributeExact(p, attr, key, Vault.CredentialView(c));
    }
  }

  ghost predicate AllContribute(p: Primitives, attrs: seq<Vault.VcrdAttribute>, key: bytes, parts: seq<seq<StoreResult>>) {
    |parts| == |attrs| && forall i :: 0 <= i < |attrs| ==> Contributes(p, attrs[i], key, parts[i])
  }

  /** The results are the contributions of all attributes, in the order of the record. */
  ghost predicate Reports(p: Primitives, attrs: seq<Vault.VcrdAttribute>, key: bytes, results: seq<StoreResult>) {
    exists parts :: AllContribute(p, attrs, key, parts) && results == VcrdProperties.Join(parts)
  }

  lemma ReportsExact(p: Primitives, attrs: seq<Vault.VcrdAttribute>, key: bytes, results: seq<StoreResult>)
    ensures Reports(p, attrs, key, results) <==> results == AttributeResults(p, attrs, key)
  {
    hide Contributes, AttributeResult;
    var parts := seq(|attrs|, i requires 0 <= i < |attrs| => AttributeResult(p, attrs[i], key));
    forall i | 0 <= i < |attrs|
      ensures Contributes(p, attrs[i], key, parts[i])
    {
      AttributeExact(p, attrs[i], key, parts[i]);
    }
    assert AllContribute(p, attrs, key, parts);
    forall parts | AllContribute(p, attrs, key, parts)
      ensures VcrdProperties.Join(parts) == AttributeResults(p, attrs, key)
    {
      ContributionsJoin(p, attrs, key, parts);
    }
  }

  lemma {:induction false} ContributionsJoin(p: Primitives, attrs: seq<Vault.VcrdAttribute>, key: bytes,
                                             parts: seq<seq<StoreResult>>)
    requires AllContribute(p, attrs, key, parts)
    ensures VcrdProperties.Join(parts) == AttributeResults(p, attrs, key)
    decreases |attrs|
  {
    hide Contributes, AttributeResult;
    if attrs != [] {
      AttributeExact(p, attrs[0], key, parts[0]);
      ContributionsJoin(p, attrs[1..], key, parts[1..]);
    }
  }

  /**
   Results are reported exactly for policies that hold two sealed keys and records that parse, and
   they are, in order, the credentials encrypted into its attributes under the first key.
   */
  lemma VaultExact(p: Primitives, vpol: bytes, vcrd: bytes, masterKey: bytes, results: seq<StoreResult>)
    ensures VaultOutcome(p, vpol, vcrd, masterKey) == Done(results) <==>
            exists k1, k2, slack, attrs ::
              && HoldsKeys(p, vpol, masterKey, k1, k2, slack) && VcrdProperties.HoldsAttributes(vcrd, attrs)
              && Reports(p, attrs, k1.key, results)
  {
    hide OpenBlob, ParseWire, IsSealed, Vcrd.ParseVcrd, AttributeResults, Reports, VcrdProperties.HoldsAttributes;
    if VaultOutcome(p, vpol, vcrd, masterKey) == Done(results) {
      var k1, k2, slack := OpenedHoldsKeys(p, vpol, masterKey);
      var attrs := Vcrd.ParseVcrd(vcrd).value;
      ReportsExact(p, attrs, k1.key, results);
      VcrdProperties.RecordExact(vcrd, attrs);
    }
    forall k1, k2, slack, attrs | HoldsKeys(p, vpol, masterKey, k1, k2, slack) &&
                                  VcrdProperties.HoldsAttributes(vcrd, attrs) && Reports(p, attrs, k1.key, results)
      ensures VaultOutcome(p, vpol, vcrd, masterKey) == Done(results)
    {
      HeldKeysOpen(p, vpol, masterKey, k1, k2, slack);
      VcrdProperties.RecordExact(vcrd, attrs);
      ReportsExact(p, attrs, k1.key, results);
    }
  }

  lemma OpenedHoldsKeys(p: Primitives, vpol: bytes, masterKey: bytes)
    returns (k1: Vault.KeyWrap, k2: Vault.KeyWrap, slack: bytes)
    requires Vault.ParseVpol(vpol).Ok? && Vault.OpenVpolKeys(p, Vault.ParseVpol(vpol).value, masterKey).Ok?
    ensures HoldsKeys(p, vpol, masterKey, k1, k2, slack)
    ensures Vault.OpenVpolKeys(p, Vault.ParseVpol(vpol).value, masterKey) == Ok(Vault.VaultKeys(k1.key, k2.key))
  {
    hide OpenBlob, ParseWire, IsSealed;
    var blob := Vault.ParseVpol(vpol).value;
    var clear := OpenBytes(p, blob, masterKey, None).value;
    var (first, s) := Vault.TakeKeyWrap(clear).value;
    var (second, t) := Vault.TakeKeyWrap(s).value;
    k1, k2, slack := first, second, t;
    OpenAcceptsExactlySealed(p, blob, masterKey, None, clear);
  }

  lemma HeldKeysOpen(p: Primitives, vpol: bytes, masterKey: bytes, k1: Vault.KeyWrap, k2: Vault.KeyWrap, slack: bytes)
    requires HoldsKeys(p, vpol, masterKey, k1, k2, slack)
    ensures Vault.OpenVpolKeys(p, Vault.ParseVpol(vpol).value, masterKey) == Ok(Vault.VaultKeys(k1.key, k2.key))
  {
    hide OpenBlob, ParseWire, IsSealed;
    var clear := Vault.WriteKeyWrap(k1, Vault.WriteKeyWrap(k2, slack));
    OpenAcceptsExactlySealed(p, Vault.ParseVpol(vpol).value, masterKey, None, clear);
    Vault.ParseKeysExact(clear, Vault.VaultKeys(k1.key, k2.key));
  }

  /** No attribute carries a credential under this key. */
  ghost predicate NoneCarries(p: Primitives, attrs: seq<Vault.VcrdAttribute>, key: bytes) {
    forall i, c, slack | 0 <= i < |attrs| :: !Vault.Carries(p, attrs[i], key, c, slack)
  }

  /**
   Attributes that do not decrypt are skipped, not refused: a policy that opens and a record that
   parses give an empty report exactly when no attribute carries a credential under the first key,
   and always when this key does not have 32 bytes.
   */
  lemma VaultEmptyExact(p: Primitives, vpol: bytes, vcrd: bytes, masterKey: bytes, k1: Vault.KeyWrap, k2: Vault.KeyWrap,
                        slack: bytes, attrs: seq<Vault.VcrdAttribute>)
    requires HoldsKeys(p, vpol, masterKey, k1, k2, slack) && VcrdProperties.HoldsAttributes(vcrd, attrs)
    ensures VaultOutcome(p, vpol, vcrd, masterKey) == Done([]) <==> NoneCarries(p, attrs, k1.key)
    ensures |k1.key| != 32 ==> VaultOutcome(p, vpol, vcrd, masterKey) == Done([])
  {
    hide OpenBlob, ParseWire, IsSealed, Vcrd.ParseVcrd, AttributeResults;
    HeldKeysOpen(p, vpol, masterKey, k1, k2, slack);
    VcrdProperties.RecordExact(vcrd, attrs);
    EmptyReportExact(p, attrs, k1.key);
  }

  lemma {:induction false} EmptyReportExact(p: Primitives, attrs: seq<Vault.VcrdAttribute>, key: bytes)
    ensures AttributeResults(p, attrs, key) == [] <==> NoneCarries(p, attrs, key)
    decreases |attrs|
  {
    hide Vault.Carries, AttributeResult;
    if attrs != [] {
      AttributeExact(p, attrs[0], key, AttributeResult(p, attrs[0], key));
      EmptyReportExact(p, attrs[1..], key);
      NoneCarriesTail(p, attrs, key);
    }
  }

  lemma NoneCarriesTail(p: Primitives, attrs: seq<Vault.VcrdAttribute>, key: bytes)
    requires attrs != []
    ensures NoneCarries(p, attrs, key) <==>
            (forall c, slack :: !Vault.Carries(p, attrs[0], key, c, slack)) && NoneCarries(p, attrs[1..], key)
  {
    hide Vault.Carries;
    if NoneCarries(p, attrs, key) {
      forall i, c, slack | 0 <= i < |attrs[1..]|
        ensures !Vault.Carries(p, attrs[1..][i], key, c, slack)
      {
        assert attrs[1..][i] == attrs[i + 1];
      }
    }
    if (forall c, slack :: !Vault.Carries(p, attrs[0], key, c, slack)) && NoneCarries(p, attrs[1..], key) {
      forall i, c, slack | 0 <= i < |attrs|
        ensures !Vault.Carries(p, attrs[i], key, c, slack)
      {
        if i > 0 {
          assert attrs[i] == attrs[1..][i - 1];
        }
      }
    }
  }

  /** Everything else is an error of its own: of the policy, of its blob, of the two keys, and then of the record. */
  lemma VaultRefusals(p: Primitives, vpol: bytes, vcrd: bytes, masterKey: bytes)
    ensures Vault.ParseVpol(vpol).Err? ==> VaultOutcome(p, vpol, vcrd, masterKey) == Failed(Dpapi(TooShort))
    ensures Vault.ParseVpol(vpol).Ok? ==>
              var blob := Vault.ParseVpol(vpol).value;
              && (NotABlob(p, blob).Some? ==>
                    VaultOutcome(p, vpol, vcrd, masterKey) == Failed(Dpapi(NotABlob(p, blob).value)))
              && (forall clear :: IsSealed(p, blob, masterKey, None, clear) && Vault.ParseKeys(clear).Err? ==>
                    VaultOutcome(p, vpol, vcrd, masterKey) == Failed(Dpapi(TooShort)))
    ensures forall k1, k2, slack :: HoldsKeys(p, vpol, masterKey, k1, k2, slack) &&
                                    (forall attrs :: !VcrdProperties.HoldsAttributes(vcrd, attrs)) ==>
              VaultOutcome(p, vpol, vcrd, masterKey) == Failed(Dpapi(TooShort))
  {
    hide OpenBytes, NotABlob, ParseBlob, IsSealed, Vault.ParseKeys, VcrdProperties.HoldsAttributes, HoldsKeys;
    if Vault.ParseVpol(vpol).Ok? {
      var blob := Vault.ParseVpol(vpol).value;
      NotOpened(p, "vault", blob, masterKey, Vault.OpenVpolKeys(p, blob, masterKey));
      forall clear | IsSealed(p, blob, masterKey, None, clear)
        ensures OpenBytes(p, blob, masterKey, None) == Ok(clear)
      {
        OpenAcceptsExactlySealed(p, blob, masterKey, None, clear);
      }
    }
    forall k1, k2, slack | HoldsKeys(p, vpol, masterKey, k1, k2, slack) &&
                           (forall attrs :: !VcrdProperties.HoldsAttributes(vcrd, attrs))
      ensures VaultOutcome(p, vpol, vcrd, masterKey) == Failed(Dpapi(TooShort))
    {
      RecordRefused(p, vpol, vcrd, masterKey, k1, k2, slack);
    }
  }

  lemma RecordRefused(p: Primitives, vpol: bytes, vcrd: bytes, masterKey: bytes, k1: Vault.KeyWrap, k2: Vault.KeyWrap,
                      slack: bytes)
    requires HoldsKeys(p, vpol, masterKey, k1, k2, slack)
    requires forall attrs :: !VcrdProperties.HoldsAttributes(vcrd, attrs)
    ensures VaultOutcome(p, vpol, vcrd, masterKey) == Failed(Dpapi(TooShort))
  {
    hide Vcrd.Collect, VcrdProperties.HoldsAttributes, IsSealed, Vault.OpenVpolKeys;
    HeldKeysOpen(p, vpol, masterKey, k1, k2, slack);
    if Vcrd.ParseVcrd(vcrd).Ok? {
      VcrdProperties.RecordExact(vcrd, Vcrd.ParseVcrd(vcrd).value);
    }
  }

  // ---------- Planted web credentials ----------

  /** The texts of a web credential. */
  datatype Login = Login(username: string, resource: string, password: string)

  /** A login, its stored form, the attribute that is to carry it and the map entry that points to it. */
  datatype Planted = Planted(
    mapId: u32,
    unknown1: u32,
    shell: Vcrd.Attr,
    login: Login,
    cred: Vault.WireCredential,
    slack: bytes)

  function PlantedClear(x: Planted): bytes {
    Vault.WriteCredential(x.cred, x.slack)
  }

  /** The attribute with its data: the credential under AES-CBC. */
  function PlantedAttr(p: Primitives, x: Planted, key: bytes): Vcrd.Attr
    requires |key| == 32 && Whole(|PlantedClear(x)|, 16)
  {
    x.shell.(data := CbcEncrypt(p.aes, key, Vault.UsedIv(x.shell.Iv()), PlantedClear(x)))
  }

  /** The stored fields are the texts of the login, with or without NULs behind them. */
  ghost predicate StoresWebLogin(c: Vault.WireCredential, l: Login) {
    StoresText(c.username, l.username) && StoresText(c.resource, l.resource) && StoresText(c.password, l.password)
  }

  /** The credential stores its login and fills whole blocks, and its attribute can be written and is not ambiguous. */
  ghost predicate Plantable(p: Primitives, x: Planted, key: bytes)
    requires |key| == 32
  {
    && StoresWebLogin(x.cred, x.login)
    && Whole(|PlantedClear(x)|, 16)
    && PlantedAttr(p, x, key).Valid() && !Vcrd.Ambiguous(PlantedAttr(p, x, key))
  }

  ghost predicate AllPlantable(p: Primitives, xs: seq<Planted>, key: bytes)
    requires |key| == 32
  {
    forall i :: 0 <= i < |xs| ==> Plantable(p, xs[i], key)
  }

  ghost function Entries(p: Primitives, xs: seq<Planted>, key: bytes): (es: seq<VcrdProperties.Entry>)
    requires |key| == 32 && AllPlantable(p, xs, key)
    ensures VcrdProperties.AllValid(es) && VcrdProperties.AllUnambiguous(es)
  {
    if xs == [] then []
    else [VcrdProperties.Entry(xs[0].mapId, xs[0].unknown1, PlantedAttr(p, xs[0], key))] + Entries(p, xs[1..], key)
  }

  /** The planted logins as results, in order. */
  function PlantedResults(xs: seq<Planted>): seq<StoreResult> {
    if xs == [] then []
    else
      var l := xs[0].login;
      [StoreResult("vault", l.resource, l.password, Some(l.username))] + PlantedResults(xs[1..])
  }

  /** The attribute of a planted credential is long enough to be parsed and gives exactly its credential. */
  lemma PlantedOne(p: Primitives, x: Planted, key: bytes)
    requires |key| == 32 && Plantable(p, x, key)
    ensures var a := PlantedAttr(p, x, key);
            && |Vcrd.WriteAttr(a)| > 28
            && AttributeResult(p, Vault.VcrdAttribute(x.mapId, a.Iv(), a.data), key) ==
               [StoreResult("vault", x.login.resource, x.login.password, Some(x.login.username))]
  {
    hide StoresText, DecodeUtf16Le;
    var a := PlantedAttr(p, x, key);
    PlantedLong(x);
    AttrLength(a);
    CbcDecryptEncrypt(p.aes, key, Vault.UsedIv(x.shell.Iv()), PlantedClear(x));
    Vault.TakeCredentialPut(x.cred, x.slack);
    DecodeOfStored(x.cred.username, x.login.username);
    DecodeOfStored(x.cred.resource, x.login.resource);
    DecodeOfStored(x.cred.password, x.login.password);
  }

  lemma PlantedLong(x: Planted)
    ensures |PlantedClear(x)| >= 36
  {
  }

  lemma AttrLength(a: Vcrd.Attr)
    requires a.Valid()
    ensures |Vcrd.WriteAttr(a)| >= 25 + |a.data|
  {
  }

  lemma {:induction false} PlantedAll(p: Primitives, xs: seq<Planted>, key: bytes)
    requires |key| == 32 && AllPlantable(p, xs, key)
    ensures AttributeResults(p, VcrdProperties.Expected(Entries(p, xs, key)), key) == PlantedResults(xs)
  {
    hide AttributeResult, StoresText, PlantedAttr, PlantedClear, Vcrd.WriteAttr, Vcrd.Ambiguous;
    if xs != [] {
      PlantedOne(p, xs[0], key);
      PlantedAll(p, xs[1..], key);
      var es := Entries(p, xs, key);
      assert es[1..] == Entries(p, xs[1..], key);
      var a := PlantedAttr(p, xs[0], key);
      var first := Vault.VcrdAttribute(xs[0].mapId, a.Iv(), a.data);
      var rest := VcrdProperties.Expected(es[1..]);
      assert VcrdProperties.Expected(es) == [first] + rest;
      assert ([first] + rest)[1..] == rest;
    }
  }

  /**
   Any list of logins, stored as web credentials and encrypted under the first of two keys that are
   sealed in a policy, with a 16-byte IV or without, comes back unchanged and in order.
   */
  lemma VaultRoundTrip(p: Primitives, v: Vault.WireVpol, t: bytes, masterKey: bytes, k1: Vault.KeyWrap, k2: Vault.KeyWrap,
                       slack: bytes, prefix: VcrdProperties.prefix36, name: field, xs: seq<Planted>)
    requires IsSealed(p, v.blob, masterKey, None, Vault.WriteKeyWrap(k1, Vault.WriteKeyWrap(k2, slack)))
    requires |k1.key| == 32 && AllPlantable(p, xs, k1.key)
    requires VcrdProperties.Writable(name, VcrdProperties.Encode(Entries(p, xs, k1.key)))
    ensures var vcrd := VcrdProperties.WriteVcrd(prefix, name, VcrdProperties.Encode(Entries(p, xs, k1.key)));
            VaultOutcome(p, Vault.WriteVpol(v, t), vcrd, masterKey) == Done(PlantedResults(xs))
  {
    hide *;
    var es := Entries(p, xs, k1.key);
    VcrdProperties.AttributesRoundTrip(prefix, name, es);
    PlantedAll(p, xs, k1.key);
    ReportsExact(p, VcrdProperties.Expected(es), k1.key, PlantedResults(xs));
    VcrdProperties.RecordExact(VcrdProperties.WriteVcrd(prefix, name, VcrdProperties.Encode(es)), VcrdProperties.Expected(es));
    PolicyHolds(p, v, t, masterKey, k1, k2, slack);
    VaultExact(p, Vault.WriteVpol(v, t), VcrdProperties.WriteVcrd(prefix, name, VcrdProperties.Encode(es)), masterKey,
               PlantedResults(xs));
  }

  lemma PolicyHolds(p: Primitives, v: Vault.WireVpol, t: bytes, masterKey: bytes, k1: Vault.KeyWrap, k2: Vault.KeyWrap,
                    slack: bytes)
    requires IsSealed(p, v.blob, masterKey, None, Vault.WriteKeyWrap(k1, Vault.WriteKeyWrap(k2, slack)))
    ensures HoldsKeys(p, Vault.WriteVpol(v, t), masterKey, k1, k2, slack)
  {
    Vault.TakeVpolPut(v, t);
  }

  // ---------- Browser ----------

  /** The blob of the cookie key in a `Local State` file. */
  function BrowserBlob(lib: Library, json: string): Outcome<bytes> {
    match lib.encryptedKeyField(json)
    case None => Failed(Io)
    case Some(encoded) => Lift(ParseLocalStateKey(lib, AsBytes(encoded)))
  }

  function KeyResult(key: bytes): StoreResult {
    StoreResult("browser", "cookie-key", HexText(key), None)
  }

  /** The results for a cookie value under the recovered key; its failures are not locking. */
  function CookieResults(lib: Library, cookie: Option<bytes>, key: bytes): Outcome<seq<StoreResult>> {
    match cookie
    case None => Done([])
    case Some(data) =>
      match DetectCookieEncoding(data)
      case V10Cookie(nonce, text) => CookieResult(lib, nonce, text, key)
      case V20Cookie(nonce, text) => CookieResult(lib, nonce, text, key)
      case _ => Failed(Io)
  }

  function CookieResult(lib: Library, nonce: bytes, text: bytes, key: bytes): Outcome<seq<StoreResult>> {
    var plain :- Lift(DecryptV10Cookie(lib, nonce, text, key));
    Done([StoreResult("browser", "cookie", lib.utf8Lossy(plain), None)])
  }

  function BrowserOutcome(p: Primitives, lib: Library, json: string, cookie: Option<bytes>, masterKey: bytes)
    : Outcome<seq<StoreResult>>
  {
    var blob :- BrowserBlob(lib, json);
    var key :- LockedLift("browser", blob, OpenLocalStateKey(p, blob, masterKey));
    var cookies :- CookieResults(lib, cookie, key);
    Done([KeyResult(key)] + cookies)
  }

  /** The store decoder as it runs: the key is pushed first, then the cookie. */
  method DecodeBrowser(p: Primitives, lib: Library, json: string, cookie: Option<bytes>, masterKey: bytes)
    returns (r: Outcome<seq<StoreResult>>)
    ensures r == BrowserOutcome(p, lib, json, cookie, masterKey)
  {
    var field := lib.encryptedKeyField(json);
    if field.None? {
      return Failed(Io);
    }
    var blob := ParseLocalStateKey(lib, AsBytes(field.value));
    if blob.Err? {
      return Failed(Dpapi(blob.error));
    }
    var key := DecryptLocalStateKey(p, blob.value, masterKey);
    if key.Err? {
      return Failed(LockedOrErr("browser", blob.value, key.error));
    }
    var hex := HexEncode(key.value);
    var results := [StoreResult("browser", "cookie-key", hex, None)];
    if cookie.Some? {
      var decrypted := DecryptCookie(lib, cookie.value, key.value);
      if decrypted.Failed? {
        return Failed(decrypted.error);
      }
      results := results + decrypted.value;
    } else {
      assert results + [] == results;
    }
    r := Done(results);
  }

  /** Classifies a cookie value and decrypts it; only the two AES-GCM forms are accepted. */
  method DecryptCookie(lib: Library, cookie: bytes, key: bytes) returns (r: Outcome<seq<StoreResult>>)
    ensures r == CookieResults(lib, Some(cookie), key)
  {
    var nonce, text;
    match DetectCookieEncoding(cookie) {
      case V10Cookie(n, c) => nonce, text := n, c;
      case V20Cookie(n, c) => nonce, text := n, c;
      case _ => return Failed(Io);
    }
    var plain := DecryptV10Cookie(lib, nonce, text, key);
    if plain.Err? {
      return Failed(Dpapi(plain.error));
    }
    r := Done([StoreResult("browser", "cookie", lib.utf8Lossy(plain.value), None)]);
  }

  /** The field of the file is the base64 of `DPAPI` and this blob. */
  predicate HoldsKeyBlob(lib: Library, json: string, blob: bytes) {
    && lib.encryptedKeyField(json).Some?
    && lib.base64(AsBytes(lib.encryptedKeyField(json).value)) == Some([0x44, 0x50, 0x41, 0x50, 0x49] + blob)
  }

  lemma BrowserBlobExact(lib: Library, json: string, blob: bytes)
    ensures BrowserBlob(lib, json) == Done(blob) <==> HoldsKeyBlob(lib, json, blob)
  {
    hide ParseLocalStateKey, AsBytes;
    if lib.encryptedKeyField(json).Some? {
      LocalStateKeyExact(lib, AsBytes(lib.encryptedKeyField(json).value), blob);
    }
  }

  /**
   A locked report arises exactly when the file holds a key blob that parses and cannot be opened, and
   names its key; a cookie that does not decrypt is never reported as a locked store.
   */
  lemma BrowserLockedExact(p: Primitives, lib: Library, json: string, cookie: Option<bytes>, masterKey: bytes,
                           store: string, guidText: string)
    ensures BrowserOutcome(p, lib, json, cookie, masterKey) == Failed(Locked(store, guidText)) <==>
            exists blob ::
              && HoldsKeyBlob(lib, json, blob) && CannotOpen(p, blob, masterKey)
              && store == "browser" && guidText == NamedKey(blob)
  {
    hide OpenBlob, ParseWire, HexText, HoldsKeyBlob, CannotOpen, NamedKey, ParseLocalStateKey;
    forall blob
      ensures HoldsKeyBlob(lib, json, blob) <==> BrowserBlob(lib, json) == Done(blob)
    {
      BrowserBlobExact(lib, json, blob);
    }
    if BrowserBlob(lib, json).Done? {
      var blob := BrowserBlob(lib, json).value;
      LockedAfterOpen(p, "browser", blob, masterKey, OpenLocalStateKey(p, blob, masterKey), store, guidText);
    }
  }

  /** The file holds a blob that sealing this key of 32 bytes writes. */
  ghost predicate HoldsCookieKey(p: Primitives, lib: Library, json: string, masterKey: bytes, blob: bytes, key: bytes) {
    HoldsKeyBlob(lib, json, blob) && |key| == 32 && IsSealed(p, blob, masterKey, None, key)
  }

  /** No cookie and no result; or `v10` or `v20`, a nonce and a text that decrypts, and the text as result. */
  ghost predicate CookieGives(lib: Library, cookie: Option<bytes>, key: bytes, results: seq<StoreResult>) {
    if cookie.None? then results == []
    else exists nonce, text :: HoldsCookie(lib, cookie.value, key, nonce, text, results)
  }

  ghost predicate HoldsCookie(lib: Library, data: bytes, key: bytes, nonce: bytes, text: bytes, results: seq<StoreResult>) {
    && |nonce| == 12 && text != []
    && (data == [0x76, 0x31, 0x30] + nonce + text || data == [0x76, 0x32, 0x30] + nonce + text)
    && lib.gcmDecrypt(key, nonce, text).Some?
    && results == [StoreResult("browser", "cookie", lib.utf8Lossy(lib.gcmDecrypt(key, nonce, text).value), None)]
  }

  lemma CookieExact(lib: Library, cookie: Option<bytes>, key: bytes, results: seq<StoreResult>)
    ensures CookieResults(lib, cookie, key) == Done(results) <==> CookieGives(lib, cookie, key, results)
  {
    if cookie.Some? {
      if CookieResults(lib, cookie, key) == Done(results) {
        var form := DetectCookieEncoding(cookie.value);
        CookieEncodingExact(cookie.value, form.nonce, form.ciphertext);
        assert HoldsCookie(lib, cookie.value, key, form.nonce, form.ciphertext, results);
      }
      forall nonce, text | HoldsCookie(lib, cookie.value, key, nonce, text, results)
        ensures CookieResults(lib, cookie, key) == Done(results)
      {
        CookieEncodingExact(cookie.value, nonce, text);
      }
    }
  }

  /**
   Results are reported exactly for files that hold a sealed key of 32 bytes, without a cookie or
   with one that decrypts under this key: the key itself, then the cookie.
   */
  lemma BrowserExact(p: Primitives, lib: Library, json: string, cookie: Option<bytes>, masterKey: bytes,
                     results: seq<StoreResult>)
    ensures BrowserOutcome(p, lib, json, cookie, masterKey) == Done(results) <==>
            exists blob, key, cookies ::
              && HoldsCookieKey(p, lib, json, masterKey, blob, key) && CookieGives(lib, cookie, key, cookies)
              && results == [StoreResult("browser", "cookie-key", HexText(key), None)] + cookies
  {
    hide OpenBlob, ParseWire, IsSealed, HexText, CookieResults, CookieGives, ParseLocalStateKey, HoldsKeyBlob;
    if BrowserOutcome(p, lib, json, cookie, masterKey) == Done(results) {
      var blob := BrowserBlob(lib, json).value;
      var key := OpenLocalStateKey(p, blob, masterKey).value;
      OpenAcceptsExactlySealed(p, blob, masterKey, None, key);
      BrowserBlobExact(lib, json, blob);
      CookieExact(lib, cookie, key, CookieResults(lib, cookie, key).value);
      assert HoldsCookieKey(p, lib, json, masterKey, blob, key);
    }
    forall blob, key, cookies |
      HoldsCookieKey(p, lib, json, masterKey, blob, key) && CookieGives(lib, cookie, key, cookies)
      ensures BrowserOutcome(p, lib, json, cookie, masterKey) ==
              Done([StoreResult("browser", "cookie-key", HexText(key), None)] + cookies)
    {
      BrowserBlobExact(lib, json, blob);
      OpenAcceptsExactlySealed(p, blob, masterKey, None, key);
      CookieExact(lib, cookie, key, cookies);
    }
  }

  /** Everything else is an error of its own: of the file, of the blob, of the length of the key, of the cookie. */
  lemma BrowserRefusals(p: Primitives, lib: Library, json: string, cookie: Option<bytes>, masterKey: bytes)
    ensures var r := BrowserOutcome(p, lib, json, cookie, masterKey);
            && (lib.encryptedKeyField(json).None? ==> r == Failed(Io))
            && (lib.encryptedKeyField(json).Some? ==>
                  var decoded := lib.base64(AsBytes(lib.encryptedKeyField(json).value));
                  && (decoded.None? ==> r == Failed(Dpapi(Base64Error)))
                  && (decoded.Some? && !([0x44, 0x50, 0x41, 0x50, 0x49] <= decoded.value) ==>
                        r == Failed(Dpapi(MissingDpapiPrefix(
                                            if |decoded.value| <= 8 then decoded.value else decoded.value[..8])))))
    ensures forall blob :: HoldsKeyBlob(lib, json, blob) ==>
              var r := BrowserOutcome(p, lib, json, cookie, masterKey);
              && (NotABlob(p, blob).Some? ==> r == Failed(Dpapi(NotABlob(p, blob).value)))
              && (forall key :: IsSealed(p, blob, masterKey, None, key) ==>
                    if |key| != 32 then r == Failed(Dpapi(UnexpectedKeyLength(32, |key|)))
                    else CookieRefused(lib, cookie, key).Some? ==> r == Failed(CookieRefused(lib, cookie, key).value))
  {
    hide OpenBytes, NotABlob, ParseBlob, IsSealed, HexText, HoldsKeyBlob, CookieResults, CookieRefused;
    forall blob | HoldsKeyBlob(lib, json, blob)
      ensures BrowserBlob(lib, json) == Done(blob)
    {
      BrowserBlobExact(lib, json, blob);
    }
    if lib.encryptedKeyField(json).Some? && lib.base64(AsBytes(lib.encryptedKeyField(json).value)).Some? {
      var decoded := lib.base64(AsBytes(lib.encryptedKeyField(json).value)).value;
      assert DPAPI <= decoded || decoded[..|decoded|] == decoded;
    }
    if BrowserBlob(lib, json).Done? {
      var blob := BrowserBlob(lib, json).value;
      NotOpened(p, "browser", blob, masterKey, OpenLocalStateKey(p, blob, masterKey));
      forall key | IsSealed(p, blob, masterKey, None, key)
        ensures OpenBytes(p, blob, masterKey, None) == Ok(key)
        ensures CookieRefused(lib, cookie, key).Some? ==>
                  CookieResults(lib, cookie, key) == Failed(CookieRefused(lib, cookie, key).value)
      {
        OpenAcceptsExactlySealed(p, blob, masterKey, None, key);
        CookieRefusedExact(lib, cookie, key);
      }
    }
  }

  /** The error for a cookie: one without an AES-GCM prefix is not read, one with it may fail to decrypt. */
  function CookieRefused(lib: Library, cookie: Option<bytes>, key: bytes): Option<CliError> {
    if cookie.None? then None
    else
      var data := cookie.value;
      if |data| <= 15 || data[..3] !in [[0x76, 0x31, 0x30], [0x76, 0x32, 0x30]] then Some(Io)
      else if lib.gcmDecrypt(key, data[3..15], data[15..]).None? then Some(Dpapi(DecryptionFailed))
      else None
  }

  lemma CookieRefusedExact(lib: Library, cookie: Option<bytes>, key: bytes)
    ensures match CookieRefused(lib, cookie, key)
            case Some(e) => CookieResults(lib, cookie, key) == Failed(e)
            case None => CookieResults(lib, cookie, key).Done?
  {
    if cookie.Some? && |cookie.value| > 15 {
      var data := cookie.value;
      assert V10 <= data <==> data[..3] == V10;
      assert V20 <= data <==> data[..3] == V20;
    }
  }

  // ---------- The master key argument ----------

  /** The digits behind an optional `0x`. */
  function StripPrefix(hex: string): string {
    if "0x" <= hex then hex[2..] else hex
  }

  function MasterKeyArgument(hex: string): Outcome<bytes> {
    match HexBytes(AsBytes(StripPrefix(hex)))
    case Some(b) => Done(b)
    case None => Failed(BadMasterKey)
  }

  /** The parser as it runs: its own loop over pairs of digits. */
  method ParseMasterKeyHex(hex: string) returns (r: Outcome<bytes>)
    ensures r == MasterKeyArgument(hex)
  {
    var codes := AsBytes(StripPrefix(hex));
    if |codes| % 2 != 0 {
      OddIsRefused(codes);
      return Failed(BadMasterKey);
    }
    var out: bytes := [];
    var i := 0;
    ghost var n, k := |codes| / 2, 0;
    assert codes[0..] == codes;
    EmptyInFront(HexBytes(codes));
    while i < |codes|
      invariant i == 2 * k && |codes| == 2 * n && k <= n
      invariant HexBytes(codes) == InFront(out, HexBytes(codes[i..]))
    {
      HexStep(codes, i, out);
      var hi := Nibble(codes[i]);
      if hi.None? {
        return Failed(BadMasterKey);
      }
      var lo := Nibble(codes[i + 1]);
      if lo.None? {
        return Failed(BadMasterKey);
      }
      out := out + [Join(hi.value, lo.value)];
      i, k := i + 2, k + 1;
    }
    assert codes[i..] == [] && out + [] == out;
    r := Done(out);
  }

  /** The digits, in either case, of `b`. */
  predicate Encodes(digits: string, b: bytes) {
    LowerAll(AsBytes(digits)) == HexDigits(b)
  }

  /**
   The argument is read as `b` exactly when it is the encoding of `b` up to letter case, as it is or
   behind `0x`; so a key has 64 bytes exactly when 128 digits were given.
   */
  lemma MasterKeyArgumentExact(hex: string, b: bytes)
    ensures MasterKeyArgument(hex) == Done(b) <==>
            exists digits :: Encodes(digits, b) && (hex == digits || hex == "0x" + digits)
    ensures forall digits :: Encodes(digits, b) ==> (|b| == 64 <==> |digits| == 128)
    ensures MasterKeyArgument(hex).Failed? ==> MasterKeyArgument(hex) == Failed(BadMasterKey)
  {
    hide HexDigits, HexBytes, LowerAll, AsBytes;
    HexExact(AsBytes(StripPrefix(hex)), b);
    if "0x" <= hex {
      assert hex == "0x" + hex[2..];
    }
    forall digits | Encodes(digits, b)
      ensures |b| == 64 <==> |digits| == 128
      ensures !("0x" <= digits)
    {
      EncodingIsDigits(digits, b);
      AsciiLength(digits);
      assert |digits| > 1 ==> digits[1] != 'x';
    }
    forall digits | Encodes(digits, b) && (hex == digits || hex == "0x" + digits)
      ensures StripPrefix(hex) == digits
    {
      assert ("0x" + digits)[2..] == digits;
    }
    if MasterKeyArgument(hex) == Done(b) {
      assert Encodes(StripPrefix(hex), b);
    }
  }

  lemma {:induction false} AsciiLength(s: string)
    requires forall i :: 0 <= i < |s| ==> s[i] as int < 128
    ensures |AsBytes(s)| == |s|
  {
    if s != "" {
      AsciiLength(s[1..]);
    }
  }

  /** Every key, of any length, is accepted in hexadecimal with or without the prefix, and read back. */
  lemma MasterKeyArgumentOfHex(key: bytes)
    ensures MasterKeyArgument(HexText(key)) == Done(key)
    ensures MasterKeyArgument("0x" + HexText(key)) == Done(key)
  {
    HexOfDigits(key);
    assert ("0x" + HexText(key))[2..] == HexText(key);
    NoDigitIsX(key);
  }

  /** An encoding never looks prefixed: `x` is not a hexadecimal digit. */
  lemma NoDigitIsX(key: bytes)
    ensures !("0x" <= HexText(key))
  {
    DigitsAreAscii(key);
    if |key| > 0 {
      assert HexText(key)[1] as int == HexDigits(key)[1];
      assert HexText(key)[1] != 'x';
    }
  }
}
