# Opening DPAPI stores: a verified model

This project models how `dpapi-core` and `dpapi-forensic` recover secrets protected by the
Windows Data Protection API, from the bytes of a file to the reported result, and proves what
this path promises. Blobs and credentials are accepted exactly when a writer can have produced
them, and come back as they were written; so are master keys whose payload has room for its three
parts. A store is reported locked exactly when its blob parses, names a known cipher and was not
sealed under the given key, and the report names the right master key.

Three places do not refuse. The check of a master key lets the key overlap its own salt and HMAC
when the payload is short (`MasterKey.OverlapOpens`). The Vault decoder skips every attribute that
carries no credential under its key (`Forensic.VaultEmptyExact`). The map of a Vault record may lie
beyond the record (`VcrdProperties.OverrunExact`).

Verify it with `dafny verify dfyconfig.toml`.

## How the model is built

Bytes are numbers below 256, strings are sequences of Unicode scalar values, cursors are
unbounded numbers, and every stored number and length carries its 16, 32 or 64 bit bound.

- **Parsers.** The source walks a mutable cursor and reads numbers with a function that yields 0
  beyond the end. Each such parser is a method with that cursor. Its specification is a function
  that cuts fields off the front of the remaining bytes and never reads beyond them, and the
  method's contract is equality with it on every input. A writer stands beside every
  specification parser, and an `...Exact` lemma says that the parser accepts exactly what the
  writer produces; for a whole Vault record, whose map may point anywhere, `ParseOfWriteVcrd`
  inverts the writer and `RecordExact` says what any record yields.
- **Cryptography.** HMAC (RFC 2104), CBC (NIST SP 800-38A) and padding (RFC 5652, section 6.3)
  are defined concretely. The hash functions, the block ciphers and the algorithm tables are
  fields of a `Suite`; `Primitives` are the suites of which exactly this is assumed: digests of 20
  and 64 bytes, block ciphers that are permutations under every key of the right length, the
  documented hash rows, AES-256 with 32/16 bytes and every other cipher identifier, if known, with
  24/8. The stored digest lengths of the two SHA-512 rows are left open. `ToySuite` meets all the
  assumptions. No collision resistance is assumed, so no lemma says that a wrong key must fail.
- **Shared formulas.** What a reader and a writer, or a method and its specification, compute with the
  same function is also written out from the standards and the stored bytes: byte order, HMAC, CBC
  block by block, cipher key, signatures and master-key payload down to digests, PBKDF2, UTF-16LE and
  UTF-8, provider and prefixes as literal bytes.
- **Sealing.** `Decrypt.Seal` and `MasterKey.SealMasterKey` are the inverse writers. `IsSealed`
  says that a byte string begins with a blob the first can produce; it is equivalent to opening it.
  `IsSealedKey` says the same of the second; it is equivalent to opening a sub-blob with room for
  HMAC salt, stored HMAC and key, and `OpenMasterKeyExact` covers the shorter ones as well.
- **Stores.** Each decoder of the command line has a `...LockedExact` lemma (when it reports a
  locked store, and which key it names), an `...Exact` lemma (when it reports a result) and a
  `...Refusals` lemma (which error it is otherwise). The
  JSON reader, base64, AES-GCM and the UTF-8 conversions are functions of a `Library` about which
  nothing is assumed.

`Bytes`, `Results`, `Wire`, `Primitives`, `Mac`, `Cbc` and `Text` are the common ground; `Blob`,
`Decrypt`, `KeyDerivation` and `MasterKey`, `Vault`, `Vcrd` and `VcrdProperties`, `Credential`,
`Wifi`, `Chrome` and `Forensic` follow the source files. `Hex` holds the hexadecimal code of two
of them.

## Where the code and its documentation differ

The model follows the code.

- Line 68 of the repository's own `README.md` says that the master key is derived with PBKDF2-HMAC;
  `core/src/masterkey.rs:20-21` says that it is not. The derivation is PBKDF2-HMAC, for all hash
  functions, passwords and salts, exactly when at most two iterations are asked for or no byte at
  all (`KeyDerivation.Pbkdf2Exact`).
- `forensic/src/lib.rs:145` speaks of a 64-byte master key. Any length is accepted; a
  key has 64 bytes exactly when 128 digits were given (`Forensic.MasterKeyArgumentExact`).
- `core/src/wifi.rs:37` speaks of the trailing NUL. The key is cut at its first NUL
  (`Wifi.UpToNulExact`).

Two behaviours of the Vault code that its comments do not spell out:

- Numbers beyond the record are read as 0, and the callers in `core/src/vault.rs` check bounds
  behind them everywhere but in the map of a record: `mp > maps_end` never fires and the end of the
  map is not compared with the record. `VcrdProperties.StrictExact` says exactly which records a
  parser that refuses this would treat differently, `VcrdProperties.OverrunExact` what those with map
  entries yield, which may be nothing, and `VcrdProperties.FabricatedAttribute` is one from which an
  attribute is reported.
- The pad test can misread an attribute without a pad. `Vcrd.PadSeenExact` says exactly which,
  `Vcrd.AmbiguousReturnsExact` which of those come back all the same, and `Vcrd.AmbiguousDropped` is
  one that is lost.

## Model

| member | source | states |
|---|---|---|
| `Bytes.LeDigits` | core/src/blob.rs:166-177 | A 32-bit number is stored with its least significant byte first |
| `Bytes.LeHalves` | core/src/masterkey.rs:93-104 | A 64-bit number is stored as its lower half, then its upper half |
| `Bytes.BeDigits` | core/src/masterkey.rs:231 | The block counter is appended with its most significant byte first |
| `Bytes.BitOfXor` | core/src/masterkey.rs:237-239 | A digit of the exclusive or is set exactly when it is set in one of the two numbers |
| `Wire.U32AtExact` | core/src/blob.rs:166-177 | The fallback read yields v exactly when v is stored at the position, or is 0 and the position is out of range |
| `Wire.ReadU32` | core/src/blob.rs:166-177 | The fallback read yields the number at the cursor, 0 out of range, and always advances by 4; inside the data it is the strict read of the specification, and beyond it the strict read fails |
| `Wire.ReadLenPrefixed` | core/src/blob.rs:55-64 | A length read with the fallback followed by the bounds-checked slice succeeds exactly when the strict length-prefixed field exists; a fallback length never produces a field |
| `Blob.ParseDpapiBlob` | core/src/blob.rs:66-150 | The cursor parser equals a parser that never reads beyond the end, on every input: version, provider and truncation errors included, no fallback 0 reaches a result, and the check on the signature position never refuses |
| `Blob.ParseBody` | core/src/blob.rs:117-124 | Started beyond the data by a fallback read, the fields from the salt on are refused; otherwise they are the strict fields |
| `Blob.ParseExact` | core/src/blob.rs:66-150 | A blob is accepted exactly when the writer can produce it, and each parsed field is the written one, the signed region included |
| `Blob.WriteLayout` | core/src/blob.rs:126-135 | The consumed bytes are the 20 bytes before the signed region, the signed region, the signature length and the signature |
| `Blob.SignedRegionLayout` | core/src/blob.rs:102-135 | The signed region is, field by field, everything from the master-key version to the ciphertext |
| `Blob.RefusalsExact` | core/src/blob.rs:66-97 | Refused at once are fewer than 48 bytes, versions other than 1 and 2 and providers other than the DPAPI GUID, in this order and with the offending value; behind them only truncation is refused |
| `Blob.GuidOffset` | core/src/blob.rs:98-107 | The GUID of the master key is the 16 bytes at offset 24 |
| `Blob.PrefixFree` | core/src/blob.rs:55-177 | The consumed bytes decide the result whatever follows, and every shorter truncation is refused with TooShort |
| `Text.DecodeOfUtf16Le` | core/src/blob.rs:152-164 | Decoding inverts UTF-16LE encoding for every string of scalar values, surrogate pairs included, up to the trailing NULs that decoding trims |
| `Text.NulPairsIgnored` | core/src/blob.rs:152-164 | Any number of NUL pairs behind whole units, unpaired surrogates included, does not change what they decode to |
| `Text.DecodeOfStored` | core/src/blob.rs:152-164 | A stored text, with any number of NULs behind it, comes back unchanged when it does not itself end in NUL |
| `Text.DecodeExact` | core/src/blob.rs:152-164 | Any bytes read as s exactly when their little-endian units can be cut into scalar values and lone surrogates, read as U+FFFD, that give s and trailing NULs |
| `Text.Utf16LeOfChar` | core/src/masterkey.rs:371-374 | A scalar value is encoded as one unit or as two surrogates of ten bits each, lower bytes first |
| `Text.Utf16LeAppends` | core/src/masterkey.rs:371-374 | Strings are encoded character by character |
| `Text.NulIsEncoded` | core/src/masterkey.rs:376-381 | The two zero bytes that end an encoded SID are the encoding of a NUL character |
| `Text.Utf16LeWithNulInjective` | core/src/masterkey.rs:376-381 | No two SIDs have the same NUL-terminated encoding |
| `Cbc.CbcDecryptEncrypt` | core/src/masterkey.rs:300-312 | CBC decryption inverts CBC encryption for every key, IV and whole number of blocks |
| `Cbc.CbcLayout` | core/src/masterkey.rs:300-312 | Block by block, encryption applies the cipher to the plain block plus the ciphertext block before it, decryption the inverse to the ciphertext block before adding, the IV standing before the first |
| `Cbc.UnpadExact` | core/src/decrypt.rs:212-222 | On whole blocks unpadding succeeds exactly on the padded strings, and gives the string that was padded |
| `Cbc.UnpadLayout` | core/src/decrypt.rs:212-222 | Any string is accepted exactly when it ends in 1 to n copies of their own number, and what stands before them is returned |
| `Cbc.DecryptPaddedExact` | core/src/decrypt.rs:13-22 | Decryption with unpadding yields a plaintext exactly when the text is the encryption of that plaintext padded; every failure under a key of the right length is DecryptionFailed |
| `Mac.HmacLayout` | core/src/decrypt.rs:24-46 | The keyed hash is the HMAC of RFC 2104, written out for both hash modules: pads, long keys and the two digests |
| `Decrypt.FixParity` | core/src/decrypt.rs:91-99 | In place, every byte becomes its odd-parity form |
| `Decrypt.OddParityExact` | core/src/decrypt.rs:91-99 | The fixed byte is the only one with the same top seven bits and an odd number of set bits |
| `Decrypt.OddParityIdempotent` | core/src/decrypt.rs:91-99 | Fixing the parity twice changes nothing more |
| `Decrypt.DeriveKey` | core/src/decrypt.rs:56-89 | The buffer manipulation computes the key material: re-MAC of long session keys, expansion by two padded digests with parity when too short |
| `Decrypt.KeyMaterialSuffices` | core/src/decrypt.rs:61-89 | For every hash identifier and cipher keys up to 40 bytes the material is long enough and the session key is never hashed again; under SHA-512 it is the session key, under SHA-1 40 bytes of odd parity |
| `Decrypt.BlobKeyExact` | core/src/decrypt.rs:56-134 | The cipher key in full: the HMAC of salt and entropy under the SHA-1 of the master key, for SHA-1 blobs expanded by the digests of its two padded forms, in this order and with odd parity |
| `Decrypt.HandBuiltPads` | core/src/decrypt.rs:154-166 | Resizing past the block and taking one block gives the padded key of RFC 2104 section 2 |
| `Decrypt.FormsCoincide` | core/src/decrypt.rs:168-187 | With empty entropy and signed region the two accepted signature forms are the same |
| `Decrypt.VerifyBlobSignature` | core/src/decrypt.rs:147-193 | The check accepts exactly the signatures that SignedExact writes out |
| `Decrypt.SignedExact` | core/src/decrypt.rs:147-193 | The two accepted signatures in full: under the pads of the key hash, of the inner digest of the HMac field, entropy and signed region, or the HMAC of all three |
| `Decrypt.DecryptDpapiBlob` | core/src/decrypt.rs:101-145 | The method equals the specification of opening: unknown cipher first, then ciphertext and padding, then signature; InvalidKeyLength never |
| `Decrypt.OpenExact` | core/src/decrypt.rs:108-145 | Ok(p) exactly when the cipher is known, the ciphertext is the CBC encryption of padded p under a zero IV and the key derived from master key, salt and entropy, and the signature has one of the two forms, all written out down to digests |
| `Decrypt.OpenErrors` | core/src/decrypt.rs:108-145 | The only refusals are an unknown cipher, exactly when the table has no row for it, DecryptionFailed and HmacMismatch |
| `Decrypt.OpenOfSeal` | core/src/decrypt.rs:108-222 | Sealing with either form, writing, parsing and opening give the cleartext back, for every header, salt, key, entropy, HMac field and following bytes |
| `Decrypt.OpenAcceptsExactlySealed` | core/src/decrypt.rs:108-222 | Parse-then-open accepts exactly the byte strings that begin with a sealed blob of that cleartext |
| `KeyDerivation.XorZip` | core/src/masterkey.rs:237-239 | The zipped loop adds byte by byte up to the shorter operand, and is the whole exclusive or on equal lengths |
| `KeyDerivation.DeriveKey` | core/src/masterkey.rs:213-244 | The nested loop terminates and computes the first keyLen bytes of the concatenated blocks; the block counter wraps at 32 bits |
| `KeyDerivation.DerivedKeyPrefix` | core/src/masterkey.rs:220-244 | A shorter key is a prefix of a longer one, so the cipher key does not depend on the IV length |
| `KeyDerivation.DerivedKeyBlock` | core/src/masterkey.rs:220-244 | Every whole digest inside the key depends on its own index alone: it is the PRF of the salt and the big-endian index counted from 1, plus the PRF of count - 1 accumulators |
| `KeyDerivation.ChainTelescopes` | core/src/masterkey.rs:234-240 | A block is its first output plus the PRF of each running accumulator |
| `KeyDerivation.EqualsPbkdf2UpToTwo` | core/src/masterkey.rs:213-219 | With at most two iterations, 0 counting as 1, the derivation is PBKDF2 for every PRF and key length |
| `KeyDerivation.ThreeIterationsExact` | core/src/masterkey.rs:213-219 | At three iterations a block is the PBKDF2 block exactly when the PRF gives the same on U1^U2 and on U2 |
| `KeyDerivation.Pbkdf2Exact` | core/src/masterkey.rs:213-219 | For each hash module, key length and iteration count, the derivation is PBKDF2-HMAC, defined independently from RFC 8018, for all hash functions, passwords and salts exactly when the count is at most 2 or no byte is asked for |
| `MasterKey.ParseMasterkeyFile` | core/src/masterkey.rs:106-158 | The cursor parser of the file equals the specification parser, truncations included |
| `MasterKey.ParseFileExact` | core/src/masterkey.rs:106-158 | A file is accepted exactly when it is header, four lengths and four sub-blobs of those lengths, and each field is the written one |
| `MasterKey.ParseMasterKeyBytes` | core/src/masterkey.rs:160-186 | The cursor parser of the sub-blob equals the specification parser |
| `MasterKey.ParseMasterKeyExact` | core/src/masterkey.rs:160-186 | The sub-blob parser and writer are inverse to each other |
| `MasterKey.UsesSha512` | core/src/masterkey.rs:188-200 | Only CALG_SHA_512 selects SHA-512, CALG_HMAC is SHA-1, an unknown identifier is UnsupportedAlgId |
| `MasterKey.KeyAndIvExact` | core/src/masterkey.rs:265-273 | The cipher key comes first in the derived bytes and does not depend on the IV length; the IV is what stands behind it |
| `MasterKey.DecryptPayload` | core/src/masterkey.rs:265-280 | Key and IV are cut from one derived string and the payload is CBC-decrypted under them |
| `MasterKey.CheckCleartext` | core/src/masterkey.rs:282-297 | The key at the end of the cleartext is returned only when its HMAC, cut to the stored length, is in the cleartext |
| `MasterKey.DeriveMasterKeyFromPrekey` | core/src/masterkey.rs:246-298 | The method equals the specification of opening a master key, with its order of refusals |
| `MasterKey.OpenMasterKeyExact` | core/src/masterkey.rs:254-298 | A key comes out exactly when both algorithms are known and the payload is the CBC encryption, under key and IV cut from the derived bytes in this order, of whole blocks that end in the key and hold, behind a 16-byte salt, its HMAC under the HMAC of that salt |
| `MasterKey.OpenOfSealMasterKey` | core/src/masterkey.rs:254-298 | Opening inverts sealing HMAC salt, HMAC, filler and key, for every row whose stored length is at most a digest |
| `MasterKey.OpenAcceptsSealedOrOverlapping` | core/src/masterkey.rs:254-298 | On payloads with room for HMAC salt, stored HMAC and key, opening accepts exactly the sealed keys; a shorter payload opens exactly when its cleartext is authentic with overlapping parts |
| `MasterKey.OverlapOpens` | core/src/masterkey.rs:282-293 | For every pre-key a concrete sub-blob of 64 encrypted zeros that opens, and that sealing writes for no pre-key, salt, filler and key |
| `MasterKey.TooLongRowNeverOpens` | core/src/masterkey.rs:282-293 | A table row that stores more bytes than the PRF yields can never be opened |
| `MasterKey.DeriveMasterKeyFromPassword` | core/src/masterkey.rs:341-353 | The password path is sub-blob parsing, pre-key, opening |
| `MasterKey.PrekeyLayout` | core/src/masterkey.rs:314-339 | The pre-key is the HMAC-SHA-1, keyed by the SHA-1 of the UTF-16LE password, of the UTF-16LE SID with its NUL |
| `MasterKey.FileRoundTrip` | core/src/masterkey.rs:111-353 | A key sealed under a password and written into a file comes back from the bytes of the file, whatever the other sub-blobs are |
| `MasterKey.OpenFileExact` | core/src/masterkey.rs:111-353 | A key comes out of the bytes of a file exactly when the file was written around a sub-blob that holds it encrypted and authentic under the pre-key of this SID and password |
| `Vault.ParseVpolFile` | core/src/vault.rs:55-76 | The cursor parser of the wrapper equals the strict parser on every input |
| `Vault.ParseVpolExact` | core/src/vault.rs:55-76 | The wrapper yields a blob exactly when it was written around it |
| `Vault.ReadBcryptKey` | core/src/vault.rs:93-116 | Five fallback reads and a key equal the strict wrap, and the cursor ends behind the key, not behind Size |
| `Vault.ParseKeysExact` | core/src/vault.rs:86-90 | Two keys come out exactly when two wraps stand one behind the other |
| `Vault.DecryptVpolKeys` | core/src/vault.rs:78-91 | The method is parse, open without entropy, then the two keys |
| `Vault.ParseInternetExplorer` | core/src/vault.rs:233-260 | The cursor parser, which starts behind an unread header, equals the strict parser on every input |
| `Vault.ParseCredentialExact` | core/src/vault.rs:233-247 | A web credential comes out exactly when it was written, user name, resource and password in this order |
| `Vault.CredentialOfAttributeExact` | core/src/vault.rs:205-260 | An attribute yields a web credential exactly when it is a written credential of whole blocks, CBC-encrypted under a key of 32 bytes and the stored 16-byte IV or zeros |
| `Vcrd.ParseAttributePayload` | core/src/vault.rs:169-203 | The cursor parser of an attribute equals its specification: pad test, Unknown5 by the stored identifier, IVSize consumed with or without an IV |
| `Vcrd.PadSeenExact` | core/src/vault.rs:176-187 | A pad is always recognised; a missing one is taken for a pad exactly when the identifier is at least 100, Unknown5 is 0 and Size is a multiple of 65536 |
| `Vcrd.PayloadOfWrite` | core/src/vault.rs:176-203 | A written, unambiguous attribute gives its IV and data when longer than 28 bytes and nothing otherwise |
| `Vcrd.PayloadExact` | core/src/vault.rs:176-203 | An attribute gives an IV and data exactly when it has more than 28 bytes and was written with them, unambiguously |
| `Vcrd.AmbiguousMisread` | core/src/vault.rs:181-187 | An ambiguous attribute is read six bytes too far, from inside its own size on |
| `Vcrd.AmbiguousDropped` | core/src/vault.rs:181-203 | A concrete valid attribute, identifier 100 and 65535 zero bytes, that is dropped because of this |
| `Vcrd.AmbiguousReturnsExact` | core/src/vault.rs:181-203 | An ambiguous attribute comes back all the same exactly when its content repeats itself six bytes further on and its first six bytes, with the IV size, read as the same sizes |
| `Vcrd.PayloadReturnsExact` | core/src/vault.rs:176-203 | Any writable attribute comes back exactly when it has more than 28 bytes and, if ambiguous, echoes itself in that way |
| `Vcrd.AmbiguousReturns` | core/src/vault.rs:181-203 | A concrete ambiguous attribute that comes back |
| `Vcrd.ReadMap` | core/src/vault.rs:137-145 | The map loop reads each entry at its place, 0 for what lies beyond the record, and ends exactly at the map's end |
| `Vcrd.CollectAttributes` | core/src/vault.rs:150-166 | The attribute loop refuses the first slice that does not exist and otherwise keeps what parses, in order |
| `Vcrd.ParseVcrdAttributes` | core/src/vault.rs:118-167 | The record parser equals its specification, and its check that the map was overrun never refuses |
| `VcrdProperties.ParseOfWriteVcrd` | core/src/vault.rs:119-167 | Parsing inverts writing a record of any stored byte strings, any name and any header |
| `VcrdProperties.MapHeaderExact` | core/src/vault.rs:119-131 | A record has a map header exactly when 36 bytes and a length-prefixed name stand at its front; a size that is not all there is read as 0 |
| `VcrdProperties.AttributesRoundTrip` | core/src/vault.rs:119-203 | For every list of unambiguously padded attributes, those of more than 28 bytes come back with identifiers, IVs and data in order |
| `VcrdProperties.CollectExact` | core/src/vault.rs:150-166 | The collection gives a list exactly when all slices exist and the list is, in map order, the attributes that the slices were written from |
| `VcrdProperties.RecordExact` | core/src/vault.rs:118-167 | A record parses to a list exactly when its map is of whole entries, all slices exist, and the list is, in map order, the attributes that the slices were written from |
| `VcrdProperties.ParsedRecordTiles` | core/src/vault.rs:137-166 | On every successful parse offsets are non-decreasing and within the record, the slices join to the record from the first offset on, and the result is the attributes they were written from, in order |
| `VcrdProperties.OverrunExact` | core/src/vault.rs:128-166 | A record that ends before the last offset of its map is accepted exactly when every offset read is 0, and then the attribute is the record itself |
| `VcrdProperties.StrictExact` | core/src/vault.rs:126-148 | The code agrees with a parser that refuses truncated maps except on the records that end before the map size, or before the last offset with all offsets 0 |
| `VcrdProperties.FabricatedAttribute` | core/src/vault.rs:119-167 | A concrete record of 44 header bytes without any map entry for which an attribute is reported |
| `Credential.ParseCredentialFileExact` | core/src/credential.rs:34-53 | The wrapper yields a blob exactly when it was written around it; the fallback for the size never yields one |
| `Credential.ParseCredentialBlob` | core/src/credential.rs:70-120 | The cursor parser equals the strict parser on every input |
| `Credential.ParseCredentialExact` | core/src/credential.rs:70-101 | A credential comes out exactly when it was written, with target, secret, user name and time in their places |
| `Credential.DecryptCredential` | core/src/credential.rs:55-68 | The library path as it runs is parse, open without entropy, then the cursor parser |
| `Hex.CharBytesExact` | core/src/wifi.rs:58-59 | Text is looked at in its UTF-8 bytes, as many as RFC 3629 gives a character and with the bits it gives them |
| `Hex.WlanHexDecode` | core/src/wifi.rs:56-85 | The Wi-Fi decoder returns the bytes of the text, or InvalidHex |
| `Hex.CliHexDecode` | forensic/src/lib.rs:373-389 | The second decoder accepts the same texts with the same bytes |
| `Hex.HexExact` | core/src/wifi.rs:56-85 | A text decodes to b exactly when, letter case aside, it is the lower-case encoding of b |
| `Hex.HexIgnoresCase` | core/src/wifi.rs:77-85 | Letter case does not matter |
| `Hex.HexEncode` | forensic/src/lib.rs:363-371 | The loop writes two lower-case digits for every byte |
| `Hex.HexTextLayout` | forensic/src/lib.rs:363-371 | Each byte is shown as the lower-case digit of its upper half, then that of its lower half |
| `Hex.HexOfDigits` | forensic/src/lib.rs:363-389 | Decoding inverts encoding |
| `Wifi.ExtractOfPlanted` | core/src/wifi.rs:18-30 | Text between white space in the first element of any XML is found |
| `Wifi.ExtractExact` | core/src/wifi.rs:18-30 | A text is found exactly when it stands, between white space and without white space at its ends, between the first opening tag and the first closing tag behind it |
| `Wifi.ExtractFromLines` | core/src/wifi.rs:18-30 | Any mix of spaces, tabs and line ends around the material does not matter |
| `Wifi.WhiteSpaceExact` | core/src/wifi.rs:29 | White space is the 25 code points of the Unicode property |
| `Wifi.DecryptWlanKeyMaterial` | core/src/wifi.rs:32-54 | The library path as it runs is digits, blob, cleartext, cut at the first NUL, UTF-8, with the error of the first step that fails |
| `Wifi.UpToNulExact` | core/src/wifi.rs:48-52 | A NUL-terminated key comes out whole exactly when it holds no earlier NUL |
| `Forensic.GuidTextLayout` | forensic/src/lib.rs:196-203 | The rendering is mixed-endian: the digits of bytes 3 2 1 0, 5 4, 7 6 and then 8 to 15 as stored, with hyphens at 8, 13, 18 and 23 |
| `Forensic.GuidTextInjective` | forensic/src/lib.rs:196-203 | No two GUIDs have the same rendering |
| `Forensic.LockedOrErrExact` | forensic/src/lib.rs:178-194 | Of the three locking errors becomes a report that names the key at offset 24 of the blob, or unknown if it does not parse; every other error stays what it is |
| `Forensic.CannotOpenExact` | forensic/src/lib.rs:178-194 | A locking error is exactly what a blob gives that parses, names a known cipher and was not sealed under this key from any cleartext |
| `Forensic.DecodeCredman` | forensic/src/lib.rs:260-271 | The decoder as it runs, with the running parsers, gives the outcome that the lemmas are about |
| `Forensic.CredmanLockedExact` | forensic/src/lib.rs:261-264 | Credential Manager is reported locked exactly when its blob parses, names a known cipher and was not sealed under this key, and the report names that blob's key |
| `Forensic.CredmanExact` | forensic/src/lib.rs:260-271 | A result is reported exactly for files that hold a sealed credential, and it is this credential |
| `Forensic.CredmanRoundTrip` | forensic/src/lib.rs:260-271 | Target, secret and user name without trailing NULs, stored in UTF-16LE with or without NULs behind them, sealed and wrapped by a writer, come back unchanged |
| `Forensic.CredmanRefusals` | forensic/src/lib.rs:260-271 | Every other outcome is an error of its own: TooShort of the wrapper or the cleartext, or the error of a blob that does not parse or names an unknown cipher |
| `Forensic.DecodeWifi` | forensic/src/lib.rs:302-316 | The decoder as it runs decodes the digits twice, with the decoder of the command line and that of the library, and gives the outcome that the lemmas are about |
| `Forensic.WifiLockedExact` | forensic/src/lib.rs:303-309 | A profile is reported locked exactly when the blob it holds parses, names a known cipher and was not sealed under this key, and the report names that blob's key |
| `Forensic.WifiBlobExact` | core/src/wifi.rs:18-85 | The blob of a profile is the one whose digits, of any case, stand in its first element |
| `Forensic.WifiNeverInvalidHex` | forensic/src/lib.rs:306-309 | Malformed key material is always BadMasterKey, never the library's InvalidHex |
| `Forensic.WifiExact` | forensic/src/lib.rs:302-316 | A result is reported exactly for profiles whose first element holds, in hexadecimal of any case, a blob that seals the key, and it is this key |
| `Forensic.WifiRoundTrip` | forensic/src/lib.rs:302-316 | A NUL-free key, sealed and written in hexadecimal of any case into the first element of any XML, comes back |
| `Forensic.WifiRefusals` | forensic/src/lib.rs:302-316 | Every other outcome is an error of its own: no element, bad digits, a blob that does not parse or names an unknown cipher, a key that is not UTF-8 |
| `Forensic.DecodeVault` | forensic/src/lib.rs:273-300 | The method pushes a result for every attribute that decrypts and holds a credential, in order, and skips the others |
| `Forensic.VaultLockedExact` | forensic/src/lib.rs:279-281 | The Vault is reported locked exactly when the policy blob parses, names a known cipher and was not sealed under this key, and the report names that blob's key |
| `Forensic.VaultExact` | forensic/src/lib.rs:273-300 | Results are reported exactly for policies that hold two sealed keys and records that hold attributes, and they are, in order, the credentials encrypted into the attributes under the first key |
| `Forensic.AttributeExact` | forensic/src/lib.rs:285-297 | An attribute contributes the resource, password and user name of the credential encrypted into it, and nothing exactly when it carries none |
| `Forensic.VaultEmptyExact` | forensic/src/lib.rs:285-297 | With the policy open and the record holding attributes, the report is empty exactly when no attribute carries a credential under the first key, always so when that key does not have 32 bytes |
| `Forensic.VaultRoundTrip` | forensic/src/lib.rs:273-300 | Any list of user names, resources and passwords, stored as web credentials under a 32-byte first key, with or without a 16-byte IV, comes back unchanged and in order |
| `Forensic.VaultRefusals` | forensic/src/lib.rs:273-300 | Every other outcome is an error of its own: of the policy, of its blob, of the two keys, and only then of the record |
| `Chrome.LocalStateKeyExact` | core/src/chrome.rs:84-104 | The blob is what stands behind DPAPI in the decoded value, and there is none without this prefix |
| `Chrome.CookieEncodingExact` | core/src/chrome.rs:24-50 | A value is classified as v10 or v20 exactly when it is that prefix, 12 bytes of nonce and a text that is not empty |
| `Forensic.DecodeBrowser` | forensic/src/lib.rs:207-258 | The method pushes the cookie key and then the cookie; a cookie that does not decrypt is an error of its own |
| `Forensic.BrowserLockedExact` | forensic/src/lib.rs:227-229 | The browser is reported locked, whatever the cookie, exactly when the file holds the base64 of DPAPI and a blob that parses, names a known cipher and was not sealed under this key, and the report names that blob's key |
| `Forensic.BrowserExact` | forensic/src/lib.rs:207-258 | Results are reported exactly for files that hold the base64 of DPAPI and a sealed key of 32 bytes, without a cookie or with one of v10 or v20, nonce and a text that decrypts under it: the key first, then the cookie |
| `Forensic.CookieExact` | core/src/chrome.rs:24-70 | A cookie gives a result exactly when it is v10 or v20, 12 bytes of nonce and a text that is not empty and decrypts under the key with this nonce |
| `Forensic.BrowserRefusals` | forensic/src/lib.rs:207-258 | Every other outcome is an error of its own: of the file, of base64 and prefix, of the blob, of the key length, of the cookie |
| `Forensic.ParseMasterKeyHex` | forensic/src/lib.rs:145-173 | The third digit loop, with its own error, reads the digits behind an optional 0x |
| `Forensic.MasterKeyArgumentExact` | forensic/src/lib.rs:145-173 | The argument is read as b exactly when it is the encoding of b up to letter case, as it is or behind 0x; b has 64 bytes exactly when there are 128 digits |
| `Forensic.MasterKeyArgumentOfHex` | forensic/src/lib.rs:145-173 | Every key, of any length, is read back from its hexadecimal with or without the prefix |

## Left out

- The internals of SHA-1, SHA-512, AES, 3DES and AES-GCM, and any claim that a wrong key fails: the model assumes lengths and invertibility only.
- Decryption in place: the `cbc` crate overwrites a buffer that the source has just cloned and returns; CBC is a function on values here, so aliasing of that buffer is not modelled.
- Base64, JSON, UTF-8 validation and lossy conversion: arbitrary functions of a `Library`; the browser lemmas hold for each of them.
- The `uuid` crate: `GuidText` gives the mixed-endian rendering directly.
- File reads, argument parsing, JSON output and `render_text`: I/O and presentation; `Cli::run` only reads files and dispatches.
- Byte counts and texts of errors: the error kind, and the identifier, version, lengths or bytes it shows, are kept.
- Overflow of machine words in `pos + len` for 64-bit lengths, and allocation sizes: cursors are unbounded.
- Panics of debug builds when the block counter of the key derivation overflows: it wraps, as in release builds.
- `derive_master_key_from_domain_backup` and `verify_hmac_sha1`: a constant refusal, and a check no modelled path uses.
