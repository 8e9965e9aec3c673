# py-kms activation core in Dafny

This project models the core of py-kms, a Key Management Service (KMS) activation server: the
plaintext wire records, the activation policy, and version dispatch. The source lives in
`py3-kms/kmsBase.py` and `py3-kms/kmsRequestUnknown.py`. The model covers:

- **Records** (`Codec`, `Messages`). The `Structure` records are modelled as a generic ordered
  field-list codec with little-endian `<H`/`<I`/`<Q` fields and raw byte regions. On top of it sit
  the 12-byte `GenericRequestHeader`, `kmsRequestStruct` and `kmsResponseStruct`. A `u` (UTF-16LE
  text) field is its bytes followed by a two-byte NUL terminator. The request is therefore 108 fixed
  bytes, the machine name, its terminator and `126 - len(machineName)` bytes of padding: 236 bytes.
  The response's computed `epidLen = len(kmsEpid) + 2` counts the terminator written after the EPID.
  Round trips are proved in both directions. The byte position is proved for both version fields,
  the client machine id and the time of the request and the response, and for the machine name and
  the EPID.
- **UUID fields** (`Uuid`). `UUID.get` reads a raw field as `uuid.UUID(bytes_le=raw)`.
  `str(uuid)` gives the canonical 8-4-4-4-12 text.
- **Text codecs** (`Utf16`, `Utf8`). Python's strict `utf-16le` codec, used for machine names and
  EPIDs, and its strict `utf-8` codec (the well-formed sequences of section 4 of RFC 3629).
- **Tables and arithmetic** (`Tables`, `Padding`). `licenseStates`, `licenseStatesEnum`,
  `errorCodes`, `getLicenseStatus` and `getPadding`.
- **Catalog scan** (`Catalog`). The nested loop of `serverLogic` over applications, KMS items
  and SKU items yields the application name, the SKU name and the current client count. It is
  characterised against independent "last match" reference definitions.
- **Client store** (`ClientStore`). The `clients` table, as a map from
  `(clientMachineId, skuId)` to row, with the INSERT-or-UPDATE sequence of `serverLogic`.
- **Policy** (`Server`). This covers `serverLogic` and `createKmsResponse`: the hostname gate
  (`AC-`/`MC-`/`PC-` via `find(p, 0, 5) == 0`), the upsert, the EPID choice, and every way the
  session ends. A session ends with `sys.exit(0)`, a response, or an exception.
- **Dispatch** (`Dispatch`). `generateKmsResponseData` and the unknown-version handler.

Two behaviours of the code are worth stating because one might expect otherwise:

- **EPID priority.** One might expect a configured EPID to override everything. In the code, with
  the client store enabled, a non-empty EPID already stored for the client/SKU pair wins over the
  configured EPID. The configured or generated EPID is used only when the row has none, and it is
  then written back.
- **Generator calls.** The EPID generator runs whenever no EPID is configured, even if the stored
  one is used afterwards. The generator's output is therefore a parameter of every request.

Time, the catalog and the generator output come in as an `Environment` value. The configuration
keys that are read come in as a `Config` value.

## Model

| member | source | states |
|---|---|---|
| Padding.GetPadding | py3-kms/kmsBase.py:116-118 | on 32-bit lengths the padding is 4 to 7 bytes, makes the framed length a multiple of 4, and equals 4 + ((4 - n mod 4) mod 4) |
| Padding.GetPaddingInt | py3-kms/kmsBase.py:116-118 | the same three facts for Python's unbounded integers, where `~n` is `-n - 1` and `& 3` is the non-negative remainder mod 4 |
| Uuid.Get | py3-kms/kmsBase.py:28-29 | the bytes_le reading: time_low, time_mid and time_hi_version are the little-endian values of bytes 0-4, 4-6 and 6-8; the last 8 bytes are kept in order |
| Uuid.NetworkOrder | py3-kms/kmsBase.py:28-29 | the network-order bytes reverse the first three groups and keep bytes 8-16 |
| Uuid.BytesLeOfGet | py3-kms/kmsBase.py:28-29 | writing back the value read from a raw field reproduces the 16 bytes |
| Uuid.GetOfBytesLe | py3-kms/kmsBase.py:28-29 | reading the bytes_le form of any UUID value gives that value back |
| Uuid.GetInjective | py3-kms/kmsBase.py:28-29 | two raw fields give equal `uuid.UUID` values exactly when their bytes are equal |
| Uuid.Format | py3-kms/kmsBase.py:201 | `str(uuid)` is 36 characters with dashes at positions 8, 13, 18 and 23 |
| Uuid.FormatInjective | py3-kms/kmsBase.py:201 | different network-order bytes give different 8-4-4-4-12 text |
| Uuid.CanonicalStringInjective | py3-kms/kmsBase.py:201 | two raw fields give the same `str(uuid)` exactly when their bytes are equal |
| Uuid.CanonicalStringOfRaw | py3-kms/kmsBase.py:201 | the text of a raw field is the hex of its network-order bytes |
| Uuid.KnownBytesLe | py3-kms/kmsBase.py:28-29 | the bytes 78 56 34 12 34 12 78 56 12 34 56 78 12 34 56 78 print as 12345678-1234-5678-1234-567812345678 |
| Utf16.DecodeEncode | py3-kms/kmsBase.py:57 | decoding the UTF-16LE encoding of any text gives the text back |
| Utf16.EncodeDecode | py3-kms/kmsBase.py:57 | a successful strict UTF-16LE decode is undone by encoding, byte for byte |
| Utf16.Encode | py3-kms/kmsBase.py:283 | the encoding has an even length of at least two bytes per character |
| Utf16.EncodeChar | py3-kms/kmsBase.py:281-283 | a character below U+10000 is one code unit, low byte first; any other character is a high then a low surrogate, each low byte first, that together carry the character |
| Utf16.KnownAscii | py3-kms/kmsBase.py:57 | the machine name "AC-" is sent as the bytes 41 00 43 00 2D 00 |
| Utf16.DecodableIffEncoded | py3-kms/kmsBase.py:57 | the strict decode succeeds on exactly the byte strings that some text encodes to |
| Utf8.EncodeDecode | py3-kms/kmsRequestUnknown.py:13 | a successful strict UTF-8 decode is undone by encoding, byte for byte |
| Utf8.DecodeEncodeChar | py3-kms/kmsRequestUnknown.py:13 | the encoding of one character, in front of any bytes, is read as one well-formed sequence that carries the character |
| Utf8.DecodeEncode | py3-kms/kmsRequestUnknown.py:13 | decoding the UTF-8 encoding of any text gives the text back |
| Utf8.AsciiPrefixKeepsMalformed | py3-kms/kmsRequestUnknown.py:13 | ASCII bytes in front of a malformed buffer leave it malformed |
| Messages.ParseHeader | py3-kms/kmsBase.py:76-84 | reading the generic header fails exactly on fewer than 12 bytes; the major version is bytes 10-12 little-endian and the minor version is bytes 8-10 |
| Messages.EncodeParseHeader | py3-kms/kmsBase.py:76-84 | writing back a parsed header reproduces its 12 bytes |
| Messages.ParseEncodeHeader | py3-kms/kmsBase.py:76-84 | parsing a written header gives the header back |
| Messages.EncodeRequest | py3-kms/kmsBase.py:36-54 | a request is always 236 bytes, with versionMinor at 0, versionMajor at 2, clientMachineId at 64-80, requestTime at 84-92, the machine name at 108, two zero bytes right after it and the padding to the end |
| Messages.DecodeRequest | py3-kms/kmsBase.py:36-54 | decoding fails exactly when the name is longer than 126 bytes, the buffer is shorter than 236 bytes, or the two bytes after the name are not zero; otherwise the name has the given length |
| Messages.DecodeEncodeRequest | py3-kms/kmsBase.py:36-54 | decoding an encoded request, with any bytes after it, gives the request back |
| Messages.EncodeDecodeRequest | py3-kms/kmsBase.py:36-54 | re-encoding a decoded request reproduces the 236 bytes it was read from |
| Messages.RequestOffsets | py3-kms/kmsBase.py:36-54 | field offsets of the request: versionMajor at 2, clientMachineId at 64, requestTime at 84, machineName at 108, its terminator right after the name, mnPad two bytes later, 236 bytes in total |
| Messages.RequestWidth | py3-kms/kmsBase.py:51-53 | the name, its terminator and the `126 - len(machineName)` padding make every request 236 bytes |
| Messages.DecodedTerminator | py3-kms/kmsBase.py:51 | the terminator field read from a request is the two bytes after the name |
| Messages.RequestVersionMinorAt | py3-kms/kmsBase.py:39 | bytes 0-2 of an encoded request hold versionMinor |
| Messages.RequestVersionAt | py3-kms/kmsBase.py:40 | bytes 2-4 of an encoded request hold versionMajor |
| Messages.RequestMachineIdAt | py3-kms/kmsBase.py:47 | bytes 64-80 of an encoded request hold clientMachineId |
| Messages.RequestTimeAt | py3-kms/kmsBase.py:49 | bytes 84-92 of an encoded request hold requestTime |
| Messages.RequestNameAt | py3-kms/kmsBase.py:51-53 | from byte 108 an encoded request holds the machine name, two zero bytes, then the padding |
| Messages.GetMachineName | py3-kms/kmsBase.py:56-57 | a decoded machine name encodes back to exactly the name bytes of the request; no name is returned exactly when no text encodes to those bytes |
| Messages.EncodeResponse | py3-kms/kmsBase.py:62-74 | writing succeeds exactly when every integer fits its field; then the record is 46 + len(kmsEpid) bytes, versionMinor and versionMajor are at bytes 0 and 2, epidLen is len(kmsEpid) + 2, the EPID starts at byte 8 and is followed by two zero bytes, then clientMachineId and responseTime |
| Messages.DecodeResponse | py3-kms/kmsBase.py:62-74 | reading fails exactly on fewer than 8 bytes, an epidLen below 2, fewer than epidLen + 44 bytes, or a non-zero pair of bytes after the EPID; the EPID read is epidLen - 2 bytes long |
| Messages.DecodedEpidTerminator | py3-kms/kmsBase.py:68 | the terminator field read from a response is the two bytes after the EPID |
| Messages.ResponseConforms | py3-kms/kmsBase.py:62-74 | the response's values fit its layout exactly when every integer fits its width |
| Messages.ResponseVersionsAt | py3-kms/kmsBase.py:65-66 | bytes 0-2 and 2-4 of an encoded response hold versionMinor and versionMajor |
| Messages.ResponseEpidLenAt | py3-kms/kmsBase.py:67 | bytes 4-8 of an encoded response hold len(kmsEpid) + 2 |
| Messages.ResponseEpidAt | py3-kms/kmsBase.py:68 | the EPID bytes follow epidLen directly |
| Messages.ResponseTerminatorAt | py3-kms/kmsBase.py:67-68 | two zero bytes follow the EPID, so epidLen covers the EPID and its terminator |
| Messages.ResponseMachineIdAt | py3-kms/kmsBase.py:69 | clientMachineId follows the EPID's terminator |
| Messages.ResponseTimeAt | py3-kms/kmsBase.py:70 | responseTime follows clientMachineId |
| Messages.DecodeEncodeResponse | py3-kms/kmsBase.py:62-74 | decoding an encoded response, with any bytes after it, gives the response back |
| Messages.EncodeDecodeResponse | py3-kms/kmsBase.py:62-74 | re-encoding a decoded response reproduces the bytes it was read from |
| Codec.Pack | py3-kms/kmsBase.py:64-73 | packing succeeds exactly when every value fits its field, and then has the layout's total width |
| Codec.DecodeFields | py3-kms/kmsBase.py:36-54 | reading a layout fails exactly when the buffer is shorter than the layout; the values fit their fields and the unread tail is returned |
| Codec.DecodeEncode | py3-kms/kmsBase.py:36-54 | decoding what was encoded gives back the same values and the bytes that followed |
| Codec.EncodeDecode | py3-kms/kmsBase.py:36-54 | re-encoding decoded values reproduces the bytes they were read from |
| Codec.FieldAt | py3-kms/kmsBase.py:36-54 | field i of an encoded record lies at the sum of the widths before it and holds that field's encoding |
| Codec.DecodedFieldAt | py3-kms/kmsBase.py:36-54 | field i of a decoded record is the decoding of the bytes at its offset |
| Tables.GetLicenseStatus | py3-kms/kmsBase.py:59-60 | a name is returned exactly for codes 0-6, and it is that code's entry in `licenseStates`; other codes raise KeyError; the "Unknown" fallback is never taken |
| Tables.EnumStatesReadable | py3-kms/kmsBase.py:59-104 | every code named in `licenseStatesEnum` is read by `getLicenseStatus` without raising |
| Tables.LicenseTablesAgree | py3-kms/kmsBase.py:86-104 | every symbolic state stands for a code that has a display name, and no two share a code |
| Tables.ErrorCodesAre32Bit | py3-kms/kmsBase.py:106-114 | every error code fits 32 bits and its top nibble is 0x4 or 0xC; the ID-mismatch code is 0xC004F042 |
| Catalog.CurrentClientCount | py3-kms/kmsBase.py:181-184 | the count exceeds the threshold, is at least the configured count, and is one of the two |
| Catalog.CurrentClientCountIsLeast | py3-kms/kmsBase.py:181-184 | the count is the least value above the threshold and at least the configured count; the configured count is kept exactly when it exceeds the threshold |
| Catalog.SkuMatchIsFirst | py3-kms/kmsBase.py:186-193 | the SKU loop finds nothing exactly when no item has the id, and otherwise yields the first matching item's display name |
| Catalog.LastSkuNameIsLast | py3-kms/kmsBase.py:172-193 | the SKU name found is that of the last KMS item with a match, and there is none exactly when no KMS item matches |
| Catalog.LastAppNameIsLast | py3-kms/kmsBase.py:195-196 | the application name found is that of the last application with the id, and there is none exactly when no application matches |
| Catalog.ScanKmsItems | py3-kms/kmsBase.py:174-193 | the inner loop keeps the application name, takes the last SKU match, and leaves the count of the last KMS item |
| Catalog.ScanApps | py3-kms/kmsBase.py:172-196 | the outer loop takes the last application match and the last SKU match over all KMS items, and the count of the last KMS item |
| Catalog.Scan | py3-kms/kmsBase.py:166-196 | unmatched ids keep the raw UUID; the count is unbound exactly when the catalog has no KMS item; otherwise it is computed from the last KMS item's threshold |
| Catalog.ScanNames | py3-kms/kmsBase.py:166-196 | no match keeps the raw id; otherwise the name comes from the last matching application or the last KMS item with a matching SKU |
| ClientStore.Revisit | py3-kms/kmsBase.py:237-256 | a revisit takes the visit's name, IP, application and status, and changes the readable time only with a changed request time; it keeps the EPID and adds 1 to the count |
| ClientStore.Upsert | py3-kms/kmsBase.py:229-256 | the upsert adds exactly the key, inserts or revisits its row, and leaves every other row unchanged |
| ClientStore.UpsertPreserves | py3-kms/kmsBase.py:229-256 | the upsert keeps every stored EPID and every row's count at least 1, and counts the visit |
| ClientStore.UpsertRepeat | py3-kms/kmsBase.py:237-256 | repeating a visit changes nothing but the request count |
| Server.FindFrom | py3-kms/kmsBase.py:219 | the result of the search is the lowest index in range where the substring occurs, or -1 when there is none |
| Server.FindAtStart | py3-kms/kmsBase.py:219 | `find(p, 0, 5) == 0` holds exactly when the name starts with the three-character p |
| Server.AdmittedIffPrefix | py3-kms/kmsBase.py:218-223 | the gate admits a name exactly when it starts with AC-, MC- or PC- |
| Server.KeyOfSeparates | py3-kms/kmsBase.py:230 | two requests share a store key exactly when their client machine id bytes and their SKU name texts are equal |
| Server.StoredEpidWins | py3-kms/kmsBase.py:279-302 | with the store enabled and a non-empty EPID stored for the key, every configuration and every generator output gives the same response EPID, the stored one, and the store is left as it was |
| Server.CreateKmsResponse | py3-kms/kmsBase.py:274-320 | the response mirrors the versions, machine id and time from the request and the intervals from the configuration; a stored EPID wins, otherwise the fresh one is returned and written back; a missing row raises |
| Server.Serve | py3-kms/kmsBase.py:198-272 | an undecodable name and an unknown status abort without touching the store; the session closes exactly on an illegal hostname; the count is unbound exactly for an admitted name with no KMS item; with unmatched ids bound as text, a missing row never occurs |
| Server.ServerLogic | py3-kms/kmsBase.py:166-272 | with the scan in place, the session aborts for an unbound count exactly when the name is admitted and the catalog holds no KMS item |
| Server.RespondShape | py3-kms/kmsBase.py:269-272 | a response implies a decodable, admitted name, a known status and a bound count, and is what createKmsResponse returns on the upserted store |
| Server.ClosedRecordsFailed | py3-kms/kmsBase.py:218-256 | an illegal hostname still leaves a row with status "FAILED" and its count increased by one (with unmatched ids bound as text) |
| Server.RespondMirrors | py3-kms/kmsBase.py:274-289 | a response mirrors request and configuration, carries the scan's count and has epidLen = len(kmsEpid) + 2 |
| Server.RespondCount | py3-kms/kmsBase.py:176-184 | a response's count exceeds the last KMS item's threshold and is at least the configured count |
| Server.RespondPersistsEpid | py3-kms/kmsBase.py:298-305 | with the store enabled, the EPID of a response is the one the row holds afterwards |
| Server.EpidStable | py3-kms/kmsBase.py:298-305 | a second request for the same client and SKU gets the first response's EPID, whatever the configuration or generator says then |
| Dispatch.HandlerFor | py3-kms/kmsBase.py:329-340 | major versions 4, 5 and 6 each get their handler; every other version gets the unknown-version handler |
| Dispatch.GenerateKmsResponseData | py3-kms/kmsBase.py:325-342 | a message shorter than the 12-byte header cannot be read; otherwise versions 4-6 are delegated and all others get the reply of the corrected unknown-version handler (as written, that handler raises; see Findings) |
| Dispatch.UnknownReplyBuffer | py3-kms/kmsRequestUnknown.py:9-12 | the assembled buffer is 12 bytes: eight zeros, then 0xC004F042 little-endian |
| Dispatch.UnknownReplyBytes | py3-kms/kmsRequestUnknown.py:9-12 | the buffer is 00 00 00 00 00 00 00 00 42 F0 04 C0 |
| Dispatch.Utf8RoundTrip | py3-kms/kmsRequestUnknown.py:13 | the round trip succeeds exactly on well-formed UTF-8 and then returns the same bytes |
| Dispatch.ReplyIsNotUtf8 | py3-kms/kmsRequestUnknown.py:13 | the assembled buffer is not well-formed UTF-8 |
| Dispatch.ExecuteUnknownAsWritten | py3-kms/kmsRequestUnknown.py:8-13 | if the handler as written returned, it would return the assembled buffer |
| Dispatch.AsWrittenAlwaysRaises | py3-kms/kmsRequestUnknown.py:8-13 | the handler as written raises UnicodeDecodeError on every request |
| Dispatch.ExecuteUnknown | py3-kms/kmsRequestUnknown.py:8-12 | the corrected handler returns the 12 bytes: eight zeros, then the ID-mismatch code little-endian |
| Dispatch.ExecuteUnknownIsConstant | py3-kms/kmsRequestUnknown.py:8-13 | the reply depends neither on the request nor on the configuration |

## Left out

- SQLite I/O: the creation of the database file, connection failures with `sys.exit(1)`, and `sqlite3.Error` inside a statement. The store is a map and its statements always succeed.
- Server.Serve: an application or SKU id that the catalog does not match is bound to the store as the canonical text of the UUID. The source passes the raw `uuid.UUID` object, which sqlite3 cannot bind, with three consequences the model does not reproduce when the store is enabled. First, an unmatched SKU makes the SELECT at kmsBase.py:230 raise `sqlite3.Error`, and the server ends with `sys.exit(1)` at line 263. Second, an unmatched application on a first visit makes the INSERT at line 235 fail silently (caught at line 258); no row exists, so `data[0]` at line 301 raises TypeError (the model's `MissingRow`). Third, an unmatched application on a revisit makes the `applicationId` UPDATE at line 246 raise, which skips the later updates and the `requestCount` increment. The model's "a missing row never occurs" and `Server.ClosedRecordsFailed` hold only under the text binding.
- Dispatch.GenerateKmsResponseData: answers unknown versions with the corrected handler `Dispatch.ExecuteUnknown`. As written, kmsBase.py:340-342 calls the handler that always raises UnicodeDecodeError (`Dispatch.AsWrittenAlwaysRaises`).
- Uuid.Format: the contract states the length and the dash positions, not the hexadecimal digit at each position. `Uuid.FormatInjective` states the consequence the store key relies on: different bytes print differently.
- Logging, `shell_message`, `byterize` and the hex dumps: none of them affects the outcome.
- Time: `filetime_to_dt`, the time-zone localisation, `time.time()` and `strftime` are inputs (`Environment.now`, `Environment.requestTimeReadable`), not computed.
- Catalog loading (`kmsDB2Dict`): the catalog is a parameter, already parsed. Ids that do not parse as UUIDs, and the `IndexError` branch of the SKU loop, are not modelled.
- The EPID generator (`kmsPidGenerator.epidGenerator`): its output for the request is a parameter. It is consulted whenever no EPID is configured.
- The V4, V5 and V6 handlers: `GenerateKmsResponseData` only names them. Their classes are not part of this model.
- The `structure.py` library is not part of this model. Its `u` format is modelled as the text followed by two zero bytes. Where a received name ends (the search for its terminator) is a parameter of `Messages.DecodeRequest`; the two bytes at that point must be zero. The response's EPID is read as `epidLen - 2` bytes followed by its terminator. A `u` field of odd length is not considered: the names and EPIDs here are UTF-16LE text.
- Concurrency. The server takes no lock, and each request opens its own connection to the database. The SELECT-then-INSERT at kmsBase.py:229-236 and the SELECT-then-UPDATE at kmsBase.py:298-305 are separate statements, so two requests for the same key can interleave. `Server.EpidStable`, `ClientStore.Upsert`'s one row per key and `Server.RespondPersistsEpid` hold only for requests served one at a time, which is how the model runs them.
- Padding.GetPadding: proved for 32-bit lengths and, separately, as `Padding.GetPaddingInt` on unbounded integers. No lemma links the bit-vector and integer forms.

## Findings

| source | as written | input that shows it | evidently intended | confidence | as-written member | corrected member |
|---|---|---|---|---|---|---|
| py3-kms/kmsRequestUnknown.py:13 | the 12-byte reply goes through `decode('utf-8').encode('utf-8')` | any request with an unknown major version: the reply's bytes `F0 04` are not well-formed UTF-8, so the decode raises UnicodeDecodeError | return the 12 assembled bytes | not executed | Dispatch.AsWrittenAlwaysRaises | Dispatch.ExecuteUnknown |
