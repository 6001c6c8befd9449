# NfcDemo core in Dafny

This project models the two protocol handlers of the NfcDemo Android app. Everything else in the
app is platform wiring.

- **The host card-emulation responder** (`NfcService.processCommandApdu`). It emulates a minimal
  smart card. A received command frame that is byte-for-byte equal to the registered SELECT frame
  gets the status word `90 00`. A frame equal to the READ BINARY frame gets the six card-data bytes
  `01 02 03 04 05 06`, with no status word after them. Every other frame gets `6A 81`.
  The responder keeps no state.
- **The NFC helper** (`NfcHelper`). It has four parts:
  - the three-way adapter-state check;
  - the guard that makes `enableNfcIntent` and `disableNfcIntent` throw `IllegalStateException`
    unless NFC is on;
  - the intent dispatcher `handleNfcIntent`, which picks one branch from the intent's action;
  - the two tag decoders, which read an NDEF message and the NfcA SAK/ATQA fields with a
    connect/operate/close discipline.

Modules, one per file:

| file | module | contents |
|---|---|---|
| `wrappers.dfy` | `Wrappers` | `Option`, standing for Kotlin's nullable values |
| `bytes.dfy` | `Bytes` | `Byte`, hexadecimal decoding and encoding of byte strings (the AID is written as hex text) |
| `iso7816.dfy` | `Iso7816` | short command APDUs laid out as in section 5.1 of ISO/IEC 7816-4: `Encode`, `Parse` |
| `nfc_service.dfy` | `NfcService` | the frame constants, `contentEquals`, the responder, and properties of the fixed frames |
| `text_lines.dfy` | `TextLines` | `StringBuilder.appendLine` and line-feed-terminated text: `JoinLines`, `SplitLines` |
| `nfc_platform.dfy` | `NfcPlatform` | adapter, intent, tag, NDEF/NfcA technologies, exceptions, connect/close trace events |
| `nfc_helper.dfy` | `NfcHelper` | state check, guards, the two decoders, the dispatcher, and their properties |

How the Android objects are represented:

- A tag's technologies are values that describe how each operation behaves. `NdefTech` records
  whether connect succeeds, what reading `ndefMessage` does, and whether close throws.
  `NfcATech` records whether connect succeeds, `sak`, `atqa`, and whether close throws.
- A decoder call returns its outcome (a value or an escaping exception) together with a trace of
  the connects and closes it issued.
- A dispatcher call returns the strings passed to the callback, the trace, and the exception that
  escaped, if any.
- Three string conversions are fields of a `Platform` value supplied by the caller:
  - `String(payload)`, Kotlin's `String(ByteArray)`, which decodes UTF-8 and replaces malformed
    input with U+FFFD. It is kept abstract because no property here depends on the decoded text;
  - the string form of `sak`, a Kotlin `Short`, which prints in decimal. It is kept abstract
    because no property here depends on its digits;
  - the string form of the `atqa` byte array. A Kotlin `ByteArray` prints as its identity
    (`[B@` and a hash code), not as hex.

Points where the code behaves differently from what its names suggest; the model follows the code:

- The READ answer is the six data bytes alone, without a trailing status word.
- The SELECT frame has an Lc of 6 followed by 7 AID bytes; see Findings.
- An NDEF intent without a tag throws `NullPointerException`, because `Ndef.get(null)`
  dereferences null. `GetNdefMessageFromTag` models this as a thrown outcome rather than a
  precondition.
- `readNfcATag` closes without a guard, so a failing close escapes the dispatcher. The failure is
  not turned into an empty report.
- If a tag declares NfcA but `NfcA.get` returns null, the NPE at connect is caught and the NPE at
  close escapes. `ConsistentTag` states the Android invariant that rules this out, and
  `TechBranchConsistentTag` shows what remains under it.

## Model

| member | source | states |
|---|---|---|
| NfcService.ProcessCommandApdu | app/src/main/java/com/ashkin/nfc/NfcService.kt:41-66 | the answer is never shorter than two bytes; it is `90 00` exactly for the SELECT frame, the card data exactly for the READ frame, and `6A 81` exactly for every other frame |
| NfcService.Respond | app/src/main/java/com/ashkin/nfc/NfcService.kt:43-66 | the `when` with `selectAid` and `readCardData` inlined, for a given SELECT pattern: the answer has at least two bytes and is the first-match lookup in the table that lists SELECT with `90 00` before READ with the card data, falling back to `6A 81` |
| NfcService.ContentEquals | app/src/main/java/com/ashkin/nfc/NfcService.kt:44-45 | the element-wise comparison returns true if and only if the two byte arrays are equal |
| NfcService.FixedAnswers | app/src/main/java/com/ashkin/nfc/NfcService.kt:13-46 | the literal SELECT frame gets exactly `90 00`; the literal READ frame gets exactly `01 02 03 04 05 06`; the empty frame gets `6A 81` |
| NfcService.OnlySelectEndsInSuccess | app/src/main/java/com/ashkin/nfc/NfcService.kt:60-66 | an answer ends in `90 00` if and only if the frame was SELECT; the READ answer ends in neither status word |
| NfcService.PrefixOrExtensionRejected | app/src/main/java/com/ashkin/nfc/NfcService.kt:44-45 | matching is exact: any proper prefix or proper extension of SELECT or READ gets `6A 81` |
| NfcService.Lookup | app/src/main/java/com/ashkin/nfc/NfcService.kt:43-47 | a first-match table lookup returns the fallback when no pattern matches, and otherwise the response of the first matching entry |
| NfcService.LookupOrderIrrelevant | app/src/main/java/com/ashkin/nfc/NfcService.kt:43-47 | when no two patterns are equal, reversing the table changes no answer |
| NfcService.ResponderIsTableLookup | app/src/main/java/com/ashkin/nfc/NfcService.kt:16-47 | the patterns have lengths 12 and 5; the responder equals the lookup in the two-entry table of registered commands, in either order |
| NfcService.SelectLcMismatch | app/src/main/java/com/ashkin/nfc/NfcService.kt:16-29 | as written, Lc is 6 but 7 bytes follow; under ISO/IEC 7816-4 the frame parses as a case-4 command with data `F0 01 02 03 04 05` and Le `06`; the well-formed SELECT of the AID, with Lc `07`, is answered `6A 81` |
| NfcService.SelectTailIsAid | app/src/main/java/com/ashkin/nfc/NfcService.kt:10-29 | the 7 bytes after SELECT's Lc are exactly the hex decoding of AID `F0010203040506` |
| NfcService.ProcessCommandApduIntended | app/src/main/java/com/ashkin/nfc/NfcService.kt:41-48 | the responder with Lc corrected to 7: `90 00` exactly for the corrected SELECT frame; READ and the fallback are unchanged |
| NfcService.IntendedSelectCarriesAid | app/src/main/java/com/ashkin/nfc/NfcService.kt:10-29 | the corrected frame's Lc counts the bytes after it; it parses as the case-3 SELECT command whose data is the decoded AID; it is answered with `90 00` |
| NfcService.ReadIsCase2 | app/src/main/java/com/ashkin/nfc/NfcService.kt:32-38 | READ parses as the case-2 command CLA 00, INS B0, P1 00, P2 00, with no data and Le 00 |
| Iso7816.Encode | app/src/main/java/com/ashkin/nfc/NfcService.kt:16-38 | the frame starts with CLA INS P1 P2; when there is data, the Lc byte equals the data length and the data follows it; when there is an Le, it is the last byte; the total length matches the case |
| Iso7816.Parse | app/src/main/java/com/ashkin/nfc/NfcService.kt:16-38 | every frame that is accepted is exactly the encoding of the command returned |
| Iso7816.EncodeParse | app/src/main/java/com/ashkin/nfc/NfcService.kt:16-38 | parsing inverts encoding for every short command |
| Bytes.HexDecode | app/src/main/java/com/ashkin/nfc/NfcService.kt:10 | a successful decoding has half as many bytes as the text has characters |
| Bytes.HexRoundTrip | app/src/main/java/com/ashkin/nfc/NfcService.kt:10 | decoding inverts encoding for every byte string |
| Bytes.DecodeSpelled | app/src/main/java/com/ashkin/nfc/NfcService.kt:10 | text whose digit pairs spell the bytes of a string, high nibble first, decodes to that string |
| Bytes.DecodedIsSpelled | app/src/main/java/com/ashkin/nfc/NfcService.kt:10 | conversely, every successful decoding is spelled digit pair by digit pair by the text, high nibble first; with `DecodeSpelled`, text decodes to a byte string exactly when it spells it |
| NfcHelper.CheckNfcState | app/src/main/java/com/ashkin/nfc/NfcHelper.kt:26-37 | the result is 0 exactly when there is no adapter, 1 exactly when the adapter is off, and 2 exactly when it is on; no other value occurs |
| NfcHelper.EnableNfcIntent | app/src/main/java/com/ashkin/nfc/NfcHelper.kt:49-88 | throws `IllegalStateException` if and only if NFC is not on, and then leaves the dispatch registration unchanged; otherwise the activity is registered |
| NfcHelper.DisableNfcIntent | app/src/main/java/com/ashkin/nfc/NfcHelper.kt:100-107 | throws `IllegalStateException` if and only if NFC is not on, and then changes nothing; otherwise the activity is unregistered |
| NfcHelper.GuardsAgree | app/src/main/java/com/ashkin/nfc/NfcHelper.kt:49-107 | enable throws exactly when disable does; with NFC on, each call undoes the other; with NFC off, neither changes the registration |
| NfcHelper.GetNdefMessageFromTag | app/src/main/java/com/ashkin/nfc/NfcHelper.kt:159-176 | a missing tag throws NPE; with no NDEF technology the result is null and nothing is connected; otherwise there is one connect and then one close, nothing escapes, and a message is returned exactly when connect and read succeed |
| NfcHelper.ReadNfcATag | app/src/main/java/com/ashkin/nfc/NfcHelper.kt:184-202 | with NfcA there is one connect and then one close; the call throws exactly when close fails, and then throws `IOException`; the text is empty exactly when connect fails; otherwise the text is the SAK line and the ATQA line, each terminated by a line feed; without NfcA the call throws NPE |
| NfcHelper.NfcAReportLines | app/src/main/java/com/ashkin/nfc/NfcHelper.kt:192-194 | when the renderings contain no line feed, the report splits into exactly the two lines `nfcA.sak: …` and `nfcA.atqa: …` |
| TextLines.SplitJoin | app/src/main/java/com/ashkin/nfc/NfcHelper.kt:192-194 | splitting line-feed-terminated text recovers the lines that were joined |
| TextLines.JoinSplit | app/src/main/java/com/ashkin/nfc/NfcHelper.kt:192-194 | joining the lines of splittable text recovers the text |
| TextLines.AppendLineLayout | app/src/main/java/com/ashkin/nfc/NfcHelper.kt:193-194 | `appendLine` keeps the text built so far unchanged in front, then adds the line, then one line feed |
| TextLines.AppendLineJoins | app/src/main/java/com/ashkin/nfc/NfcHelper.kt:192-194 | `appendLine` on joined lines gives the join with one more line |
| NfcHelper.KindOf | app/src/main/java/com/ashkin/nfc/NfcHelper.kt:119-150 | the action counts as NDEF, TECH or TAG discovered exactly when it is that action string; a null or other action is none of them |
| NfcHelper.HandleNfcIntent | app/src/main/java/com/ashkin/nfc/NfcHelper.kt:115-151 | the callback runs at most once and never when an exception escapes; TAG_DISCOVERED and other actions do nothing; the NDEF branch touches only NDEF and the TECH branch only NfcA, each in at most one connect/close session |
| NfcHelper.NdefBranch | app/src/main/java/com/ashkin/nfc/NfcHelper.kt:121-133 | the callback runs exactly when a message with at least one record is read, and receives the decoded payload of `records[0]`; the call throws exactly when the tag is missing |
| NfcHelper.NdefFirstRecordOnly | app/src/main/java/com/ashkin/nfc/NfcHelper.kt:125-130 | records after the first change nothing about the call |
| NfcHelper.TechBranch | app/src/main/java/com/ashkin/nfc/NfcHelper.kt:135-145 | the callback runs exactly when the tag declares NfcA, has an NfcA object and its close does not fail; it receives the report, which is `""` when connect fails |
| NfcHelper.TechBranchConsistentTag | app/src/main/java/com/ashkin/nfc/NfcHelper.kt:135-145 | on a tag whose objects match its technology list, the TECH branch throws only an `IOException`, and only when the tag declares NfcA and closing NfcA fails |
| NfcHelper.NdefIgnoresTechSide | app/src/main/java/com/ashkin/nfc/NfcHelper.kt:119-133 | an NDEF intent's result does not depend on the tag's technology list or NfcA side, so NDEF takes priority even for a tag the TECH branch would read |
| NfcHelper.TechIgnoresNdefSide | app/src/main/java/com/ashkin/nfc/NfcHelper.kt:135-145 | a TECH intent's result does not depend on the tag's NDEF side |
| NfcHelper.NdefCloseFailureSwallowed | app/src/main/java/com/ashkin/nfc/NfcHelper.kt:166-172 | a failing NDEF close changes neither the decoder's result and trace nor the dispatcher call |

## Left out

- `onCreate` and `onDeactivated` of the card-emulation service only log, so they are not modelled.
- All logging and `printStackTrace` calls are left out.
- The construction of the `Intent`, `PendingIntent`, intent filters and tech lists in
  `enableNfcIntent` is left out, because it consists of platform calls. Registering for foreground
  dispatch is reduced to a boolean that the guarded calls set or clear.
- `NfcAdapter.getDefaultAdapter` is a parameter, an optional `Adapter`, and is assumed to return
  the same adapter each time it is called within one helper call.
- UTF-8 decoding of NDEF payloads and the string forms of `sak` and `atqa` are caller-supplied
  functions. `String(payload)` decodes UTF-8 and `sak` prints in decimal; the model spells out
  neither, because no property depends on the decoded text or the digits. `atqa` prints as an
  object identity, which has no fixed text.
- `readCardData` returns the shared `CARD_DATA` array itself, not a copy, so a caller that
  modified the returned array would change later READ answers. The model treats byte arrays as
  immutable values and does not model this aliasing.
- The Compose UI (`NfcScreen.kt`), `MainActivity.kt` and `extension/ContextExt.kt` are UI and
  activity wiring, and are not part of this model.
- The platform's routing of SELECT frames to the service by AID uses the manifest's AID
  registration. Neither is part of this model.
- Extended-length APDUs are not modelled: `Iso7816.Parse` rejects an Lc of 0. Neither
  registered frame uses extended length.
- Which exception a failing connect or read raises (`IOException`, `FormatException`, a lost
  tag) is not distinguished, because the code catches them all alike. A failing NfcA close is
  modelled as `IOException`.

## Findings

| source | as written | input that shows it | evidently intended | confidence | as-written member | corrected member |
|---|---|---|---|---|---|---|
| app/src/main/java/com/ashkin/nfc/NfcService.kt:21 | the SELECT frame's Lc byte is `06`, but 7 AID bytes `F0 01 02 03 04 05 06` follow it (the 14-digit AID) | the SELECT frame itself: read as ISO/IEC 7816-4 prescribes, it is a case-4 command selecting `F0 01 02 03 04 05` with Le `06`, not the registered AID; a well-formed SELECT of the AID (Lc `07`) is answered `6A 81` | Lc `07`, so that the data field is the whole AID and the frame is a case-3 SELECT by name | high; not executed | NfcService.SelectLcMismatch | NfcService.IntendedSelectCarriesAid |

`ProcessCommandApdu` still compares against the frame as written, because that comparison is
the code's observable behaviour. `ProcessCommandApduIntended` is the same responder with the
corrected frame.
