/** The Android objects the helper reads, as plain values: an adapter, an
    intent carrying an action and an optional tag, and a tag's NDEF and NfcA
    technologies described by how their operations behave. */
module NfcPlatform {
  import opened Wrappers
  import opened Bytes

  const ACTION_NDEF_DISCOVERED: string := "android.nfc.action.NDEF_DISCOVERED"
  const ACTION_TECH_DISCOVERED: string := "android.nfc.action.TECH_DISCOVERED"
  const ACTION_TAG_DISCOVERED: string := "android.nfc.action.TAG_DISCOVERED"

  const TECH_NDEF: string := "android.nfc.tech.Ndef"
  const TECH_NFC_A: string := "android.nfc.tech.NfcA"

  /** The default adapter, when the device has one. */
  datatype Adapter = Adapter(isEnabled: bool)

  datatype NdefRecord = NdefRecord(payload: seq<Byte>)

  /** `records` is a platform array the code null-checks. */
  datatype NdefMessage = NdefMessage(records: Option<seq<NdefRecord>>)

  /** What reading `ndefMessage` does after a successful connect. */
  datatype NdefRead = ReadThrows | ReadNull | ReadMessage(message: NdefMessage)

  /** The NDEF technology of a tag. */
  datatype NdefTech = NdefTech(connectSucceeds: bool, read: NdefRead, closeThrows: bool)

  /** The NfcA technology of a tag; `sak` is a Java `short`, `atqa` a byte array. */
  datatype NfcATech = NfcATech(connectSucceeds: bool, sak: int, atqa: seq<Byte>, closeThrows: bool)

  /** A discovered tag: its declared technologies and what `Ndef.get` and
      `NfcA.get` return for it. */
  datatype Tag = Tag(techList: seq<string>, ndef: Option<NdefTech>, nfcA: Option<NfcATech>)

  /** On Android a technology object exists exactly when the tag declares it. */
  predicate ConsistentTag(tag: Tag) {
    && (TECH_NDEF in tag.techList <==> tag.ndef.Some?)
    && (TECH_NFC_A in tag.techList <==> tag.nfcA.Some?)
  }

  /** The discovery intent: its (nullable) action and `EXTRA_TAG`. */
  datatype Intent = Intent(action: Option<string>, tag: Option<Tag>)

  /** Exceptions that can escape or be caught in the helper. */
  datatype Exception = NullPointerException | IOException | IllegalStateException(message: string)

  /** The technology a connect or close is issued on. */
  datatype Tech = Ndef | NfcA

  /** One resource operation issued on a tag technology, whether or not it
      succeeded. */
  datatype TraceEvent = Connect(tech: Tech) | Close(tech: Tech)

  /** Conversions kept abstract: `String(bytes)` on a record payload (UTF-8,
      malformed input replaced by U+FFFD), the decimal form of the `Short`
      `sak`, and the identity form of the `atqa` byte array in a string
      concatenation. No property here depends on their text. */
  datatype Platform = Platform(decodePayload: seq<Byte> -> string, renderSak: int -> string, renderAtqa: seq<Byte> -> string)
}
