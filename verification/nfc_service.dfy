/** The host card-emulation responder: a stateless lookup from a received
    command frame to a response frame. */
module NfcService {
  import opened Wrappers
  import opened Bytes
  import opened Iso7816

  /** Application identifier under which the service is registered, as hex text. */
  const AID: string := "F0010203040506"

  /** The card's data, returned by READ BINARY. */
  const CARD_DATA: seq<Byte> := [0x01, 0x02, 0x03, 0x04, 0x05, 0x06]

  /** SELECT by name: CLA 00, INS A4, P1 04, P2 00, Lc 06, then the AID bytes. */
  const SELECT_APDU: seq<Byte> := [0x00, 0xA4, 0x04, 0x00, 0x06, 0xF0, 0x01, 0x02, 0x03, 0x04, 0x05, 0x06]

  /** READ BINARY: CLA 00, INS B0, P1 00, P2 00, Le 00. */
  const READ_DATA_APDU: seq<Byte> := [0x00, 0xB0, 0x00, 0x00, 0x00]

  /** Status word "normal processing". */
  const SW_OK: seq<Byte> := [0x90, 0x00]

  /** Status word "function not supported", sent for every unrecognised frame. */
  const SW_FUNCTION_NOT_SUPPORTED: seq<Byte> := [0x6A, 0x81]

  /** Element-wise comparison of two byte arrays, as Kotlin's `contentEquals`
      performs it: equal lengths and equal bytes at every index. */
  method ContentEquals(a: seq<Byte>, b: seq<Byte>) returns (equal: bool)
    ensures equal <==> a == b
  {
    if |a| != |b| {
      return false;
    }
    var i := 0;
    while i < |a|
      invariant 0 <= i <= |a|
      invariant a[..i] == b[..i]
    {
      if a[i] != b[i] {
        return false;
      }
      i := i + 1;
    }
    assert a == a[..i] && b == b[..i];
    return true;
  }

  /** The responder: SELECT is answered with a bare success status word, READ
      with the card data alone (no status word follows it), everything else
      with `6A 81`. No state is read or kept, so the answer depends on the
      frame alone. */
  function ProcessCommandApdu(command: seq<Byte>): (response: seq<Byte>)
    ensures |response| >= 2
    ensures response == SW_OK <==> command == SELECT_APDU
    ensures response == CARD_DATA <==> command == READ_DATA_APDU
    ensures response == SW_FUNCTION_NOT_SUPPORTED <==> command != SELECT_APDU && command != READ_DATA_APDU
  {
    Respond(SELECT_APDU, command)
  }

  /** The `when` of the responder for a given SELECT pattern, with the bodies
      of `selectAid` (the success status word) and `readCardData` (the card
      data) inlined. It is the first-match lookup in the table that registers
      SELECT before READ, falling back to `6A 81`. */
  function Respond(select: seq<Byte>, command: seq<Byte>): (response: seq<Byte>)
    ensures |response| >= 2
    ensures response == Lookup([Registered(select, SW_OK), Registered(READ_DATA_APDU, CARD_DATA)], command, SW_FUNCTION_NOT_SUPPORTED)
  {
    if command == select then SW_OK
    else if command == READ_DATA_APDU then CARD_DATA
    else SW_FUNCTION_NOT_SUPPORTED
  }

  // ---------------------------------------------------------------------------
  // The responder as a table of registered commands

  /** A registered command: an exact frame pattern and the frame sent back. */
  datatype Registered = Registered(pattern: seq<Byte>, response: seq<Byte>)

  const REGISTERED: seq<Registered> := [Registered(SELECT_APDU, SW_OK), Registered(READ_DATA_APDU, CARD_DATA)]

  /** No two entries of the table share a pattern. */
  predicate DistinctPatterns(table: seq<Registered>) {
    forall i, j :: 0 <= i < j < |table| ==> table[i].pattern != table[j].pattern
  }

  /** First-match lookup with a fallback response. */
  function Lookup(table: seq<Registered>, command: seq<Byte>, fallback: seq<Byte>): (response: seq<Byte>)
    ensures (forall i :: 0 <= i < |table| ==> table[i].pattern != command) ==> response == fallback
    ensures forall i :: 0 <= i < |table| && table[i].pattern == command && (forall j :: 0 <= j < i ==> table[j].pattern != command)
                        ==> response == table[i].response
  {
    if table == [] then fallback
    else if table[0].pattern == command then table[0].response
    else
      var r := Lookup(table[1..], command, fallback);
      assert forall i :: 1 <= i < |table| ==> table[i] == table[1..][i - 1];
      r
  }

  /** With distinct patterns, an entry that matches is the one used, wherever
      it sits in the table. */
  lemma LookupDistinct(table: seq<Registered>, command: seq<Byte>, fallback: seq<Byte>, k: nat)
    requires DistinctPatterns(table)
    requires k < |table| && table[k].pattern == command
    ensures Lookup(table, command, fallback) == table[k].response
  {
  }

  /** Reversing a table with distinct patterns does not change any answer. */
  lemma LookupOrderIrrelevant(table: seq<Registered>, command: seq<Byte>, fallback: seq<Byte>)
    requires DistinctPatterns(table)
    ensures Lookup(Reverse(table), command, fallback) == Lookup(table, command, fallback)
  {
    var rev := Reverse(table);
    assert DistinctPatterns(rev) by {
      forall i, j | 0 <= i < j < |rev| ensures rev[i].pattern != rev[j].pattern {
        assert rev[i] == table[|table| - 1 - i] && rev[j] == table[|table| - 1 - j];
      }
    }
    if k :| 0 <= k < |table| && table[k].pattern == command {
      LookupDistinct(table, command, fallback, k);
      assert rev[|table| - 1 - k] == table[k];
      LookupDistinct(rev, command, fallback, |table| - 1 - k);
    } else {
      assert forall i :: 0 <= i < |rev| ==> rev[i] == table[|table| - 1 - i];
    }
  }

  function Reverse<T>(s: seq<T>): (r: seq<T>)
    ensures |r| == |s|
    ensures forall i :: 0 <= i < |s| ==> r[i] == s[|s| - 1 - i]
  {
    if s == [] then [] else Reverse(s[1..]) + [s[0]]
  }

  /** The two patterns differ (already in length: 12 against 5), so at most one
      can match and the responder is the table lookup in either order. */
  lemma ResponderIsTableLookup(command: seq<Byte>)
    ensures |SELECT_APDU| == 12 && |READ_DATA_APDU| == 5
    ensures ProcessCommandApdu(command) == Lookup(REGISTERED, command, SW_FUNCTION_NOT_SUPPORTED)
    ensures ProcessCommandApdu(command) == Lookup(Reverse(REGISTERED), command, SW_FUNCTION_NOT_SUPPORTED)
  {
    assert DistinctPatterns(REGISTERED);
    LookupOrderIrrelevant(REGISTERED, command, SW_FUNCTION_NOT_SUPPORTED);
  }

  // ---------------------------------------------------------------------------
  // Properties of the fixed frames

  /** The literal SELECT frame gets exactly `90 00`, the literal READ frame
      exactly `01 02 03 04 05 06`, and the empty frame `6A 81`. */
  lemma FixedAnswers()
    ensures ProcessCommandApdu([0x00, 0xA4, 0x04, 0x00, 0x06, 0xF0, 0x01, 0x02, 0x03, 0x04, 0x05, 0x06]) == [0x90, 0x00]
    ensures ProcessCommandApdu([0x00, 0xB0, 0x00, 0x00, 0x00]) == [0x01, 0x02, 0x03, 0x04, 0x05, 0x06]
    ensures ProcessCommandApdu([]) == [0x6A, 0x81]
  {
  }

  /** The READ answer carries no status word: it ends neither in `90 00` nor
      in `6A 81`, and only SELECT's answer ends in `90 00`. */
  lemma OnlySelectEndsInSuccess(command: seq<Byte>)
    ensures var r := ProcessCommandApdu(command);
            r[|r| - 2..] == SW_OK <==> command == SELECT_APDU
    ensures CARD_DATA[4..] != SW_OK && CARD_DATA[4..] != SW_FUNCTION_NOT_SUPPORTED
  {
  }

  /** Matching is exact: a proper prefix or a proper extension of a registered
      frame (SELECT followed by an Le byte, say) is not recognised. */
  lemma PrefixOrExtensionRejected(pattern: seq<Byte>, command: seq<Byte>)
    requires pattern == SELECT_APDU || pattern == READ_DATA_APDU
    requires command < pattern || pattern < command
    ensures ProcessCommandApdu(command) == SW_FUNCTION_NOT_SUPPORTED
  {
    if command < pattern {
      if |command| >= 2 {
        assert command[1] == pattern[1];
      }
    } else {
      assert command[1] == pattern[1];
    }
  }

  /** As written, the SELECT frame's Lc byte says 6 while 7 bytes follow it.
      Read as section 5.1 of ISO/IEC 7816-4 prescribes, the frame is then a
      case-4 command whose data is the 6 bytes `F0 01 02 03 04 05` and whose
      Le is `06`: its data field is not the 7 bytes that follow Lc. The
      well-formed SELECT of AID, with Lc 07, is not recognised. */
  lemma SelectLcMismatch()
    ensures SELECT_APDU[4] == 0x06 && |SELECT_APDU| - 5 == 7
    ensures Parse(SELECT_APDU) == Some(Command(0x00, 0xA4, 0x04, 0x00, [0xF0, 0x01, 0x02, 0x03, 0x04, 0x05], Some(0x06)))
    ensures CaseOf(Parse(SELECT_APDU).value) == Case4
    ensures Parse(SELECT_APDU).value.data != SELECT_APDU[5..]
    ensures ProcessCommandApdu(SELECT_APDU_INTENDED) == SW_FUNCTION_NOT_SUPPORTED
  {
    SelectParse();
  }

  /** The 7 bytes after SELECT's Lc are exactly the hexadecimal decoding of
      AID, so the frame was meant to name AID in full. */
  lemma SelectTailIsAid()
    ensures HexDecode(AID) == Some(SELECT_APDU[5..])
  {
    AidBytes();
  }

  lemma SelectParse()
    ensures Parse(SELECT_APDU) == Some(Command(0x00, 0xA4, 0x04, 0x00, [0xF0, 0x01, 0x02, 0x03, 0x04, 0x05], Some(0x06)))
  {
    var c := Command(0x00, 0xA4, 0x04, 0x00, [0xF0, 0x01, 0x02, 0x03, 0x04, 0x05], Some(0x06));
    assert Encode(c) == SELECT_APDU;
    EncodeParse(c);
  }

  /** The 7 bytes of the registered AID. */
  lemma AidBytes()
    ensures HexDecode(AID) == Some([0xF0, 0x01, 0x02, 0x03, 0x04, 0x05, 0x06])
  {
    var b: seq<Byte> := [0xF0, 0x01, 0x02, 0x03, 0x04, 0x05, 0x06];
    assert SpellsHex(AID, b) by {
      forall i | 0 <= i < 7
        ensures HexDigitValue(AID[2 * i]) == Some(b[i] as nat / 16) && HexDigitValue(AID[2 * i + 1]) == Some(b[i] as nat % 16)
      {
        // One branch per position, so that each literal digit pair is unfolded on its own.
        if i == 0 {} else if i == 1 {} else if i == 2 {} else if i == 3 {} else if i == 4 {} else if i == 5 {} else {}
      }
    }
    DecodeSpelled(AID, b);
  }

  /** The SELECT frame the comments describe: Lc 07 followed by the AID. */
  const SELECT_APDU_INTENDED: seq<Byte> := [0x00, 0xA4, 0x04, 0x00, 0x07, 0xF0, 0x01, 0x02, 0x03, 0x04, 0x05, 0x06]

  /** The responder with the corrected SELECT pattern; READ and the fallback
      are unchanged. */
  function ProcessCommandApduIntended(command: seq<Byte>): (response: seq<Byte>)
    ensures response == SW_OK <==> command == SELECT_APDU_INTENDED
    ensures response == CARD_DATA <==> command == READ_DATA_APDU
    ensures response == SW_FUNCTION_NOT_SUPPORTED <==> command != SELECT_APDU_INTENDED && command != READ_DATA_APDU
  {
    Respond(SELECT_APDU_INTENDED, command)
  }

  /** The corrected frame is the case-3 SELECT-by-name command for exactly the
      registered AID: its Lc counts the bytes after it, and it is answered with
      `90 00`. */
  lemma IntendedSelectCarriesAid()
    ensures SELECT_APDU_INTENDED[4] as int == |SELECT_APDU_INTENDED| - 5
    ensures HexDecode(AID).Some?
    ensures Parse(SELECT_APDU_INTENDED) == Some(Command(0x00, 0xA4, 0x04, 0x00, HexDecode(AID).value, None))
    ensures CaseOf(Parse(SELECT_APDU_INTENDED).value) == Case3
    ensures ProcessCommandApduIntended(SELECT_APDU_INTENDED) == SW_OK
  {
    AidBytes();
    IntendedSelectParse();
  }

  lemma IntendedSelectParse()
    ensures Parse(SELECT_APDU_INTENDED) == Some(Command(0x00, 0xA4, 0x04, 0x00, [0xF0, 0x01, 0x02, 0x03, 0x04, 0x05, 0x06], None))
  {
    var c := Command(0x00, 0xA4, 0x04, 0x00, [0xF0, 0x01, 0x02, 0x03, 0x04, 0x05, 0x06], None);
    assert Encode(c) == SELECT_APDU_INTENDED;
    EncodeParse(c);
  }

  /** READ is a well-formed case-2 command with Le 00 (up to 256 bytes wanted). */
  lemma ReadIsCase2()
    ensures Parse(READ_DATA_APDU) == Some(Command(0x00, 0xB0, 0x00, 0x00, [], Some(0x00)))
    ensures CaseOf(Parse(READ_DATA_APDU).value) == Case2
  {
  }
}
