/** Bytes and their hexadecimal text form, as used for application identifiers. */
module Bytes {
  import opened Wrappers

  /** An octet. Kotlin's `Byte` is signed, but the code only ever compares bytes
      for equality, so the unsigned view loses nothing. */
  newtype Byte = x: int | 0 <= x < 0x100

  /** Value of one hexadecimal digit; both letter cases are accepted. */
  function HexDigitValue(c: char): (r: Option<nat>)
    ensures r.Some? ==> r.value < 16
  {
    if '0' <= c <= '9' then Some(c as int - '0' as int)
    else if 'A' <= c <= 'F' then Some(c as int - 'A' as int + 10)
    else if 'a' <= c <= 'f' then Some(c as int - 'a' as int + 10)
    else None
  }

  /** The upper-case digit for a value below 16. */
  function HexDigit(n: nat): (c: char)
    requires n < 16
    ensures HexDigitValue(c) == Some(n)
    ensures '0' <= c <= '9' || 'A' <= c <= 'F'
  {
    if n < 10 then ('0' as int + n) as char else ('A' as int + n - 10) as char
  }

  /** Decodes pairs of hexadecimal digits, high nibble first; `None` for an odd
      length or a character that is not a digit. */
  function HexDecode(s: string): (r: Option<seq<Byte>>)
    ensures r.Some? ==> 2 * |r.value| == |s|
    decreases |s|
  {
    if |s| == 0 then Some([])
    else if |s| == 1 then None
    else
      match (HexDigitValue(s[0]), HexDigitValue(s[1]), HexDecode(s[2..]))
      case (Some(hi), Some(lo), Some(rest)) => Some([(hi * 16 + lo) as Byte] + rest)
      case _ => None
  }

  /** Upper-case hexadecimal text of a byte string, two digits per byte. */
  function HexEncode(b: seq<Byte>): (s: string)
    ensures |s| == 2 * |b|
  {
    if b == [] then ""
    else [HexDigit(b[0] as nat / 16), HexDigit(b[0] as nat % 16)] + HexEncode(b[1..])
  }

  /** `s` spells `b`: two digits per byte, the high nibble first. */
  predicate SpellsHex(s: string, b: seq<Byte>) {
    && |s| == 2 * |b|
    && forall i :: 0 <= i < |b| ==>
         HexDigitValue(s[2 * i]) == Some(b[i] as nat / 16) && HexDigitValue(s[2 * i + 1]) == Some(b[i] as nat % 16)
  }

  /** Text that spells a byte string digit by digit decodes to it. */
  lemma {:induction false} DecodeSpelled(s: string, b: seq<Byte>)
    requires SpellsHex(s, b)
    ensures HexDecode(s) == Some(b)
  {
    if b != [] {
      assert SpellsHex(s[2..], b[1..]) by {
        forall i | 0 <= i < |b| - 1
          ensures HexDigitValue(s[2..][2 * i]) == Some(b[1..][i] as nat / 16)
                  && HexDigitValue(s[2..][2 * i + 1]) == Some(b[1..][i] as nat % 16)
        {
          assert s[2..][2 * i] == s[2 * (i + 1)] && s[2..][2 * i + 1] == s[2 * (i + 1) + 1];
        }
      }
      DecodeSpelled(s[2..], b[1..]);
      var hi, lo := b[0] as nat / 16, b[0] as nat % 16;
      assert HexDigitValue(s[0]) == Some(hi) && HexDigitValue(s[1]) == Some(lo);
      assert (hi * 16 + lo) as Byte == b[0];
      assert HexDecode(s) == Some([b[0]] + b[1..]);
      assert b == [b[0]] + b[1..];
    }
  }

  /** Conversely, whatever decodes successfully spells the bytes it decodes
      to; with `DecodeSpelled`, `HexDecode(s) == Some(b)` exactly when `s`
      spells `b`. */
  lemma {:induction false} DecodedIsSpelled(s: string)
    requires HexDecode(s).Some?
    ensures SpellsHex(s, HexDecode(s).value)
    decreases |s|
  {
    if |s| > 0 {
      var b := HexDecode(s).value;
      var rest := HexDecode(s[2..]).value;
      DecodedIsSpelled(s[2..]);
      assert b == [b[0]] + rest;
      forall i | 1 <= i < |b|
        ensures HexDigitValue(s[2 * i]) == Some(b[i] as nat / 16) && HexDigitValue(s[2 * i + 1]) == Some(b[i] as nat % 16)
      {
        assert s[2 * i] == s[2..][2 * (i - 1)] && s[2 * i + 1] == s[2..][2 * (i - 1) + 1];
        assert b[i] == rest[i - 1];
      }
    }
  }

  /** Decoding inverts encoding on every byte string. */
  lemma {:induction false} HexRoundTrip(b: seq<Byte>)
    ensures HexDecode(HexEncode(b)) == Some(b)
  {
    if b != [] {
      var s := HexEncode(b);
      var hi, lo := b[0] as nat / 16, b[0] as nat % 16;
      assert s[0] == HexDigit(hi) && s[1] == HexDigit(lo);
      assert s[2..] == HexEncode(b[1..]);
      HexRoundTrip(b[1..]);
      assert b == [b[0]] + b[1..];
    }
  }
}
