/** Short command APDUs, laid out as in section 5.1 of ISO/IEC 7816-4:
    a four-byte header CLA INS P1 P2, then optionally an Lc byte with Lc bytes
    of command data, then optionally an Le byte. Extended-length fields are
    not modelled. */
module Iso7816 {
  import opened Wrappers
  import opened Bytes

  datatype Command = Command(cla: Byte, ins: Byte, p1: Byte, p2: Byte, data: seq<Byte>, le: Option<Byte>)

  /** A short Lc field holds 1..255; an empty body is written without Lc. */
  predicate IsShort(c: Command) {
    |c.data| <= 255
  }

  /** The four body cases of the standard. */
  datatype Case = Case1 | Case2 | Case3 | Case4

  function CaseOf(c: Command): Case {
    match (|c.data| == 0, c.le.Some?)
    case (true, false) => Case1
    case (true, true) => Case2
    case (false, false) => Case3
    case (false, true) => Case4
  }

  /** The frame that carries `c`. */
  function Encode(c: Command): (frame: seq<Byte>)
    requires IsShort(c)
    ensures |frame| == 4 + (if |c.data| == 0 then 0 else 1 + |c.data|) + (if c.le.Some? then 1 else 0)
    ensures frame[..4] == [c.cla, c.ins, c.p1, c.p2]
    ensures |c.data| > 0 ==> frame[4] as int == |c.data| && frame[5..5 + |c.data|] == c.data
    ensures c.le.Some? ==> frame[|frame| - 1] == c.le.value
  {
    [c.cla, c.ins, c.p1, c.p2]
    + (if |c.data| == 0 then [] else [|c.data| as Byte] + c.data)
    + (match c.le case Some(n) => [n] case None => [])
  }

  /** Reads a frame back into its fields; `None` when the length does not fit
      the Lc byte (or Lc is the extended-length marker 0). Every frame it
      accepts is exactly the encoding of what it returns. */
  function Parse(frame: seq<Byte>): (r: Option<Command>)
    ensures r.Some? ==> IsShort(r.value) && Encode(r.value) == frame
  {
    if |frame| < 4 then None
    else if |frame| == 4 then Some(Command(frame[0], frame[1], frame[2], frame[3], [], None))
    else if |frame| == 5 then Some(Command(frame[0], frame[1], frame[2], frame[3], [], Some(frame[4])))
    else
      var lc := frame[4] as int;
      if lc == 0 then None
      else if |frame| == 5 + lc then
        Some(Command(frame[0], frame[1], frame[2], frame[3], frame[5..], None))
      else if |frame| == 6 + lc then
        Some(Command(frame[0], frame[1], frame[2], frame[3], frame[5..5 + lc], Some(frame[5 + lc])))
      else None
  }

  /** Parsing inverts encoding on every short command. */
  lemma EncodeParse(c: Command)
    requires IsShort(c)
    ensures Parse(Encode(c)) == Some(c)
  {
    var f := Encode(c);
    if |c.data| > 0 {
      assert f[5..5 + |c.data|] == c.data;
      if c.le.Some? {
        assert f[5 + |c.data|] == c.le.value;
      } else {
        assert f[5..] == c.data;
      }
    }
  }
}
