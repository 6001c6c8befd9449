/** Text built with `StringBuilder.appendLine`: a sequence of lines, each
    followed by a line feed. */
module TextLines {
  import opened Wrappers

  /** `sb.appendLine(line)`: the line, then a line feed. */
  function AppendLine(sb: string, line: string): string {
    sb + line + "\n"
  }

  /** What was built stays in front, then comes the line, then a line feed:
      appending never rewrites earlier text. */
  lemma AppendLineLayout(sb: string, line: string)
    ensures |AppendLine(sb, line)| == |sb| + |line| + 1
    ensures AppendLine(sb, line)[..|sb|] == sb
    ensures AppendLine(sb, line)[|sb|..|sb| + |line|] == line
    ensures AppendLine(sb, line)[|sb| + |line|] == '\n'
  {
  }

  /** A line holds no line feed of its own. */
  predicate IsLine(line: string) {
    '\n' !in line
  }

  /** The text made of `lines`, each terminated by a line feed. */
  function JoinLines(lines: seq<string>): (text: string)
    ensures lines != [] ==> text != [] && text[|text| - 1] == '\n'
  {
    if lines == [] then "" else lines[0] + "\n" + JoinLines(lines[1..])
  }

  /** Index of the first line feed, if any. */
  function FirstNewline(s: string): (r: Option<nat>)
    ensures r.Some? ==> r.value < |s| && s[r.value] == '\n' && IsLine(s[..r.value])
    ensures r.None? ==> IsLine(s)
  {
    if s == [] then None
    else if s[0] == '\n' then Some(0)
    else match FirstNewline(s[1..])
      case None => None
      case Some(i) => assert s[..i + 1] == [s[0]] + s[1..][..i]; Some(i + 1)
  }

  /** Splits text into its line-feed-terminated lines; `None` when the text
      ends in an unterminated line. */
  function SplitLines(text: string): (r: Option<seq<string>>)
    ensures r.Some? ==> forall i :: 0 <= i < |r.value| ==> IsLine(r.value[i])
    decreases |text|
  {
    if text == [] then Some([])
    else match FirstNewline(text)
      case None => None
      case Some(i) =>
        match SplitLines(text[i + 1..])
        case None => None
        case Some(rest) => Some([text[..i]] + rest)
  }

  /** Splitting recovers the lines that were joined. */
  lemma {:induction false} SplitJoin(lines: seq<string>)
    requires forall i :: 0 <= i < |lines| ==> IsLine(lines[i])
    ensures SplitLines(JoinLines(lines)) == Some(lines)
  {
    if lines != [] {
      var text := JoinLines(lines);
      var l := lines[0];
      FirstNewlineAfterLine(l, JoinLines(lines[1..]));
      assert text[|l| + 1..] == JoinLines(lines[1..]);
      assert text[..|l|] == l;
      SplitJoin(lines[1..]);
      assert lines == [l] + lines[1..];
    }
  }

  /** Joining recovers the text that was split. */
  lemma {:induction false} JoinSplit(text: string)
    requires SplitLines(text).Some?
    ensures JoinLines(SplitLines(text).value) == text
    decreases |text|
  {
    if text != [] {
      var i := FirstNewline(text).value;
      SplitStep(text);
      JoinSplit(text[i + 1..]);
      JoinCons(text[..i], SplitLines(text[i + 1..]).value);
    }
  }

  /** One step of splitting: the first line, then the lines of the rest. */
  lemma SplitStep(text: string)
    requires text != [] && SplitLines(text).Some?
    ensures FirstNewline(text).Some?
    ensures var i := FirstNewline(text).value;
            && SplitLines(text[i + 1..]).Some?
            && SplitLines(text).value == [text[..i]] + SplitLines(text[i + 1..]).value
            && text == text[..i] + "\n" + text[i + 1..]
  {
    var i := FirstNewline(text).value;
    assert text == text[..i] + [text[i]] + text[i + 1..];
  }

  lemma JoinCons(line: string, lines: seq<string>)
    ensures JoinLines([line] + lines) == line + "\n" + JoinLines(lines)
  {
    assert ([line] + lines)[1..] == lines;
  }

  lemma {:induction false} FirstNewlineAfterLine(line: string, rest: string)
    requires IsLine(line)
    ensures FirstNewline(line + "\n" + rest) == Some(|line|)
    decreases |line|
  {
    if line != [] {
      assert (line + "\n" + rest)[1..] == line[1..] + "\n" + rest;
      FirstNewlineAfterLine(line[1..], rest);
    }
  }

  /** Appending a line to joined text joins one more line. */
  lemma {:induction false} AppendLineJoins(lines: seq<string>, line: string)
    ensures AppendLine(JoinLines(lines), line) == JoinLines(lines + [line])
  {
    if lines != [] {
      assert (lines + [line])[1..] == lines[1..] + [line];
      AppendLineJoins(lines[1..], line);
    } else {
      assert JoinLines([line]) == line + "\n" + JoinLines([]);
    }
  }
}
