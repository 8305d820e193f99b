/** How the two HEX readers cut a text into lines, and when the two cuts agree. */
module HexText {
  import opened Wrappers

  const TAB: byte := 9
  const NEWLINE: byte := 10
  const RETURN: byte := 13
  const SPACE: byte := 32

  // ---------------------------------------------------------------- the strict reader's lines

  function FirstNewline(text: seq<byte>): (n: nat)
    ensures n <= |text|
    ensures n < |text| ==> text[n] == NEWLINE
    ensures forall i :: 0 <= i < n ==> text[i] != NEWLINE
  {
    if text == [] || text[0] == NEWLINE then 0 else 1 + FirstNewline(text[1..])
  }

  /** The lines of a text; a newline at the very end opens no further line. */
  function Lines(text: seq<byte>): seq<seq<byte>>
    decreases |text|
  {
    if text == [] then []
    else
      var n := FirstNewline(text);
      if n == |text| then [text] else [text[..n]] + Lines(text[n + 1..])
  }

  predicate Trailing(b: byte) {
    b == RETURN || b == NEWLINE || b == SPACE || b == TAB
  }

  function TrimEnd(line: seq<byte>): (t: seq<byte>)
    ensures t <= line
    ensures t != [] ==> !Trailing(t[|t| - 1])
    ensures forall i :: |t| <= i < |line| ==> Trailing(line[i])
  {
    if line == [] || !Trailing(line[|line| - 1]) then line else TrimEnd(line[..|line| - 1])
  }

  /** The lines that carry something, trimmed. */
  function NonBlank(lines: seq<seq<byte>>): seq<seq<byte>> {
    if lines == [] then []
    else
      var t := TrimEnd(lines[0]);
      (if t == [] then [] else [t]) + NonBlank(lines[1..])
  }

  // ---------------------------------------------------------------- the lax reader's lines

  /** The ASCII line ends of Python's universal newlines and splitlines. */
  predicate PyBreak(b: byte) {
    10 <= b <= 13 || 28 <= b <= 30
  }

  /** The ASCII characters that Python's strip removes. */
  predicate PySpace(b: byte) {
    9 <= b <= 13 || 28 <= b <= 32
  }

  function FirstBreak(text: seq<byte>): (n: nat)
    ensures n <= |text|
  {
    if text == [] || PyBreak(text[0]) then 0 else 1 + FirstBreak(text[1..])
  }

  function StripStart(line: seq<byte>): seq<byte> {
    if line == [] || !PySpace(line[0]) then line else StripStart(line[1..])
  }

  function StripEnd(line: seq<byte>): seq<byte> {
    if line == [] || !PySpace(line[|line| - 1]) then line else StripEnd(line[..|line| - 1])
  }

  function Strip(line: seq<byte>): seq<byte> {
    StripEnd(StripStart(line))
  }

  function Keep(line: seq<byte>): seq<seq<byte>> {
    if Strip(line) == [] then [] else [Strip(line)]
  }

  /** The stripped lines that are not empty.  A return followed by a newline is cut twice here, which
    only adds an empty line. */
  function PyNonBlank(text: seq<byte>): seq<seq<byte>>
    decreases |text|
  {
    var n := FirstBreak(text);
    if n == |text| then Keep(text) else Keep(text[..n]) + PyNonBlank(text[n + 1..])
  }

  // ---------------------------------------------------------------- agreement of the two cuts

  /** A body without white space, followed by returns, spaces and tabs only. */
  ghost predicate PlainLine(line: seq<byte>) {
    forall i :: 0 <= i < |TrimEnd(line)| ==> !PySpace(line[i])
  }

  lemma {:induction false} FirstBreakIs(text: seq<byte>, n: nat)
    requires n <= |text| && (n < |text| ==> PyBreak(text[n]))
    requires forall i :: 0 <= i < n ==> !PyBreak(text[i])
    ensures FirstBreak(text) == n
  {
    if n > 0 {
      FirstBreakIs(text[1..], n - 1);
    }
  }

  lemma {:induction false} FirstBreakHolds(text: seq<byte>)
    ensures var n := FirstBreak(text); n < |text| ==> PyBreak(text[n])
    ensures forall i :: 0 <= i < FirstBreak(text) ==> !PyBreak(text[i])
  {
    if text != [] && !PyBreak(text[0]) {
      FirstBreakHolds(text[1..]);
      assert forall i :: 1 <= i < FirstBreak(text) ==> text[i] == text[1..][i - 1];
    }
  }

  lemma {:induction false} StripOfPadded(body: seq<byte>, pad: seq<byte>)
    requires forall i :: 0 <= i < |body| ==> !PySpace(body[i])
    requires forall i :: 0 <= i < |pad| ==> PySpace(pad[i])
    ensures Strip(body + pad) == body
  {
    if body == [] {
      StripOfSpace(pad);
      assert body + pad == pad;
    } else {
      assert StripStart(body + pad) == body + pad;
      StripEndOfPadded(body, pad);
    }
  }

  lemma StripOfSpace(pad: seq<byte>)
    requires forall i :: 0 <= i < |pad| ==> PySpace(pad[i])
    ensures StripStart(pad) == []
  {
  }

  lemma {:induction false} StripEndOfPadded(body: seq<byte>, pad: seq<byte>)
    requires body != [] && !PySpace(body[|body| - 1])
    requires forall i :: 0 <= i < |pad| ==> PySpace(pad[i])
    ensures StripEnd(body + pad) == body
  {
    var s := body + pad;
    if pad == [] {
      assert s == body;
    } else {
      assert s[..|s| - 1] == body + pad[..|pad| - 1];
      StripEndOfPadded(body, pad[..|pad| - 1]);
    }
  }

  lemma PyNonBlankAtBreak(line: seq<byte>, b: byte, rest: seq<byte>)
    requires forall i :: 0 <= i < |line| ==> !PyBreak(line[i])
    requires PyBreak(b)
    ensures PyNonBlank(line + [b] + rest) == Keep(line) + PyNonBlank(rest)
  {
    var text := line + [b] + rest;
    FirstBreakIs(text, |line|);
    assert text[..|line|] == line && text[|line| + 1..] == rest;
  }

  lemma PyNonBlankWithoutBreak(line: seq<byte>)
    requires forall i :: 0 <= i < |line| ==> !PyBreak(line[i])
    ensures PyNonBlank(line) == Keep(line)
  {
    FirstBreakIs(line, |line|);
  }

  function After(rest: seq<byte>): seq<seq<byte>> {
    if rest == [] then [] else PyNonBlank(rest[1..])
  }

  /** Reading a plain line: whatever follows its newline is read as if it stood alone. */
  lemma {:induction false} PyNonBlankOfPlain(body: seq<byte>, pad: seq<byte>, rest: seq<byte>)
    requires forall i :: 0 <= i < |body| ==> !PySpace(body[i])
    requires forall i :: 0 <= i < |pad| ==> Trailing(pad[i])
    requires rest == [] || rest[0] == NEWLINE
    ensures PyNonBlank(body + pad + rest) == (if body == [] then [] else [body]) + After(rest)
    decreases |pad|
  {
    var k := FirstBreak(pad);
    FirstBreakHolds(pad);
    if k < |pad| {
      PyNonBlankOfPlain([], pad[k + 1..], rest);
      PadWithBreak(body, pad, rest, k);
    } else {
      PadWithoutBreak(body, pad, rest);
    }
  }

  lemma PadWithBreak(body: seq<byte>, pad: seq<byte>, rest: seq<byte>, k: nat)
    requires k < |pad| && PyBreak(pad[k])
    requires forall i :: 0 <= i < |body| ==> !PySpace(body[i])
    requires forall i :: 0 <= i < k ==> Trailing(pad[i]) && !PyBreak(pad[i])
    requires PyNonBlank([] + pad[k + 1..] + rest) == [] + After(rest)
    ensures PyNonBlank(body + pad + rest) == (if body == [] then [] else [body]) + After(rest)
  {
    KeptPad(body, pad, k);
    EmptyFront(After(rest));
    PyNonBlankAtPad(body, pad, rest, k);
  }

  lemma KeptPad(body: seq<byte>, pad: seq<byte>, k: nat)
    requires k < |pad|
    requires forall i :: 0 <= i < |body| ==> !PySpace(body[i])
    requires forall i :: 0 <= i < k ==> Trailing(pad[i])
    ensures Keep(body + pad[..k]) == if body == [] then [] else [body]
    ensures forall i :: 0 <= i < |body| ==> !PyBreak(body[i])
  {
    KeepOfPadded(body, pad[..k]);
  }

  lemma PadWithoutBreak(body: seq<byte>, pad: seq<byte>, rest: seq<byte>)
    requires forall i :: 0 <= i < |body| ==> !PySpace(body[i])
    requires forall i :: 0 <= i < |pad| ==> Trailing(pad[i]) && !PyBreak(pad[i])
    requires rest == [] || rest[0] == NEWLINE
    ensures PyNonBlank(body + pad + rest) == (if body == [] then [] else [body]) + After(rest)
  {
    PyNonBlankAfterPad(body + pad, rest);
    KeepOfPadded(body, pad);
  }

  lemma PyNonBlankAtPad(body: seq<byte>, pad: seq<byte>, rest: seq<byte>, k: nat)
    requires k < |pad| && PyBreak(pad[k])
    requires forall i :: 0 <= i < |body| ==> !PyBreak(body[i])
    requires forall i :: 0 <= i < k ==> !PyBreak(pad[i])
    ensures PyNonBlank(body + pad + rest) == Keep(body + pad[..k]) + PyNonBlank([] + pad[k + 1..] + rest)
  {
    SplitPadded(body, pad, rest, k);
    PyNonBlankAtBreak(body + pad[..k], pad[k], [] + pad[k + 1..] + rest);
  }

  lemma PyNonBlankAfterPad(line: seq<byte>, rest: seq<byte>)
    requires forall i :: 0 <= i < |line| ==> !PyBreak(line[i])
    requires rest == [] || rest[0] == NEWLINE
    ensures PyNonBlank(line + rest) == Keep(line) + After(rest)
  {
    if rest == [] {
      assert line + rest == line;
      PyNonBlankWithoutBreak(line);
    } else {
      assert line + rest == line + [rest[0]] + rest[1..];
      PyNonBlankAtBreak(line, rest[0], rest[1..]);
    }
  }

  lemma SplitPadded(body: seq<byte>, pad: seq<byte>, rest: seq<byte>, k: nat)
    requires k < |pad|
    ensures body + pad + rest == (body + pad[..k]) + [pad[k]] + ([] + pad[k + 1..] + rest)
  {
  }

  lemma KeepOfPadded(body: seq<byte>, pad: seq<byte>)
    requires forall i :: 0 <= i < |body| ==> !PySpace(body[i])
    requires forall i :: 0 <= i < |pad| ==> PySpace(pad[i])
    ensures Keep(body + pad) == if body == [] then [] else [body]
  {
    StripOfPadded(body, pad);
  }

  lemma {:induction false} PyNonBlankOfLine(line: seq<byte>, rest: seq<byte>)
    requires PlainLine(line)
    requires rest == [] || rest[0] == NEWLINE
    ensures PyNonBlank(line + rest) == NonBlank([line]) + After(rest)
  {
    var t := TrimEnd(line);
    assert line == t + line[|t|..];
    assert line + rest == t + line[|t|..] + rest;
    PyNonBlankOfPlain(t, line[|t|..], rest);
    assert NonBlank([line]) == if t == [] then [] else [t];
  }

  lemma NonBlankCons(line: seq<byte>, lines: seq<seq<byte>>)
    ensures NonBlank([line] + lines) == NonBlank([line]) + NonBlank(lines)
  {
  }

  /** On a text whose lines are all plain, the two readers see the same lines. */
  lemma {:induction false} SameNonBlankLines(text: seq<byte>)
    requires forall line :: line in Lines(text) ==> PlainLine(line)
    ensures PyNonBlank(text) == NonBlank(Lines(text))
    decreases |text|
  {
    if text != [] {
      var n := FirstNewline(text);
      if n == |text| {
        assert text in Lines(text);
        PyNonBlankOfLastLine(text);
      } else {
        LinesAllPlain(text[..n], Lines(text[n + 1..]));
        SameNonBlankLines(text[n + 1..]);
        PyNonBlankOfFirstLine(text, n);
        NonBlankCons(text[..n], Lines(text[n + 1..]));
      }
    }
  }

  lemma LinesAllPlain(line: seq<byte>, lines: seq<seq<byte>>)
    requires forall l :: l in [line] + lines ==> PlainLine(l)
    ensures PlainLine(line) && forall l :: l in lines ==> PlainLine(l)
  {
  }

  lemma PyNonBlankOfLastLine(line: seq<byte>)
    requires PlainLine(line)
    ensures PyNonBlank(line) == NonBlank([line])
  {
    PyNonBlankOfLine(line, []);
    assert line + [] == line;
    assert NonBlank([line]) + After([]) == NonBlank([line]);
  }

  lemma PyNonBlankOfFirstLine(text: seq<byte>, n: nat)
    requires n < |text| && text[n] == NEWLINE && PlainLine(text[..n])
    ensures PyNonBlank(text) == NonBlank([text[..n]]) + PyNonBlank(text[n + 1..])
  {
    var tail := text[n..];
    assert text == text[..n] + tail;
    assert tail[1..] == text[n + 1..];
    PyNonBlankOfLine(text[..n], tail);
  }
}
