/** What the strict loader makes of line ends and of white space behind a record. */
module HexNewlines {
  import opened Wrappers
  import opened HexText
  import opened HexRecord
  import opened HexImage

  predicate Padding(pad: seq<byte>) {
    forall i :: 0 <= i < |pad| ==> pad[i] in {9, 10, 13, 32}
  }

  /** Tabs, newlines, returns and spaces are cut off the end of a line, up to the last other byte. */
  lemma {:induction false} TrimEndCutsPadding(body: seq<byte>, pad: seq<byte>)
    requires Padding(pad) && (body != [] ==> body[|body| - 1] !in {9, 10, 13, 32})
    ensures TrimEnd(body + pad) == body
  {
    if pad == [] {
      assert body + pad == body;
    } else {
      var line := body + pad;
      assert line[..|line| - 1] == body + pad[..|pad| - 1];
      assert line[|line| - 1] == pad[|pad| - 1];
      TrimEndCutsPadding(body, pad[..|pad| - 1]);
    }
  }

  /** A return at the end of a line changes nothing. */
  lemma ReturnIsTrimmed(line: seq<byte>)
    ensures TrimEnd(line + [13]) == TrimEnd(line)
  {
    assert (line + [13])[..|line|] == line;
  }

  // ---------------------------------------------------------------- returns before newlines

  /** The text with a return put before every newline. */
  function WithReturns(text: seq<byte>): seq<byte> {
    if text == [] then []
    else (if text[0] == 10 then [13, 10] else [text[0]]) + WithReturns(text[1..])
  }

  /** The lines of one text and of the other differ at their ends only. */
  ghost predicate SameTrimmed(lines: seq<seq<byte>>, others: seq<seq<byte>>) {
    |lines| == |others| && forall i :: 0 <= i < |lines| ==> TrimEnd(lines[i]) == TrimEnd(others[i])
  }

  lemma {:induction false} SameTrimmedLoads(st: LoadState, lines: seq<seq<byte>>, others: seq<seq<byte>>, lineNo: nat)
    requires SameTrimmed(lines, others)
    ensures LoadLines(st, lines, lineNo) == LoadLines(st, others, lineNo)
    decreases |lines|
  {
    if lines != [] {
      var next := LoadLine(st, lines[0], lineNo);
      assert next == LoadLine(st, others[0], lineNo);
      if next.Ok? {
        SameTrimmedLoads(next.value, lines[1..], others[1..], lineNo + 1);
      }
    }
  }

  lemma {:induction false} LinesAtNewline(line: seq<byte>, rest: seq<byte>)
    requires forall i :: 0 <= i < |line| ==> line[i] != 10
    ensures Lines(line + [10] + rest) == [line] + Lines(rest)
  {
    var text := line + [10] + rest;
    FirstNewlineIs(text, |line|);
    assert text[..|line|] == line && text[|line| + 1..] == rest;
  }

  lemma FirstNewlineIs(text: seq<byte>, n: nat)
    requires n < |text| && text[n] == 10 && forall i :: 0 <= i < n ==> text[i] != 10
    ensures FirstNewline(text) == n
  {
    var m := FirstNewline(text);
    assert m < |text| ==> text[m] == 10;
  }

  lemma {:induction false} ReturnsInLine(line: seq<byte>, rest: seq<byte>)
    requires forall i :: 0 <= i < |line| ==> line[i] != 10
    ensures WithReturns(line + rest) == line + WithReturns(rest)
  {
    if line == [] {
      assert line + rest == rest;
      EmptyFront(WithReturns(rest));
    } else {
      assert (line + rest)[1..] == line[1..] + rest;
      ReturnsInLine(line[1..], rest);
      assert [line[0]] + (line[1..] + WithReturns(rest)) == line + WithReturns(rest);
    }
  }

  lemma WithReturnsOfLine(line: seq<byte>, rest: seq<byte>)
    requires forall i :: 0 <= i < |line| ==> line[i] != 10
    ensures WithReturns(line + [10] + rest) == line + [13] + [10] + WithReturns(rest)
  {
    var tail := [10] + rest;
    assert line + [10] + rest == line + tail;
    ReturnsInLine(line, tail);
    assert tail[1..] == rest;
    Regroup(line, WithReturns(rest));
  }

  lemma Regroup(line: seq<byte>, rest: seq<byte>)
    ensures line + ([13, 10] + rest) == line + [13] + [10] + rest
  {
  }

  lemma FirstLineWithReturns(line: seq<byte>, rest: seq<byte>)
    requires forall i :: 0 <= i < |line| ==> line[i] != 10
    requires SameTrimmed(Lines(rest), Lines(WithReturns(rest)))
    ensures SameTrimmed(Lines(line + [10] + rest), Lines(WithReturns(line + [10] + rest)))
  {
    WithReturnsOfLine(line, rest);
    LinesAtNewline(line, rest);
    LinesAtNewline(line + [13], WithReturns(rest));
    ReturnIsTrimmed(line);
    SameTrimmedCons(line, line + [13], Lines(rest), Lines(WithReturns(rest)));
  }

  lemma SameTrimmedCons(line: seq<byte>, other: seq<byte>, lines: seq<seq<byte>>, others: seq<seq<byte>>)
    requires TrimEnd(line) == TrimEnd(other) && SameTrimmed(lines, others)
    ensures SameTrimmed([line] + lines, [other] + others)
  {
  }

  lemma {:induction false} LinesWithReturns(text: seq<byte>)
    ensures SameTrimmed(Lines(text), Lines(WithReturns(text)))
    decreases |text|
  {
    var n := FirstNewline(text);
    var line := text[..n];
    if n == |text| {
      assert line + [] == line == text;
      ReturnsInLine(line, []);
      assert line + WithReturns([]) == line;
    } else {
      var rest := text[n + 1..];
      assert text == line + [10] + rest;
      LinesWithReturns(rest);
      FirstLineWithReturns(line, rest);
    }
  }

  /** Line ends do not matter: with a return before every newline the loader gives the same memory, or
    the same error at the same line. */
  lemma LineEndsDoNotMatter(text: seq<byte>)
    ensures Load(WithReturns(text)) == Load(text)
  {
    LinesWithReturns(text);
    SameTrimmedLoads(START, Lines(text), Lines(WithReturns(text)), 1);
  }

  // ---------------------------------------------------------------- the lax reader's cuts, in numbers

  /** Python ends a line at seven of the ASCII characters. */
  lemma PyLineEnds(line: seq<byte>, b: byte, rest: seq<byte>)
    requires b in {10, 11, 12, 13, 28, 29, 30}
    requires forall i :: 0 <= i < |line| ==> line[i] !in {10, 11, 12, 13, 28, 29, 30}
    ensures PyNonBlank(line) == Keep(line)
    ensures PyNonBlank(line + [b] + rest) == Keep(line) + PyNonBlank(rest)
  {
    PyNonBlankWithoutBreak(line);
    PyNonBlankAtBreak(line, b, rest);
  }

  /** And strips ten of them from both ends. */
  lemma {:induction false} PyStripCuts(before: seq<byte>, body: seq<byte>, after: seq<byte>)
    requires forall i :: 0 <= i < |before| ==> before[i] in {9, 10, 11, 12, 13, 28, 29, 30, 31, 32}
    requires forall i :: 0 <= i < |after| ==> after[i] in {9, 10, 11, 12, 13, 28, 29, 30, 31, 32}
    requires body != [] && body[0] !in {9, 10, 11, 12, 13, 28, 29, 30, 31, 32}
    requires body[|body| - 1] !in {9, 10, 11, 12, 13, 28, 29, 30, 31, 32}
    ensures Strip(before + (body + after)) == body
  {
    if before == [] {
      EmptyFront(body + after);
      StripEndOfPadded(body, after);
    } else {
      assert (before + (body + after))[1..] == before[1..] + (body + after);
      PyStripCuts(before[1..], body, after);
    }
  }
}
