/** The progress ledger as text: cutting it into lines, and rewriting one of them in place. */
module LedgerText {
  import opened Wrappers

  // ---------------------------------------------------------------- lines

  /** The characters that str.splitlines breaks at. */
  predicate LineBreak(c: char) {
    var k := c as int;
    10 <= k <= 13 || 28 <= k <= 30 || k == 0x85 || k == 0x2028 || k == 0x2029
  }

  /** How far the first line reaches, its break not counted. */
  function BodyLength(text: string): (n: nat)
    ensures n <= |text|
  {
    if text == "" || LineBreak(text[0]) then 0 else 1 + BodyLength(text[1..])
  }

  lemma {:induction false} BodyLengthHolds(text: string)
    ensures forall i :: 0 <= i < BodyLength(text) ==> !LineBreak(text[i])
    ensures BodyLength(text) < |text| ==> LineBreak(text[BodyLength(text)])
  {
    if text != "" && !LineBreak(text[0]) {
      BodyLengthHolds(text[1..]);
      assert forall i :: 1 <= i < BodyLength(text) ==> text[i] == text[1..][i - 1];
    }
  }

  /** The length of the break that a text starts with; a return takes a newline after it along. */
  function BreakLength(text: string): (n: nat)
    ensures n <= |text|
  {
    if text == "" || !LineBreak(text[0]) then 0
    else if text[0] == '\r' && |text| > 1 && text[1] == '\n' then 2
    else 1
  }

  function LineLength(text: string): (n: nat)
    ensures n <= |text|
    ensures text != "" ==> n > 0
  {
    var n := BodyLength(text);
    n + BreakLength(text[n..])
  }

  /** The lines of a text with their breaks. */
  function SplitKeep(text: string): (lines: seq<string>)
    decreases |text|
  {
    if text == "" then []
    else
      var n := LineLength(text);
      [text[..n]] + SplitKeep(text[n..])
  }

  function Join(lines: seq<string>): string {
    if lines == [] then "" else lines[0] + Join(lines[1..])
  }

  /** A line without its break. */
  function Chomp(line: string): string {
    line[..BodyLength(line)]
  }

  function Chomped(lines: seq<string>): (c: seq<string>)
    ensures |c| == |lines|
    ensures forall i :: 0 <= i < |lines| ==> c[i] == Chomp(lines[i])
  {
    if lines == [] then [] else [Chomp(lines[0])] + Chomped(lines[1..])
  }

  function SplitLines(text: string): seq<string> {
    Chomped(SplitKeep(text))
  }

  lemma JoinCons(line: string, lines: seq<string>)
    ensures Join([line] + lines) == line + Join(lines)
  {
  }

  lemma {:induction false} JoinInvertsSplit(text: string)
    ensures Join(SplitKeep(text)) == text
    decreases |text|
  {
    if text != "" {
      var n := LineLength(text);
      JoinInvertsSplit(text[n..]);
      JoinCons(text[..n], SplitKeep(text[n..]));
    }
  }

  lemma {:induction false} BodyLengthIs(text: string, n: nat)
    requires n <= |text|
    requires forall i :: 0 <= i < n ==> !LineBreak(text[i])
    requires n < |text| ==> LineBreak(text[n])
    ensures BodyLength(text) == n
  {
    if n > 0 {
      BodyLengthIs(text[1..], n - 1);
    }
  }

  /** A body without breaks is followed by the break that the rest starts with. */
  lemma LineLengthOf(body: string, tail: string)
    requires forall i :: 0 <= i < |body| ==> !LineBreak(body[i])
    requires tail != "" ==> LineBreak(tail[0])
    ensures LineLength(body + tail) == |body| + BreakLength(tail)
    ensures BodyLength(body + tail) == |body|
  {
    BodyLengthIs(body + tail, |body|);
    assert (body + tail)[|body|..] == tail;
  }

  // ---------------------------------------------------------------- one line changed

  /** Two lines that differ in their bodies only. */
  predicate SameBreak(a: string, b: string) {
    && a != "" && b != "" && a[0] == b[0] && !LineBreak(a[0])
    && a[BodyLength(a)..] == b[BodyLength(b)..]
  }

  lemma SplitKeepCons(line: string, rest: string)
    requires line + rest != "" && LineLength(line + rest) == |line|
    ensures SplitKeep(line + rest) == [line] + SplitKeep(rest)
  {
  }

  lemma FirstLine(text: string)
    requires text != ""
    ensures var n := LineLength(text);
            BodyLength(text[..n]) == BodyLength(text) && text[..n][BodyLength(text)..] == text[BodyLength(text)..n]
  {
    var n, b := LineLength(text), BodyLength(text);
    BodyLengthHolds(text);
    assert forall i :: 0 <= i < b ==> text[..n][i] == text[i];
    assert b < n ==> text[..n][b] == text[b];
    BodyLengthIs(text[..n], b);
  }

  /** The first line replaced by one with the same break: the cut after it stays. */
  lemma ReplaceFirst(text: string, line: string)
    requires text != "" && SameBreak(text[..LineLength(text)], line)
    ensures SplitKeep(line + text[LineLength(text)..]) == [line] + SplitKeep(text[LineLength(text)..])
  {
    BodyLengthHolds(text);
    BodyLengthHolds(line);
    var n, b := LineLength(text), BodyLength(text);
    FirstLine(text);
    var body := line[..BodyLength(line)];
    var tail := text[b..];
    assert line == body + text[b..n];
    assert line + text[n..] == body + tail;
    LineLengthOf(body, tail);
    assert n == b + BreakLength(tail);
    SplitKeepCons(line, text[n..]);
  }

  /** A line stays a line when what follows it changes, as long as the first character does not. */
  lemma FirstLineStays(text: string, rest: string)
    requires text != "" && text[LineLength(text)..] != "" && rest != "" && rest[0] == text[LineLength(text)]
    ensures SplitKeep(text[..LineLength(text)] + rest) == [text[..LineLength(text)]] + SplitKeep(rest)
  {
    LengthStays(text, rest);
    SplitKeepCons(text[..LineLength(text)], rest);
  }

  lemma LengthStays(text: string, rest: string)
    requires text != "" && text[LineLength(text)..] != "" && rest != "" && rest[0] == text[LineLength(text)]
    ensures LineLength(text[..LineLength(text)] + rest) == LineLength(text)
  {
    BodyLengthHolds(text);
    var n, b := LineLength(text), BodyLength(text);
    BreakStays(text[b..], rest);
    assert text[..n] + rest == text[..b] + (text[b..][..n - b] + rest);
    LineLengthOf(text[..b], text[b..][..n - b] + rest);
  }

  /** A break stays a break when what follows it changes, as long as the first character does not. */
  lemma BreakStays(tail: string, rest: string)
    requires tail != "" && LineBreak(tail[0]) && BreakLength(tail) < |tail|
    requires rest != "" && rest[0] == tail[BreakLength(tail)]
    ensures var tail' := tail[..BreakLength(tail)] + rest;
            BreakLength(tail') == BreakLength(tail) && tail'[0] == tail[0]
  {
  }

  /** Replacing one line by another with the same break and joining again: the new text has exactly
    those lines. */
  lemma {:induction false} SplitOfReplaced(text: string, k: nat, line: string)
    requires k < |SplitKeep(text)| && SameBreak(SplitKeep(text)[k], line)
    ensures SplitKeep(Join(SplitKeep(text)[k := line])) == SplitKeep(text)[k := line]
    ensures Join(SplitKeep(text)[k := line]) != "" && Join(SplitKeep(text)[k := line])[0] == text[0]
    decreases k
  {
    var n := LineLength(text);
    var rest := SplitKeep(text[n..]);
    var lines := SplitKeep(text);
    assert lines == [text[..n]] + rest;
    if k == 0 {
      ReplaceSplitFirst(text, line);
    } else {
      assert rest[k - 1] == lines[k];
      assert lines[k := line] == [text[..n]] + rest[k - 1 := line];
      SplitOfReplaced(text[n..], k - 1, line);
      ReplaceSplitLater(text, rest[k - 1 := line]);
    }
  }

  lemma ReplaceSplitLater(text: string, changed: seq<string>)
    requires text != "" && text[LineLength(text)..] != ""
    requires SplitKeep(Join(changed)) == changed
    requires Join(changed) != "" && Join(changed)[0] == text[LineLength(text)]
    ensures var lines := [text[..LineLength(text)]] + changed;
            SplitKeep(Join(lines)) == lines && Join(lines) != "" && Join(lines)[0] == text[0]
  {
    JoinCons(text[..LineLength(text)], changed);
    FirstLineStays(text, Join(changed));
  }

  lemma ReplaceSplitFirst(text: string, line: string)
    requires text != "" && SameBreak(text[..LineLength(text)], line)
    ensures var lines := SplitKeep(text)[0 := line];
            SplitKeep(Join(lines)) == lines && Join(lines) != "" && Join(lines)[0] == text[0]
  {
    var n := LineLength(text);
    var rest := SplitKeep(text[n..]);
    assert SplitKeep(text)[0 := line] == [line] + rest;
    JoinCons(line, rest);
    JoinInvertsSplit(text[n..]);
    ReplaceFirst(text, line);
  }

  // ---------------------------------------------------------------- statuses in a line

  datatype Status = Pending | InProgress | Done | Blocked

  function Word(s: Status): string {
    match s
    case Pending => "pending"
    case InProgress => "in_progress"
    case Done => "done"
    case Blocked => "blocked"
  }

  function Bracketed(s: Status): string {
    "[" + Word(s) + "]"
  }

  /** The bracketed status that a text starts with. */
  function StatusAt(text: string): Option<Status> {
    if Bracketed(Pending) <= text then Some(Pending)
    else if Bracketed(InProgress) <= text then Some(InProgress)
    else if Bracketed(Done) <= text then Some(Done)
    else if Bracketed(Blocked) <= text then Some(Blocked)
    else None
  }

  lemma StatusAtBracketed(s: Status, rest: string)
    ensures StatusAt(Bracketed(s) + rest) == Some(s)
  {
    var text := Bracketed(s) + rest;
    assert text[1] == Word(s)[0];
    assert forall t :: Bracketed(t) <= text ==> text[1] == Bracketed(t)[1] == Word(t)[0];
    assert Bracketed(s) <= text;
  }

  lemma StatusAtPrefix(text: string)
    requires StatusAt(text).Some?
    ensures Bracketed(StatusAt(text).value) <= text && text[0] == '['
  {
  }

  /** The first bracketed status replaced. */
  function SubStatus(line: string, s: Status): string {
    if line == "" then ""
    else if StatusAt(line).Some? then Bracketed(s) + line[|Bracketed(StatusAt(line).value)|..]
    else [line[0]] + SubStatus(line[1..], s)
  }

  lemma SubStatusSkips(c: char, rest: string, s: Status)
    requires c != '['
    ensures SubStatus([c] + rest, s) == [c] + SubStatus(rest, s)
  {
    assert ([c] + rest)[1..] == rest;
    if StatusAt([c] + rest).Some? {
      StatusAtPrefix([c] + rest);
    }
  }

  lemma SubStatusHits(was: Status, s: Status, rest: string)
    ensures SubStatus(Bracketed(was) + rest, s) == Bracketed(s) + rest
  {
    StatusAtBracketed(was, rest);
    assert (Bracketed(was) + rest)[|Bracketed(was)|..] == rest;
  }

  lemma SubStatusSkipsTwo(c: char, d: char, tail: string, s: Status)
    requires c != '[' && d != '['
    ensures SubStatus([c, d] + tail, s) == [c, d] + SubStatus(tail, s)
  {
    Pair(c, d, tail);
    SubStatusSkips(c, [d] + tail, s);
    SubStatusSkips(d, tail, s);
    Pair(c, d, SubStatus(tail, s));
  }

  lemma Pair<T>(c: T, d: T, tail: seq<T>)
    ensures [c, d] + tail == [c] + ([d] + tail)
  {
  }

  const DASH: string := ['-', ' ']

  /** On a task line the first bracketed status is the task's. */
  lemma SubStatusOfTaskLine(was: Status, s: Status, rest: string)
    ensures SubStatus(DASH + (Bracketed(was) + rest), s) == DASH + (Bracketed(s) + rest)
  {
    SubStatusHits(was, s, rest);
    SubStatusSkipsTwo('-', ' ', Bracketed(was) + rest, s);
  }
}
