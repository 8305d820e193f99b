/** The progress ledger: its parser, its in-place status writer, and the commands that drive it.

  The parser's \w and \d are character classes that Python takes from Unicode; they are parameters
  here, and nothing proved depends on what is in them.
*/
module Ledger {
  import opened Wrappers
  import opened LedgerText

  type CharClass = char -> bool

  // ---------------------------------------------------------------- tasks

  datatype Task = Task(
    id: string, title: string, status: Status,
    verify: Option<string>, artifact: Option<string>, notes: Option<string>, lineIdx: nat)
  {
    predicate IsManual() {
      verify.Some? && Lower(Strip(verify.value)) == "manual"
    }
  }

  // ---------------------------------------------------------------- string helpers

  /** The characters that str.strip removes. */
  predicate PySpace(c: char) {
    var k := c as int;
    || 9 <= k <= 13 || 28 <= k <= 32 || k == 0x85 || k == 0xA0 || k == 0x1680 || 0x2000 <= k <= 0x200A
    || k == 0x2028 || k == 0x2029 || k == 0x202F || k == 0x205F || k == 0x3000
  }

  function StripStart(s: string): string {
    if s == "" || !PySpace(s[0]) then s else StripStart(s[1..])
  }

  function StripEnd(s: string): (t: string)
    ensures |t| <= |s|
  {
    if s == "" || !PySpace(s[|s| - 1]) then s else StripEnd(s[..|s| - 1])
  }

  function Strip(s: string): (t: string)
    ensures |t| <= |s|
  {
    StripStartShrinks(s);
    StripEnd(StripStart(s))
  }

  lemma StripStartShrinks(s: string)
    ensures |StripStart(s)| <= |s|
  {
  }

  function Lower(s: string): string {
    if s == "" then ""
    else [if 'A' <= s[0] <= 'Z' then s[0] - 'A' + 'a' else s[0]] + Lower(s[1..])
  }

  function Find(s: string, c: char): (k: nat)
    ensures k <= |s|
  {
    if s == "" || s[0] == c then 0 else 1 + Find(s[1..], c)
  }

  /** Outer pairs of backticks peeled. */
  function Peel(s: string): string
    decreases |s|
  {
    if |s| >= 2 && s[0] == '`' && s[|s| - 1] == '`' then Peel(Strip(s[1..|s| - 1])) else s
  }

  function StripMarkdownQuoting(value: string): string {
    var s := Peel(Strip(value));
    var first := Find(s, '`');
    if first == |s| then s
    else
      var rest := s[first + 1..];
      var end := Find(rest, '`');
      if end == |rest| then s else Strip(rest[..end])
  }

  // ---------------------------------------------------------------- line shapes

  function RunEnd(s: string, i: nat, word: CharClass): (k: nat)
    requires i <= |s|
    ensures i <= k <= |s|
    decreases |s| - i
  {
    if i < |s| && (word(s[i]) || s[i] == '-') then RunEnd(s, i + 1, word) else i
  }

  /** Where the identifier at the start of a text ends, 0 when there is none. */
  function IdEnd(s: string, word: CharClass): (k: nat)
    ensures k <= |s|
  {
    if s == "" || s[0] != 'P' then 0
    else
      var a := RunEnd(s, 1, word);
      if a < 2 then 0
      else if a < |s| && s[a] == '.' then
        var b := RunEnd(s, a + 1, word);
        if b < a + 2 then 0 else b
      else a
  }

  /** The identifier and the title after a status. */
  function IdAndTitle(s: string, word: CharClass): Option<(string, string)> {
    var k := IdEnd(s, word);
    if 0 < k && k + 1 < |s| && s[k] == ' ' then Some((s[..k], Strip(s[k + 1..]))) else None
  }

  /** A task line: dash, bracketed status, identifier, title. */
  function TaskLine(line: string, word: CharClass): Option<(Status, string, string)> {
    if DASH <= line then AfterDash(line[2..], word) else None
  }

  function AfterDash(line: string, word: CharClass): Option<(Status, string, string)> {
    var status := StatusAt(line);
    if status.None? then None
    else
      var tail := AfterStatus(line[|Bracketed(status.value)|..], word);
      if tail.None? then None else Some((status.value, tail.value.0, tail.value.1))
  }

  function AfterStatus(rest: string, word: CharClass): Option<(string, string)> {
    if rest == "" || rest[0] != ' ' then None else IdAndTitle(rest[1..], word)
  }

  const VERIFY: string := "  - verify: "
  const ARTIFACT: string := "  - artifact: "
  const NOTES: string := "  - notes: "

  /** What follows a key on its line. */
  function Field(line: string, key: string): Option<string> {
    if key < line then Some(line[|key|..]) else None
  }

  /** What the parser sees of a line. */
  datatype LineKind =
    | Head(status: Status, id: string, title: string)
    | VerifyLine(cmd: string)
    | ArtifactLine(path: string)
    | NotesLine(notes: string)
    | PlainLine

  function Classify(line: string, word: CharClass): LineKind {
    var m := TaskLine(line, word);
    if m.Some? then Head(m.value.0, m.value.1, m.value.2)
    else if Field(line, VERIFY).Some? then VerifyLine(StripMarkdownQuoting(Field(line, VERIFY).value))
    else if Field(line, ARTIFACT).Some? then ArtifactLine(Strip(Field(line, ARTIFACT).value))
    else if Field(line, NOTES).Some? then NotesLine(Strip(Field(line, NOTES).value))
    else PlainLine
  }

  function Kinds(lines: seq<string>, word: CharClass): (kinds: seq<LineKind>)
    ensures |kinds| == |lines|
  {
    seq(|lines|, i requires 0 <= i < |lines| => Classify(lines[i], word))
  }

  // ---------------------------------------------------------------- the parser

  function Flush(current: Option<Task>): seq<Task> {
    if current.Some? then [current.value] else []
  }

  /** What a line makes the parser put out. */
  function Out(current: Option<Task>, kind: LineKind): seq<Task> {
    if kind.Head? then Flush(current) else []
  }

  /** The task in hand after one more line. */
  function Next(current: Option<Task>, kind: LineKind, idx: nat): Option<Task> {
    match kind
    case Head(status, id, title) => Some(Task(id, title, status, None, None, None, idx))
    case VerifyLine(cmd) => if current.None? then None else Some(current.value.(verify := Some(cmd)))
    case ArtifactLine(path) => if current.None? then None else Some(current.value.(artifact := Some(path)))
    case NotesLine(notes) => if current.None? then None else Some(current.value.(notes := Some(notes)))
    case PlainLine => current
  }

  function ParseKinds(kinds: seq<LineKind>, idx: nat, current: Option<Task>): seq<Task>
    decreases |kinds|
  {
    if kinds == [] then Flush(current)
    else Out(current, kinds[0]) + ParseKinds(kinds[1..], idx + 1, Next(current, kinds[0], idx))
  }

  function ParseLedger(text: string, word: CharClass): seq<Task> {
    ParseKinds(Kinds(SplitLines(text), word), 0, None)
  }

  lemma ParseKindsStep(tasks: seq<Task>, kinds: seq<LineKind>, idx: nat, current: Option<Task>)
    requires idx < |kinds|
    ensures tasks + ParseKinds(kinds[idx..], idx, current)
         == tasks + Out(current, kinds[idx]) + ParseKinds(kinds[idx + 1..], idx + 1, Next(current, kinds[idx], idx))
  {
  }

  /** The parser's loop over the lines, each as its patterns see it. */
  method CollectTasks(kinds: seq<LineKind>) returns (tasks: seq<Task>)
    ensures tasks == ParseKinds(kinds, 0, None)
  {
    tasks := [];
    var current: Option<Task> := None;
    assert kinds[0..] == kinds && [] + ParseKinds(kinds, 0, None) == ParseKinds(kinds, 0, None);
    for idx := 0 to |kinds|
      invariant tasks + ParseKinds(kinds[idx..], idx, current) == ParseKinds(kinds, 0, None)
    {
      ParseKindsStep(tasks, kinds, idx, current);
      assert tasks + [] == tasks;
      if kinds[idx].Head? && current.Some? {
        tasks := tasks + [current.value];
      }
      current := Next(current, kinds[idx], idx);
    }
    if current.Some? {
      tasks := tasks + [current.value];
    }
  }

  /** The parser as it runs. */
  method ParseLedgerLoop(text: string, word: CharClass) returns (tasks: seq<Task>)
    ensures tasks == ParseLedger(text, word)
  {
    tasks := CollectTasks(Kinds(SplitLines(text), word));
  }

  // ---------------------------------------------------------------- the writer

  /** The text with the task on a line flipped; None where the line does not exist. */
  function WriteStatus(text: string, lineIdx: nat, s: Status): Option<string> {
    var lines := SplitKeep(text);
    if lineIdx >= |lines| then None
    else Some(Join(lines[lineIdx := SubStatus(lines[lineIdx], s)]))
  }

  function Flip(t: Task, lineIdx: nat, s: Status): Task {
    if t.lineIdx == lineIdx then t.(status := s) else t
  }

  /** Every task on the given line with the status, the rest as they are. */
  function SetStatus(tasks: seq<Task>, lineIdx: nat, s: Status): (r: seq<Task>)
    ensures |r| == |tasks|
  {
    seq(|tasks|, i requires 0 <= i < |tasks| => Flip(tasks[i], lineIdx, s))
  }

  lemma SetStatusAppend(a: seq<Task>, b: seq<Task>, lineIdx: nat, s: Status)
    ensures SetStatus(a + b, lineIdx, s) == SetStatus(a, lineIdx, s) + SetStatus(b, lineIdx, s)
  {
  }

  lemma SetStatusElsewhere(current: Option<Task>, lineIdx: nat, s: Status)
    requires current.Some? ==> current.value.lineIdx != lineIdx
    ensures SetStatus(Flush(current), lineIdx, s) == Flush(current)
  {
  }

  lemma SetStatusInFront(first: seq<Task>, rest: seq<Task>, rest': seq<Task>, lineIdx: nat, s: Status)
    requires SetStatus(first, lineIdx, s) == first && rest' == SetStatus(rest, lineIdx, s)
    ensures first + rest' == SetStatus(first + rest, lineIdx, s)
  {
  }

  /** Two readings of one task line, the second under status s. */
  predicate Flipped(kind: LineKind, kind': LineKind, s: Status) {
    kind.Head? && kind' == kind.(status := s)
  }

  lemma TaskLineOf(status: Status, rest: string, word: CharClass)
    requires AfterStatus(rest, word).Some?
    ensures var tail := AfterStatus(rest, word).value;
            TaskLine(DASH + (Bracketed(status) + rest), word) == Some((status, tail.0, tail.1))
  {
    AfterDashOf(status, rest, word);
    assert (DASH + (Bracketed(status) + rest))[2..] == Bracketed(status) + rest;
  }

  lemma AfterDashOf(status: Status, rest: string, word: CharClass)
    requires AfterStatus(rest, word).Some?
    ensures var tail := AfterStatus(rest, word).value;
            AfterDash(Bracketed(status) + rest, word) == Some((status, tail.0, tail.1))
  {
    StatusAtBracketed(status, rest);
    assert (Bracketed(status) + rest)[|Bracketed(status)|..] == rest;
  }

  lemma TaskLineShape(line: string, word: CharClass) returns (status: Status, rest: string)
    requires TaskLine(line, word).Some?
    ensures line == DASH + (Bracketed(status) + rest)
    ensures AfterStatus(rest, word).Some?
  {
    assert line == DASH + line[2..];
    status, rest := AfterDashShape(line[2..], word);
  }

  lemma AfterDashShape(line: string, word: CharClass) returns (status: Status, rest: string)
    requires AfterDash(line, word).Some?
    ensures line == Bracketed(status) + rest
    ensures AfterStatus(rest, word).Some?
  {
    status := StatusAt(line).value;
    StatusAtPrefix(line);
    rest := line[|Bracketed(status)|..];
    SplitPrefix(line, Bracketed(status));
  }

  lemma SplitPrefix(text: string, prefix: string)
    requires prefix <= text
    ensures text == prefix + text[|prefix|..]
  {
  }

  lemma BracketedHasNoBreak(s: Status, i: nat)
    requires i < |Bracketed(s)|
    ensures !LineBreak(Bracketed(s)[i])
  {
  }

  lemma TaskBodyHasNoBreak(status: Status, rest: string)
    requires forall i :: 0 <= i < |rest| ==> !LineBreak(rest[i])
    ensures var body := DASH + (Bracketed(status) + rest);
            forall i :: 0 <= i < |body| ==> !LineBreak(body[i])
  {
    forall i | 0 <= i < |Bracketed(status)|
      ensures !LineBreak(Bracketed(status)[i])
    {
      BracketedHasNoBreak(status, i);
    }
    var tail := Bracketed(status) + rest;
    assert forall i :: 0 <= i < |tail| ==> !LineBreak(tail[i]);
  }

  lemma Regroup(status: Status, rest: string, tail: string)
    ensures DASH + (Bracketed(status) + rest) + tail == DASH + (Bracketed(status) + (rest + tail))
  {
  }

  /** A task line with its break, rewritten. */
  lemma SubStatusOfLine(status: Status, rest: string, tail: string, s: Status)
    requires forall i :: 0 <= i < |rest| ==> !LineBreak(rest[i])
    requires tail != "" ==> LineBreak(tail[0])
    ensures var line, line' := DASH + (Bracketed(status) + rest) + tail, DASH + (Bracketed(s) + rest) + tail;
            SubStatus(line, s) == line' && SameBreak(line, line')
    ensures Chomp(DASH + (Bracketed(s) + rest) + tail) == DASH + (Bracketed(s) + rest)
  {
    Regroup(status, rest, tail);
    Regroup(s, rest, tail);
    SubStatusOfTaskLine(status, s, rest + tail);
    TaskBodyHasNoBreak(status, rest);
    TaskBodyHasNoBreak(s, rest);
    LineLengthOf(DASH + (Bracketed(status) + rest), tail);
    LineLengthOf(DASH + (Bracketed(s) + rest), tail);
  }

  /** A line in its parts: dash, status, the rest of the body, the break. */
  ghost predicate Parts(line: string, status: Status, rest: string, tail: string, word: CharClass) {
    && line == DASH + (Bracketed(status) + rest) + tail
    && AfterStatus(rest, word).Some?
    && (forall i :: 0 <= i < |rest| ==> !LineBreak(rest[i]))
    && (tail != "" ==> LineBreak(tail[0]))
  }

  lemma PartsOf(line: string, word: CharClass) returns (status: Status, rest: string, tail: string)
    requires TaskLine(Chomp(line), word).Some?
    ensures Parts(line, status, rest, tail, word)
  {
    tail := line[BodyLength(line)..];
    ChompHasNoBreak(line);
    status, rest := PartsOfBody(Chomp(line), tail, word);
  }

  lemma PartsOfBody(body: string, tail: string, word: CharClass) returns (status: Status, rest: string)
    requires TaskLine(body, word).Some?
    requires forall i :: 0 <= i < |body| ==> !LineBreak(body[i])
    requires tail != "" ==> LineBreak(tail[0])
    ensures Parts(body + tail, status, rest, tail, word)
  {
    status, rest := BodyParts(body, word);
  }

  lemma ChompHasNoBreak(line: string)
    ensures forall i :: 0 <= i < |Chomp(line)| ==> !LineBreak(Chomp(line)[i])
    ensures var tail := line[BodyLength(line)..]; (tail != "" ==> LineBreak(tail[0])) && line == Chomp(line) + tail
  {
    BodyLengthHolds(line);
    CutLine(line, BodyLength(line));
  }

  lemma CutLine(line: string, n: nat)
    requires n <= |line| && (forall i :: 0 <= i < n ==> !LineBreak(line[i])) && (n < |line| ==> LineBreak(line[n]))
    ensures forall i :: 0 <= i < |line[..n]| ==> !LineBreak(line[..n][i])
    ensures (line[n..] != "" ==> LineBreak(line[n..][0])) && line == line[..n] + line[n..]
  {
  }

  lemma BodyParts(body: string, word: CharClass) returns (status: Status, rest: string)
    requires TaskLine(body, word).Some?
    requires forall i :: 0 <= i < |body| ==> !LineBreak(body[i])
    ensures body == DASH + (Bracketed(status) + rest) && AfterStatus(rest, word).Some?
    ensures forall i :: 0 <= i < |rest| ==> !LineBreak(rest[i])
  {
    status, rest := TaskLineShape(body, word);
    SuffixHasNoBreak(DASH, Bracketed(status) + rest);
    SuffixHasNoBreak(Bracketed(status), rest);
  }

  lemma SuffixHasNoBreak(prefix: string, rest: string)
    requires forall i :: 0 <= i < |prefix + rest| ==> !LineBreak((prefix + rest)[i])
    ensures forall i :: 0 <= i < |rest| ==> !LineBreak(rest[i])
  {
    assert forall i :: 0 <= i < |rest| ==> rest[i] == (prefix + rest)[|prefix| + i];
  }

  /** Rewriting a task line keeps its break and flips its task. */
  lemma SubStatusFlips(line: string, s: Status, word: CharClass)
    requires TaskLine(Chomp(line), word).Some?
    ensures SameBreak(line, SubStatus(line, s))
    ensures Flipped(Classify(Chomp(line), word), Classify(Chomp(SubStatus(line, s)), word), s)
  {
    var status, rest, tail := PartsOf(line, word);
    FlippedParts(line, status, rest, tail, s, word);
  }

  lemma FlippedParts(line: string, status: Status, rest: string, tail: string, s: Status, word: CharClass)
    requires Parts(line, status, rest, tail, word)
    ensures SameBreak(line, SubStatus(line, s))
    ensures Flipped(Classify(Chomp(line), word), Classify(Chomp(SubStatus(line, s)), word), s)
  {
    SubStatusOfLine(status, rest, tail, s);
    SubStatusOfLine(status, rest, tail, status);
    FlippedLine(status, rest, s, word);
  }

  lemma FlippedLine(status: Status, rest: string, s: Status, word: CharClass)
    requires AfterStatus(rest, word).Some?
    ensures Flipped(Classify(DASH + (Bracketed(status) + rest), word), Classify(DASH + (Bracketed(s) + rest), word), s)
  {
    TaskLineOf(status, rest, word);
    TaskLineOf(s, rest, word);
  }

  lemma {:induction false} ParseOfFlipped(
      kinds: seq<LineKind>, k: nat, kind': LineKind, idx: nat, current: Option<Task>, s: Status)
    requires k < |kinds| && Flipped(kinds[k], kind', s)
    requires current.Some? ==> current.value.lineIdx < idx
    ensures ParseKinds(kinds[k := kind'], idx, current) == SetStatus(ParseKinds(kinds, idx, current), idx + k, s)
    decreases |kinds|
  {
    var kinds' := kinds[k := kind'];
    var first := Out(current, kinds[0]);
    var next := Next(current, kinds[0], idx);
    SetStatusElsewhere(current, idx + k, s);
    if k == 0 {
      assert kinds'[1..] == kinds[1..];
      var rest := ParseKinds(kinds[1..], idx + 1, next);
      var rest' := ParseKinds(kinds[1..], idx + 1, Some(next.value.(status := s)));
      ParseInHand(kinds[1..], idx + 1, next.value, s);
      assert ParseKinds(kinds', idx, current) == first + rest';
      SetStatusInFront(first, rest, rest', idx, s);
    } else {
      assert kinds'[1..] == kinds[1..][k - 1 := kind'];
      ParseOfFlipped(kinds[1..], k - 1, kind', idx + 1, next, s);
      SetStatusInFront(first, ParseKinds(kinds[1..], idx + 1, next), ParseKinds(kinds'[1..], idx + 1, next), idx + k, s);
    }
  }

  /** A task in hand under another status: the lines after it read the same. */
  lemma {:induction false} ParseInHand(kinds: seq<LineKind>, idx: nat, t: Task, s: Status)
    requires t.lineIdx < idx
    ensures ParseKinds(kinds, idx, Some(t.(status := s))) == SetStatus(ParseKinds(kinds, idx, Some(t)), t.lineIdx, s)
    decreases |kinds|
  {
    if kinds != [] {
      var next := Next(Some(t), kinds[0], idx);
      if kinds[0].Head? {
        var rest := ParseKinds(kinds[1..], idx + 1, next);
        ParseLater(kinds[1..], idx + 1, next, s, t.lineIdx);
        SetStatusAppend([t], rest, t.lineIdx, s);
        assert SetStatus([t], t.lineIdx, s) == [t.(status := s)];
      } else {
        ParseInHand(kinds[1..], idx + 1, next.value, s);
      }
    }
  }

  /** Tasks are numbered by their lines, so none of a later stretch is on an earlier line. */
  lemma {:induction false} ParseLater(kinds: seq<LineKind>, idx: nat, current: Option<Task>, s: Status, lineIdx: nat)
    requires lineIdx < idx && (current.Some? ==> current.value.lineIdx > lineIdx)
    ensures SetStatus(ParseKinds(kinds, idx, current), lineIdx, s) == ParseKinds(kinds, idx, current)
    decreases |kinds|
  {
    SetStatusElsewhere(current, lineIdx, s);
    if kinds != [] {
      var next := Next(current, kinds[0], idx);
      var rest := ParseKinds(kinds[1..], idx + 1, next);
      ParseLater(kinds[1..], idx + 1, next, s, lineIdx);
      SetStatusInFront(Out(current, kinds[0]), rest, rest, lineIdx, s);
    }
  }

  /** Every parsed task is on the task line that its index names. */
  lemma {:induction false} ParsedTaskLine(kinds: seq<LineKind>, idx: nat, current: Option<Task>, t: Task)
    requires t in ParseKinds(kinds, idx, current)
    ensures (current.Some? && t.lineIdx == current.value.lineIdx)
         || (idx <= t.lineIdx < idx + |kinds| && kinds[t.lineIdx - idx].Head?)
    decreases |kinds|
  {
    if kinds != [] {
      var next := Next(current, kinds[0], idx);
      if t in ParseKinds(kinds[1..], idx + 1, next) {
        ParsedTaskLine(kinds[1..], idx + 1, next, t);
      }
    }
  }

  /** The two texts have the same lines but for the one at k. */
  predicate OtherLinesSame(text: string, text': string, k: nat) {
    && |SplitKeep(text')| == |SplitKeep(text)|
    && forall i :: 0 <= i < |SplitKeep(text)| && i != k ==> SplitKeep(text')[i] == SplitKeep(text)[i]
  }

  /** Writing a status and parsing again changes that status and nothing else, and leaves every other
    line of the text as it was. */
  lemma WriteThenParse(text: string, t: Task, s: Status, word: CharClass)
    requires t in ParseLedger(text, word)
    ensures WriteStatus(text, t.lineIdx, s).Some?
    ensures ParseLedger(WriteStatus(text, t.lineIdx, s).value, word) == SetStatus(ParseLedger(text, word), t.lineIdx, s)
    ensures OtherLinesSame(text, WriteStatus(text, t.lineIdx, s).value, t.lineIdx)
  {
    TaskIsOnItsLine(text, t, word);
    var kind', text' := FlippedText(text, t.lineIdx, s, word);
    FlippedKinds(Kinds(SplitLines(text), word), Kinds(SplitLines(text'), word), t.lineIdx, kind', s);
  }

  lemma TaskIsOnItsLine(text: string, t: Task, word: CharClass)
    requires t in ParseLedger(text, word)
    ensures t.lineIdx < |SplitKeep(text)| && Kinds(SplitLines(text), word)[t.lineIdx].Head?
  {
    TaskIsOnItsKind(Kinds(SplitLines(text), word), t);
  }

  lemma TaskIsOnItsKind(kinds: seq<LineKind>, t: Task)
    requires t in ParseKinds(kinds, 0, None)
    ensures t.lineIdx < |kinds| && kinds[t.lineIdx].Head?
  {
    ParsedTaskLine(kinds, 0, None, t);
  }

  lemma FlippedKinds(kinds: seq<LineKind>, kinds': seq<LineKind>, k: nat, kind': LineKind, s: Status)
    requires k < |kinds| && Flipped(kinds[k], kind', s) && kinds' == kinds[k := kind']
    ensures ParseKinds(kinds', 0, None) == SetStatus(ParseKinds(kinds, 0, None), k, s)
  {
    ParseOfFlipped(kinds, k, kind', 0, None, s);
  }

  lemma FlippedText(text: string, k: nat, s: Status, word: CharClass) returns (kind': LineKind, text': string)
    requires k < |SplitKeep(text)| && Kinds(SplitLines(text), word)[k].Head?
    ensures WriteStatus(text, k, s) == Some(text') && OtherLinesSame(text, text', k)
    ensures Kinds(SplitLines(text'), word) == Kinds(SplitLines(text), word)[k := kind']
    ensures Flipped(Kinds(SplitLines(text), word)[k], kind', s)
  {
    var lines := SplitKeep(text);
    assert Kinds(SplitLines(text), word)[k] == Classify(Chomp(lines[k]), word);
    HeadIsTaskLine(Chomp(lines[k]), word);
    SubStatusFlips(lines[k], s, word);
    SplitOfReplaced(text, k, SubStatus(lines[k], s));
    kind', text' := Classify(Chomp(SubStatus(lines[k], s)), word), Join(lines[k := SubStatus(lines[k], s)]);
    KindsOfReplaced(lines, k, SubStatus(lines[k], s), word);
  }

  lemma HeadIsTaskLine(line: string, word: CharClass)
    ensures Classify(line, word).Head? <==> TaskLine(line, word).Some?
  {
  }

  lemma KindsOfReplaced(lines: seq<string>, k: nat, line': string, word: CharClass)
    requires k < |lines|
    ensures Kinds(Chomped(lines[k := line']), word) == Kinds(Chomped(lines), word)[k := Classify(Chomp(line'), word)]
  {
  }
}
