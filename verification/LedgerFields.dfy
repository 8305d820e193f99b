/** The lines below a task line, spelled out: what the parser reads from each of the three. */
module LedgerFields {
  import opened Wrappers
  import opened LedgerText
  import opened Ledger
  import opened LedgerQuoting
  import opened LedgerShapes

  /** A line that starts like a field is no task line. */
  lemma FieldIsNoTask(line: string, word: CharClass)
    requires "  - " <= line
    ensures TaskLine(line, word).None?
  {
    assert line[0] == ' ';
  }

  lemma FieldOf(key: string, value: string)
    requires value != ""
    ensures Field(key + value, key) == Some(value)
  {
    assert (key + value)[|key|..] == value;
  }

  lemma VerifyIsRead(value: string, word: CharClass)
    requires value != ""
    ensures Classify("  - verify: " + value, word) == VerifyLine(StripMarkdownQuoting(value))
  {
    FieldOf("  - verify: ", value);
    FieldIsNoTask("  - verify: " + value, word);
  }

  /** A quoted command is read without its quotes. */
  lemma QuotedVerifyIsRead(cmd: string, word: CharClass)
    requires Command(cmd)
    ensures Classify("  - verify: " + Quoted(cmd, ""), word) == VerifyLine(cmd)
  {
    VerifyIsRead(Quoted(cmd, ""), word);
    FullyQuoted(cmd);
  }

  /** A line that differs from a key somewhere does not start with it. */
  lemma FieldMisses(line: string, key: string, i: nat)
    requires i < |key| && i < |line| && line[i] != key[i]
    ensures Field(line, key).None?
  {
  }

  lemma ArtifactIsRead(value: string, word: CharClass)
    requires value != ""
    ensures Classify("  - artifact: " + value, word) == ArtifactLine(Strip(value))
  {
    var line := "  - artifact: " + value;
    FieldOf("  - artifact: ", value);
    FieldIsNoTask(line, word);
    FieldMisses(line, VERIFY, 4);
  }

  lemma NotesIsRead(value: string, word: CharClass)
    requires value != ""
    ensures Classify("  - notes: " + value, word) == NotesLine(Strip(value))
  {
    var line := "  - notes: " + value;
    FieldOf("  - notes: ", value);
    FieldIsNoTask(line, word);
    FieldMisses(line, VERIFY, 4);
    FieldMisses(line, ARTIFACT, 4);
  }

  /** Every line read as a field is so written. */
  lemma FieldLinesAreWritten(line: string, word: CharClass) returns (value: string)
    requires var kind := Classify(line, word); kind.VerifyLine? || kind.ArtifactLine? || kind.NotesLine?
    ensures value != ""
    ensures match Classify(line, word)
            case VerifyLine(_) => line == "  - verify: " + value
            case ArtifactLine(_) => line == "  - artifact: " + value
            case _ => line == "  - notes: " + value
  {
    var kind := Classify(line, word);
    var key := if kind.VerifyLine? then "  - verify: " else if kind.ArtifactLine? then "  - artifact: " else "  - notes: ";
    assert key < line;
    value := line[|key|..];
    SplitPrefix(line, key);
  }

  /** White space, as Python counts it. */
  predicate White(c: char) {
    c as int in {9, 10, 11, 12, 13, 28, 29, 30, 31, 32, 0x85, 0xA0, 0x1680, 0x2028, 0x2029, 0x202F, 0x205F, 0x3000,
                 0x2000, 0x2001, 0x2002, 0x2003, 0x2004, 0x2005, 0x2006, 0x2007, 0x2008, 0x2009, 0x200A}
  }

  lemma WhiteIsSpace(c: char)
    ensures White(c) <==> PySpace(c)
  {
  }

  predicate Blank(pad: string) {
    forall i :: 0 <= i < |pad| ==> White(pad[i])
  }

  lemma {:induction false} StripStartCuts(pad: string, s: string)
    requires Blank(pad)
    ensures StripStart(pad + s) == StripStart(s)
  {
    if pad == "" {
      assert pad + s == s;
    } else {
      assert (pad + s)[1..] == pad[1..] + s;
      WhiteIsSpace(pad[0]);
      StripStartCuts(pad[1..], s);
    }
  }

  lemma {:induction false} StripEndOfBlank(pad: string)
    requires Blank(pad)
    ensures StripEnd(pad) == ""
  {
    if pad != "" {
      WhiteIsSpace(pad[|pad| - 1]);
      StripEndOfBlank(pad[..|pad| - 1]);
    }
  }

  /** White space around a value is no part of it. */
  lemma StripCutsBlanks(before: string, s: string, after: string)
    requires Blank(before) && Blank(after) && (s != "" ==> !White(s[0]) && !White(s[|s| - 1]))
    ensures Strip(before + (s + after)) == s
  {
    StripStartCuts(before, s + after);
    if s == "" {
      assert s + after == after + "";
      StripStartCuts(after, "");
    } else {
      WhiteIsSpace(s[0]);
      WhiteIsSpace(s[|s| - 1]);
      assert (s + after)[0] == s[0];
      StripEndAppend(s, after);
      StripEndOfBlank(after);
    }
  }

  // ---------------------------------------------------------------- a whole ledger, written and read

  /** The characters that end a line. */
  predicate Breaks(c: char) {
    c as int in {10, 11, 12, 13, 28, 29, 30, 0x85, 0x2028, 0x2029}
  }

  /** What ends a line: one of them, or a return and a newline. */
  predicate LineEnd(end: string) {
    (|end| == 1 && Breaks(end[0])) || end == "\r\n"
  }

  predicate NoBreak(s: string) {
    forall i :: 0 <= i < |s| ==> !Breaks(s[i])
  }

  lemma BreaksAreBreaks(c: char)
    ensures Breaks(c) <==> LineBreak(c)
  {
  }

  /** Text that fits a line and has no white space at its ends. */
  predicate Text(s: string) {
    s != "" && Stripped(s) && NoBreak(s)
  }

  /** A task to be written. */
  datatype Block = Block(
    status: Status, id: Id, title: string, verify: Option<string>, artifact: Option<string>, notes: Option<string>)
  {
    predicate Valid(word: CharClass) {
      && ValidId(id, word) && NoBreak(Spell(id)) && Text(title)
      && (verify.Some? ==> Command(verify.value) && NoBreak(verify.value))
      && (artifact.Some? ==> Text(artifact.value))
      && (notes.Some? ==> Text(notes.value))
    }

    function ToTask(idx: nat): Task {
      Task(Spell(id), title, status, verify, artifact, notes, idx)
    }
  }

  function StatusWord(s: Status): string {
    match s
    case Pending => "pending"
    case InProgress => "in_progress"
    case Done => "done"
    case Blocked => "blocked"
  }

  function Dashed(s: Status): string {
    "- [" + StatusWord(s) + "] "
  }

  function HeadText(b: Block): string {
    Dashed(b.status) + Spell(b.id) + " " + b.title
  }

  function Optional(key: string, value: Option<string>, end: string): seq<string> {
    if value.None? then [] else [key + value.value + end]
  }

  function FieldLines(b: Block): seq<string> {
    Optional("  - verify: `", b.verify, "`") + Optional("  - artifact: ", b.artifact, "")
    + Optional("  - notes: ", b.notes, "")
  }

  function BlockLines(b: Block): seq<string> {
    [HeadText(b)] + FieldLines(b)
  }

  function LinesOf(blocks: seq<Block>): seq<string> {
    if blocks == [] then [] else BlockLines(blocks[0]) + LinesOf(blocks[1..])
  }

  /** The lines with a line end behind each. */
  function TextOf(lines: seq<string>, end: string): string {
    if lines == [] then "" else lines[0] + end + TextOf(lines[1..], end)
  }

  function TasksOf(blocks: seq<Block>, idx: nat): seq<Task> {
    if blocks == [] then []
    else [blocks[0].ToTask(idx)] + TasksOf(blocks[1..], idx + |BlockLines(blocks[0])|)
  }

  lemma HeadIsRead(b: Block, word: CharClass)
    requires b.Valid(word) && Separates(word)
    ensures Classify(HeadText(b), word) == Head(b.status, Spell(b.id), b.title)
  {
    HeadIsWritten(b);
    ReadInvertsWrite(b.status, b.id, b.title, word);
    StripOfStripped(b.title);
  }

  lemma HeadIsWritten(b: Block)
    ensures HeadText(b) == Write(b.status, b.id, b.title)
  {
    DashedIsSpelled(b.status);
    Regroup(DASH, Bracketed(b.status), " ", Spell(b.id), " ", b.title);
  }

  lemma DashedIsSpelled(s: Status)
    ensures Dashed(s) == DASH + Bracketed(s) + " "
  {
    assert StatusWord(s) == Word(s);
    Around(Word(s));
  }

  lemma Around(word: string)
    ensures "- [" + word + "] " == DASH + ("[" + word + "]") + " "
  {
  }

  lemma Regroup(a: string, b: string, c: string, d: string, e: string, f: string)
    ensures a + b + c + d + e + f == a + (b + (c + (d + (e + f))))
  {
  }

  function VerifyKinds(b: Block): seq<LineKind> {
    if b.verify.None? then [] else [VerifyLine(b.verify.value)]
  }

  function ArtifactKinds(b: Block): seq<LineKind> {
    if b.artifact.None? then [] else [ArtifactLine(b.artifact.value)]
  }

  function NotesKinds(b: Block): seq<LineKind> {
    if b.notes.None? then [] else [NotesLine(b.notes.value)]
  }

  function FieldKinds(b: Block): seq<LineKind> {
    VerifyKinds(b) + ArtifactKinds(b) + NotesKinds(b)
  }

  lemma KindsAppend(a: seq<string>, b: seq<string>, word: CharClass)
    ensures Kinds(a + b, word) == Kinds(a, word) + Kinds(b, word)
  {
    var all := Kinds(a + b, word);
    forall i | 0 <= i < |a + b|
      ensures all[i] == (Kinds(a, word) + Kinds(b, word))[i]
    {
      if i < |a| {
        KindsAgree(a + b, i, a, i, word);
      } else {
        KindsAgree(a + b, i, b, i - |a|, word);
      }
    }
  }

  lemma KindsAgree(lines: seq<string>, i: nat, others: seq<string>, j: nat, word: CharClass)
    requires i < |lines| && j < |others| && lines[i] == others[j]
    ensures Kinds(lines, word)[i] == Kinds(others, word)[j]
  {
  }

  lemma KindsOfOne(line: string, word: CharClass)
    ensures Kinds([line], word) == [Classify(line, word)]
  {
  }

  lemma QuotedLine(cmd: string)
    ensures "  - verify: `" + cmd + "`" == "  - verify: " + Quoted(cmd, "")
  {
    assert "  - verify: `" == "  - verify: " + [TICK];
  }

  lemma VerifyKind(b: Block, word: CharClass)
    requires b.Valid(word)
    ensures Kinds(Optional("  - verify: `", b.verify, "`"), word) == VerifyKinds(b)
  {
    if b.verify.Some? {
      var cmd := b.verify.value;
      QuotedLine(cmd);
      QuotedVerifyIsRead(cmd, word);
      KindsOfOne("  - verify: `" + cmd + "`", word);
    }
  }

  lemma ArtifactKind(b: Block, word: CharClass)
    requires b.Valid(word)
    ensures Kinds(Optional("  - artifact: ", b.artifact, ""), word) == ArtifactKinds(b)
  {
    if b.artifact.Some? {
      var line := "  - artifact: " + b.artifact.value;
      assert line + "" == line;
      ArtifactIsRead(b.artifact.value, word);
      StripOfStripped(b.artifact.value);
      KindsOfOne(line, word);
    }
  }

  lemma NotesKind(b: Block, word: CharClass)
    requires b.Valid(word)
    ensures Kinds(Optional("  - notes: ", b.notes, ""), word) == NotesKinds(b)
  {
    if b.notes.Some? {
      var line := "  - notes: " + b.notes.value;
      assert line + "" == line;
      NotesIsRead(b.notes.value, word);
      StripOfStripped(b.notes.value);
      KindsOfOne(line, word);
    }
  }

  lemma BlockIsRead(b: Block, word: CharClass)
    requires b.Valid(word) && Separates(word)
    ensures Kinds(BlockLines(b), word) == BlockKinds(b)
  {
    var v, a := Optional("  - verify: `", b.verify, "`"), Optional("  - artifact: ", b.artifact, "");
    var n := Optional("  - notes: ", b.notes, "");
    KindsAppend([HeadText(b)], FieldLines(b), word);
    KindsAppend(v + a, n, word);
    KindsAppend(v, a, word);
    KindsOfOne(HeadText(b), word);
    HeadIsRead(b, word);
    VerifyKind(b, word);
    ArtifactKind(b, word);
    NotesKind(b, word);
  }

  /** At most one field line, and what it makes of a task. */
  predicate Fills(k: seq<LineKind>, t: Task, t': Task) {
    (k == [] && t' == t) || (|k| == 1 && !k[0].Head? && Next(Some(t), k[0], 0) == Some(t'))
  }

  lemma ParseOptional(all: seq<LineKind>, k: seq<LineKind>, rest: seq<LineKind>, idx: nat, t: Task, t': Task)
    requires Fills(k, t, t') && all == k + rest
    ensures ParseKinds(all, idx, Some(t)) == ParseKinds(rest, idx + |k|, Some(t'))
  {
    if k == [] {
      assert all == rest;
    } else {
      assert all[1..] == rest;
      EmptyFront(ParseKinds(rest, idx + 1, Some(t')));
    }
  }

  lemma ParseThree(v: seq<LineKind>, a: seq<LineKind>, n: seq<LineKind>, rest: seq<LineKind>, idx: nat,
                   t: Task, t1: Task, t2: Task, t3: Task)
    requires Fills(v, t, t1) && Fills(a, t1, t2) && Fills(n, t2, t3)
    ensures ParseKinds(v + a + n + rest, idx, Some(t)) == ParseKinds(rest, idx + |v + a + n|, Some(t3))
  {
    ThreeParts(v, a, n, rest);
    ParseOptional(v + a + n + rest, v, a + (n + rest), idx, t, t1);
    ParseTwo(a, n, rest, idx + |v|, t1, t2, t3);
  }

  lemma ThreeParts<T>(v: seq<T>, a: seq<T>, n: seq<T>, rest: seq<T>)
    ensures v + a + n + rest == v + (a + (n + rest))
  {
  }

  lemma ParseTwo(a: seq<LineKind>, n: seq<LineKind>, rest: seq<LineKind>, idx: nat, t1: Task, t2: Task, t3: Task)
    requires Fills(a, t1, t2) && Fills(n, t2, t3)
    ensures ParseKinds(a + (n + rest), idx, Some(t1)) == ParseKinds(rest, idx + |a| + |n|, Some(t3))
  {
    ParseOptional(a + (n + rest), a, n + rest, idx, t1, t2);
    ParseOptional(n + rest, n, rest, idx + |a|, t2, t3);
  }

  /** A task with the fields of a block. */
  function WithFields(t: Task, b: Block): Task {
    t.(verify := b.verify, artifact := b.artifact, notes := b.notes)
  }

  lemma ParseFields(b: Block, rest: seq<LineKind>, idx: nat, t: Task)
    requires t.verify.None? && t.artifact.None? && t.notes.None?
    ensures ParseKinds(FieldKinds(b) + rest, idx, Some(t))
         == ParseKinds(rest, idx + |FieldKinds(b)|, Some(WithFields(t, b)))
  {
    var t1, t2 := FieldsFill(b, t);
    ParseThree(VerifyKinds(b), ArtifactKinds(b), NotesKinds(b), rest, idx, t, t1, t2, WithFields(t, b));
  }

  lemma FieldsFill(b: Block, t: Task) returns (t1: Task, t2: Task)
    requires t.verify.None? && t.artifact.None? && t.notes.None?
    ensures Fills(VerifyKinds(b), t, t1) && Fills(ArtifactKinds(b), t1, t2)
    ensures Fills(NotesKinds(b), t2, WithFields(t, b))
  {
    t1 := t.(verify := b.verify);
    t2 := t1.(artifact := b.artifact);
  }

  function BlockKinds(b: Block): seq<LineKind> {
    [Head(b.status, Spell(b.id), b.title)] + FieldKinds(b)
  }

  function KindsOf(blocks: seq<Block>): seq<LineKind> {
    if blocks == [] then [] else BlockKinds(blocks[0]) + KindsOf(blocks[1..])
  }

  lemma {:induction false} BlocksAreRead(blocks: seq<Block>, word: CharClass)
    requires (forall b :: b in blocks ==> b.Valid(word)) && Separates(word)
    ensures Kinds(LinesOf(blocks), word) == KindsOf(blocks)
  {
    if blocks != [] {
      KindsAppend(BlockLines(blocks[0]), LinesOf(blocks[1..]), word);
      BlockIsRead(blocks[0], word);
      BlocksAreRead(blocks[1..], word);
    }
  }

  lemma BlockLength(b: Block)
    ensures |BlockLines(b)| == |BlockKinds(b)| == 1 + |FieldKinds(b)|
  {
  }

  lemma ParseHead(all: seq<LineKind>, head: LineKind, rest: seq<LineKind>, idx: nat, current: Option<Task>)
    requires head.Head? && all == [head] + rest
    ensures ParseKinds(all, idx, current) == Flush(current) + ParseKinds(rest, idx + 1, Next(None, head, idx))
  {
    assert all[1..] == rest;
  }

  lemma ParseBlock(b: Block, rest: seq<LineKind>, idx: nat, current: Option<Task>, later: seq<Task>)
    requires ParseKinds(rest, idx + 1 + |FieldKinds(b)|, Some(b.ToTask(idx))) == later
    ensures ParseKinds(BlockKinds(b) + rest, idx, current) == Flush(current) + later
  {
    var head := Head(b.status, Spell(b.id), b.title);
    ParseFields(b, rest, idx + 1, Task(Spell(b.id), b.title, b.status, None, None, None, idx));
    ParseHeadAnd(head, FieldKinds(b), rest, idx, current, later);
  }

  lemma ParseHeadAnd(head: LineKind, fields: seq<LineKind>, rest: seq<LineKind>, idx: nat,
                     current: Option<Task>, later: seq<Task>)
    requires head.Head? && ParseKinds(fields + rest, idx + 1, Next(None, head, idx)) == later
    ensures ParseKinds([head] + fields + rest, idx, current) == Flush(current) + later
  {
    InFront([head], fields, rest);
    ParseHead([head] + fields + rest, head, fields + rest, idx, current);
  }

  lemma InFront<T>(x: seq<T>, y: seq<T>, z: seq<T>)
    ensures x + y + z == x + (y + z)
  {
  }

  lemma {:induction false} ParseBlocks(blocks: seq<Block>, idx: nat, current: Option<Task>)
    ensures ParseKinds(KindsOf(blocks), idx, current) == Flush(current) + TasksOf(blocks, idx)
    decreases |blocks|
  {
    if blocks == [] {
      assert Flush(current) + [] == Flush(current);
    } else {
      var b, rest := blocks[0], blocks[1..];
      BlockLength(b);
      ParseBlocks(rest, idx + |BlockLines(b)|, Some(b.ToTask(idx)));
      ParseBlock(b, KindsOf(rest), idx, current, TasksOf(blocks, idx));
    }
  }

  /** Lines written with any line end behind each are cut into these lines. */
  lemma {:induction false} SplitOfText(lines: seq<string>, end: string)
    requires (forall l :: l in lines ==> NoBreak(l)) && LineEnd(end)
    ensures SplitLines(TextOf(lines, end)) == lines
  {
    if lines != [] {
      SplitOfText(lines[1..], end);
      StartOfText(lines[1..], end);
      SplitStep(lines, end, TextOf(lines[1..], end));
    }
  }

  lemma SplitStep(lines: seq<string>, end: string, rest: string)
    requires lines != [] && NoBreak(lines[0]) && LineEnd(end) && SplitLines(rest) == lines[1..]
    requires rest == "" || rest[0] == end[0] || !Breaks(rest[0])
    ensures SplitLines(lines[0] + end + rest) == lines
  {
    FirstLineSplit(lines[0], end, rest);
    assert lines == [lines[0]] + lines[1..];
  }

  lemma StartOfText(lines: seq<string>, end: string)
    requires (forall l :: l in lines ==> NoBreak(l)) && LineEnd(end)
    ensures var text := TextOf(lines, end); text == "" || text[0] == end[0] || !Breaks(text[0])
  {
    if lines != [] {
      assert lines[0] in lines;
      StartOfLine(lines[0], end, TextOf(lines[1..], end));
    }
  }

  lemma StartOfLine(line: string, end: string, rest: string)
    requires NoBreak(line) && end != ""
    ensures var text := line + end + rest; text[0] == end[0] || !Breaks(text[0])
  {
  }

  /** A line end in front of what cannot belong to it. */
  lemma EndIsWhole(end: string, rest: string)
    requires LineEnd(end) && (rest == "" || rest[0] == end[0] || !Breaks(rest[0]))
    ensures BreakLength(end + rest) == |end| && LineBreak((end + rest)[0])
  {
    BreaksAreBreaks(end[0]);
  }

  lemma NoBreakInLine(line: string)
    requires NoBreak(line)
    ensures forall i :: 0 <= i < |line| ==> !LineBreak(line[i])
  {
    forall i | 0 <= i < |line|
      ensures !LineBreak(line[i])
    {
      BreaksAreBreaks(line[i]);
    }
  }

  lemma FirstLineSplit(line: string, end: string, rest: string)
    requires NoBreak(line) && LineEnd(end) && (rest == "" || rest[0] == end[0] || !Breaks(rest[0]))
    ensures SplitLines(line + end + rest) == [line] + SplitLines(rest)
  {
    NoBreakInLine(line);
    EndIsWhole(end, rest);
    EndIsWhole(end, "");
    assert end + "" == end;
    LineWithEnd(line, end, rest);
  }

  lemma LineWithEnd(line: string, end: string, rest: string)
    requires forall i :: 0 <= i < |line| ==> !LineBreak(line[i])
    requires end != "" && LineBreak((end + rest)[0]) && BreakLength(end + rest) == |end|
    ensures SplitLines(line + end + rest) == [line] + SplitLines(rest)
  {
    InFront(line, end, rest);
    LineLengthOf(line, end + rest);
    SplitKeepCons(line + end, rest);
    LineLengthOf(line, end);
    assert Chomp(line + end) == line;
  }

  lemma NoBreakAppend(a: string, b: string)
    requires NoBreak(a) && NoBreak(b)
    ensures NoBreak(a + b)
  {
  }

  lemma HeadHasNoBreak(b: Block)
    requires NoBreak(Spell(b.id)) && NoBreak(b.title)
    ensures NoBreak(HeadText(b))
  {
    var dashed := Dashed(b.status);
    DashedHasNoBreak(b.status);
    NoBreakAppend(dashed, Spell(b.id));
    NoBreakAppend(dashed + Spell(b.id), " ");
    NoBreakAppend(dashed + Spell(b.id) + " ", b.title);
  }

  lemma WordHasNoBreak(s: Status)
    ensures NoBreak(StatusWord(s))
  {
  }

  lemma DashedHasNoBreak(s: Status)
    ensures NoBreak(Dashed(s))
  {
    WordHasNoBreak(s);
    NoBreakAppend("- [", StatusWord(s));
    NoBreakAppend("- [" + StatusWord(s), "] ");
  }

  lemma KeysHaveNoBreak()
    ensures NoBreak("  - verify: `") && NoBreak("`") && NoBreak("  - artifact: ") && NoBreak("  - notes: ") && NoBreak("")
  {
  }

  lemma OptionalHasNoBreak(key: string, value: Option<string>, end: string, l: string)
    requires NoBreak(key) && NoBreak(end) && (value.Some? ==> NoBreak(value.value))
    requires l in Optional(key, value, end)
    ensures NoBreak(l)
  {
  }

  lemma BlockHasNoBreak(b: Block, word: CharClass, l: string)
    requires b.Valid(word) && l in BlockLines(b)
    ensures NoBreak(l)
  {
    if l == HeadText(b) {
      HeadHasNoBreak(b);
    } else {
      assert l in FieldLines(b);
      FieldHasNoBreak(b, l);
    }
  }

  lemma FieldHasNoBreak(b: Block, l: string)
    requires (b.verify.Some? ==> NoBreak(b.verify.value)) && (b.artifact.Some? ==> NoBreak(b.artifact.value))
    requires (b.notes.Some? ==> NoBreak(b.notes.value)) && l in FieldLines(b)
    ensures NoBreak(l)
  {
    KeysHaveNoBreak();
    if l in Optional("  - verify: `", b.verify, "`") {
      OptionalHasNoBreak("  - verify: `", b.verify, "`", l);
    } else if l in Optional("  - artifact: ", b.artifact, "") {
      OptionalHasNoBreak("  - artifact: ", b.artifact, "", l);
    } else {
      OptionalHasNoBreak("  - notes: ", b.notes, "", l);
    }
  }

  lemma {:induction false} LinesHaveNoBreak(blocks: seq<Block>, word: CharClass, l: string)
    requires (forall b :: b in blocks ==> b.Valid(word)) && l in LinesOf(blocks)
    ensures NoBreak(l)
  {
    if l in BlockLines(blocks[0]) {
      BlockHasNoBreak(blocks[0], word, l);
    } else {
      LinesHaveNoBreak(blocks[1..], word, l);
    }
  }

  /** A ledger written out in the layout of its grammar, with any line end, is read back as the tasks it was
    written from, each at its line. */
  lemma LedgerRoundTrip(blocks: seq<Block>, end: string, word: CharClass)
    requires (forall b :: b in blocks ==> b.Valid(word)) && Separates(word) && LineEnd(end)
    ensures ParseLedger(TextOf(LinesOf(blocks), end), word) == TasksOf(blocks, 0)
  {
    forall l | l in LinesOf(blocks)
      ensures NoBreak(l)
    {
      LinesHaveNoBreak(blocks, word, l);
    }
    SplitOfText(LinesOf(blocks), end);
    BlocksAreRead(blocks, word);
    ParseBlocks(blocks, 0, None);
    EmptyFront(TasksOf(blocks, 0));
  }
}
