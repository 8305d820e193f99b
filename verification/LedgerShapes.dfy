/** The shape of a task line: the parser's reading of it inverts the way it is written. */
module LedgerShapes {
  import opened Wrappers
  import opened LedgerText
  import opened Ledger

  predicate IdChar(c: char, word: CharClass) {
    word(c) || c == '-'
  }

  predicate IdRun(s: string, word: CharClass) {
    s != "" && forall i :: 0 <= i < |s| ==> IdChar(s[i], word)
  }

  /** Neither a space nor a dot is a word character. */
  predicate Separates(word: CharClass) {
    !word(' ') && !word('.')
  }

  /** An identifier: a phase, or a phase and a part. */
  datatype Id = Phase(name: string) | Part(phase: string, part: string)

  predicate ValidId(id: Id, word: CharClass) {
    match id
    case Phase(a) => IdRun(a, word)
    case Part(a, b) => IdRun(a, word) && IdRun(b, word)
  }

  function Spell(id: Id): string {
    match id
    case Phase(a) => "P" + a
    case Part(a, b) => "P" + a + "." + b
  }

  function Write(status: Status, id: Id, title: string): string {
    DASH + (Bracketed(status) + (" " + (Spell(id) + (" " + title))))
  }

  lemma {:induction false} RunEndIs(s: string, i: nat, k: nat, word: CharClass)
    requires i <= k <= |s| && (forall j :: i <= j < k ==> IdChar(s[j], word))
    requires k < |s| ==> !IdChar(s[k], word)
    ensures RunEnd(s, i, word) == k
    decreases k - i
  {
    if i < k {
      RunEndIs(s, i + 1, k, word);
    }
  }

  lemma {:induction false} RunEndHolds(s: string, i: nat, word: CharClass)
    requires i <= |s|
    ensures forall j :: i <= j < RunEnd(s, i, word) ==> IdChar(s[j], word)
    ensures RunEnd(s, i, word) < |s| ==> !IdChar(s[RunEnd(s, i, word)], word)
    decreases |s| - i
  {
    if i < |s| && IdChar(s[i], word) {
      RunEndHolds(s, i + 1, word);
    }
  }

  lemma IdEndOfSpelled(id: Id, rest: string, word: CharClass)
    requires ValidId(id, word) && Separates(word)
    ensures IdEnd(Spell(id) + (" " + rest), word) == |Spell(id)|
  {
    match id
    case Phase(a) => PhaseEnd(a, rest, word);
    case Part(a, b) => PartEnd(a, b, rest, word);
  }

  lemma PhaseEnd(a: string, rest: string, word: CharClass)
    requires IdRun(a, word) && Separates(word)
    ensures IdEnd("P" + a + (" " + rest), word) == 1 + |a|
  {
    var s := "P" + a + (" " + rest);
    assert forall j :: 1 <= j < 1 + |a| ==> s[j] == a[j - 1];
    assert s[1 + |a|] == ' ';
    RunEndIs(s, 1, 1 + |a|, word);
  }

  lemma PartEnd(a: string, b: string, rest: string, word: CharClass)
    requires IdRun(a, word) && IdRun(b, word) && Separates(word)
    ensures IdEnd("P" + a + "." + b + (" " + rest), word) == 2 + |a| + |b|
  {
    var s, k := "P" + a + "." + b + (" " + rest), 2 + |a|;
    assert forall j :: 1 <= j < 1 + |a| ==> s[j] == a[j - 1];
    assert s[1 + |a|] == '.' && s[k + |b|] == ' ';
    assert forall j :: k <= j < k + |b| ==> s[j] == b[j - k];
    RunEndIs(s, 1, 1 + |a|, word);
    RunEndIs(s, k, k + |b|, word);
  }

  /** Reading a written task line gives back its status, its identifier and its title, stripped. */
  lemma ReadInvertsWrite(status: Status, id: Id, title: string, word: CharClass)
    requires ValidId(id, word) && Separates(word) && title != ""
    ensures TaskLine(Write(status, id, title), word) == Some((status, Spell(id), Strip(title)))
  {
    TailIsRead(id, title, word);
    TaskLineOf(status, " " + (Spell(id) + (" " + title)), word);
  }

  lemma TailIsRead(id: Id, title: string, word: CharClass)
    requires ValidId(id, word) && Separates(word) && title != ""
    ensures AfterStatus(" " + (Spell(id) + (" " + title)), word) == Some((Spell(id), Strip(title)))
  {
    var s := Spell(id) + (" " + title);
    IdAndTitleRead(Spell(id), title);
    IdEndOfSpelled(id, title, word);
    assert (" " + s)[1..] == s;
  }

  lemma IdAndTitleRead(id: string, title: string)
    ensures var s := id + (" " + title);
            s[..|id|] == id && s[|id| + 1..] == title && s[|id|] == ' '
  {
  }

  lemma SpelledPrefix(s: string, word: CharClass) returns (id: Id)
    requires IdEnd(s, word) > 0
    ensures ValidId(id, word) && s[..IdEnd(s, word)] == Spell(id)
  {
    var a := RunEnd(s, 1, word);
    RunEndHolds(s, 1, word);
    if a < |s| && s[a] == '.' {
      var b := RunEnd(s, a + 1, word);
      RunEndHolds(s, a + 1, word);
      id := Part(s[1..a], s[a + 1..b]);
      CutAtDot(s, a, b);
    } else {
      id := Phase(s[1..a]);
      assert s[..a] == "P" + s[1..a];
    }
  }

  lemma CutAtDot(s: string, a: nat, b: nat)
    requires 1 <= a < b <= |s| && s[0] == 'P' && s[a] == '.'
    ensures s[..b] == "P" + s[1..a] + "." + s[a + 1..b]
  {
  }

  /** Every task line is a written one, so the two sides fit exactly. */
  lemma EveryTaskLineIsWritten(line: string, word: CharClass) returns (status: Status, id: Id, title: string)
    requires TaskLine(line, word).Some?
    ensures ValidId(id, word) && title != "" && line == Write(status, id, title)
    ensures TaskLine(line, word) == Some((status, Spell(id), Strip(title)))
  {
    var rest: string;
    status, rest := TaskLineShape(line, word);
    TaskLineOf(status, rest, word);
    id, title := TailIsWritten(rest, word);
  }

  lemma TailIsWritten(rest: string, word: CharClass) returns (id: Id, title: string)
    requires AfterStatus(rest, word).Some?
    ensures ValidId(id, word) && title != "" && rest == " " + (Spell(id) + (" " + title))
    ensures AfterStatus(rest, word) == Some((Spell(id), Strip(title)))
  {
    id, title := IdAndTitleWritten(rest[1..], word);
    assert rest == " " + rest[1..];
  }

  lemma IdAndTitleWritten(s: string, word: CharClass) returns (id: Id, title: string)
    requires IdAndTitle(s, word).Some?
    ensures ValidId(id, word) && title != "" && s == Spell(id) + (" " + title)
    ensures IdAndTitle(s, word) == Some((Spell(id), Strip(title)))
  {
    var k := IdEnd(s, word);
    id := SpelledPrefix(s, word);
    title := s[k + 1..];
    assert s == s[..k] + (" " + s[k + 1..]);
  }

  // ---------------------------------------------------------------- the lines below a task line

  /** Where the lines of a task end: at the next task line, or with the text. */
  function BlockEnd(kinds: seq<LineKind>, k: nat): (end: nat)
    requires k <= |kinds|
    ensures k <= end <= |kinds|
    decreases |kinds| - k
  {
    if k == |kinds| || kinds[k].Head? then k else BlockEnd(kinds, k + 1)
  }

  function OrElse(a: Option<string>, b: Option<string>): Option<string> {
    if a.Some? then a else b
  }

  /** The last verify line of a stretch; so for the other two fields. */
  function LastVerify(kinds: seq<LineKind>, lo: nat, hi: nat): Option<string>
    requires lo <= hi <= |kinds|
    decreases hi - lo
  {
    if lo == hi then None
    else OrElse(LastVerify(kinds, lo + 1, hi), if kinds[lo].VerifyLine? then Some(kinds[lo].cmd) else None)
  }

  function LastArtifact(kinds: seq<LineKind>, lo: nat, hi: nat): Option<string>
    requires lo <= hi <= |kinds|
    decreases hi - lo
  {
    if lo == hi then None
    else OrElse(LastArtifact(kinds, lo + 1, hi), if kinds[lo].ArtifactLine? then Some(kinds[lo].path) else None)
  }

  function LastNotes(kinds: seq<LineKind>, lo: nat, hi: nat): Option<string>
    requires lo <= hi <= |kinds|
    decreases hi - lo
  {
    if lo == hi then None
    else OrElse(LastNotes(kinds, lo + 1, hi), if kinds[lo].NotesLine? then Some(kinds[lo].notes) else None)
  }

  /** A task with the fields that a stretch of lines gives it. */
  function Filled(t: Task, kinds: seq<LineKind>, lo: nat, hi: nat): Task
    requires lo <= hi <= |kinds|
  {
    t.(verify := OrElse(LastVerify(kinds, lo, hi), t.verify),
       artifact := OrElse(LastArtifact(kinds, lo, hi), t.artifact),
       notes := OrElse(LastNotes(kinds, lo, hi), t.notes))
  }

  function TaskAt(kinds: seq<LineKind>, k: nat): Task
    requires k < |kinds| && kinds[k].Head?
  {
    var head := kinds[k];
    Filled(Task(head.id, head.title, head.status, None, None, None, k), kinds, k + 1, BlockEnd(kinds, k + 1))
  }

  /** One task for each task line. */
  function TasksFrom(kinds: seq<LineKind>, k: nat): seq<Task>
    requires k <= |kinds|
    decreases |kinds| - k
  {
    if k == |kinds| then []
    else if kinds[k].Head? then [TaskAt(kinds, k)] + TasksFrom(kinds, k + 1)
    else TasksFrom(kinds, k + 1)
  }

  lemma FilledStep(t: Task, kinds: seq<LineKind>, k: nat, hi: nat)
    requires k < hi <= |kinds| && !kinds[k].Head?
    ensures Filled(Next(Some(t), kinds[k], k).value, kinds, k + 1, hi) == Filled(t, kinds, k, hi)
  {
  }

  lemma {:induction false} ParseFromTask(kinds: seq<LineKind>, k: nat, t: Task)
    requires k <= |kinds|
    ensures ParseKinds(kinds[k..], k, Some(t)) == [Filled(t, kinds, k, BlockEnd(kinds, k))] + TasksFrom(kinds, k)
    decreases |kinds| - k
  {
    if k < |kinds| {
      assert kinds[k..][0] == kinds[k] && kinds[k..][1..] == kinds[k + 1..];
      var next := Next(Some(t), kinds[k], k).value;
      ParseFromTask(kinds, k + 1, next);
      if !kinds[k].Head? {
        FilledStep(t, kinds, k, BlockEnd(kinds, k));
        EmptyFront(ParseKinds(kinds[k + 1..], k + 1, Some(next)));
      }
    }
  }

  lemma {:induction false} ParseBeforeTask(kinds: seq<LineKind>, k: nat)
    requires k <= |kinds|
    ensures ParseKinds(kinds[k..], k, None) == TasksFrom(kinds, k)
    decreases |kinds| - k
  {
    if k < |kinds| {
      assert kinds[k..][0] == kinds[k] && kinds[k..][1..] == kinds[k + 1..];
      if kinds[k].Head? {
        ParseFromTask(kinds, k + 1, Next(None, kinds[k], k).value);
        EmptyFront(ParseKinds(kinds[k + 1..], k + 1, Next(None, kinds[k], k)));
      } else {
        ParseBeforeTask(kinds, k + 1);
        EmptyFront(ParseKinds(kinds[k + 1..], k + 1, None));
      }
    }
  }

  /** The parsed tasks are the task lines in order, each with the last verify, artifact and notes lines
    below it and above the next one. */
  lemma ParsedTasksAreBlocks(text: string, word: CharClass)
    ensures ParseLedger(text, word) == TasksFrom(Kinds(SplitLines(text), word), 0)
  {
    var kinds := Kinds(SplitLines(text), word);
    assert kinds[0..] == kinds;
    ParseBeforeTask(kinds, 0);
  }
}
