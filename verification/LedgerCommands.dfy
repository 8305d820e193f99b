/** The commands that drive the progress ledger: the date line they refresh, the status machine they
  step, and the file they rewrite.
*/
module LedgerCommands {
  import opened Wrappers
  import opened LedgerText
  import opened Ledger

  // ---------------------------------------------------------------- the date line

  const LAST: string := "Last updated: "

  predicate DateAt(s: string, digit: CharClass) {
    && |s| >= 10 && s[4] == '-' && s[7] == '-'
    && forall i :: 0 <= i < 10 && i != 4 && i != 7 ==> digit(s[i])
  }

  predicate DatedAt(text: string, p: nat, digit: CharClass)
    requires p <= |text|
  {
    LAST <= text[p..] && DateAt(text[p..][|LAST|..], digit)
  }

  /** Where the first dated line starts, |text| when there is none; a line starts after a newline. */
  function FirstDated(text: string, p: nat, digit: CharClass): (k: nat)
    requires p <= |text|
    ensures p <= k <= |text|
    ensures k < |text| ==> (k == 0 || text[k - 1] == '\n') && DatedAt(text, k, digit)
    decreases |text| - p
  {
    if p == |text| then p
    else if (p == 0 || text[p - 1] == '\n') && DatedAt(text, p, digit) then p
    else FirstDated(text, p + 1, digit)
  }

  function Redated(line: string, today: string): string
    requires |line| >= 24
  {
    LAST + today + line[24..]
  }

  function UpdateLastUpdated(text: string, today: string, digit: CharClass): string {
    var p := FirstDated(text, 0, digit);
    if p == |text| then text else text[..p] + Redated(text[p..], today)
  }

  /** No digit is a line break. */
  ghost predicate DigitsInLine(digit: CharClass) {
    forall c :: digit(c) ==> !LineBreak(c)
  }

  /** What date.isoformat gives. */
  predicate IsDate(today: string) {
    |today| == 10 && forall i :: 0 <= i < 10 ==> !LineBreak(today[i])
  }

  lemma JoinAppend(a: seq<string>, b: seq<string>)
    ensures Join(a + b) == Join(a) + Join(b)
  {
    if a == [] {
      assert a + b == b;
    } else {
      assert (a + b)[1..] == a[1..] + b;
      JoinAppend(a[1..], b);
    }
  }

  /** A place after a newline is a cut between two lines. */
  lemma {:induction false} CutAfterNewline(text: string, p: nat) returns (before: seq<string>)
    requires p <= |text| && (p == 0 || text[p - 1] == '\n')
    ensures SplitKeep(text) == before + SplitKeep(text[p..]) && Join(before) == text[..p]
    decreases |text|
  {
    if p == 0 {
      before := CutAtStart(text);
    } else {
      var n := FirstLineLength(text, p);
      var rest := CutAfterNewline(text[n..], p - n);
      before := CutLater(text, n, p, rest);
    }
  }

  lemma CutAtStart(text: string) returns (before: seq<string>)
    ensures SplitKeep(text) == before + SplitKeep(text[0..]) && Join(before) == text[..0]
  {
    before := [];
    assert text[0..] == text;
    EmptyFront(SplitKeep(text));
  }

  lemma FirstLineLength(text: string, p: nat) returns (n: nat)
    requires 0 < p <= |text| && text[p - 1] == '\n'
    ensures 0 < n <= p && n == LineLength(text) && (p - n == 0 || text[n..][p - n - 1] == '\n')
  {
    n := LineLength(text);
    LineEndsBy(text, p);
  }

  lemma CutLater(text: string, n: nat, p: nat, rest: seq<string>) returns (before: seq<string>)
    requires 0 < n <= p <= |text| && n == LineLength(text)
    requires SplitKeep(text[n..]) == rest + SplitKeep(text[n..][p - n..]) && Join(rest) == text[n..][..p - n]
    ensures SplitKeep(text) == before + SplitKeep(text[p..]) && Join(before) == text[..p]
  {
    before := [text[..n]] + rest;
    CutSlices(text, n, p);
    FrontLine(text, rest, SplitKeep(text[p..]));
    JoinCons(text[..n], rest);
  }

  lemma FrontLine(text: string, rest: seq<string>, tail: seq<string>)
    requires text != "" && SplitKeep(text[LineLength(text)..]) == rest + tail
    ensures SplitKeep(text) == [text[..LineLength(text)]] + rest + tail
  {
    Regroup3(text[..LineLength(text)], rest, tail);
  }

  lemma CutSlices(text: string, n: nat, p: nat)
    requires n <= p <= |text|
    ensures text[n..][p - n..] == text[p..] && text[..p] == text[..n] + text[n..][..p - n]
    ensures p > n ==> text[n..][p - n - 1] == text[p - 1]
  {
  }

  lemma Regroup3<T>(first: T, a: seq<T>, b: seq<T>)
    ensures [first] + (a + b) == [first] + a + b
  {
  }

  lemma LineEndsBy(text: string, p: nat)
    requires 0 < p <= |text| && text[p - 1] == '\n'
    ensures LineLength(text) <= p
  {
    BodyLengthHolds(text);
  }

  lemma DatedBodyHasNoBreak(s: string, digit: CharClass)
    requires DigitsInLine(digit) && DatedAt(s, 0, digit)
    ensures |s| >= 24 && forall i :: 0 <= i < 24 ==> !LineBreak(s[i])
  {
  }

  /** The first line of a dated text, redated: the same break after it. */
  lemma RedatedLine(s: string, today: string, digit: CharClass)
    requires DigitsInLine(digit) && DatedAt(s, 0, digit) && IsDate(today)
    ensures |s| >= 24 && 24 <= LineLength(s)
    ensures SameBreak(s[..LineLength(s)], Redated(s[..LineLength(s)], today))
    ensures Redated(s, today) == Redated(s[..LineLength(s)], today) + s[LineLength(s)..]
  {
    BodyLengthHolds(s);
    DatedBodyHasNoBreak(s, digit);
    var n, b := LineLength(s), BodyLength(s);
    FirstLine(s);
    assert b >= 24;
    var line := s[..n];
    var line' := Redated(line, today);
    assert line[0] == 'L' == line'[0];
    RedatedBody(line, today, b);
    RedatedRest(s, n, today);
  }

  lemma RedatedRest(s: string, n: nat, today: string)
    requires 24 <= n <= |s|
    ensures Redated(s, today) == Redated(s[..n], today) + s[n..]
  {
    assert s[24..] == s[..n][24..] + s[n..];
  }

  lemma RedatedBody(line: string, today: string, b: nat)
    requires 24 <= b == BodyLength(line) && IsDate(today)
    ensures BodyLength(Redated(line, today)) == b && Redated(line, today)[b..] == line[b..]
  {
    BodyLengthHolds(line);
    var line' := Redated(line, today);
    assert forall i :: 24 <= i < |line| ==> line'[i] == line[i];
    forall i | 0 <= i < b
      ensures !LineBreak(line'[i])
    {
      if i < 14 {
        assert line'[i] == LAST[i];
        assert forall c :: c in LAST ==> c == ' ' || c == ':' || 'L' <= c <= 'u';
      } else if i < 24 {
        assert line'[i] == today[i - 14];
      }
    }
    BodyLengthIs(line', b);
  }

  lemma LIsPlain(line: string, word: CharClass)
    requires line != "" && line[0] == 'L'
    ensures Classify(line, word) == PlainLine
  {
  }

  lemma ChompStarts(line: string)
    requires line != "" && !LineBreak(line[0])
    ensures Chomp(line) != "" && Chomp(line)[0] == line[0]
  {
  }

  /** A line changed into another that the parser also passes over. */
  lemma PlainReplaced(text: string, k: nat, line': string, word: CharClass)
    requires k < |SplitKeep(text)| && SameBreak(SplitKeep(text)[k], line') && line'[0] == 'L'
    ensures ParseLedger(Join(SplitKeep(text)[k := line']), word) == ParseLedger(text, word)
  {
    var lines := SplitKeep(text);
    SplitOfReplaced(text, k, line');
    ChompStarts(lines[k]);
    ChompStarts(line');
    LIsPlain(Chomp(lines[k]), word);
    LIsPlain(Chomp(line'), word);
    KindsOfReplaced(lines, k, line', word);
    SameKinds(text, Join(lines[k := line']), k, word);
  }

  lemma SameKinds(text: string, text': string, k: nat, word: CharClass)
    requires k < |SplitLines(text)| && Kinds(SplitLines(text), word)[k] == PlainLine
    requires Kinds(SplitLines(text'), word) == Kinds(SplitLines(text), word)[k := PlainLine]
    ensures ParseLedger(text', word) == ParseLedger(text, word)
  {
    assert Kinds(SplitLines(text), word)[k := PlainLine] == Kinds(SplitLines(text), word);
  }

  lemma Replace<T>(before: seq<T>, line: T, rest: seq<T>, line': T)
    ensures (before + ([line] + rest))[|before| := line'] == before + ([line'] + rest)
  {
  }

  lemma JoinReplaced(before: seq<string>, line: string, rest: seq<string>, line': string)
    ensures Join((before + ([line] + rest))[|before| := line']) == Join(before) + (line' + Join(rest))
  {
    Replace(before, line, rest, line');
    JoinAppend(before, [line'] + rest);
    JoinCons(line', rest);
  }

  /** What refreshing the date does to a dated text: line k, which holds the date, is rewritten. */
  ghost predicate OneLineDated(text: string, text': string, k: nat) {
    && k < |SplitKeep(text)| && LAST <= SplitKeep(text)[k]
    && exists line :: LAST <= line && SameBreak(SplitKeep(text)[k], line) && text' == Join(SplitKeep(text)[k := line])
  }

  lemma RedatedIsOneLine(text: string, p: nat, today: string, digit: CharClass) returns (k: nat)
    requires DigitsInLine(digit) && IsDate(today)
    requires p < |text| && (p == 0 || text[p - 1] == '\n') && DatedAt(text, p, digit)
    ensures OneLineDated(text, text[..p] + Redated(text[p..], today), k)
  {
    var s := text[p..];
    assert s[0..] == s;
    RedatedLine(s, today, digit);
    var n := LineLength(s);
    var before := CutAfterNewline(text, p);
    var line, line' := s[..n], Redated(s[..n], today);
    JoinReplaced(before, line, SplitKeep(s[n..]), line');
    JoinInvertsSplit(s[n..]);
    k := |before|;
    assert SplitKeep(text) == before + ([line] + SplitKeep(s[n..]));
    assert LAST <= line && LAST <= line';
  }

  /** Refreshing the date rewrites one line, which is no task's, and no task changes. */
  lemma UpdateKeepsTasks(text: string, today: string, digit: CharClass, word: CharClass)
    requires DigitsInLine(digit) && IsDate(today)
    ensures ParseLedger(UpdateLastUpdated(text, today, digit), word) == ParseLedger(text, word)
  {
    var p := FirstDated(text, 0, digit);
    if p < |text| {
      var k := RedatedIsOneLine(text, p, today, digit);
      var line :| LAST <= line && SameBreak(SplitKeep(text)[k], line)
        && UpdateLastUpdated(text, today, digit) == Join(SplitKeep(text)[k := line]);
      assert line[0] == LAST[0];
      PlainReplaced(text, k, line, word);
    }
  }

  lemma {:induction false} FirstDatedIsFirst(text: string, p: nat, digit: CharClass, k: nat)
    requires p <= k < |text| && k < FirstDated(text, p, digit)
    ensures !((k == 0 || text[k - 1] == '\n') && DatedAt(text, k, digit))
    decreases k - p
  {
    if p < k {
      FirstDatedIsFirst(text, p + 1, digit, k);
    }
  }

  lemma {:induction false} FirstDatedIs(text: string, p: nat, digit: CharClass, k: nat)
    requires p <= k < |text| && (k == 0 || text[k - 1] == '\n') && DatedAt(text, k, digit)
    requires forall j: nat :: p <= j < k ==> !(LineStart(text, j) && DatedAt(text, j, digit))
    ensures FirstDated(text, p, digit) == k
    decreases k - p
  {
    if p < k {
      assert !(LineStart(text, p) && DatedAt(text, p, digit));
      FirstDatedIs(text, p + 1, digit, k);
    }
  }

  predicate LineStart(text: string, p: nat)
    requires p <= |text|
  {
    p == 0 || text[p - 1] == '\n'
  }

  lemma DatedAtIsLocal(text: string, p: nat, digit: CharClass)
    requires p + 24 <= |text|
    ensures DatedAt(text, p, digit) <==> DatedAt(text[p..p + 24], 0, digit)
  {
  }

  /** A date that starts before a newline ends before it. */
  lemma DateEndsBefore(text: string, j: nat, p: nat, digit: CharClass)
    requires DigitsInLine(digit) && j < p <= |text| && text[p - 1] == '\n' && DatedAt(text, j, digit)
    ensures j + 24 <= p
  {
  }

  /** After a refresh the first dated line is the same line and holds the new date. */
  lemma UpdateStoresDate(text: string, today: string, digit: CharClass)
    requires DigitsInLine(digit) && |today| == 10 && DateAt(today, digit)
    ensures var p := FirstDated(text, 0, digit);
            var text' := UpdateLastUpdated(text, today, digit);
            FirstDated(text', 0, digit) == p && (p < |text| ==> |text'| == |text| && text'[p..p + 24] == LAST + today)
  {
    var p := FirstDated(text, 0, digit);
    var text' := UpdateLastUpdated(text, today, digit);
    if p < |text| {
      RedatedShape(text, p, today, digit);
      forall j: nat | j < p
        ensures !(LineStart(text', j) && DatedAt(text', j, digit))
      {
        FirstDatedIsFirst(text, 0, digit, j);
        NoEarlierDate(text, text', j, p, digit);
      }
      FirstDatedIs(text', 0, digit, p);
    }
  }

  lemma RedatedShape(text: string, p: nat, today: string, digit: CharClass)
    requires p < |text| && DatedAt(text, p, digit) && |today| == 10 && DateAt(today, digit)
    ensures p + 24 <= |text|
    ensures var text' := text[..p] + Redated(text[p..], today);
            |text'| == |text| && text'[..p] == text[..p] && text'[p..p + 24] == LAST + today && DatedAt(text', p, digit)
  {
  }

  lemma NoEarlierDate(text: string, text': string, j: nat, p: nat, digit: CharClass)
    requires DigitsInLine(digit) && j < p <= |text| == |text'| && text'[..p] == text[..p]
    requires LineStart(text, p) && !(LineStart(text, j) && DatedAt(text, j, digit))
    ensures !(LineStart(text', j) && DatedAt(text', j, digit))
  {
    assert text'[p - 1] == text'[..p][p - 1] == text[..p][p - 1];
    assert j > 0 ==> text'[j - 1] == text'[..p][j - 1] == text[..p][j - 1];
    if DatedAt(text', j, digit) {
      DateEndsBefore(text', j, p, digit);
      assert text'[j..j + 24] == text'[..p][j..j + 24] == text[j..j + 24];
      DatedAtIsLocal(text, j, digit);
      DatedAtIsLocal(text', j, digit);
    }
  }

  // ---------------------------------------------------------------- the status machine

  /** The index of the first task with a status, |tasks| when there is none. */
  function FirstWith(tasks: seq<Task>, s: Status): (k: nat)
    ensures k <= |tasks| && (k < |tasks| ==> tasks[k].status == s)
  {
    if tasks == [] || tasks[0].status == s then 0 else 1 + FirstWith(tasks[1..], s)
  }

  function FirstId(tasks: seq<Task>, id: string): (k: nat)
    ensures k <= |tasks| && (k < |tasks| ==> tasks[k].id == id)
  {
    if tasks == [] || tasks[0].id == id then 0 else 1 + FirstId(tasks[1..], id)
  }

  lemma {:induction false} FirstWithIsFirst(tasks: seq<Task>, s: Status, i: nat)
    requires i < |tasks| && tasks[i].status == s
    ensures FirstWith(tasks, s) <= i
  {
    if i > 0 && tasks[0].status != s {
      FirstWithIsFirst(tasks[1..], s, i - 1);
    }
  }

  lemma {:induction false} FirstIdIsFirst(tasks: seq<Task>, id: string, i: nat)
    requires i < |tasks| && tasks[i].id == id
    ensures FirstId(tasks, id) <= i
  {
    if i > 0 && tasks[0].id != id {
      FirstIdIsFirst(tasks[1..], id, i - 1);
    }
  }

  function Put(tasks: seq<Task>, k: nat, s: Status): (r: seq<Task>)
    requires k < |tasks|
    ensures |r| == |tasks|
  {
    tasks[k := tasks[k].(status := s)]
  }

  /** The task that advance works on: the one in progress, else the first pending one. */
  function Target(tasks: seq<Task>): (k: nat)
    ensures k <= |tasks|
    ensures k < |tasks| ==> tasks[k].status == InProgress || tasks[k].status == Pending
  {
    var p := FirstWith(tasks, InProgress);
    if p < |tasks| then p else FirstWith(tasks, Pending)
  }

  /** Whether advance closes a task: by force when there is nothing to run, else by its command. */
  predicate Closes(t: Task, force: bool, passes: bool) {
    if t.verify.None? || t.IsManual() then force else passes
  }

  predicate Closing(tasks: seq<Task>, force: bool, passes: bool) {
    Target(tasks) < |tasks| && Closes(tasks[Target(tasks)], force, passes)
  }

  function Advance(tasks: seq<Task>, force: bool, passes: bool): (r: seq<Task>)
    ensures |r| == |tasks|
  {
    var k := Target(tasks);
    if k == |tasks| then tasks
    else if !Closes(tasks[k], force, passes) then Put(tasks, k, InProgress)
    else
      FirstIdIsFirst(Put(tasks, k, InProgress), tasks[k].id, k);
      Put(Put(tasks, k, InProgress), FirstId(Put(tasks, k, InProgress), tasks[k].id), Done)
  }

  function Block(tasks: seq<Task>, id: string): (r: seq<Task>)
    ensures |r| == |tasks|
  {
    var k := FirstId(tasks, id);
    if k == |tasks| then tasks else Put(tasks, k, Blocked)
  }

  datatype Command = DoAdvance(force: bool, passes: bool) | DoBlock(id: string)

  function Step(tasks: seq<Task>, c: Command): (r: seq<Task>)
    ensures |r| == |tasks|
  {
    match c
    case DoAdvance(force, passes) => Advance(tasks, force, passes)
    case DoBlock(id) => Block(tasks, id)
  }

  function Run(tasks: seq<Task>, cs: seq<Command>): (r: seq<Task>)
    ensures |r| == |tasks|
    decreases |cs|
  {
    if cs == [] then tasks else Run(Step(tasks, cs[0]), cs[1..])
  }

  /** How many advances of a run close their task. */
  function Closings(tasks: seq<Task>, cs: seq<Command>): nat
    decreases |cs|
  {
    if cs == [] then 0
    else
      (if cs[0].DoAdvance? && Closing(tasks, cs[0].force, cs[0].passes) then 1 else 0)
      + Closings(Step(tasks, cs[0]), cs[1..])
  }

  function Cost(s: Status): nat {
    match s
    case Pending => 2
    case InProgress => 1
    case _ => 0
  }

  /** Twice the pending tasks and once the ones in progress. */
  function Weight(tasks: seq<Task>): nat {
    if tasks == [] then 0 else Cost(tasks[0].status) + Weight(tasks[1..])
  }

  predicate DistinctIds(tasks: seq<Task>) {
    forall i, j :: 0 <= i < j < |tasks| ==> tasks[i].id != tasks[j].id
  }

  predicate AtMostOneInProgress(tasks: seq<Task>) {
    forall i, j :: 0 <= i < j < |tasks| ==> !(tasks[i].status == InProgress && tasks[j].status == InProgress)
  }

  lemma {:induction false} WeightOfPut(tasks: seq<Task>, k: nat, s: Status)
    requires k < |tasks|
    ensures Weight(Put(tasks, k, s)) == Weight(tasks) - Cost(tasks[k].status) + Cost(s)
  {
    if k > 0 {
      assert Put(tasks, k, s)[1..] == Put(tasks[1..], k - 1, s);
      WeightOfPut(tasks[1..], k - 1, s);
    } else {
      assert Put(tasks, k, s)[1..] == tasks[1..];
    }
  }

  /** Statuses are all that a step changes. */
  predicate SameButStatus(a: Task, b: Task) {
    b == a.(status := b.status)
  }

  lemma PutSame(tasks: seq<Task>, k: nat)
    requires k < |tasks|
    ensures Put(tasks, k, tasks[k].status) == tasks
  {
  }

  lemma FirstIdOfPut(tasks: seq<Task>, k: nat, s: Status, id: string)
    requires k < |tasks|
    ensures FirstId(Put(tasks, k, s), id) == FirstId(tasks, id)
  {
    var tasks' := Put(tasks, k, s);
    var a, b := FirstId(tasks, id), FirstId(tasks', id);
    if a < |tasks| {
      FirstIdIsFirst(tasks', id, a);
    }
    if b < |tasks| {
      FirstIdIsFirst(tasks, id, b);
    }
  }

  /** What a closing advance does, in one write after the other. */
  lemma ClosingAdvance(tasks: seq<Task>, force: bool, passes: bool) returns (k: nat, j: nat)
    requires Closing(tasks, force, passes)
    ensures k == Target(tasks) && j == FirstId(tasks, tasks[k].id) && j <= k < |tasks|
    ensures Advance(tasks, force, passes) == Put(Put(tasks, k, InProgress), j, Done)
  {
    k := Target(tasks);
    j := FirstId(tasks, tasks[k].id);
    FirstIdIsFirst(tasks, tasks[k].id, k);
    FirstIdOfPut(tasks, k, InProgress, tasks[k].id);
  }

  /** The task that advance resumes is shadowed: a finished or blocked task earlier in the ledger has
    its id, and takes the mark in its place. */
  predicate Shadowed(tasks: seq<Task>) {
    && Target(tasks) < |tasks| && tasks[Target(tasks)].status == InProgress
    && var j := FirstId(tasks, tasks[Target(tasks)].id);
       j < |tasks| && Cost(tasks[j].status) == 0
  }

  /** A closing advance makes progress exactly when its task is not shadowed. */
  lemma AdvanceMakesProgress(tasks: seq<Task>, force: bool, passes: bool)
    requires Closing(tasks, force, passes)
    ensures Weight(Advance(tasks, force, passes)) <= Weight(tasks)
    ensures Weight(Advance(tasks, force, passes)) < Weight(tasks) <==> !Shadowed(tasks)
  {
    var k, j := ClosingAdvance(tasks, force, passes);
    WeightOfPut(tasks, k, InProgress);
    WeightOfPut(Put(tasks, k, InProgress), j, Done);
  }

  lemma DistinctIdsNotShadowed(tasks: seq<Task>)
    requires DistinctIds(tasks)
    ensures !Shadowed(tasks)
  {
  }

  /** With two tasks under one id, an advance that passes can leave the ledger as it was, and so every
    advance after it. */
  lemma ShadowedAdvanceIsStuck(tasks: seq<Task>, force: bool, passes: bool)
    requires Closing(tasks, force, passes) && Shadowed(tasks)
    requires tasks[FirstId(tasks, tasks[Target(tasks)].id)].status == Done
    ensures Advance(tasks, force, passes) == tasks
  {
    var k, j := ClosingAdvance(tasks, force, passes);
    PutSame(tasks, k);
    PutSame(tasks, j);
  }

  lemma ShadowedExample()
    ensures var t := Task("P1", "a", Done, Some("true"), None, None, 0);
            var tasks := [t, t.(status := InProgress, lineIdx := 1)];
            Closing(tasks, false, true) && Shadowed(tasks) && Advance(tasks, false, true) == tasks
  {
    var t := Task("P1", "a", Done, Some("true"), None, None, 0);
    var tasks := [t, t.(status := InProgress, lineIdx := 1)];
    assert tasks[1..] == [tasks[1]];
    FirstWithIsFirst(tasks, InProgress, 1);
    assert Target(tasks) == 1;
    TrueIsNotManual();
    assert tasks[1].verify == Some("true");
    FirstIdIsFirst(tasks, "P1", 0);
    ShadowedAdvanceIsStuck(tasks, false, true);
  }

  lemma TrueIsNotManual()
    ensures Lower(Strip("true")) != "manual"
  {
  }

  // ---------------------------------------------------------------- one step

  /** What any step does to one task: its status alone may change, and never upwards in cost. */
  lemma StepKeepsTasks(tasks: seq<Task>, c: Command, i: nat)
    requires i < |tasks|
    ensures SameButStatus(tasks[i], Step(tasks, c)[i])
    ensures Cost(Step(tasks, c)[i].status) <= Cost(tasks[i].status)
    ensures c.DoAdvance? && tasks[i].status == Done ==> Step(tasks, c)[i].status == Done
  {
  }

  lemma StepKeepsDistinctIds(tasks: seq<Task>, c: Command)
    requires DistinctIds(tasks)
    ensures DistinctIds(Step(tasks, c))
  {
  }

  lemma PutKeepsAtMostOne(tasks: seq<Task>, k: nat, s: Status)
    requires k < |tasks| && AtMostOneInProgress(tasks)
    requires s != InProgress || tasks[k].status == InProgress || FirstWith(tasks, InProgress) == |tasks|
    ensures AtMostOneInProgress(Put(tasks, k, s))
  {
    if FirstWith(tasks, InProgress) == |tasks| {
      forall i | 0 <= i < |tasks|
        ensures tasks[i].status != InProgress
      {
        if tasks[i].status == InProgress {
          FirstWithIsFirst(tasks, InProgress, i);
        }
      }
    }
  }

  lemma StepKeepsAtMostOne(tasks: seq<Task>, c: Command)
    requires AtMostOneInProgress(tasks)
    ensures AtMostOneInProgress(Step(tasks, c))
  {
    match c
    case DoBlock(id) =>
      if FirstId(tasks, id) < |tasks| {
        PutKeepsAtMostOne(tasks, FirstId(tasks, id), Blocked);
      }
    case DoAdvance(force, passes) =>
      var k := Target(tasks);
      if k < |tasks| {
        PutKeepsAtMostOne(tasks, k, InProgress);
        if Closing(tasks, force, passes) {
          var k', j := ClosingAdvance(tasks, force, passes);
          PutKeepsAtMostOne(Put(tasks, k, InProgress), j, Done);
        }
      }
  }

  lemma StepWeight(tasks: seq<Task>, c: Command)
    ensures Weight(Step(tasks, c)) <= Weight(tasks)
    ensures c.DoAdvance? && Closing(tasks, c.force, c.passes) && DistinctIds(tasks) ==>
              Weight(Step(tasks, c)) < Weight(tasks)
  {
    match c
    case DoBlock(id) =>
      if FirstId(tasks, id) < |tasks| {
        WeightOfPut(tasks, FirstId(tasks, id), Blocked);
      }
    case DoAdvance(force, passes) =>
      var k := Target(tasks);
      if Closing(tasks, force, passes) {
        AdvanceMakesProgress(tasks, force, passes);
        if DistinctIds(tasks) {
          DistinctIdsNotShadowed(tasks);
        }
      } else if k < |tasks| {
        WeightOfPut(tasks, k, InProgress);
      }
  }

  // ---------------------------------------------------------------- whole runs

  /** Over any run at most one task is in progress; with distinct ids every closing advance uses up
    some of the work, so no more of them happen than there is work. */
  lemma {:induction false} RunKeeps(tasks: seq<Task>, cs: seq<Command>)
    ensures AtMostOneInProgress(tasks) ==> AtMostOneInProgress(Run(tasks, cs))
    ensures Weight(Run(tasks, cs)) <= Weight(tasks)
    ensures DistinctIds(tasks) ==> DistinctIds(Run(tasks, cs))
    ensures DistinctIds(tasks) ==> Weight(Run(tasks, cs)) + Closings(tasks, cs) <= Weight(tasks)
    decreases |cs|
  {
    if cs != [] {
      var next := Step(tasks, cs[0]);
      if AtMostOneInProgress(tasks) {
        StepKeepsAtMostOne(tasks, cs[0]);
      }
      if DistinctIds(tasks) {
        StepKeepsDistinctIds(tasks, cs[0]);
      }
      StepWeight(tasks, cs[0]);
      RunKeeps(next, cs[1..]);
    }
  }

  /** Over any run of advances a finished task stays finished. */
  lemma {:induction false} RunKeepsDone(tasks: seq<Task>, cs: seq<Command>, i: nat)
    requires i < |tasks| && tasks[i].status == Done
    requires forall c :: c in cs ==> c.DoAdvance?
    ensures Run(tasks, cs)[i] == tasks[i]
    decreases |cs|
  {
    if cs != [] {
      StepKeepsTasks(tasks, cs[0], i);
      RunKeepsDone(Step(tasks, cs[0]), cs[1..], i);
    }
  }

  /** There is a task to advance exactly while some task is pending or in progress. */
  lemma OpenMeansTarget(tasks: seq<Task>)
    ensures Target(tasks) == |tasks| <==> Weight(tasks) == 0
  {
  }

  lemma {:induction false} NothingOpen(tasks: seq<Task>)
    requires FirstWith(tasks, InProgress) == |tasks| && FirstWith(tasks, Pending) == |tasks|
    ensures Weight(tasks) == 0
  {
    if tasks != [] {
      NothingOpen(tasks[1..]);
    }
  }

  function AllPass(n: nat): (cs: seq<Command>)
    ensures |cs| == n
  {
    if n == 0 then [] else [DoAdvance(true, true)] + AllPass(n - 1)
  }

  /** With distinct ids, advances that all pass finish the ledger within its weight. */
  lemma {:induction false} AdvancesFinish(tasks: seq<Task>, n: nat)
    requires DistinctIds(tasks) && n >= Weight(tasks)
    ensures Weight(Run(tasks, AllPass(n))) == 0
    ensures Target(Run(tasks, AllPass(n))) == |tasks|
    decreases n
  {
    OpenMeansTarget(tasks);
    if n == 0 {
      assert Run(tasks, AllPass(0)) == tasks;
    } else {
      var c := DoAdvance(true, true);
      assert AllPass(n)[0] == c && AllPass(n)[1..] == AllPass(n - 1);
      StepWeight(tasks, c);
      StepKeepsDistinctIds(tasks, c);
      AdvancesFinish(Step(tasks, c), n - 1);
    }
  }

  // ---------------------------------------------------------------- what an advance takes and closes

  /** What is worked on is the first task in progress, or with none in progress the first pending one, and
    nothing exactly when there is neither. */
  lemma TargetIsFirst(tasks: seq<Task>, i: nat)
    requires i < |tasks|
    ensures var k := Target(tasks);
            && (tasks[i].status == InProgress ==> k <= i && tasks[k].status == InProgress)
            && (tasks[i].status == Pending ==> k < |tasks| && (tasks[k].status == Pending ==> k <= i))
  {
    if tasks[i].status == InProgress {
      FirstWithIsFirst(tasks, InProgress, i);
    }
    if tasks[i].status == Pending {
      FirstWithIsFirst(tasks, Pending, i);
    }
  }

  /** A task is manual when its command is the word, in letters of either size, white space around it aside. */
  lemma ManualIsTheWord(t: Task)
    ensures t.IsManual() <==> t.verify.Some? && var v := Strip(t.verify.value);
            |v| == 6 && v[0] in "mM" && v[1] in "aA" && v[2] in "nN" && v[3] in "uU" && v[4] in "aA" && v[5] in "lL"
  {
    if t.verify.Some? {
      LowerByLetter(Strip(t.verify.value));
    }
  }

  lemma {:induction false} LowerByLetter(s: string)
    ensures |Lower(s)| == |s|
    ensures forall i :: 0 <= i < |s| ==> Lower(s)[i] == if 'A' <= s[i] <= 'Z' then s[i] - 'A' + 'a' else s[i]
  {
    if s != "" {
      LowerByLetter(s[1..]);
    }
  }

  /** A task with a command that fails is closed by no advance, forced or not, and no other task is; with a
    command that passes, or with none and by force, the first task with its id is closed. */
  lemma AdvanceCloses(tasks: seq<Task>, force: bool, passes: bool)
    requires Target(tasks) < |tasks|
    ensures var t := tasks[Target(tasks)];
            var after := Advance(tasks, force, passes);
            var runs := t.verify.Some? && !t.IsManual();
            && ((runs && !passes) || (!runs && !force) ==>
                  forall i :: 0 <= i < |tasks| && after[i].status == Done ==> tasks[i].status == Done)
            && ((runs && passes) || (!runs && force) ==>
                  exists i :: 0 <= i < |tasks| && tasks[i].id == t.id && after[i].status == Done)
  {
    FirstIdIsFirst(Put(tasks, Target(tasks), InProgress), tasks[Target(tasks)].id, Target(tasks));
  }

  // ---------------------------------------------------------------- the date line, spelled out

  /** A date as ten characters: four digits, two and two, with dashes between. */
  lemma DateIsSpelled(date: string, digit: CharClass)
    ensures |date| == 10 && DateAt(date, digit) <==>
            (|date| == 10 && date[4] == '-' && date[7] == '-'
             && digit(date[0]) && digit(date[1]) && digit(date[2]) && digit(date[3])
             && digit(date[5]) && digit(date[6]) && digit(date[8]) && digit(date[9]))
  {
  }

  /** The first line that starts with the words and a date is redated, and everything else stays. */
  lemma RefreshIsSpelled(front: string, date: string, rest: string, today: string, digit: CharClass)
    requires front == "" || front[|front| - 1] == '\n'
    requires |date| == 10 && DateAt(date, digit)
    requires forall p: nat :: p < |front| && (p == 0 || front[p - 1] == '\n') ==>
                !DatedAt(front + ("Last updated: " + date + rest), p, digit)
    ensures UpdateLastUpdated(front + ("Last updated: " + date + rest), today, digit)
         == front + ("Last updated: " + today + rest)
  {
    var line := "Last updated: " + date + rest;
    var text := front + line;
    DatedLine(front, date, rest, digit);
    FirstDatedIs(text, 0, digit, |front|);
    assert text[|front|..] == line && text[..|front|] == front;
    assert line[24..] == rest;
  }

  lemma DatedLine(front: string, date: string, rest: string, digit: CharClass)
    requires |date| == 10 && DateAt(date, digit)
    ensures DatedAt(front + ("Last updated: " + date + rest), |front|, digit)
  {
    var line := "Last updated: " + date + rest;
    assert (front + line)[|front|..] == line && "Last updated: " <= line;
    assert line[14..] == date + rest;
  }
}
