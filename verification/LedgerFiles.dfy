/** The ledger file and the two commands that rewrite it. */
module LedgerFiles {
  import opened Wrappers
  import opened LedgerText
  import opened Ledger
  import opened LedgerCommands

  lemma {:induction false} LinesIncrease(kinds: seq<LineKind>, idx: nat, current: Option<Task>, i: nat, j: nat)
    requires current.Some? ==> current.value.lineIdx < idx
    requires i < j < |ParseKinds(kinds, idx, current)|
    ensures ParseKinds(kinds, idx, current)[i].lineIdx < ParseKinds(kinds, idx, current)[j].lineIdx
    decreases |kinds|
  {
    if kinds != [] {
      var next := Next(current, kinds[0], idx);
      var rest := ParseKinds(kinds[1..], idx + 1, next);
      var out := Out(current, kinds[0]);
      if i >= |out| {
        LinesIncrease(kinds[1..], idx + 1, next, i - |out|, j - |out|);
      } else {
        assert rest[j - |out|] in rest;
        ParsedTaskLine(kinds[1..], idx + 1, next, rest[j - |out|]);
      }
    }
  }

  /** A task is the only one on its line, so writing its line is writing its status. */
  lemma SetStatusIsPut(text: string, k: nat, s: Status, word: CharClass)
    requires k < |ParseLedger(text, word)|
    ensures SetStatus(ParseLedger(text, word), ParseLedger(text, word)[k].lineIdx, s) == Put(ParseLedger(text, word), k, s)
  {
    var tasks := ParseLedger(text, word);
    forall i | 0 <= i < |tasks| && i != k
      ensures tasks[i].lineIdx != tasks[k].lineIdx
    {
      var lo: nat, hi: nat := if i < k then i else k, if i < k then k else i;
      LinesIncrease(Kinds(SplitLines(text), word), 0, None, lo, hi);
    }
    PutOnLine(tasks, k, s);
  }

  lemma PutOnLine(tasks: seq<Task>, k: nat, s: Status)
    requires k < |tasks| && forall i :: 0 <= i < |tasks| && i != k ==> tasks[i].lineIdx != tasks[k].lineIdx
    ensures SetStatus(tasks, tasks[k].lineIdx, s) == Put(tasks, k, s)
  {
  }

  method FindStatus(tasks: seq<Task>, s: Status) returns (k: nat)
    ensures k == FirstWith(tasks, s)
  {
    k := 0;
    assert tasks[0..] == tasks;
    while k < |tasks|
      invariant k <= |tasks| && FirstWith(tasks, s) == k + FirstWith(tasks[k..], s)
    {
      if tasks[k].status == s {
        return;
      }
      assert tasks[k..][1..] == tasks[k + 1..];
      k := k + 1;
    }
  }

  method FindId(tasks: seq<Task>, id: string) returns (k: nat)
    ensures k == FirstId(tasks, id)
  {
    k := 0;
    assert tasks[0..] == tasks;
    while k < |tasks|
      invariant k <= |tasks| && FirstId(tasks, id) == k + FirstId(tasks[k..], id)
    {
      if tasks[k].id == id {
        return;
      }
      assert tasks[k..][1..] == tasks[k + 1..];
      k := k + 1;
    }
  }

  // ---------------------------------------------------------------- one rewrite of the text

  /** Task lines and date lines aside, the two texts have the same lines. */
  predicate OnlyTasksAndDate(text: string, text': string, word: CharClass) {
    && |SplitKeep(text')| == |SplitKeep(text)|
    && forall i :: 0 <= i < |SplitKeep(text)| ==>
         || Kinds(SplitLines(text), word)[i].Head? || LAST <= SplitKeep(text)[i]
         || SplitKeep(text')[i] == SplitKeep(text)[i]
  }

  lemma LineKindOf(text: string, i: nat, word: CharClass)
    requires i < |SplitKeep(text)|
    ensures Kinds(SplitLines(text), word)[i] == Classify(Chomp(SplitKeep(text)[i]), word)
  {
  }

  lemma OnlyTasksAndDateTwice(a: string, b: string, c: string, word: CharClass)
    requires OnlyTasksAndDate(a, b, word) && OnlyTasksAndDate(b, c, word)
    ensures OnlyTasksAndDate(a, c, word)
  {
    forall i | 0 <= i < |SplitKeep(a)|
      ensures Kinds(SplitLines(a), word)[i].Head? || LAST <= SplitKeep(a)[i] || SplitKeep(c)[i] == SplitKeep(a)[i]
    {
      LineKindOf(a, i, word);
      LineKindOf(b, i, word);
    }
  }

  /** All lines but the named one and those of dates are the same. */
  predicate OnlyLineAndDate(text: string, text': string, lineIdx: nat) {
    && |SplitKeep(text')| == |SplitKeep(text)|
    && forall i :: 0 <= i < |SplitKeep(text)| && i != lineIdx && !(LAST <= SplitKeep(text)[i]) ==>
         SplitKeep(text')[i] == SplitKeep(text)[i]
  }

  lemma UpdateKeepsLines(text: string, today: string, digit: CharClass)
    requires DigitsInLine(digit) && IsDate(today)
    ensures var text' := UpdateLastUpdated(text, today, digit);
            && |SplitKeep(text')| == |SplitKeep(text)|
            && forall i :: 0 <= i < |SplitKeep(text)| && !(LAST <= SplitKeep(text)[i]) ==>
                 SplitKeep(text')[i] == SplitKeep(text)[i]
  {
    var p := FirstDated(text, 0, digit);
    if p < |text| {
      var k := RedatedIsOneLine(text, p, today, digit);
      DatedLineOnly(text, UpdateLastUpdated(text, today, digit), k);
    }
  }

  lemma DatedLineOnly(text: string, text': string, k: nat)
    requires OneLineDated(text, text', k)
    ensures |SplitKeep(text')| == |SplitKeep(text)|
    ensures forall i :: 0 <= i < |SplitKeep(text)| && i != k ==> SplitKeep(text')[i] == SplitKeep(text)[i]
  {
    var line :| LAST <= line && SameBreak(SplitKeep(text)[k], line) && text' == Join(SplitKeep(text)[k := line]);
    SplitOfReplaced(text, k, line);
  }

  /** The text with task k flipped and the date refreshed. */
  ghost function Rewritten(text: string, k: nat, s: Status, today: string, digit: CharClass, word: CharClass): string
    requires k < |ParseLedger(text, word)|
  {
    WriteThenParse(text, ParseLedger(text, word)[k], s, word);
    UpdateLastUpdated(WriteStatus(text, ParseLedger(text, word)[k].lineIdx, s).value, today, digit)
  }

  /** A rewrite sets one status, and touches one task line and one date line at most. */
  lemma RewriteIsOneStatus(text: string, k: nat, s: Status, today: string, digit: CharClass, word: CharClass)
    requires k < |ParseLedger(text, word)| && DigitsInLine(digit) && IsDate(today)
    ensures var text' := Rewritten(text, k, s, today, digit, word);
            && ParseLedger(text', word) == Put(ParseLedger(text, word), k, s)
            && OnlyLineAndDate(text, text', ParseLedger(text, word)[k].lineIdx)
            && OnlyTasksAndDate(text, text', word)
  {
    var t := ParseLedger(text, word)[k];
    WriteThenParse(text, t, s, word);
    SetStatusIsPut(text, k, s, word);
    var written := WriteStatus(text, t.lineIdx, s).value;
    UpdateKeepsTasks(written, today, digit, word);
    UpdateKeepsLines(written, today, digit);
    LinesOfRewrite(text, written, UpdateLastUpdated(written, today, digit), t.lineIdx);
    TaskIsOnItsLine(text, t, word);
  }

  lemma LinesOfRewrite(text: string, written: string, text': string, lineIdx: nat)
    requires OtherLinesSame(text, written, lineIdx) && |SplitKeep(text')| == |SplitKeep(written)|
    requires forall i :: 0 <= i < |SplitKeep(written)| && !(LAST <= SplitKeep(written)[i]) ==>
               SplitKeep(text')[i] == SplitKeep(written)[i]
    ensures OnlyLineAndDate(text, text', lineIdx)
  {
  }

  // ---------------------------------------------------------------- the commands on the text

  ghost function AdvanceText(
      text: string, force: bool, passes: bool, today: string, digit: CharClass, word: CharClass): string
    requires DigitsInLine(digit) && IsDate(today)
  {
    var tasks := ParseLedger(text, word);
    var k := Target(tasks);
    if k == |tasks| then text
    else
      var started := if tasks[k].status == InProgress then text else Rewritten(text, k, InProgress, today, digit, word);
      if !Closes(tasks[k], force, passes) then started
      else
        StartedTasks(text, today, digit, word);
        Rewritten(started, FirstId(ParseLedger(started, word), tasks[k].id), Done, today, digit, word)
  }

  lemma StartedTasks(text: string, today: string, digit: CharClass, word: CharClass)
    requires DigitsInLine(digit) && IsDate(today) && Target(ParseLedger(text, word)) < |ParseLedger(text, word)|
    ensures var tasks := ParseLedger(text, word);
            var k := Target(tasks);
            var started := if tasks[k].status == InProgress then text else Rewritten(text, k, InProgress, today, digit, word);
            && ParseLedger(started, word) == Put(tasks, k, InProgress)
            && FirstId(ParseLedger(started, word), tasks[k].id) < |ParseLedger(started, word)|
            && OnlyTasksAndDate(text, started, word)
  {
    var tasks := ParseLedger(text, word);
    var k := Target(tasks);
    if tasks[k].status == InProgress {
      PutSame(tasks, k);
    } else {
      RewriteIsOneStatus(text, k, InProgress, today, digit, word);
    }
    FirstIdIsFirst(Put(tasks, k, InProgress), tasks[k].id, k);
  }

  /** The command steps the parsed tasks as the status machine does, and touches task lines and the date
    only. */
  lemma AdvanceTextIsAdvance(
      text: string, force: bool, passes: bool, today: string, digit: CharClass, word: CharClass)
    requires DigitsInLine(digit) && IsDate(today)
    ensures var text' := AdvanceText(text, force, passes, today, digit, word);
            && ParseLedger(text', word) == Advance(ParseLedger(text, word), force, passes)
            && OnlyTasksAndDate(text, text', word)
  {
    var tasks := ParseLedger(text, word);
    var k := Target(tasks);
    if k < |tasks| {
      StartedTasks(text, today, digit, word);
      var started := if tasks[k].status == InProgress then text else Rewritten(text, k, InProgress, today, digit, word);
      if Closes(tasks[k], force, passes) {
        var j := FirstId(ParseLedger(started, word), tasks[k].id);
        RewriteIsOneStatus(started, j, Done, today, digit, word);
        OnlyTasksAndDateTwice(text, started, Rewritten(started, j, Done, today, digit, word), word);
      }
    }
  }

  ghost function BlockText(text: string, id: string, today: string, digit: CharClass, word: CharClass): string {
    var k := FirstId(ParseLedger(text, word), id);
    if k == |ParseLedger(text, word)| then text else Rewritten(text, k, Blocked, today, digit, word)
  }

  lemma BlockTextIsBlock(text: string, id: string, today: string, digit: CharClass, word: CharClass)
    requires DigitsInLine(digit) && IsDate(today)
    ensures var text' := BlockText(text, id, today, digit, word);
            && ParseLedger(text', word) == Block(ParseLedger(text, word), id)
            && OnlyTasksAndDate(text, text', word)
  {
    var k := FirstId(ParseLedger(text, word), id);
    if k < |ParseLedger(text, word)| {
      RewriteIsOneStatus(text, k, Blocked, today, digit, word);
    }
  }

  /** The ledger file. */
  class LedgerFile {
    var text: string

    /** One status written, the date refreshed. */
    method Rewrite(tasks: seq<Task>, k: nat, s: Status, today: string, digit: CharClass, word: CharClass)
      requires tasks == ParseLedger(text, word) && k < |tasks|
      requires DigitsInLine(digit) && IsDate(today)
      modifies this
      ensures text == Rewritten(old(text), k, s, today, digit, word)
      ensures ParseLedger(text, word) == Put(tasks, k, s)
      ensures OnlyLineAndDate(old(text), text, tasks[k].lineIdx)
    {
      RewriteIsOneStatus(text, k, s, today, digit, word);
      WriteThenParse(text, tasks[k], s, word);
      text := WriteStatus(text, tasks[k].lineIdx, s).value;
      text := UpdateLastUpdated(text, today, digit);
    }

    method CmdAdvance(force: bool, passes: bool, today: string, digit: CharClass, word: CharClass)
      requires DigitsInLine(digit) && IsDate(today)
      modifies this
      ensures text == AdvanceText(old(text), force, passes, today, digit, word)
      ensures ParseLedger(text, word) == Advance(old(ParseLedger(text, word)), force, passes)
      ensures OnlyTasksAndDate(old(text), text, word)
    {
      AdvanceTextIsAdvance(text, force, passes, today, digit, word);
      var tasks := ParseLedgerLoop(text, word);
      var k := FindStatus(tasks, InProgress);
      if k == |tasks| {
        k := FindStatus(tasks, Pending);
        if k == |tasks| {
          return;
        }
        Rewrite(tasks, k, InProgress, today, digit, word);
      }
      var target := tasks[k];
      if target.verify.None? || target.IsManual() {
        if !force {
          return;
        }
      } else if !passes {
        return;
      }
      StartedTasks(old(text), today, digit, word);
      var started := ParseLedgerLoop(text, word);
      var j := FindId(started, target.id);
      Rewrite(started, j, Done, today, digit, word);
    }

    method CmdBlock(id: string, today: string, digit: CharClass, word: CharClass) returns (found: bool)
      requires DigitsInLine(digit) && IsDate(today)
      modifies this
      ensures text == BlockText(old(text), id, today, digit, word)
      ensures ParseLedger(text, word) == Block(old(ParseLedger(text, word)), id)
      ensures OnlyTasksAndDate(old(text), text, word)
      ensures found == exists t :: t in old(ParseLedger(text, word)) && t.id == id
      ensures !found ==> text == old(text)
    {
      BlockTextIsBlock(text, id, today, digit, word);
      var tasks := ParseLedgerLoop(text, word);
      var k := FindId(tasks, id);
      found := k < |tasks|;
      FoundId(tasks, id);
      if found {
        Rewrite(tasks, k, Blocked, today, digit, word);
      }
    }
  }

  lemma FoundId(tasks: seq<Task>, id: string)
    ensures FirstId(tasks, id) < |tasks| <==> exists t :: t in tasks && t.id == id
  {
  }
}
