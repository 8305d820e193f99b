/** The command that a verify line quotes: what is cut out of it, and when that is the command. */
module LedgerQuoting {
  import opened Ledger

  const TICK: char := '`'

  predicate NoTick(s: string) {
    forall i :: 0 <= i < |s| ==> s[i] != TICK
  }

  predicate Stripped(s: string) {
    s == "" || (!PySpace(s[0]) && !PySpace(s[|s| - 1]))
  }

  predicate Wrapped(s: string) {
    |s| >= 2 && s[0] == TICK && s[|s| - 1] == TICK
  }

  /** The peeling loop and the cut, as they run. */
  method StripQuotingLoop(value: string) returns (r: string)
    ensures r == StripMarkdownQuoting(value)
  {
    var s := Strip(value);
    while |s| >= 2 && s[0] == '`' && s[|s| - 1] == '`'
      invariant Peel(s) == Peel(Strip(value))
      decreases |s|
    {
      s := Strip(s[1..|s| - 1]);
    }
    var first := Find(s, '`');
    if first < |s| {
      var rest := s[first + 1..];
      var end := Find(rest, '`');
      if end < |rest| {
        return Strip(rest[..end]);
      }
    }
    return s;
  }

  // ---------------------------------------------------------------- stripping

  lemma {:induction false} StripEndKeepsStart(s: string)
    requires s != "" && !PySpace(s[0])
    ensures Stripped(StripEnd(s)) && StripEnd(s) != "" && StripEnd(s)[0] == s[0]
  {
    if PySpace(s[|s| - 1]) {
      StripEndKeepsStart(s[..|s| - 1]);
    }
  }

  lemma {:induction false} StripIsStripped(s: string)
    ensures Stripped(Strip(s))
  {
    if s != "" && PySpace(s[0]) {
      StripIsStripped(s[1..]);
    } else if s != "" {
      StripEndKeepsStart(s);
    }
  }

  lemma {:induction false} StripEndTicks(s: string)
    requires NoTick(s)
    ensures NoTick(StripEnd(s))
  {
    if s != "" && PySpace(s[|s| - 1]) {
      StripEndTicks(s[..|s| - 1]);
    }
  }

  lemma {:induction false} StripTicks(s: string)
    requires NoTick(s)
    ensures NoTick(Strip(s))
  {
    if s != "" && PySpace(s[0]) {
      StripTicks(s[1..]);
    } else {
      StripEndTicks(s);
    }
  }

  lemma {:induction false} StripEndAppend(x: string, y: string)
    requires x != "" && !PySpace(x[|x| - 1])
    ensures StripEnd(x + y) == x + StripEnd(y)
  {
    if y == "" {
      assert x + y == x;
    } else if PySpace(y[|y| - 1]) {
      assert (x + y)[..|x + y| - 1] == x + y[..|y| - 1];
      StripEndAppend(x, y[..|y| - 1]);
    }
  }

  lemma {:induction false} FindFirst(s: string, c: char)
    ensures forall i :: 0 <= i < Find(s, c) ==> s[i] != c
    ensures Find(s, c) < |s| ==> s[Find(s, c)] == c
  {
    if s != "" && s[0] != c {
      FindFirst(s[1..], c);
      assert forall i :: 1 <= i < Find(s, c) ==> s[i] == s[1..][i - 1];
    }
  }

  lemma FindIs(s: string, c: char, k: nat)
    requires k <= |s| && (forall i :: 0 <= i < k ==> s[i] != c) && (k < |s| ==> s[k] == c)
    ensures Find(s, c) == k
  {
    FindFirst(s, c);
    assert Find(s, c) <= k ==> Find(s, c) == k;
    assert k <= Find(s, c) ==> Find(s, c) == k;
  }

  // ---------------------------------------------------------------- the cut

  /** What is cut out of a text that no pair of backticks wraps. */
  function Cut(s: string): string {
    var first := Find(s, '`');
    if first == |s| then s
    else
      var rest := s[first + 1..];
      var end := Find(rest, '`');
      if end == |rest| then s else Strip(rest[..end])
  }

  lemma {:induction false} PeelEnds(s: string)
    requires Stripped(s)
    ensures Stripped(Peel(s)) && !Wrapped(Peel(s))
    decreases |s|
  {
    if Wrapped(s) {
      StripIsStripped(s[1..|s| - 1]);
      PeelEnds(Strip(s[1..|s| - 1]));
    }
  }

  lemma CutOfPeeled(value: string)
    ensures StripMarkdownQuoting(value) == Cut(Peel(Strip(value)))
  {
  }

  /** A text that is stripped and not wrapped is cut as it stands. */
  lemma CutOnly(s: string)
    requires Stripped(s) && !Wrapped(s)
    ensures StripMarkdownQuoting(s) == Cut(s)
  {
    StripOfStripped(s);
  }

  lemma StripOfStripped(s: string)
    requires Stripped(s)
    ensures Strip(s) == s
  {
  }

  lemma CutOfPlain(s: string)
    requires NoTick(s)
    ensures Cut(s) == s && !Wrapped(s)
  {
    FindIs(s, TICK, |s|);
  }

  /** The command is cut out once: cutting it again gives the same. */
  lemma QuotingIsIdempotent(value: string)
    ensures StripMarkdownQuoting(StripMarkdownQuoting(value)) == StripMarkdownQuoting(value)
  {
    StripIsStripped(value);
    PeelEnds(Strip(value));
    CutOfPeeled(value);
    CutAgain(Peel(Strip(value)));
  }

  lemma CutAgain(s: string)
    requires Stripped(s) && !Wrapped(s)
    ensures StripMarkdownQuoting(Cut(s)) == Cut(s)
  {
    if Cut(s) == s {
      CutOnly(s);
    } else {
      var rest := s[Find(s, TICK) + 1..];
      FindFirst(rest, TICK);
      PlainAgain(rest[..Find(rest, TICK)]);
    }
  }

  lemma PlainAgain(inner: string)
    requires NoTick(inner)
    ensures StripMarkdownQuoting(Strip(inner)) == Strip(inner)
  {
    StripTicks(inner);
    StripIsStripped(inner);
    CutOfPlain(Strip(inner));
    CutOnly(Strip(inner));
  }

  /** A quoted command with something after it. */
  function Quoted(cmd: string, tail: string): string {
    [TICK] + cmd + [TICK] + tail
  }

  predicate Command(cmd: string) {
    cmd != "" && NoTick(cmd) && Stripped(cmd)
  }

  /** The text after the command ends in a backtick of its own. */
  predicate EndsInTick(tail: string) {
    tail != "" && tail[|tail| - 1] == TICK
  }

  /** A second span repeats the command: the only way out when the text ends in a backtick. */
  predicate Repeats(cmd: string, tail: string) {
    var t := StripEnd(tail);
    Find(t, TICK) < |t| && Strip(t[..Find(t, TICK)]) == cmd
  }

  /** A verify line that quotes its command, with prose before or after it, gives the command exactly when
    there is prose before it, or what follows does not end in a backtick, or else quotes the command again:
    with the quotes of two spans at both ends, these are taken for the quotes of the whole line. */
  lemma QuotedCommandIsFound(value: string, lead: string, cmd: string, tail: string)
    requires Strip(value) == lead + Quoted(cmd, tail) && NoTick(lead) && Command(cmd)
    ensures StripMarkdownQuoting(value) == cmd <==>
            lead != "" || !EndsInTick(tail) || Repeats(cmd, tail[..|tail| - 1])
  {
    StripIsStripped(value);
    var v := Strip(value);
    CutOfPeeled(value);
    StripOfStripped(v);
    CutOfPeeled(v);
    if lead == "" {
      assert v == Quoted(cmd, tail);
      assert tail != "" ==> v[|v| - 1] == tail[|tail| - 1];
      CommandInFront(cmd, tail);
    } else {
      assert v[0] == lead[0];
      CutOnly(v);
      CutOfQuoted(lead, cmd, tail);
    }
  }

  lemma CommandInFront(cmd: string, tail: string)
    requires Command(cmd) && (tail == "" || !PySpace(tail[|tail| - 1]))
    ensures StripMarkdownQuoting(Quoted(cmd, tail)) == cmd <==>
            !EndsInTick(tail) || Repeats(cmd, tail[..|tail| - 1])
  {
    if tail == "" {
      FullyQuoted(cmd);
    } else if tail[|tail| - 1] == TICK {
      EndsQuoted(cmd, tail[..|tail| - 1]);
      assert tail == tail[..|tail| - 1] + [TICK];
    } else {
      QuotedThenProse(cmd, tail);
    }
  }

  lemma FullyQuoted(cmd: string)
    requires Command(cmd)
    ensures StripMarkdownQuoting(Quoted(cmd, "")) == cmd
  {
    var v := Quoted(cmd, "");
    StripOfStripped(v);
    assert Stripped(v) && v[0] == TICK && v[|v| - 1] == TICK;
    assert v[1..|v| - 1] == cmd;
    StripOfStripped(cmd);
    CutOfPlain(cmd);
    CutOfPeeled(v);
    assert Peel(v) == Peel(cmd) == cmd;
  }

  lemma QuotedThenProse(cmd: string, tail: string)
    requires Command(cmd) && tail != "" && !PySpace(tail[|tail| - 1]) && tail[|tail| - 1] != TICK
    ensures StripMarkdownQuoting(Quoted(cmd, tail)) == cmd
  {
    var v := Quoted(cmd, tail);
    assert v[0] == TICK && v[|v| - 1] == tail[|tail| - 1];
    CutOnly(v);
    EmptyLead(v);
    CutOfQuoted("", cmd, tail);
  }

  lemma EmptyLead(v: string)
    ensures "" + v == v
  {
  }

  lemma CutOfQuoted(lead: string, cmd: string, tail: string)
    requires NoTick(lead) && Command(cmd)
    ensures Cut(lead + Quoted(cmd, tail)) == cmd
  {
    var v := lead + Quoted(cmd, tail);
    FindIs(v, TICK, |lead|);
    var rest := v[|lead| + 1..];
    assert rest == cmd + [TICK] + tail;
    FindIs(rest, TICK, |cmd|);
    assert rest[..|cmd|] == cmd;
    StripOfStripped(cmd);
  }

  /** Peeled once, the line starts with the bare command, and the next span is cut out. */
  lemma EndsQuoted(cmd: string, tail: string)
    requires Command(cmd)
    ensures StripMarkdownQuoting(Quoted(cmd, tail + [TICK])) == cmd <==> Repeats(cmd, tail)
  {
    var v := Quoted(cmd, tail + [TICK]);
    var t := StripEnd(tail);
    var s := cmd + [TICK] + t;
    assert v[0] == TICK && v[|v| - 1] == TICK && v[1..|v| - 1] == cmd + [TICK] + tail;
    StripOfStripped(v);
    StripEndAppend(cmd + [TICK], tail);
    assert (cmd + [TICK] + tail)[0] == cmd[0];
    assert Strip(v[1..|v| - 1]) == s;
    assert s[0] == cmd[0];
    assert Peel(v) == s;
    FindIs(s, TICK, |cmd|);
    assert s[|cmd| + 1..] == t;
    assert Cut(s) == if Find(t, TICK) == |t| then s else Strip(t[..Find(t, TICK)]);
    assert |s| > |cmd|;
  }

  /** Such a line: the command is a, what would be run is b. */
  lemma WrongSpanExample()
    ensures StripMarkdownQuoting("`a` b `c`") != "a"
  {
    var tail := " b `c";
    assert "`a` b `c`" == Quoted("a", tail + [TICK]);
    assert StripEnd(tail) == tail;
    FindIs(tail, TICK, 3);
    assert tail[..3] == " b " && " b "[1..] == "b " && "b "[..1] == "b";
    assert Strip(" b ") == StripEnd("b ") == "b";
    EndsQuoted("a", tail);
  }
}
