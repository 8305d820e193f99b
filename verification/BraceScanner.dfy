/** The scan for the last balanced object in a model's answer: braces are counted outside string
  literals only.
*/
module BraceScanner {
  import opened Wrappers

  /** The scanner between two characters; a candidate is kept by where it starts and ends. */
  datatype State = State(depth: int, start: int, inStr: bool, esc: bool, cand: Option<(int, int)>)

  const INIT: State := State(0, -1, false, false, None)

  function Step(s: State, ch: char, i: int): State {
    if s.inStr then
      if s.esc then s.(esc := false)
      else if ch == '\\' then s.(esc := true)
      else if ch == '"' then s.(inStr := false)
      else s
    else if ch == '"' then s.(inStr := true)
    else if ch == '{' then s.(depth := s.depth + 1, start := if s.depth == 0 then i else s.start)
    else if ch == '}' && s.depth > 0 then
      s.(depth := s.depth - 1, cand := if s.depth == 1 && s.start >= 0 then Some((s.start, i + 1)) else s.cand)
    else s
  }

  /** The scanner after the first k characters. */
  function Run(text: string, k: nat): State
    requires k <= |text|
  {
    if k == 0 then INIT else Step(Run(text, k - 1), text[k - 1], k - 1)
  }

  function Scan(text: string): Option<(int, int)> {
    Run(text, |text|).cand
  }

  // ---------------------------------------------------------------- what the scanner has seen

  /** Outside every brace and every string. */
  predicate Clean(text: string, k: nat)
    requires k <= |text|
  {
    Run(text, k).depth == 0 && !Run(text, k).inStr
  }

  predicate Deep(text: string, j: nat)
    requires j <= |text|
  {
    Run(text, j).depth > 0
  }

  /** A brace opened in the clear at a, and not closed up to k. */
  predicate Open(text: string, a: int, k: nat)
    requires k <= |text|
  {
    0 <= a < k && text[a] == '{' && Clean(text, a) && forall j: nat :: a < j <= k ==> Deep(text, j)
  }

  /** A brace opened in the clear at a, and closed by the brace before b and by none before it. */
  predicate Object(text: string, a: int, b: int) {
    && 0 <= a < b - 1 < |text| && Open(text, a, b - 1) && text[b - 1] == '}' && Clean(text, b)
  }

  ghost predicate Sound(text: string, k: nat)
    requires k <= |text|
  {
    var s := Run(text, k);
    && s.depth >= 0 && (s.esc ==> s.inStr)
    && (s.depth > 0 ==> Open(text, s.start, k))
    && (s.cand.Some? ==> s.cand.value.1 <= k && Object(text, s.cand.value.0, s.cand.value.1))
  }

  lemma {:induction false} RunIsSound(text: string, k: nat)
    requires k <= |text|
    ensures Sound(text, k)
  {
    if k > 0 {
      RunIsSound(text, k - 1);
      OpenStep(text, k - 1);
      CandStep(text, k - 1);
    }
  }

  lemma OpenStep(text: string, k: nat)
    requires k < |text| && Sound(text, k)
    ensures var s := Run(text, k + 1);
            s.depth >= 0 && (s.esc ==> s.inStr) && (s.depth > 0 ==> Open(text, s.start, k + 1))
  {
  }

  lemma CandStep(text: string, k: nat)
    requires k < |text| && Sound(text, k)
    ensures var s := Run(text, k + 1);
            s.cand.Some? ==> s.cand.value.1 <= k + 1 && Object(text, s.cand.value.0, s.cand.value.1)
  {
  }

  /** The scanner as it runs. */
  method ScanLoop(text: string) returns (candidate: Option<string>)
    ensures candidate.Some? <==> Scan(text).Some?
    ensures candidate.Some? ==> var (a, b) := Scan(text).value; Object(text, a, b) && candidate.value == text[a..b]
  {
    var depth, start, inStr, escape := 0, -1, false, false;
    candidate := None;
    ghost var found: Option<(int, int)> := None;
    for i := 0 to |text|
      invariant Run(text, i) == State(depth, start, inStr, escape, found)
      invariant candidate.Some? <==> found.Some?
      invariant found.Some? ==> 0 <= found.value.0 <= found.value.1 <= |text|
      invariant found.Some? ==> candidate.value == text[found.value.0..found.value.1]
    {
      var ch := text[i];
      RunIsSound(text, i);
      if inStr {
        if escape {
          escape := false;
        } else if ch == '\\' {
          escape := true;
        } else if ch == '"' {
          inStr := false;
        }
      } else if ch == '"' {
        inStr := true;
      } else if ch == '{' {
        if depth == 0 {
          start := i;
        }
        depth := depth + 1;
      } else if ch == '}' {
        if depth > 0 {
          depth := depth - 1;
          if depth == 0 && start >= 0 {
            candidate := Some(text[start..i + 1]);
            found := Some((start, i + 1));
          }
        }
      }
    }
    RunIsSound(text, |text|);
  }

  // ---------------------------------------------------------------- scanning a text in parts

  function Shift(cand: Option<(int, int)>, n: int): Option<(int, int)> {
    if cand.Some? then Some((cand.value.0 + n, cand.value.1 + n)) else None
  }

  lemma {:induction false} RunOfPrefix(x: string, y: string, k: nat)
    requires k <= |x|
    ensures Run(x + y, k) == Run(x, k)
  {
    if k > 0 {
      RunOfPrefix(x, y, k - 1);
    }
  }

  /** The scanner's view of the second part: positions shifted, the first part's candidate kept until
    there is a new one. */
  ghost predicate Follows(all: State, part: State, before: Option<(int, int)>, n: int) {
    && all.depth == part.depth && all.inStr == part.inStr && all.esc == part.esc
    && (part.depth > 0 ==> part.start >= 0 && all.start == part.start + n)
    && all.cand == if part.cand.Some? then Shift(part.cand, n) else before
  }

  /** After a part that leaves the scanner in the clear, the rest is scanned as if it stood alone. */
  lemma {:induction false} RunAfterClean(x: string, y: string, k: nat)
    requires Clean(x, |x|) && k <= |y|
    ensures Follows(Run(x + y, |x| + k), Run(y, k), Scan(x), |x|)
  {
    if k == 0 {
      RunOfPrefix(x, y, |x|);
      RunIsSound(x, |x|);
    } else {
      RunAfterClean(x, y, k - 1);
      RunIsSound(y, k - 1);
      assert (x + y)[|x| + k - 1] == y[k - 1];
      FollowsStep(Run(x + y, |x| + k - 1), Run(y, k - 1), Scan(x), |x|, y[k - 1], k - 1);
    }
  }

  lemma FollowsStep(all: State, part: State, before: Option<(int, int)>, n: nat, ch: char, i: nat)
    requires Follows(all, part, before, n) && part.depth >= 0
    ensures Follows(Step(all, ch, n + i), Step(part, ch, i), before, n)
  {
  }

  lemma ScanOfParts(x: string, y: string)
    requires Clean(x, |x|)
    ensures Scan(x + y) == if Scan(y).Some? then Shift(Scan(y), |x|) else Scan(x)
    ensures Clean(x + y, |x + y|) <==> Clean(y, |y|)
  {
    RunAfterClean(x, y, |y|);
  }

  // ---------------------------------------------------------------- what comes out

  /** One whole object: its braces balance at its end and not before. */
  predicate Balanced(obj: string) {
    Object(obj, 0, |obj|)
  }

  lemma BalancedScans(obj: string)
    requires Balanced(obj)
    ensures Scan(obj) == Some((0, |obj|)) && Clean(obj, |obj|)
  {
    var k: nat := |obj| - 1;
    RunIsSound(obj, k);
    StartIsZero(obj, k);
    assert Deep(obj, k);
    assert Run(obj, k + 1) == Step(Run(obj, k), '}', k);
  }

  lemma StartIsZero(obj: string, k: nat)
    requires k < |obj| && Open(obj, 0, k)
    ensures Run(obj, k).start == 0
  {
    RunIsSound(obj, k);
    var a := Run(obj, k).start;
    assert Deep(obj, k);
    CleanIsNotDeep(obj, a);
  }

  lemma CleanIsNotDeep(text: string, k: nat)
    requires k <= |text| && Clean(text, k)
    ensures !Deep(text, k)
  {
  }

  lemma {:induction false} ObjectCut(text: string, a: nat, b: nat, k: nat)
    requires Object(text, a, b) && k <= b - a
    ensures var s := Run(text[a..b], k); var t := Run(text, a + k);
            s.depth == t.depth && s.inStr == t.inStr && s.esc == t.esc
  {
    var x, y := text[..a], text[a..b];
    assert x + y + text[b..] == text;
    RunOfPrefix(x, y + text[b..], a);
    assert x + (y + text[b..]) == text;
    RunAfterClean(x, y, k);
    RunOfPrefix(x + y, text[b..], a + k);
  }

  /** An object of a text, cut out, is balanced. */
  lemma ObjectIsBalanced(text: string, a: nat, b: nat)
    requires Object(text, a, b)
    ensures Balanced(text[a..b])
  {
    var obj := text[a..b];
    assert obj[0] == '{' && obj[b - a - 1] == '}';
    ObjectCut(text, a, b, b - a);
    forall j: nat | 0 < j <= b - a - 1
      ensures Deep(obj, j)
    {
      ObjectCut(text, a, b, j);
      assert Deep(text, a + j);
    }
  }

  /** What the scanner finds starts and ends with a brace, none of its proper beginnings is balanced, and
    scanning it again finds all of it. */
  lemma ScanIsIdempotent(text: string)
    requires Scan(text).Some?
    ensures var (a, b) := Scan(text).value;
            0 <= a < b <= |text| && Balanced(text[a..b]) && Scan(text[a..b]) == Some((0, b - a))
  {
    RunIsSound(text, |text|);
    var (a, b) := Scan(text).value;
    ObjectIsBalanced(text, a, b);
    BalancedScans(text[a..b]);
  }

  /** A balanced object is found in its place exactly when what stands before it leaves the scanner in
    the clear and what stands after it holds no object of its own. */
  lemma FindsObjectExactly(pre: string, obj: string, post: string)
    requires Balanced(obj)
    ensures Scan(pre + obj + post) == Some((|pre|, |pre| + |obj|)) <==> Clean(pre, |pre|) && Scan(post).None?
  {
    var text := pre + obj + post;
    assert text == pre + (obj + post);
    RunOfPrefix(pre, obj + post, |pre|);
    RunIsSound(text, |text|);
    if Clean(pre, |pre|) {
      BalancedScans(obj);
      ScanOfParts(pre, obj);
      ScanOfParts(pre + obj, post);
      RunIsSound(post, |post|);
    }
  }

  predicate Plain(text: string) {
    forall i :: 0 <= i < |text| ==> text[i] != '{' && text[i] != '}' && text[i] != '"'
  }

  lemma {:induction false} PlainRun(text: string, k: nat)
    requires Plain(text) && k <= |text|
    ensures Run(text, k) == INIT
  {
    if k > 0 {
      PlainRun(text, k - 1);
    }
  }

  /** An object in text without braces and quotes is found. */
  lemma FindsObjectInPlainText(pre: string, obj: string, post: string)
    requires Balanced(obj) && Plain(pre) && Plain(post)
    ensures Scan(pre + obj + post) == Some((|pre|, |pre| + |obj|))
  {
    PlainRun(pre, |pre|);
    PlainRun(post, |post|);
    FindsObjectExactly(pre, obj, post);
  }

  /** An earlier brace that nothing closes, or a stray quote, hides the object. */
  lemma StrayHidesObject(obj: string)
    requires Balanced(obj)
    ensures Scan("{" + obj + "") != Some((1, 1 + |obj|))
    ensures Scan("\"" + obj + "") != Some((1, 1 + |obj|))
  {
    assert Run("{", 1) == Step(INIT, '{', 0);
    assert Run("\"", 1) == Step(INIT, '"', 0);
    FindsObjectExactly("{", obj, "");
    FindsObjectExactly("\"", obj, "");
  }
}
