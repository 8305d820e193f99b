/** What the brace scanner finds, said by a grammar of strings and objects that knows no scanner. */
module BraceGrammar {
  import opened Wrappers
  import opened BraceScanner

  // ---------------------------------------------------------------- the grammar

  /** What stands between two quotes: a backslash takes the character after it along. */
  predicate Body(u: string) {
    || u == ""
    || (u[0] != '"' && u[0] != '\\' && Body(u[1..]))
    || (u[0] == '\\' && |u| >= 2 && Body(u[2..]))
  }

  predicate Str(s: string) {
    |s| >= 2 && s[0] == '"' && s[|s| - 1] == '"' && Body(s[1..|s| - 1])
  }

  /** What stands between two braces: other characters, strings and objects. */
  predicate Inside(s: string)
    decreases |s|, 1
  {
    || s == ""
    || (s[0] != '"' && s[0] != '{' && s[0] != '}' && Inside(s[1..]))
    || (exists n :: 0 < n <= |s| && Str(s[..n]) && Inside(s[n..]))
    || (exists n :: 0 < n <= |s| && Obj(s[..n]) && Inside(s[n..]))
  }

  predicate Obj(s: string)
    decreases |s|, 0
  {
    |s| >= 2 && s[0] == '{' && s[|s| - 1] == '}' && Inside(s[1..|s| - 1])
  }

  /** A text in which everything opened is closed; a closing brace too many is a character like others. */
  predicate Clear(s: string)
    decreases |s|
  {
    || s == ""
    || (s[0] != '"' && s[0] != '{' && Clear(s[1..]))
    || (exists n :: 0 < n <= |s| && Str(s[..n]) && Clear(s[n..]))
    || (exists n :: 0 < n <= |s| && Obj(s[..n]) && Clear(s[n..]))
  }

  /** A single character that opens and closes nothing. */
  predicate Plain1(s: string) {
    |s| == 1 && s[0] != '"' && s[0] != '{' && s[0] != '}'
  }

  predicate Piece(s: string) {
    Plain1(s) || Str(s) || Obj(s)
  }

  lemma FirstPiece(s: string) returns (n: nat)
    requires Inside(s) && s != ""
    ensures 0 < n <= |s| && Piece(s[..n]) && Inside(s[n..])
  {
    if s[0] != '"' && s[0] != '{' && s[0] != '}' && Inside(s[1..]) {
      n := 1;
    } else if k :| 0 < k <= |s| && Str(s[..k]) && Inside(s[k..]) {
      n := k;
    } else {
      n :| 0 < n <= |s| && Obj(s[..n]) && Inside(s[n..]);
    }
  }

  lemma FirstClearPiece(s: string) returns (n: nat)
    requires Clear(s) && s != ""
    ensures 0 < n <= |s| && (s[..n] == "}" || Piece(s[..n])) && Clear(s[n..])
  {
    if s[0] != '"' && s[0] != '{' && Clear(s[1..]) {
      n := 1;
    } else if k :| 0 < k <= |s| && Str(s[..k]) && Clear(s[k..]) {
      n := k;
    } else {
      n :| 0 < n <= |s| && Obj(s[..n]) && Clear(s[n..]);
    }
  }

  lemma Slice(text: string, a: nat, b: nat, i: nat, j: nat)
    requires a <= b <= |text| && i <= j <= b - a
    ensures text[a..b][i..j] == text[a + i..a + j]
  {
    assert |text[a..b][i..j]| == j - i == |text[a + i..a + j]|;
    assert forall k :: 0 <= k < j - i ==> text[a..b][i..j][k] == text[a + i..a + j][k];
  }

  lemma FirstPieceAt(text: string, a: nat, b: nat) returns (m: nat)
    requires a < b <= |text| && Inside(text[a..b])
    ensures a < m <= b && Piece(text[a..m]) && Inside(text[m..b])
  {
    var n := FirstPiece(text[a..b]);
    m := a + n;
    CutSlice(text, a, b, n);
  }

  lemma CutSlice(text: string, a: nat, b: nat, n: nat)
    requires a <= b <= |text| && n <= b - a
    ensures text[a..b][..n] == text[a..a + n] && text[a..b][n..] == text[a + n..b]
  {
  }

  lemma FirstClearPieceAt(text: string, a: nat) returns (m: nat)
    requires a < |text| && Clear(text[a..])
    ensures a < m <= |text| && (text[a..m] == "}" || Piece(text[a..m])) && Clear(text[m..])
  {
    var n := FirstClearPiece(text[a..]);
    m := a + n;
    assert text[a..][..n] == text[a..m] && text[a..][n..] == text[m..];
  }

  // ---------------------------------------------------------------- strings leave no trace

  lemma {:induction false} BodyRuns(text: string, a: nat, b: nat)
    requires a <= b <= |text| && Body(text[a..b])
    requires Run(text, a).inStr && !Run(text, a).esc
    ensures Run(text, b) == Run(text, a)
    ensures forall j: nat :: a <= j <= b ==> Run(text, j).depth == Run(text, a).depth
    decreases b - a
  {
    if a < b {
      var u := text[a..b];
      if u[0] == '\\' {
        assert u[2..] == text[a + 2..b];
        BodyRuns(text, a + 2, b);
      } else {
        assert u[1..] == text[a + 1..b];
        BodyRuns(text, a + 1, b);
      }
    }
  }

  /** The scanner is outside strings. */
  predicate Out(text: string, k: nat)
    requires k <= |text|
  {
    !Run(text, k).inStr && !Run(text, k).esc
  }

  lemma StrShape(text: string, a: nat, b: nat)
    requires a <= b <= |text| && Str(text[a..b])
    ensures a + 1 < b && text[a] == '"' && text[b - 1] == '"' && Body(text[a + 1..b - 1])
  {
    Slice(text, a, b, 1, b - a - 1);
    assert text[a] == text[a..b][0] && text[b - 1] == text[a..b][b - a - 1];
  }

  lemma ObjShape(text: string, a: nat, b: nat)
    requires a <= b <= |text| && Obj(text[a..b])
    ensures a + 1 < b && text[a] == '{' && text[b - 1] == '}' && Inside(text[a + 1..b - 1])
  {
    Slice(text, a, b, 1, b - a - 1);
    assert text[a] == text[a..b][0] && text[b - 1] == text[a..b][b - a - 1];
  }

  lemma StrRuns(text: string, a: nat, b: nat)
    requires a <= b <= |text| && Str(text[a..b]) && Out(text, a)
    ensures Run(text, b) == Run(text, a)
    ensures forall j: nat :: a <= j <= b ==> Run(text, j).depth == Run(text, a).depth
  {
    StrShape(text, a, b);
    BodyRuns(text, a + 1, b - 1);
  }

  /** A string leaves the scanner as it was, whatever stands before it outside strings. */
  lemma StringIsSkipped(x: string, u: string)
    requires !Run(x, |x|).inStr && Body(u)
    ensures Run(x + ['"'] + u + ['"'], |x| + |u| + 2) == Run(x, |x|)
  {
    var s := ['"'] + u + ['"'];
    QuotedIsStr(u);
    Regroup(x, ['"'], u, ['"']);
    StrIsSkipped(x, s);
  }

  lemma QuotedIsStr(u: string)
    requires Body(u)
    ensures Str(['"'] + u + ['"'])
  {
    var s := ['"'] + u + ['"'];
    assert s[1..|s| - 1] == u;
  }

  lemma Regroup(x: string, y: string, u: string, z: string)
    ensures x + (y + u + z) == x + y + u + z
  {
  }

  lemma StrIsSkipped(x: string, s: string)
    requires !Run(x, |x|).inStr && Str(s)
    ensures Run(x + s, |x| + |s|) == Run(x, |x|)
  {
    RunOfPrefix(x, s, |x|);
    RunIsSound(x, |x|);
    assert (x + s)[|x|..|x + s|] == s;
    StrRuns(x + s, |x|, |x + s|);
  }

  // ---------------------------------------------------------------- objects balance

  /** Between a and b the scanner is never less deep than at a, and at b it is as it was at a. */
  ghost predicate Level(text: string, a: nat, b: nat)
    requires a <= b <= |text|
  {
    && Out(text, b) && Run(text, b).depth == Run(text, a).depth
    && forall j: nat :: a <= j <= b ==> Run(text, j).depth >= Run(text, a).depth
  }

  lemma LevelJoins(text: string, a: nat, m: nat, b: nat)
    requires a <= m <= b <= |text| && Level(text, a, m) && Level(text, m, b)
    ensures Level(text, a, b)
  {
  }

  lemma {:induction false} InsideRuns(text: string, a: nat, b: nat)
    requires a <= b <= |text| && Inside(text[a..b]) && Out(text, a) && Run(text, a).depth >= 0
    ensures Level(text, a, b)
    decreases b - a, 2
  {
    if a < b {
      var m := FirstPieceAt(text, a, b);
      PieceRuns(text, a, m);
      InsideRuns(text, m, b);
      LevelJoins(text, a, m, b);
    }
  }

  lemma {:induction false} PieceRuns(text: string, a: nat, b: nat)
    requires a <= b <= |text| && Piece(text[a..b]) && Out(text, a) && Run(text, a).depth >= 0
    ensures Level(text, a, b)
    decreases b - a, 1
  {
    if Plain1(text[a..b]) {
      assert text[a] == text[a..b][0] && b == a + 1;
    } else if Str(text[a..b]) {
      StrRuns(text, a, b);
    } else {
      ObjRuns(text, a, b);
    }
  }

  /** An object: one level up behind its first brace, down again at its last. */
  lemma {:induction false} ObjRuns(text: string, a: nat, b: nat)
    requires a <= b <= |text| && Obj(text[a..b]) && Out(text, a) && Run(text, a).depth >= 0
    ensures Level(text, a, b) && Level(text, a + 1, b - 1)
    ensures Run(text, a + 1).depth == Run(text, a).depth + 1
    decreases b - a, 0
  {
    ObjShape(text, a, b);
    InsideRuns(text, a + 1, b - 1);
  }

  // ---------------------------------------------------------------- what balances is an object

  /** A string that is open at a and closed at b ends somewhere between. */
  lemma {:induction false} StringEnds(text: string, a: nat, b: nat) returns (m: nat)
    requires a <= b <= |text| && Run(text, a).inStr && !Run(text, a).esc && !Run(text, b).inStr
    ensures a < m <= b && text[m - 1] == '"' && Body(text[a..m - 1])
    ensures Run(text, m) == Run(text, a).(inStr := false)
    decreases b - a
  {
    if text[a] == '"' {
      m := a + 1;
    } else {
      var k := SkipOne(text, a, b);
      m := StringEnds(text, k, b);
      if text[a] == '\\' {
        EscapeInFront(text, a, m - 1);
      } else {
        CharInFront(text, a, m - 1);
      }
    }
  }

  lemma SkipOne(text: string, a: nat, b: nat) returns (k: nat)
    requires a < b <= |text| && Run(text, a).inStr && !Run(text, a).esc && !Run(text, b).inStr && text[a] != '"'
    ensures k == (if text[a] == '\\' then a + 2 else a + 1) && k <= b && Run(text, k) == Run(text, a)
  {
    InString(text, a);
    k := if text[a] == '\\' then a + 2 else a + 1;
  }

  lemma InString(text: string, a: nat)
    requires a < |text| && Run(text, a).inStr && !Run(text, a).esc
    ensures text[a] == '"' ==> Run(text, a + 1) == Run(text, a).(inStr := false)
    ensures text[a] == '\\' ==> Run(text, a + 1).inStr && (a + 2 <= |text| ==> Run(text, a + 2) == Run(text, a))
    ensures text[a] != '"' && text[a] != '\\' ==> Run(text, a + 1) == Run(text, a)
  {
  }

  lemma CharInFront(text: string, a: nat, m: nat)
    requires a + 1 <= m <= |text| && text[a] != '\\' && text[a] != '"' && Body(text[a + 1..m])
    ensures Body(text[a..m])
  {
    assert text[a..m][1..] == text[a + 1..m];
  }

  lemma EscapeInFront(text: string, a: nat, m: nat)
    requires a + 2 <= m <= |text| && text[a] == '\\' && Body(text[a + 2..m])
    ensures Body(text[a..m])
  {
    assert text[a..m][2..] == text[a + 2..m];
  }

  /** The first place from a on where the scanner is no deeper than d. */
  lemma {:induction false} FirstReturn(text: string, a: nat, b: nat, d: int) returns (m: nat)
    requires a < b <= |text| && Run(text, a).depth > d && Run(text, b).depth <= d
    ensures a < m <= b && Run(text, m).depth <= d
    ensures forall j: nat :: a <= j < m ==> Run(text, j).depth > d
    decreases b - a
  {
    if Run(text, a + 1).depth <= d {
      m := a + 1;
    } else {
      m := FirstReturn(text, a + 1, b, d);
    }
  }

  lemma StrAt(text: string, a: nat, m: nat)
    requires a + 1 < m <= |text| && text[a] == '"' && text[m - 1] == '"' && Body(text[a + 1..m - 1])
    ensures Str(text[a..m])
  {
    Slice(text, a, m, 1, m - a - 1);
  }

  lemma ObjAt(text: string, a: nat, m: nat)
    requires a + 1 < m <= |text| && text[a] == '{' && text[m - 1] == '}' && Inside(text[a + 1..m - 1])
    ensures Obj(text[a..m])
  {
    Slice(text, a, m, 1, m - a - 1);
  }

  /** A brace that opens at a and is closed by b opens an object. */
  lemma {:induction false} ObjectEnds(text: string, a: nat, b: nat) returns (m: nat)
    requires a < b <= |text| && text[a] == '{' && Out(text, a) && Run(text, a).depth >= 0
    requires Run(text, b).depth <= Run(text, a).depth
    ensures a + 1 < m <= b && Obj(text[a..m])
    ensures Out(text, m) && Run(text, m).depth == Run(text, a).depth
    decreases b - a, 0
  {
    m := FirstReturn(text, a + 1, b, Run(text, a).depth);
    DropsAtBrace(text, a, m);
    LevelIsInside(text, a + 1, m - 1);
    ObjAt(text, a, m);
  }

  lemma DropsAtBrace(text: string, a: nat, m: nat)
    requires a + 1 < m <= |text| && Run(text, m).depth <= Run(text, a).depth
    requires Run(text, a + 1).depth == Run(text, a).depth + 1
    requires forall j: nat :: a + 1 <= j < m ==> Run(text, j).depth > Run(text, a).depth
    ensures text[m - 1] == '}' && Out(text, m - 1) && Out(text, m)
    ensures Run(text, m).depth == Run(text, a).depth && Level(text, a + 1, m - 1)
  {
    RunIsSound(text, m - 1);
    assert Run(text, m - 1).depth > Run(text, a).depth;
    assert Run(text, m) == Step(Run(text, m - 1), text[m - 1], m - 1);
  }

  lemma {:induction false} LevelIsInside(text: string, a: nat, b: nat)
    requires a <= b <= |text| && Out(text, a) && Run(text, a).depth >= 1 && Level(text, a, b)
    ensures Inside(text[a..b])
    decreases b - a, 1
  {
    if a < b {
      assert Run(text, a + 1).depth >= Run(text, a).depth;
      assert text[a] != '}';
      var m := a + 1;
      if text[a] == '"' {
        m := StringEnds(text, a + 1, b);
        StrAt(text, a, m);
      } else if text[a] == '{' {
        m := ObjectEnds(text, a, b);
      }
      LevelIsInside(text, m, b);
      PieceInside(text, a, m, b);
    }
  }

  lemma PieceInside(text: string, a: nat, m: nat, b: nat)
    requires a < m <= b <= |text| && Piece(text[a..m]) && Inside(text[m..b])
    ensures Inside(text[a..b])
  {
    SliceJoin(text, a, m, b);
    PieceInFront(text[a..m], text[m..b]);
  }

  lemma SliceJoin(text: string, a: nat, m: nat, b: nat)
    requires a <= m <= b <= |text|
    ensures text[a..b] == text[a..m] + text[m..b]
  {
  }

  lemma PieceInFront(x: string, y: string)
    requires Piece(x) && Inside(y)
    ensures Inside(x + y)
  {
    var s := x + y;
    assert s[..|x|] == x && s[|x|..] == y && s[0] == x[0];
  }

  /** What the scanner takes for one whole object is an object of the grammar, and the other way round. */
  lemma ObjectsAreBalanced(s: string)
    ensures Obj(s) <==> Balanced(s)
  {
    if Obj(s) {
      assert s[..] == s && s[0..|s|] == s;
      ObjRuns(s, 0, |s|);
      assert forall j: nat :: 0 < j <= |s| - 1 ==> Deep(s, j);
    }
    if Balanced(s) {
      var m := ObjectEnds(s, 0, |s|);
      assert m < |s| ==> Deep(s, m);
      assert s[0..m] == s;
    }
  }

  // ---------------------------------------------------------------- texts that end in the clear

  lemma {:induction false} ClearRuns(text: string, a: nat)
    requires a <= |text| && Clear(text[a..]) && Clean(text, a)
    ensures Clean(text, |text|)
    decreases |text| - a
  {
    if a < |text| {
      var m := FirstClearPieceAt(text, a);
      RunIsSound(text, a);
      ClearPieceRuns(text, a, m);
      ClearRuns(text, m);
    }
  }

  lemma ClearPieceRuns(text: string, a: nat, b: nat)
    requires a <= b <= |text| && (text[a..b] == "}" || Piece(text[a..b])) && Clean(text, a) && Out(text, a)
    ensures Clean(text, b)
  {
    if text[a..b] == "}" {
      assert text[a] == text[a..b][0] && b == a + 1;
    } else {
      PieceRuns(text, a, b);
    }
  }

  lemma {:induction false} CleanIsClear(text: string, a: nat)
    requires a <= |text| && Clean(text, a) && Clean(text, |text|)
    ensures Clear(text[a..])
    decreases |text| - a
  {
    RunIsSound(text, a);
    if a < |text| {
      var m := a + 1;
      if text[a] == '"' {
        m := StringEnds(text, a + 1, |text|);
        StrAt(text, a, m);
      } else if text[a] == '{' {
        m := ObjectEnds(text, a, |text|);
      }
      CleanIsClear(text, m);
      PieceInClear(text, a, m);
    }
  }

  lemma PieceInClear(text: string, a: nat, m: nat)
    requires a < m <= |text| && (text[a..m] == "}" || Piece(text[a..m])) && Clear(text[m..])
    ensures Clear(text[a..])
  {
    var s := text[a..];
    assert s[..m - a] == text[a..m] && s[m - a..] == text[m..];
    assert text[a..m][0] == s[0];
  }

  lemma CleanExactly(text: string, k: nat)
    requires k <= |text|
    ensures Clean(text, k) <==> Clear(text[..k])
  {
    var x := text[..k];
    assert text == x + text[k..] && x[0..] == x;
    RunOfPrefix(x, text[k..], k);
    if Clean(text, k) {
      CleanIsClear(x, 0);
    }
    if Clear(x) {
      ClearRuns(x, 0);
    }
  }

  // ---------------------------------------------------------------- what the scan finds

  /** An object that stands in the clear. */
  predicate ObjectAt(text: string, a: int, b: int) {
    0 <= a < b <= |text| && Clear(text[..a]) && Obj(text[a..b])
  }

  lemma ObjectsExactly(text: string, a: int, b: int)
    ensures ObjectAt(text, a, b) <==> Object(text, a, b)
  {
    if 0 <= a < b <= |text| {
      CleanExactly(text, a);
      ObjectsAreBalanced(text[a..b]);
      if Object(text, a, b) {
        ObjectIsBalanced(text, a, b);
      }
      if ObjectAt(text, a, b) {
        RunIsSound(text, a);
        ObjRuns(text, a, b);
        assert text[a] == text[a..b][0] && text[b - 1] == text[a..b][b - a - 1];
        assert forall j: nat :: a < j <= b - 1 ==> Deep(text, j);
      }
    }
  }

  lemma SameStart(text: string, a: int, a': int, k: nat)
    requires k <= |text| && Open(text, a, k) && Open(text, a', k)
    ensures a == a'
  {
    assert a < a' ==> Deep(text, a');
    assert a' < a ==> Deep(text, a);
  }

  /** At its last brace an object becomes the candidate. */
  lemma ObjectIsCandidate(text: string, a: int, b: int)
    requires Object(text, a, b)
    ensures Run(text, b).cand == Some((a, b))
  {
    RunIsSound(text, b - 1);
    assert Deep(text, b - 1);
    SameStart(text, Run(text, b - 1).start, a, b - 1);
  }

  lemma {:induction false} CandidateIsLatest(text: string, a: int, b: int, k: nat)
    requires Object(text, a, b) && b <= k <= |text|
    ensures Run(text, k).cand.Some? && b <= Run(text, k).cand.value.1
    decreases k
  {
    if b == k {
      ObjectIsCandidate(text, a, b);
    } else {
      CandidateIsLatest(text, a, b, k - 1);
      RunIsSound(text, k - 1);
    }
  }

  /** The scan finds the last object that stands in the clear, and nothing exactly when there is none. */
  lemma ScanFindsLastObject(text: string)
    ensures forall a, b :: Scan(text) == Some((a, b)) <==>
              ObjectAt(text, a, b) && forall a', b' :: ObjectAt(text, a', b') ==> b' <= b
    ensures Scan(text).None? <==> forall a, b :: !ObjectAt(text, a, b)
  {
    RunIsSound(text, |text|);
    forall a, b
      ensures ObjectAt(text, a, b) <==> Object(text, a, b)
      ensures ObjectAt(text, a, b) ==> Scan(text).Some? && b <= Scan(text).value.1
    {
      ObjectsExactly(text, a, b);
      if Object(text, a, b) {
        CandidateIsLatest(text, a, b, |text|);
      }
    }
    forall a, b, a', b' | Object(text, a, b) && Object(text, a', b') && b == b'
      ensures a == a'
    {
      SameStart(text, a, a', b - 1);
    }
  }
}
