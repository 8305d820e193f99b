/** What the TBLPTR pass keeps: the assembled bytes, and the pointers under any relocation. */
module TblptrTheorems {
  import opened Wrappers
  import opened Tblptr

  /** Where the assembler puts each label. */
  type Placement = string -> nat

  // ---------------------------------------------------------------- sites and their replacements

  predicate Covers(s: Site, idx: nat) {
    s.at <= idx < s.at + 4
  }

  predicate IsSite(lines: seq<Line>, s: Site) {
    s.at + 3 < |lines| && SiteAt(lines, s.at) == Some(s)
  }

  lemma {:induction false} SiteIsMatch(lines: seq<Line>, i: nat, s: Site)
    requires s in Sites(lines, i)
    ensures i <= s.at && IsSite(lines, s)
    decreases |lines| - i
  {
    var m := SiteAt(lines, i);
    if m.Some? {
      assert Sites(lines, i) == [m.value] + Sites(lines, i + 4);
      if s != m.value {
        SiteIsMatch(lines, i + 4, s);
      }
    } else {
      SiteIsMatch(lines, i + 1, s);
    }
  }

  /** Matched windows never overlap, and come in the order of the source. */
  lemma {:induction false} WindowsAreDisjoint(lines: seq<Line>, i: nat, j: nat, k: nat)
    requires j < k < |Sites(lines, i)|
    ensures Sites(lines, i)[j].at + 4 <= Sites(lines, i)[k].at
    decreases |lines| - i
  {
    var m := SiteAt(lines, i);
    if m.Some? {
      var rest := Sites(lines, i + 4);
      assert Sites(lines, i) == [m.value] + rest;
      if j == 0 {
        SiteIsMatch(lines, i + 4, rest[k - 1]);
      } else {
        WindowsAreDisjoint(lines, i + 4, j - 1, k - 1);
      }
    } else {
      WindowsAreDisjoint(lines, i + 1, j, k);
    }
  }

  /** Every window that fits the patterns is rewritten, unless it starts inside an earlier one that is. */
  lemma {:induction false} EveryWindowIsReached(lines: seq<Line>, i: nat, w: Site)
    requires IsSite(lines, w) && i <= w.at
    ensures exists s :: s in Sites(lines, i) && Covers(s, w.at)
    ensures (forall s :: s in Sites(lines, i) && Covers(s, w.at) ==> s.at == w.at) ==> w in Sites(lines, i)
    decreases |lines| - i
  {
    var m := SiteAt(lines, i);
    if m.Some? {
      var rest := Sites(lines, i + 4);
      assert Sites(lines, i) == [m.value] + rest;
      assert m.value in Sites(lines, i);
      if w.at >= i + 4 {
        EveryWindowIsReached(lines, i + 4, w);
        assert forall s :: s in rest ==> s in Sites(lines, i);
      }
    } else {
      EveryWindowIsReached(lines, i + 1, w);
    }
  }

  /** What a site puts on one of its four lines. */
  function SiteLine(lines: seq<Line>, existing: map<nat, string>, s: Site, idx: nat): Option<Line>
    requires IsSite(lines, s)
  {
    if idx == s.hi then Some(MovlwHigh(lines[s.hi].indent, LabelFor(existing, s.target)))
    else if idx == s.lo then Some(MovlwLow(lines[s.lo].indent, LabelFor(existing, s.target)))
    else None
  }

  function Lookup(reps: Replacements, idx: nat): Option<Line> {
    if idx in reps then Some(reps[idx]) else None
  }

  /** Lines before i keep what they were given. */
  lemma {:induction false} ReplacementsKeep(reps: Replacements, lines: seq<Line>, existing: map<nat, string>, i: nat, idx: nat)
    requires idx < i
    ensures Lookup(ReplacementsFrom(reps, lines, existing, i), idx) == Lookup(reps, idx)
    decreases |lines| - i
  {
    if i + 3 < |lines| {
      var s := SiteAt(lines, i);
      if s.Some? {
        ReplacementsKeep(WithSite(reps, lines, existing, s.value), lines, existing, i + 4, idx);
      } else {
        ReplacementsKeep(reps, lines, existing, i + 1, idx);
      }
    }
  }

  lemma {:induction false} ReplacementsAtSite(
      reps: Replacements, lines: seq<Line>, existing: map<nat, string>, i: nat, s: Site, idx: nat)
    requires s in Sites(lines, i) && Covers(s, idx) && idx !in reps
    requires IsSite(lines, s)
    ensures Lookup(ReplacementsFrom(reps, lines, existing, i), idx) == SiteLine(lines, existing, s, idx)
    decreases |lines| - i
  {
    var m := SiteAt(lines, i);
    if m.Some? {
      var reps' := WithSite(reps, lines, existing, m.value);
      assert Sites(lines, i) == [m.value] + Sites(lines, i + 4);
      if s == m.value {
        ReplacementsKeep(reps', lines, existing, i + 4, idx);
      } else {
        SiteIsMatch(lines, i + 4, s);
        ReplacementsAtSite(reps', lines, existing, i + 4, s, idx);
      }
    } else {
      ReplacementsAtSite(reps, lines, existing, i + 1, s, idx);
    }
  }

  lemma {:induction false} ReplacementsOffSites(
      reps: Replacements, lines: seq<Line>, existing: map<nat, string>, i: nat, idx: nat)
    requires forall s :: s in Sites(lines, i) ==> !Covers(s, idx)
    ensures Lookup(ReplacementsFrom(reps, lines, existing, i), idx) == Lookup(reps, idx)
    decreases |lines| - i
  {
    if i + 3 < |lines| {
      var m := SiteAt(lines, i);
      if m.Some? {
        var rest := Sites(lines, i + 4);
        assert Sites(lines, i) == [m.value] + rest;
        assert m.value in Sites(lines, i);
        assert forall s :: s in rest ==> s in Sites(lines, i);
        ReplacementsOffSites(WithSite(reps, lines, existing, m.value), lines, existing, i + 4, idx);
      } else {
        ReplacementsOffSites(reps, lines, existing, i + 1, idx);
      }
    }
  }

  function AllReplacements(lines: seq<Line>): Replacements {
    ReplacementsFrom(map[], lines, ExistingLabels(lines), 0)
  }

  // ---------------------------------------------------------------- assembled bytes

  /** The bytes of a line; the encoding of the instructions that the pass never touches is a parameter. */
  function LineBytes(line: Line, env: Placement, enc: Line -> seq<byte>): seq<byte> {
    match line
    case Movlw(_, k) => [k % 256, 0x0E]
    case MovlwHigh(_, name) => [env(name) / 256 % 256, 0x0E]
    case MovlwLow(_, name) => [env(name) % 256, 0x0E]
    case LabelLine(_, _) => []
    case _ => enc(line)
  }

  function Assemble(lines: seq<Line>, env: Placement, enc: Line -> seq<byte>): seq<byte> {
    if lines == [] then []
    else Assemble(lines[..|lines| - 1], env, enc) + LineBytes(lines[|lines| - 1], env, enc)
  }

  lemma AssembleSnoc(lines: seq<Line>, line: Line, env: Placement, enc: Line -> seq<byte>)
    ensures Assemble(lines + [line], env, enc) == Assemble(lines, env, enc) + LineBytes(line, env, enc)
  {
  }

  /** Anchors take no room. */
  lemma {:induction false} AnchorsTakeNoRoom(
      lines: seq<Line>, anchors: set<nat>, lineToAddr: map<nat, nat>, n: nat, env: Placement, enc: Line -> seq<byte>)
    requires n <= |lines|
    requires forall i :: i in anchors ==> i in lineToAddr && lineToAddr[i] < 0x1_0000
    ensures Assemble(Woven(lines, anchors, lineToAddr, n), env, enc) == Assemble(lines[..n], env, enc)
  {
    if n > 0 {
      var i := n - 1;
      AnchorsTakeNoRoom(lines, anchors, lineToAddr, i, env, enc);
      var anchor := if i in anchors then [LabelLine(FreshName(lineToAddr[i]), lineToAddr[i])] else [];
      AnchorTakesNoRoom(Woven(lines, anchors, lineToAddr, i), anchor, lines[i], env, enc);
      AssembleNext(lines, i, env, enc);
    }
  }

  lemma AssembleNext(lines: seq<Line>, i: nat, env: Placement, enc: Line -> seq<byte>)
    requires i < |lines|
    ensures Assemble(lines[..i + 1], env, enc) == Assemble(lines[..i], env, enc) + LineBytes(lines[i], env, enc)
  {
    AssembleSnoc(lines[..i], lines[i], env, enc);
    assert lines[..i] + [lines[i]] == lines[..i + 1];
  }

  lemma AnchorTakesNoRoom(before: seq<Line>, anchor: seq<Line>, line: Line, env: Placement, enc: Line -> seq<byte>)
    requires anchor == [] || (|anchor| == 1 && anchor[0].LabelLine?)
    ensures Assemble(before + anchor + [line], env, enc) == Assemble(before, env, enc) + LineBytes(line, env, enc)
  {
    if anchor == [] {
      assert before + anchor == before;
    } else {
      AssembleSnoc(before, anchor[0], env, enc);
      assert before + anchor == before + [anchor[0]];
      assert Assemble(before, env, enc) + [] == Assemble(before, env, enc);
    }
    AssembleSnoc(before + anchor, line, env, enc);
  }

  ghost predicate SameLengths(a: seq<Line>, b: seq<Line>, env: Placement, enc: Line -> seq<byte>)
    requires |a| == |b|
  {
    forall i :: 0 <= i < |a| ==> |LineBytes(a[i], env, enc)| == |LineBytes(b[i], env, enc)|
  }

  ghost predicate SameLines(a: seq<Line>, b: seq<Line>, env: Placement, enc: Line -> seq<byte>)
    requires |a| == |b|
  {
    forall i :: 0 <= i < |a| ==> LineBytes(a[i], env, enc) == LineBytes(b[i], env, enc)
  }

  lemma SameLinesSnoc(a: seq<Line>, b: seq<Line>, n: nat, env: Placement, enc: Line -> seq<byte>)
    requires |a| == |b| == n + 1
    ensures SameLines(a, b, env, enc) <==>
            SameLines(a[..n], b[..n], env, enc) && LineBytes(a[n], env, enc) == LineBytes(b[n], env, enc)
    ensures SameLengths(a, b, env, enc) ==> SameLengths(a[..n], b[..n], env, enc)
  {
  }

  /** Line by line the same lengths: then the bytes agree exactly when every line's bytes do. */
  lemma {:induction false} AssembleLineByLine(a: seq<Line>, b: seq<Line>, env: Placement, enc: Line -> seq<byte>)
    requires |a| == |b| && SameLengths(a, b, env, enc)
    ensures |Assemble(a, env, enc)| == |Assemble(b, env, enc)|
    ensures Assemble(a, env, enc) == Assemble(b, env, enc) <==> SameLines(a, b, env, enc)
    decreases |a|
  {
    if a != [] {
      var n := |a| - 1;
      SameLinesSnoc(a, b, n, env, enc);
      AssembleLineByLine(a[..n], b[..n], env, enc);
      AssembleLast(a, b, n, env, enc);
    }
  }

  lemma AssembleLast(a: seq<Line>, b: seq<Line>, n: nat, env: Placement, enc: Line -> seq<byte>)
    requires |a| == |b| == n + 1
    requires |Assemble(a[..n], env, enc)| == |Assemble(b[..n], env, enc)|
    requires |LineBytes(a[n], env, enc)| == |LineBytes(b[n], env, enc)|
    ensures |Assemble(a, env, enc)| == |Assemble(b, env, enc)|
    ensures Assemble(a, env, enc) == Assemble(b, env, enc) <==>
            Assemble(a[..n], env, enc) == Assemble(b[..n], env, enc) && LineBytes(a[n], env, enc) == LineBytes(b[n], env, enc)
  {
    AppendCancels(Assemble(a[..n], env, enc), LineBytes(a[n], env, enc),
                  Assemble(b[..n], env, enc), LineBytes(b[n], env, enc));
  }

  lemma AppendCancels(x: seq<byte>, p: seq<byte>, y: seq<byte>, q: seq<byte>)
    requires |x| == |y|
    ensures x + p == y + q <==> x == y && p == q
  {
    if x + p == y + q {
      assert x == (x + p)[..|x|] == (y + q)[..|x|] == y;
      assert p == (x + p)[|x|..] == (y + q)[|x|..] == q;
    }
  }

  /** The placement puts every chosen label at its target. */
  ghost predicate AtTargets(lines: seq<Line>, env: Placement) {
    forall s :: s in Sites(lines, 0) ==> env(LabelFor(ExistingLabels(lines), s.target)) == s.target
  }

  /** The bits of the low literal above its byte, if any, are already set in the high literal. */
  predicate LiteralsFit(lines: seq<Line>, s: Site)
    requires IsSite(lines, s)
  {
    BitsWithin(lines[s.lo].lit / 256, lines[s.hi].lit)
  }

  lemma SiteFacts(lines: seq<Line>, s: Site)
    requires IsSite(lines, s)
    ensures s.hi < |lines| && s.lo < |lines| && lines[s.hi].Movlw? && lines[s.lo].Movlw?
    ensures s.target == TargetOf(lines[s.hi].lit, lines[s.lo].lit) < 0x8000
  {
  }

  lemma SiteTargetBytes(lines: seq<Line>, s: Site)
    requires IsSite(lines, s)
    ensures s.target / 256 % 256 == lines[s.hi].lit % 256 <==> LiteralsFit(lines, s)
    ensures s.target % 256 == lines[s.lo].lit % 256
  {
    SiteFacts(lines, s);
    TargetBytes(lines[s.hi].lit, lines[s.lo].lit, s.target);
  }

  /** One line of a site: its bytes stay, but for a high literal that the low one runs into. */
  lemma SiteLineBytes(lines: seq<Line>, s: Site, idx: nat, env: Placement, enc: Line -> seq<byte>)
    requires IsSite(lines, s)
    requires env(LabelFor(ExistingLabels(lines), s.target)) == s.target
    requires idx == s.hi || idx == s.lo
    ensures var line := SiteLine(lines, ExistingLabels(lines), s, idx).value;
            && |LineBytes(line, env, enc)| == |LineBytes(lines[idx], env, enc)|
            && (LineBytes(line, env, enc) == LineBytes(lines[idx], env, enc) <==> idx == s.lo || LiteralsFit(lines, s))
  {
    SiteTargetBytes(lines, s);
  }

  lemma ReplacedLine(lines: seq<Line>, idx: nat)
    requires idx < |lines|
    ensures var out := Replaced(lines, AllReplacements(lines))[idx];
            || (out == lines[idx] && idx !in AllReplacements(lines))
            || (exists s :: s in Sites(lines, 0) && Covers(s, idx) && IsSite(lines, s)
                  && (idx == s.hi || idx == s.lo) && SiteLine(lines, ExistingLabels(lines), s, idx) == Some(out))
  {
    var existing := ExistingLabels(lines);
    if s :| s in Sites(lines, 0) && Covers(s, idx) {
      SiteIsMatch(lines, 0, s);
      ReplacementsAtSite(map[], lines, existing, 0, s, idx);
    } else {
      ReplacementsOffSites(map[], lines, existing, 0, idx);
    }
  }

  ghost predicate SameBytes(lines: seq<Line>, env: Placement, enc: Line -> seq<byte>, idx: nat)
    requires idx < |lines|
  {
    LineBytes(Replaced(lines, AllReplacements(lines))[idx], env, enc) == LineBytes(lines[idx], env, enc)
  }

  lemma ReplacedBytes(lines: seq<Line>, env: Placement, enc: Line -> seq<byte>, idx: nat)
    requires AtTargets(lines, env) && idx < |lines|
    ensures |LineBytes(Replaced(lines, AllReplacements(lines))[idx], env, enc)| == |LineBytes(lines[idx], env, enc)|
    ensures !SameBytes(lines, env, enc, idx) ==>
            exists s :: s in Sites(lines, 0) && IsSite(lines, s) && !LiteralsFit(lines, s)
  {
    ReplacedLine(lines, idx);
    var out := Replaced(lines, AllReplacements(lines))[idx];
    if out != lines[idx] {
      var s :| s in Sites(lines, 0) && Covers(s, idx) && IsSite(lines, s)
        && (idx == s.hi || idx == s.lo) && SiteLine(lines, ExistingLabels(lines), s, idx) == Some(out);
      SiteLineBytes(lines, s, idx, env, enc);
    }
  }

  lemma UnfitSiteChanges(lines: seq<Line>, env: Placement, enc: Line -> seq<byte>, s: Site)
    requires AtTargets(lines, env) && s in Sites(lines, 0)
    requires IsSite(lines, s)
    ensures s.hi < |lines|
    ensures LiteralsFit(lines, s) || !SameBytes(lines, env, enc, s.hi)
  {
    ReplacementsAtSite(map[], lines, ExistingLabels(lines), 0, s, s.hi);
    SiteLineBytes(lines, s, s.hi, env, enc);
  }

  predicate AllLiteralsFit(lines: seq<Line>) {
    forall s :: s in Sites(lines, 0) && IsSite(lines, s) ==> LiteralsFit(lines, s)
  }

  lemma ReplacedBytesAgree(lines: seq<Line>, env: Placement, enc: Line -> seq<byte>)
    requires AtTargets(lines, env)
    ensures var out := Replaced(lines, AllReplacements(lines));
            && SameLengths(out, lines, env, enc)
            && (SameLines(out, lines, env, enc) <==> AllLiteralsFit(lines))
  {
    var out := Replaced(lines, AllReplacements(lines));
    forall idx: nat | idx < |lines|
      ensures |LineBytes(out[idx], env, enc)| == |LineBytes(lines[idx], env, enc)|
      ensures AllLiteralsFit(lines) ==> LineBytes(out[idx], env, enc) == LineBytes(lines[idx], env, enc)
    {
      ReplacedBytes(lines, env, enc, idx);
    }
    if s :| s in Sites(lines, 0) && IsSite(lines, s) && !LiteralsFit(lines, s) {
      UnfitSiteChanges(lines, env, enc, s);
      assert LineBytes(out[s.hi], env, enc) != LineBytes(lines[s.hi], env, enc);
    }
  }

  /** The rewritten program assembles to the same bytes, wherever its labels are at their targets,
    exactly when no low literal runs into its high one. */
  lemma BytesArePreserved(lines: seq<Line>, lineToAddr: map<nat, nat>, env: Placement, enc: Line -> seq<byte>)
    requires AtTargets(lines, env)
    ensures Assemble(Rewritten(lines, lineToAddr), env, enc) == Assemble(lines, env, enc) <==> AllLiteralsFit(lines)
  {
    var targets := NewTargets(lines, ExistingLabels(lines), 0);
    AnchorLinesListed(lineToAddr, targets, |lines|);
    var replaced := Replaced(lines, AllReplacements(lines));
    AnchorsTakeNoRoom(replaced, AnchorLines(lineToAddr, targets, |lines|), lineToAddr, |lines|, env, enc);
    assert replaced[..|lines|] == replaced;
    ReplacedBytesAgree(lines, env, enc);
    AssembleLineByLine(replaced, lines, env, enc);
  }

  /** Literals of eight bits always fit. */
  lemma EightBitLiteralsFit(lines: seq<Line>, s: Site)
    requires IsSite(lines, s)
    requires lines[s.lo].lit < 256
    ensures LiteralsFit(lines, s)
  {
  }

  /** A low literal of eleven bits that does not. */
  lemma WideLiteralDoesNotFit()
    ensures var lines := [Movlw("", 0x03), MovwfTblptr(High), Movlw("", 0x410), MovwfTblptr(Low)];
            exists s :: IsSite(lines, s) && !LiteralsFit(lines, s)
  {
    var lines := [Movlw("", 0x03), MovwfTblptr(High), Movlw("", 0x410), MovwfTblptr(Low)];
    WideTarget();
    var s := Site(0, 0, 2, 0x710);
    assert SiteAt(lines, 0) == Some(s);
    assert IsSite(lines, s) && !LiteralsFit(lines, s);
  }

  lemma WideTarget()
    ensures TargetOf(0x03, 0x410) == 0x710
    ensures !BitsWithin(0x410 / 256, 0x03)
  {
    TargetParts(0x03, 0x410);
    assert Or(0, 1) == 1;
    assert Or(1, 2) == 3;
    assert !BitsWithin(1, 0);
    assert !BitsWithin(2, 1);
  }

  // ---------------------------------------------------------------- relocation

  /** The machine state that a load touches. */
  datatype Cpu = Cpu(w: byte, tblptrh: byte, tblptrl: byte, ram: map<nat, byte>)

  function Exec(c: Cpu, line: Line, env: Placement): Cpu {
    match line
    case Movlw(_, k) => c.(w := k % 256)
    case MovlwHigh(_, name) => c.(w := env(name) / 256 % 256)
    case MovlwLow(_, name) => c.(w := env(name) % 256)
    case MovwfTblptr(half) => if half == High then c.(tblptrh := c.w) else c.(tblptrl := c.w)
    case MovwfCommon(off) => c.(ram := c.ram[off := c.w])
    case _ => c
  }

  function Exec4(c: Cpu, lines: seq<Line>, at: nat, env: Placement): Cpu
    requires at + 3 < |lines|
  {
    Exec(Exec(Exec(Exec(c, lines[at], env), lines[at + 1], env), lines[at + 2], env), lines[at + 3], env)
  }

  /** The pointer that a window loads: TBLPTR itself or its pair of RAM cells. */
  function Pointer(c: Cpu, direct: bool): int {
    if direct then c.tblptrh as int * 256 + c.tblptrl
    else if CELL_HIGH in c.ram && CELL_LOW in c.ram then c.ram[CELL_HIGH] as int * 256 + c.ram[CELL_LOW]
    else -1
  }

  /** The byte that a line loads into W. */
  function Loaded(line: Line, env: Placement): Option<byte> {
    match line
    case Movlw(_, k) => Some(k % 256)
    case MovlwHigh(_, name) => Some(env(name) / 256 % 256)
    case MovlwLow(_, name) => Some(env(name) % 256)
    case _ => None
  }

  lemma ExecLoad(c: Cpu, line: Line, env: Placement, b: byte)
    requires Loaded(line, env) == Some(b)
    ensures Exec(c, line, env) == c.(w := b)
  {
  }

  /** Two loads and the two writes of one pointer leave the two loaded bytes in it. */
  lemma WindowLoads(lines: seq<Line>, at: nat, env: Placement, c: Cpu, first: byte, third: byte)
    requires at + 3 < |lines| && PointerPair(lines[at + 1], lines[at + 3]).Some?
    requires Loaded(lines[at], env) == Some(first) && Loaded(lines[at + 2], env) == Some(third)
    ensures var highFirst := PointerPair(lines[at + 1], lines[at + 3]).value.0;
            Pointer(Exec4(c, lines, at, env), lines[at + 1].MovwfTblptr?)
            == if highFirst then first as int * 256 + third else third as int * 256 + first
  {
    var c1 := c.(w := first);
    ExecLoad(c, lines[at], env, first);
    var c2 := Exec(c1, lines[at + 1], env);
    ExecLoad(c2, lines[at + 2], env, third);
    var c3 := c2.(w := third);
    var c4 := Exec(c3, lines[at + 3], env);
    assert Exec4(c, lines, at, env) == c4;
  }

  /** The pair of bytes that a window's site loads, in the order of the site. */
  lemma SiteLoads(before: seq<Line>, lines: seq<Line>, s: Site, env: Placement, c: Cpu, high: byte, low: byte)
    requires IsSite(before, s) && |lines| == |before|
    requires lines[s.at + 1] == before[s.at + 1] && lines[s.at + 3] == before[s.at + 3]
    requires Loaded(lines[s.hi], env) == Some(high) && Loaded(lines[s.lo], env) == Some(low)
    ensures Pointer(Exec4(c, lines, s.at, env), before[s.at + 1].MovwfTblptr?) == high as int * 256 + low
  {
    if s.hi == s.at {
      WindowLoads(lines, s.at, env, c, high, low);
    } else {
      WindowLoads(lines, s.at, env, c, low, high);
    }
  }

  lemma RewrittenWindow(lines: seq<Line>, s: Site)
    requires s in Sites(lines, 0) && IsSite(lines, s)
    ensures var out := Replaced(lines, AllReplacements(lines));
            var name := LabelFor(ExistingLabels(lines), s.target);
            && out[s.hi] == MovlwHigh(lines[s.hi].indent, name) && out[s.lo] == MovlwLow(lines[s.lo].indent, name)
            && out[s.at + 1] == lines[s.at + 1] && out[s.at + 3] == lines[s.at + 3]
  {
    var existing := ExistingLabels(lines);
    forall idx: nat | Covers(s, idx)
      ensures Lookup(AllReplacements(lines), idx) == SiteLine(lines, existing, s, idx)
    {
      ReplacementsAtSite(map[], lines, existing, 0, s, idx);
    }
    assert Covers(s, s.at) && Covers(s, s.at + 1) && Covers(s, s.at + 2) && Covers(s, s.at + 3);
  }

  lemma SixteenBits(a: nat)
    ensures a / 256 % 256 * 256 + a % 256 == a % 0x1_0000
  {
  }

  lemma ReplacedWindowLoadsLabel(lines: seq<Line>, s: Site, env: Placement, c: Cpu)
    requires s in Sites(lines, 0) && IsSite(lines, s)
    ensures var out := Replaced(lines, AllReplacements(lines));
            Pointer(Exec4(c, out, s.at, env), lines[s.at + 1].MovwfTblptr?)
            == env(LabelFor(ExistingLabels(lines), s.target)) % 0x1_0000
  {
    var a := env(LabelFor(ExistingLabels(lines), s.target));
    RewrittenWindow(lines, s);
    SiteLoads(lines, Replaced(lines, AllReplacements(lines)), s, env, c, a / 256 % 256, a % 256);
    SixteenBits(a);
  }

  // ---------------------------------------------------------------- windows in the output

  function ExecAll(c: Cpu, lines: seq<Line>, env: Placement): Cpu {
    if lines == [] then c else Exec(ExecAll(c, lines[..|lines| - 1], env), lines[|lines| - 1], env)
  }

  /** The lines that are no labels. */
  function Code(lines: seq<Line>): seq<Line> {
    if lines == [] then []
    else
      var last := lines[|lines| - 1];
      Code(lines[..|lines| - 1]) + (if last.LabelLine? then [] else [last])
  }

  /** Labels do nothing. */
  lemma {:induction false} ExecIsOfCode(c: Cpu, lines: seq<Line>, env: Placement)
    ensures ExecAll(c, lines, env) == ExecAll(c, Code(lines), env)
  {
    if lines != [] {
      var k := |lines| - 1;
      ExecIsOfCode(c, lines[..k], env);
      if lines[k].LabelLine? {
        assert Code(lines[..k]) + [] == Code(lines[..k]);
      } else {
        assert Code(lines)[..|Code(lines)| - 1] == Code(lines[..k]);
      }
    }
  }

  lemma {:induction false} CodeAppend(a: seq<Line>, b: seq<Line>)
    ensures Code(a + b) == Code(a) + Code(b)
    decreases |b|
  {
    if b == [] {
      assert a + b == a;
    } else {
      assert (a + b)[..|a + b| - 1] == a + b[..|b| - 1];
      CodeAppend(a, b[..|b| - 1]);
    }
  }

  /** A line with the anchor that the output puts above it. */
  function Slot(out: seq<Line>, anchors: set<nat>, lineToAddr: map<nat, nat>, i: nat): seq<Line>
    requires i < |out|
    requires forall i :: i in anchors ==> i in lineToAddr && lineToAddr[i] < 0x1_0000
  {
    (if i in anchors then [LabelLine(FreshName(lineToAddr[i]), lineToAddr[i])] else []) + [out[i]]
  }

  /** Four lines of a program as they stand in the output. */
  function Stretch(out: seq<Line>, anchors: set<nat>, lineToAddr: map<nat, nat>, at: nat): seq<Line>
    requires at + 3 < |out|
    requires forall i :: i in anchors ==> i in lineToAddr && lineToAddr[i] < 0x1_0000
  {
    Slot(out, anchors, lineToAddr, at) + Slot(out, anchors, lineToAddr, at + 1)
    + (Slot(out, anchors, lineToAddr, at + 2) + Slot(out, anchors, lineToAddr, at + 3))
  }

  lemma WovenSlot(out: seq<Line>, anchors: set<nat>, lineToAddr: map<nat, nat>, i: nat)
    requires i < |out|
    requires forall i :: i in anchors ==> i in lineToAddr && lineToAddr[i] < 0x1_0000
    ensures Woven(out, anchors, lineToAddr, i + 1)
         == Woven(out, anchors, lineToAddr, i) + Slot(out, anchors, lineToAddr, i)
  {
  }

  lemma FourParts<T>(x: seq<T>, a: seq<T>, b: seq<T>, c: seq<T>, d: seq<T>)
    ensures x + a + b + c + d == x + (a + b + (c + d))
  {
  }

  lemma WovenStretch(out: seq<Line>, anchors: set<nat>, lineToAddr: map<nat, nat>, at: nat)
    requires at + 3 < |out|
    requires forall i :: i in anchors ==> i in lineToAddr && lineToAddr[i] < 0x1_0000
    ensures Woven(out, anchors, lineToAddr, at + 4)
         == Woven(out, anchors, lineToAddr, at) + Stretch(out, anchors, lineToAddr, at)
  {
    WovenSlot(out, anchors, lineToAddr, at);
    WovenSlot(out, anchors, lineToAddr, at + 1);
    WovenSlot(out, anchors, lineToAddr, at + 2);
    WovenSlot(out, anchors, lineToAddr, at + 3);
    FourParts(Woven(out, anchors, lineToAddr, at), Slot(out, anchors, lineToAddr, at),
              Slot(out, anchors, lineToAddr, at + 1), Slot(out, anchors, lineToAddr, at + 2),
              Slot(out, anchors, lineToAddr, at + 3));
  }

  lemma {:induction false} WovenPrefix(out: seq<Line>, anchors: set<nat>, lineToAddr: map<nat, nat>, m: nat, n: nat)
    requires m <= n <= |out|
    requires forall i :: i in anchors ==> i in lineToAddr && lineToAddr[i] < 0x1_0000
    ensures Woven(out, anchors, lineToAddr, m) <= Woven(out, anchors, lineToAddr, n)
    decreases n - m
  {
    if m < n {
      WovenSlot(out, anchors, lineToAddr, m);
      WovenPrefix(out, anchors, lineToAddr, m + 1, n);
    }
  }

  lemma CodeOfSlot(out: seq<Line>, anchors: set<nat>, lineToAddr: map<nat, nat>, i: nat)
    requires i < |out| && !out[i].LabelLine?
    requires forall i :: i in anchors ==> i in lineToAddr && lineToAddr[i] < 0x1_0000
    ensures Code(Slot(out, anchors, lineToAddr, i)) == [out[i]]
  {
    if i in anchors {
      var anchor := LabelLine(FreshName(lineToAddr[i]), lineToAddr[i]);
      CodeAppend([anchor], [out[i]]);
      CodeOfOne(anchor);
    }
    CodeOfOne(out[i]);
    assert [] + [out[i]] == [out[i]];
  }

  lemma CodeOfOne(line: Line)
    ensures Code([line]) == if line.LabelLine? then [] else [line]
  {
    assert [line][..0] == [];
  }

  lemma CodeOfStretch(out: seq<Line>, anchors: set<nat>, lineToAddr: map<nat, nat>, at: nat)
    requires at + 3 < |out| && forall i :: at <= i < at + 4 ==> !out[i].LabelLine?
    requires forall i :: i in anchors ==> i in lineToAddr && lineToAddr[i] < 0x1_0000
    ensures Code(Stretch(out, anchors, lineToAddr, at)) == out[at..at + 4]
  {
    var a, b := Slot(out, anchors, lineToAddr, at), Slot(out, anchors, lineToAddr, at + 1);
    var c, d := Slot(out, anchors, lineToAddr, at + 2), Slot(out, anchors, lineToAddr, at + 3);
    CodeOfSlot(out, anchors, lineToAddr, at);
    CodeOfSlot(out, anchors, lineToAddr, at + 1);
    CodeOfSlot(out, anchors, lineToAddr, at + 2);
    CodeOfSlot(out, anchors, lineToAddr, at + 3);
    CodeOfFour(a, b, c, d);
    FourLines(out, at);
  }

  lemma CodeOfFour(a: seq<Line>, b: seq<Line>, c: seq<Line>, d: seq<Line>)
    ensures Code(a + b + (c + d)) == Code(a) + Code(b) + (Code(c) + Code(d))
  {
    CodeAppend(a, b);
    CodeAppend(c, d);
    CodeAppend(a + b, c + d);
  }

  lemma FourLines<T>(s: seq<T>, at: nat)
    requires at + 3 < |s|
    ensures [s[at]] + [s[at + 1]] + ([s[at + 2]] + [s[at + 3]]) == s[at..at + 4]
  {
  }

  /** Running a stretch without labels of its own is running its four lines. */
  lemma ExecOfStretch(
      out: seq<Line>, anchors: set<nat>, lineToAddr: map<nat, nat>, at: nat, env: Placement, c: Cpu)
    requires at + 3 < |out| && forall i :: at <= i < at + 4 ==> !out[i].LabelLine?
    requires forall i :: i in anchors ==> i in lineToAddr && lineToAddr[i] < 0x1_0000
    ensures ExecAll(c, Stretch(out, anchors, lineToAddr, at), env) == Exec4(c, out, at, env)
  {
    ExecIsOfCode(c, Stretch(out, anchors, lineToAddr, at), env);
    CodeOfStretch(out, anchors, lineToAddr, at);
    ExecOfFour(c, out, at, env);
  }

  lemma ExecOfFour(c: Cpu, lines: seq<Line>, at: nat, env: Placement)
    requires at + 3 < |lines|
    ensures ExecAll(c, lines[at..at + 4], env) == Exec4(c, lines, at, env)
  {
    var w := lines[at..at + 4];
    assert w[..3][..2] == w[..2] && w[..2][..1] == w[..1] && w[..1][..0] == [];
    assert w[..3][2] == lines[at + 2] && w[..2][1] == lines[at + 1] && w[..1][0] == lines[at];
    assert ExecAll(c, w[..1], env) == Exec(c, lines[at], env);
    assert ExecAll(c, w[..2], env) == Exec(Exec(c, lines[at], env), lines[at + 1], env);
    assert ExecAll(c, w[..3], env) == Exec(Exec(Exec(c, lines[at], env), lines[at + 1], env), lines[at + 2], env);
  }

  /** The lines that the pass anchors. */
  function Anchors(lines: seq<Line>, lineToAddr: map<nat, nat>): (anchors: set<nat>)
    ensures forall i :: i in anchors ==> i in lineToAddr && lineToAddr[i] < 0x1_0000
  {
    var targets := NewTargets(lines, ExistingLabels(lines), 0);
    AnchorLinesListed(lineToAddr, targets, |lines|);
    AnchorLines(lineToAddr, targets, |lines|)
  }

  /** A site's window in the output: its four lines, with the anchors that stand among them. */
  function OutputWindow(lines: seq<Line>, lineToAddr: map<nat, nat>, s: Site): seq<Line>
    requires s.at + 3 < |lines|
  {
    Stretch(Replaced(lines, AllReplacements(lines)), Anchors(lines, lineToAddr), lineToAddr, s.at)
  }

  /** What the output holds above it. */
  function OutputAbove(lines: seq<Line>, lineToAddr: map<nat, nat>, s: Site): seq<Line>
    requires s.at + 3 < |lines|
  {
    Woven(Replaced(lines, AllReplacements(lines)), Anchors(lines, lineToAddr), lineToAddr, s.at)
  }

  lemma WindowHasNoLabel(lines: seq<Line>, s: Site)
    requires s in Sites(lines, 0) && IsSite(lines, s)
    ensures forall i :: s.at <= i < s.at + 4 ==> !Replaced(lines, AllReplacements(lines))[i].LabelLine?
  {
    RewrittenWindow(lines, s);
    SiteLines(lines, s);
    var out := Replaced(lines, AllReplacements(lines));
    forall i | s.at <= i < s.at + 4
      ensures !out[i].LabelLine?
    {
      assert i == s.at + 1 || i == s.at + 3 || i == s.hi || i == s.lo;
    }
  }

  lemma SiteLines(lines: seq<Line>, s: Site)
    requires IsSite(lines, s)
    ensures (s.hi == s.at && s.lo == s.at + 2) || (s.hi == s.at + 2 && s.lo == s.at)
    ensures !lines[s.at + 1].LabelLine? && !lines[s.at + 3].LabelLine?
  {
  }

  /** Under any placement of the labels, a rewritten window of the output loads exactly its label's 16-bit
    address, whatever the machine held before and whatever anchors stand among its lines. */
  lemma RewrittenWindowLoadsLabel(lines: seq<Line>, lineToAddr: map<nat, nat>, s: Site, env: Placement, c: Cpu)
    requires s in Sites(lines, 0) && IsSite(lines, s)
    ensures var w := OutputWindow(lines, lineToAddr, s);
            && OutputAbove(lines, lineToAddr, s) + w <= Rewritten(lines, lineToAddr)
            && Code(w) == Replaced(lines, AllReplacements(lines))[s.at..s.at + 4]
            && Pointer(ExecAll(c, w, env), lines[s.at + 1].MovwfTblptr?)
               == env(LabelFor(ExistingLabels(lines), s.target)) % 0x1_0000
  {
    WindowInOutput(lines, lineToAddr, s);
    WindowCode(lines, lineToAddr, s, env, c);
    ReplacedWindowLoadsLabel(lines, s, env, c);
  }

  lemma WindowCode(lines: seq<Line>, lineToAddr: map<nat, nat>, s: Site, env: Placement, c: Cpu)
    requires s in Sites(lines, 0) && IsSite(lines, s)
    ensures var out := Replaced(lines, AllReplacements(lines));
            && Code(OutputWindow(lines, lineToAddr, s)) == out[s.at..s.at + 4]
            && ExecAll(c, OutputWindow(lines, lineToAddr, s), env) == Exec4(c, out, s.at, env)
  {
    WindowHasNoLabel(lines, s);
    CodeOfStretch(Replaced(lines, AllReplacements(lines)), Anchors(lines, lineToAddr), lineToAddr, s.at);
    ExecOfStretch(Replaced(lines, AllReplacements(lines)), Anchors(lines, lineToAddr), lineToAddr, s.at, env, c);
  }

  lemma WindowInOutput(lines: seq<Line>, lineToAddr: map<nat, nat>, s: Site)
    requires s.at + 3 < |lines|
    ensures OutputAbove(lines, lineToAddr, s) + OutputWindow(lines, lineToAddr, s) <= Rewritten(lines, lineToAddr)
  {
    var out, anchors := Replaced(lines, AllReplacements(lines)), Anchors(lines, lineToAddr);
    WovenStretch(out, anchors, lineToAddr, s.at);
    WovenPrefix(out, anchors, lineToAddr, s.at + 4, |lines|);
  }

  /** The literal window loads its target exactly when its literals fit, so at the stock addresses the
    two windows load the same pointer. */
  lemma LiteralWindowLoadsTarget(lines: seq<Line>, s: Site, env: Placement, c: Cpu)
    requires IsSite(lines, s)
    ensures Pointer(Exec4(c, lines, s.at, env), lines[s.at + 1].MovwfTblptr?) == s.target <==> LiteralsFit(lines, s)
  {
    SiteFacts(lines, s);
    SiteTargetBytes(lines, s);
    ByBytes(s.target, lines[s.hi].lit % 256, lines[s.lo].lit % 256);
    SiteLoads(lines, lines, s, env, c, lines[s.hi].lit % 256, lines[s.lo].lit % 256);
  }

  lemma ByBytes(target: nat, high: byte, low: byte)
    requires target < 0x1_0000 && target % 256 == low
    ensures high as int * 256 + low == target <==> target / 256 % 256 == high
  {
    SixteenBits(target);
  }

  // ---------------------------------------------------------------- label names

  /** No two targets share a name. */
  ghost predicate NamesTellTargets(sites: seq<Site>, existing: map<nat, string>) {
    forall s, t :: s in sites && t in sites && LabelFor(existing, s.target) == LabelFor(existing, t.target) ==>
      s.target == t.target
  }

  /** Some placement puts every chosen label at its target exactly when no two targets share a name. */
  lemma PlacementExists(lines: seq<Line>)
    ensures (exists env :: AtTargets(lines, env)) <==> NamesTellTargets(Sites(lines, 0), ExistingLabels(lines))
  {
    var existing := ExistingLabels(lines);
    var sites := Sites(lines, 0);
    if NamesTellTargets(sites, existing) {
      var env: Placement := name => TargetNamed(sites, existing, name);
      forall s | s in sites
        ensures env(LabelFor(existing, s.target)) == s.target
      {
        TargetNamedIs(sites, existing, s);
      }
      assert AtTargets(lines, env);
    }
  }

  /** New names never clash among themselves: a clash takes a label of the source. */
  lemma ClashTakesExistingLabel(lines: seq<Line>, s: Site, t: Site)
    requires s.target != t.target
    requires LabelFor(ExistingLabels(lines), s.target) == LabelFor(ExistingLabels(lines), t.target)
    ensures s.target in ExistingLabels(lines) || t.target in ExistingLabels(lines)
  {
    if s.target !in ExistingLabels(lines) && t.target !in ExistingLabels(lines) {
      FreshNamesDiffer(s.target, t.target);
    }
  }

  function TargetNamed(sites: seq<Site>, existing: map<nat, string>, name: string): nat {
    if sites == [] then 0
    else if LabelFor(existing, sites[0].target) == name then sites[0].target
    else TargetNamed(sites[1..], existing, name)
  }

  lemma {:induction false} TargetNamedIs(sites: seq<Site>, existing: map<nat, string>, s: Site)
    requires s in sites
    requires forall t :: t in sites && LabelFor(existing, t.target) == LabelFor(existing, s.target) ==> t.target == s.target
    ensures TargetNamed(sites, existing, LabelFor(existing, s.target)) == s.target
  {
    if s != sites[0] && !(LabelFor(existing, sites[0].target) == LabelFor(existing, s.target)) {
      TargetNamedIs(sites[1..], existing, s);
    } else {
      assert sites[0] in sites;
    }
  }

  // ---------------------------------------------------------------- anchors

  /** A listed line at a target. */
  predicate Hit(lineToAddr: map<nat, nat>, targets: set<nat>, i: nat) {
    i in lineToAddr && lineToAddr[i] in targets
  }

  /** Some listed line is at an address that is also the number of an earlier listed line. */
  predicate Collides(lineToAddr: map<nat, nat>, targets: set<nat>, n: nat) {
    exists i, j :: 0 <= i < j < n && Hit(lineToAddr, targets, i) && Hit(lineToAddr, targets, j) && lineToAddr[j] == i
  }

  lemma {:induction false} AnchorsWithoutCollision(lineToAddr: map<nat, nat>, targets: set<nat>, n: nat)
    requires !Collides(lineToAddr, targets, n)
    ensures forall i :: 0 <= i < n ==> (i in AnchorLines(lineToAddr, targets, n) <==> Hit(lineToAddr, targets, i))
  {
    AnchorLinesListed(lineToAddr, targets, n);
    if n > 0 {
      AnchorsWithoutCollision(lineToAddr, targets, n - 1);
      AnchorLinesListed(lineToAddr, targets, n - 1);
    }
  }

  lemma {:induction false} AnchorsSkipped(lineToAddr: map<nat, nat>, targets: set<nat>, n: nat, i: nat, j: nat)
    requires i < j < n && Hit(lineToAddr, targets, i) && Hit(lineToAddr, targets, j) && lineToAddr[j] == i
    ensures i !in AnchorLines(lineToAddr, targets, n) || j !in AnchorLines(lineToAddr, targets, n)
  {
    AnchorLinesListed(lineToAddr, targets, n - 1);
    if j == n - 1 {
      assert i in AnchorLines(lineToAddr, targets, n) ==> i in AnchorLines(lineToAddr, targets, n - 1);
    } else {
      AnchorsSkipped(lineToAddr, targets, n - 1, i, j);
    }
  }

  /** Every listed line at a new target gets an anchor exactly when no target is the number of an
    earlier such line; two lines listed at one target then get two anchors. */
  lemma EveryTargetLineIsAnchored(lineToAddr: map<nat, nat>, targets: set<nat>, n: nat)
    ensures (forall i :: 0 <= i < n ==> (i in AnchorLines(lineToAddr, targets, n) <==> Hit(lineToAddr, targets, i)))
            <==> !Collides(lineToAddr, targets, n)
  {
    if Collides(lineToAddr, targets, n) {
      var i, j :| 0 <= i < j < n && Hit(lineToAddr, targets, i) && Hit(lineToAddr, targets, j) && lineToAddr[j] == i;
      AnchorsSkipped(lineToAddr, targets, n, i, j);
    } else {
      AnchorsWithoutCollision(lineToAddr, targets, n);
    }
  }

  /** The first listed line of its target. */
  predicate First(lineToAddr: map<nat, nat>, targets: set<nat>, j: nat) {
    Hit(lineToAddr, targets, j) && forall i :: 0 <= i < j && i in lineToAddr ==> lineToAddr[i] != lineToAddr[j]
  }

  /** Each target is anchored once, at its first listed line. */
  predicate OnePerTarget(lineToAddr: map<nat, nat>, targets: set<nat>, n: nat) {
    forall j: nat :: j < n ==> (j in AnchorLines(lineToAddr, targets, n) <==> First(lineToAddr, targets, j))
  }

  /** What tells a listed line of a target from a first one, as the lookup sees it: that its address is not
    the number of an earlier first line. */
  predicate LookupTellsFirst(lineToAddr: map<nat, nat>, targets: set<nat>, n: nat) {
    forall j: nat :: j < n && Hit(lineToAddr, targets, j) ==>
      (First(lineToAddr, targets, j) <==> !(lineToAddr[j] < j && First(lineToAddr, targets, lineToAddr[j])))
  }

  lemma {:induction false} AnchorsBelow(lineToAddr: map<nat, nat>, targets: set<nat>, m: nat, n: nat, j: nat)
    requires j < m <= n
    ensures j in AnchorLines(lineToAddr, targets, n) <==> j in AnchorLines(lineToAddr, targets, m)
  {
    if m < n {
      AnchorsBelow(lineToAddr, targets, m, n - 1, j);
    }
  }

  lemma AnchorAt(lineToAddr: map<nat, nat>, targets: set<nat>, n: nat, j: nat)
    requires j < n
    ensures j in AnchorLines(lineToAddr, targets, n) <==>
            Hit(lineToAddr, targets, j) && lineToAddr[j] !in AnchorLines(lineToAddr, targets, j)
  {
    AnchorsBelow(lineToAddr, targets, j + 1, n, j);
    AnchorLinesListed(lineToAddr, targets, j);
  }

  lemma OnePerTargetBelow(lineToAddr: map<nat, nat>, targets: set<nat>, m: nat, n: nat)
    requires m <= n && OnePerTarget(lineToAddr, targets, n)
    ensures OnePerTarget(lineToAddr, targets, m)
  {
    forall j: nat | j < m
      ensures j in AnchorLines(lineToAddr, targets, m) <==> First(lineToAddr, targets, j)
    {
      AnchorsBelow(lineToAddr, targets, m, n, j);
    }
  }

  /** The pass anchors each target once, at its first listed line, exactly when, among the listed lines of
    targets, the first ones are those whose address is not the number of an earlier first one. */
  lemma {:induction false} OneAnchorPerTarget(lineToAddr: map<nat, nat>, targets: set<nat>, n: nat)
    ensures OnePerTarget(lineToAddr, targets, n) <==> LookupTellsFirst(lineToAddr, targets, n)
  {
    if n > 0 {
      OneAnchorPerTarget(lineToAddr, targets, n - 1);
      if OnePerTarget(lineToAddr, targets, n) {
        OnePerTargetBelow(lineToAddr, targets, n - 1, n);
      }
      if OnePerTarget(lineToAddr, targets, n - 1) {
        LastLineAnchored(lineToAddr, targets, n);
      }
    }
  }

  lemma LastLineAnchored(lineToAddr: map<nat, nat>, targets: set<nat>, n: nat)
    requires n > 0 && OnePerTarget(lineToAddr, targets, n - 1)
    ensures OnePerTarget(lineToAddr, targets, n) <==>
            (Hit(lineToAddr, targets, n - 1) ==>
               (First(lineToAddr, targets, n - 1) <==>
                  !(lineToAddr[n - 1] < n - 1 && First(lineToAddr, targets, lineToAddr[n - 1]))))
  {
    AnchorAt(lineToAddr, targets, n, n - 1);
    AnchorLinesListed(lineToAddr, targets, n - 1);
    forall j: nat | j < n - 1
      ensures j in AnchorLines(lineToAddr, targets, n) <==> First(lineToAddr, targets, j)
    {
      AnchorsBelow(lineToAddr, targets, n - 1, n, j);
    }
  }

  /** A listing in which a target stays without an anchor: line 200 is at address 100, and line 100 has one. */
  lemma MissedAnchor()
    ensures var listing := map[100 := 0x100C, 200 := 100];
            var targets := {0x100C, 100};
            && First(listing, targets, 200) && Collides(listing, targets, 300)
            && 100 in AnchorLines(listing, targets, 300) && 200 !in AnchorLines(listing, targets, 300)
            && !OnePerTarget(listing, targets, 300)
  {
    var listing := map[100 := 0x100C, 200 := 100];
    var targets := {0x100C, 100};
    AnchorAt(listing, targets, 300, 200);
    AnchorAt(listing, targets, 200, 100);
    AnchorAt(listing, targets, 300, 100);
    AnchorLinesListed(listing, targets, 100);
    assert Hit(listing, targets, 100) && Hit(listing, targets, 200) && listing[200] == 100;
  }
}
