/** Which windows the TBLPTR pass takes, spelled out, and where every line of the source is in its output. */
module TblptrShapes {
  import opened Wrappers
  import opened Tblptr
  import opened TblptrTheorems

  // ---------------------------------------------------------------- targets

  predicate Bit(n: nat, k: nat)
    decreases k
  {
    if k == 0 then n % 2 == 1 else Bit(n / 2, k - 1)
  }

  lemma {:induction false} OrBits(a: nat, b: nat, k: nat)
    ensures Bit(Or(a, b), k) <==> Bit(a, k) || Bit(b, k)
    decreases k
  {
    if a == 0 {
      ZeroHasNoBits(k);
    } else if k > 0 {
      OrBits(a / 2, b / 2, k - 1);
    }
  }

  lemma {:induction false} ZeroHasNoBits(k: nat)
    ensures !Bit(0, k)
    decreases k
  {
    if k > 0 {
      ZeroHasNoBits(k - 1);
    }
  }

  /** The target of a window whose low literal has eight bits. */
  lemma EightBitTarget(hi: nat, lo: nat)
    requires lo < 256
    ensures TargetOf(hi, lo) == hi * 256 + lo
  {
    TargetParts(hi, lo);
    OrWithin(hi, 0);
  }

  // ---------------------------------------------------------------- the four windows

  /** The pointer in RAM, its high cell first: the pair 0x2A and 0x29, for a target below the end of the code
    that is even. */
  lemma CellsHighFirst(lines: seq<Line>, i: nat, p: string, a: nat, q: string, b: nat, target: nat)
    requires i + 3 < |lines| && target == TargetOf(a, b)
    requires lines[i] == Movlw(p, a) && lines[i + 1] == MovwfCommon(0x2A)
    requires lines[i + 2] == Movlw(q, b) && lines[i + 3] == MovwfCommon(0x29)
    ensures SiteAt(lines, i) == if 0x4C <= target < 0x1C00 && target % 2 == 0 then Some(Site(i, i, i + 2, target)) else None
  {
  }

  lemma CellsLowFirst(lines: seq<Line>, i: nat, p: string, b: nat, q: string, a: nat, target: nat)
    requires i + 3 < |lines| && target == TargetOf(a, b)
    requires lines[i] == Movlw(p, b) && lines[i + 1] == MovwfCommon(0x29)
    requires lines[i + 2] == Movlw(q, a) && lines[i + 3] == MovwfCommon(0x2A)
    ensures SiteAt(lines, i) == if 0x4C <= target < 0x1C00 && target % 2 == 0 then Some(Site(i, i + 2, i, target)) else None
  {
  }

  /** The table pointer itself, its high half first: any target below the bootloader, odd ones too. */
  lemma PointerHighFirst(lines: seq<Line>, i: nat, p: string, a: nat, q: string, b: nat, target: nat)
    requires i + 3 < |lines| && target == TargetOf(a, b)
    requires lines[i] == Movlw(p, a) && lines[i + 1] == MovwfTblptr(High)
    requires lines[i + 2] == Movlw(q, b) && lines[i + 3] == MovwfTblptr(Low)
    ensures SiteAt(lines, i) == if 0x4C <= target < 0x7800 then Some(Site(i, i, i + 2, target)) else None
  {
  }

  lemma PointerLowFirst(lines: seq<Line>, i: nat, p: string, b: nat, q: string, a: nat, target: nat)
    requires i + 3 < |lines| && target == TargetOf(a, b)
    requires lines[i] == Movlw(p, b) && lines[i + 1] == MovwfTblptr(Low)
    requires lines[i + 2] == Movlw(q, a) && lines[i + 3] == MovwfTblptr(High)
    ensures SiteAt(lines, i) == if 0x4C <= target < 0x7800 then Some(Site(i, i + 2, i, target)) else None
  {
  }

  /** So for literals of eight bits: which windows of the RAM pair are taken, either cell first. */
  lemma EightBitCells(lines: seq<Line>, i: nat, p: string, a: nat, q: string, b: nat)
    requires i + 3 < |lines| && a < 256 && b < 256
    requires (lines[i] == Movlw(p, a) && lines[i + 1] == MovwfCommon(0x2A)
              && lines[i + 2] == Movlw(q, b) && lines[i + 3] == MovwfCommon(0x29))
          || (lines[i] == Movlw(p, b) && lines[i + 1] == MovwfCommon(0x29)
              && lines[i + 2] == Movlw(q, a) && lines[i + 3] == MovwfCommon(0x2A))
    ensures SiteAt(lines, i).Some? <==> 0x4C <= a * 256 + b < 0x1C00 && b % 2 == 0
    ensures SiteAt(lines, i).Some? ==> SiteAt(lines, i).value.target == a * 256 + b
  {
    EightBitTarget(a, b);
    if lines[i + 1] == MovwfCommon(0x2A) {
      CellsHighFirst(lines, i, p, a, q, b, a * 256 + b);
    } else {
      CellsLowFirst(lines, i, p, b, q, a, a * 256 + b);
    }
  }

  /** And which of the table pointer, either half first. */
  lemma EightBitPointer(lines: seq<Line>, i: nat, p: string, a: nat, q: string, b: nat)
    requires i + 3 < |lines| && a < 256 && b < 256
    requires (lines[i] == Movlw(p, a) && lines[i + 1] == MovwfTblptr(High)
              && lines[i + 2] == Movlw(q, b) && lines[i + 3] == MovwfTblptr(Low))
          || (lines[i] == Movlw(p, b) && lines[i + 1] == MovwfTblptr(Low)
              && lines[i + 2] == Movlw(q, a) && lines[i + 3] == MovwfTblptr(High))
    ensures SiteAt(lines, i).Some? <==> 0x4C <= a * 256 + b < 0x7800
    ensures SiteAt(lines, i).Some? ==> SiteAt(lines, i).value.target == a * 256 + b
  {
    EightBitTarget(a, b);
    if lines[i + 1] == MovwfTblptr(High) {
      PointerHighFirst(lines, i, p, a, q, b, a * 256 + b);
    } else {
      PointerLowFirst(lines, i, p, b, q, a, a * 256 + b);
    }
  }

  /** Two stores that write the two halves of one pointer. */
  predicate StoresPointer(second: Line, fourth: Line) {
    || (second == MovwfTblptr(High) && fourth == MovwfTblptr(Low))
    || (second == MovwfTblptr(Low) && fourth == MovwfTblptr(High))
    || (second == MovwfCommon(0x2A) && fourth == MovwfCommon(0x29))
    || (second == MovwfCommon(0x29) && fourth == MovwfCommon(0x2A))
  }

  /** No other four lines are a window. */
  lemma NoOtherWindow(lines: seq<Line>, i: nat)
    requires i + 3 < |lines| && SiteAt(lines, i).Some?
    ensures lines[i].Movlw? && lines[i + 2].Movlw? && StoresPointer(lines[i + 1], lines[i + 3])
  {
  }

  // ---------------------------------------------------------------- the output, line by line

  /** How many of the first n lines have an anchor. */
  function Count(anchors: set<nat>, n: nat): nat {
    if n == 0 then 0 else Count(anchors, n - 1) + (if n - 1 in anchors then 1 else 0)
  }

  /** Where line k of the source is in the output. */
  function Position(lines: seq<Line>, lineToAddr: map<nat, nat>, k: nat): nat {
    k + Count(Anchors(lines, lineToAddr), k + 1)
  }

  lemma {:induction false} WovenLength(out: seq<Line>, anchors: set<nat>, lineToAddr: map<nat, nat>, n: nat)
    requires n <= |out|
    requires forall i :: i in anchors ==> i in lineToAddr && lineToAddr[i] < 0x1_0000
    ensures |Woven(out, anchors, lineToAddr, n)| == n + Count(anchors, n)
  {
    if n > 0 {
      WovenLength(out, anchors, lineToAddr, n - 1);
    }
  }

  lemma WovenAt(out: seq<Line>, anchors: set<nat>, lineToAddr: map<nat, nat>, k: nat)
    requires k < |out|
    requires forall i :: i in anchors ==> i in lineToAddr && lineToAddr[i] < 0x1_0000
    ensures var woven := Woven(out, anchors, lineToAddr, |out|);
            var p := k + Count(anchors, k + 1);
            && p < |woven| && woven[p] == out[k]
            && (k in anchors ==> p > 0 && woven[p - 1] == LabelLine(FreshName(lineToAddr[k]), lineToAddr[k]))
  {
    WovenLength(out, anchors, lineToAddr, k);
    WovenSlot(out, anchors, lineToAddr, k);
    WovenPrefix(out, anchors, lineToAddr, k + 1, |out|);
  }

  /** Line k is a load of some window, as the patterns see it. */
  ghost predicate IsLoad(lines: seq<Line>, k: nat) {
    exists s: Site :: IsSite(lines, s) && (k == s.hi || k == s.lo)
  }

  /** The output is the source with the loads of windows rewritten and with new anchor lines: every other
    line stays as it is, in its place. */
  lemma OtherLinesStay(lines: seq<Line>, lineToAddr: map<nat, nat>, k: nat)
    requires k < |lines|
    ensures var out := Rewritten(lines, lineToAddr);
            var p := Position(lines, lineToAddr, k);
            && |out| == |lines| + Count(Anchors(lines, lineToAddr), |lines|) && p < |out|
            && (!IsLoad(lines, k) ==> out[p] == lines[k])
            && (k in Anchors(lines, lineToAddr) ==> p > 0 && out[p - 1].LabelLine? && out[p - 1].addr == lineToAddr[k])
  {
    OutputAt(lines, lineToAddr, k);
    ReplacedLine(lines, k);
  }

  lemma OutputAt(lines: seq<Line>, lineToAddr: map<nat, nat>, k: nat)
    requires k < |lines|
    ensures var out := Rewritten(lines, lineToAddr);
            var p := Position(lines, lineToAddr, k);
            && |out| == |lines| + Count(Anchors(lines, lineToAddr), |lines|) && p < |out|
            && out[p] == Replaced(lines, AllReplacements(lines))[k]
            && (k in Anchors(lines, lineToAddr) ==> p > 0 && out[p - 1].LabelLine? && out[p - 1].addr == lineToAddr[k])
  {
    var out := Replaced(lines, AllReplacements(lines));
    WovenAt(out, Anchors(lines, lineToAddr), lineToAddr, k);
    WovenLength(out, Anchors(lines, lineToAddr), lineToAddr, |lines|);
  }

  // ---------------------------------------------------------------- the labels that the output loads

  /** The first line that labels an address. */
  predicate FirstLabelAt(lines: seq<Line>, k: nat, addr: nat) {
    && k < |lines| && lines[k].LabelLine? && lines[k].addr == addr
    && forall j: nat :: j < k ==> !(lines[j].LabelLine? && lines[j].addr == addr)
  }

  lemma {:induction false} LabelIsNamed(lines: seq<Line>, j: nat)
    requires j < |lines| && lines[j].LabelLine?
    ensures lines[j].addr in ExistingLabels(lines)
  {
    if j < |lines| - 1 {
      LabelIsNamed(lines[..|lines| - 1], j);
    }
  }

  lemma {:induction false} NamedHasFirst(lines: seq<Line>, addr: nat) returns (k: nat)
    requires addr in ExistingLabels(lines)
    ensures FirstLabelAt(lines, k, addr)
  {
    var front := lines[..|lines| - 1];
    if addr in ExistingLabels(front) {
      k := NamedHasFirst(front, addr);
    } else {
      k := |lines| - 1;
      forall j: nat | j < k && lines[j].LabelLine?
        ensures lines[j].addr != addr
      {
        LabelIsNamed(front, j);
      }
    }
  }

  /** The first line that labels an address names it. */
  lemma {:induction false} FirstLabelNames(lines: seq<Line>, k: nat, addr: nat)
    requires FirstLabelAt(lines, k, addr)
    ensures addr in ExistingLabels(lines) && lines[k] == LabelLine(ExistingLabels(lines)[addr], addr)
  {
    var front := lines[..|lines| - 1];
    if k < |lines| - 1 {
      FirstLabelNames(front, k, addr);
    } else if addr in ExistingLabels(front) {
      var j := NamedHasFirst(front, addr);
      assert false;
    }
  }

  lemma LabelStays(lines: seq<Line>, lineToAddr: map<nat, nat>, k: nat)
    requires k < |lines| && lines[k].LabelLine?
    ensures lines[k] in Rewritten(lines, lineToAddr)
  {
    OtherLinesStay(lines, lineToAddr, k);
    if s: Site :| IsSite(lines, s) && (k == s.hi || k == s.lo) {
      SiteFacts(lines, s);
    }
  }

  lemma AnchorsAreLines(lines: seq<Line>, lineToAddr: map<nat, nat>, i: nat)
    requires i in Anchors(lines, lineToAddr)
    ensures i < |lines|
  {
    AnchorLinesListed(lineToAddr, NewTargets(lines, ExistingLabels(lines), 0), |lines|);
  }

  lemma AnchorIsInOutput(lines: seq<Line>, lineToAddr: map<nat, nat>, i: nat)
    requires i in Anchors(lines, lineToAddr)
    ensures LabelLine(FreshName(lineToAddr[i]), lineToAddr[i]) in Rewritten(lines, lineToAddr)
  {
    AnchorsAreLines(lines, lineToAddr, i);
    WovenAt(Replaced(lines, AllReplacements(lines)), Anchors(lines, lineToAddr), lineToAddr, i);
  }

  lemma {:induction false} WovenFrom(out: seq<Line>, anchors: set<nat>, lineToAddr: map<nat, nat>, n: nat, x: Line)
    requires n <= |out|
    requires forall i :: i in anchors ==> i in lineToAddr && lineToAddr[i] < 0x1_0000
    requires x in Woven(out, anchors, lineToAddr, n)
    ensures x in out || exists i :: i in anchors && x == LabelLine(FreshName(lineToAddr[i]), lineToAddr[i])
  {
    if x in Woven(out, anchors, lineToAddr, n - 1) {
      WovenFrom(out, anchors, lineToAddr, n - 1, x);
    } else {
      WovenSlot(out, anchors, lineToAddr, n - 1);
      assert x in Slot(out, anchors, lineToAddr, n - 1);
    }
  }

  /** A label line of the output is one of the source or a new anchor. */
  lemma LabelComesFrom(lines: seq<Line>, lineToAddr: map<nat, nat>, mark: Line)
    requires mark in Rewritten(lines, lineToAddr) && mark.LabelLine?
    ensures mark in lines || exists i :: i in Anchors(lines, lineToAddr) && lineToAddr[i] == mark.addr
  {
    var out := Replaced(lines, AllReplacements(lines));
    WovenFrom(out, Anchors(lines, lineToAddr), lineToAddr, |lines|, mark);
    if mark in out {
      var k :| 0 <= k < |out| && out[k] == mark;
      ReplacedLine(lines, k);
    }
  }

  /** The name that a rewritten window loads is defined in the output, at the window's target, exactly when
    the source labels the target or a line at the target got an anchor. */
  lemma LoadedNameIsDefined(lines: seq<Line>, lineToAddr: map<nat, nat>, s: Site)
    requires s in Sites(lines, 0) && IsSite(lines, s)
    ensures var anchors := Anchors(lines, lineToAddr);
            LabelLine(LabelFor(ExistingLabels(lines), s.target), s.target) in Rewritten(lines, lineToAddr)
            <==> (exists k :: FirstLabelAt(lines, k, s.target)) || exists i :: i in anchors && lineToAddr[i] == s.target
  {
    var mark := LabelLine(LabelFor(ExistingLabels(lines), s.target), s.target);
    if s.target in ExistingLabels(lines) {
      var k := NamedHasFirst(lines, s.target);
      FirstLabelNames(lines, k, s.target);
      LabelStays(lines, lineToAddr, k);
    } else {
      UnnamedTarget(lines, lineToAddr, s.target, mark);
    }
  }

  lemma UnnamedTarget(lines: seq<Line>, lineToAddr: map<nat, nat>, target: Addr16, mark: Line)
    requires target !in ExistingLabels(lines) && mark == LabelLine(FreshName(target), target)
    ensures forall k :: !FirstLabelAt(lines, k, target)
    ensures mark in Rewritten(lines, lineToAddr)
            <==> exists i :: i in Anchors(lines, lineToAddr) && lineToAddr[i] == target
  {
    forall k: nat | k < |lines| && lines[k].LabelLine?
      ensures lines[k].addr != target
    {
      LabelIsNamed(lines, k);
    }
    if mark in Rewritten(lines, lineToAddr) {
      LabelComesFrom(lines, lineToAddr, mark);
    }
    if i :| i in Anchors(lines, lineToAddr) && lineToAddr[i] == target {
      AnchorIsInOutput(lines, lineToAddr, i);
    }
  }

  // ---------------------------------------------------------------- the names of new anchors

  /** A new anchor is named by its address in four hexadecimal digits, unless it is one of the known tables. */
  lemma FreshNameSpelled(addr: Addr16)
    ensures var d := "0123456789ABCDEF";
            SemanticName(addr).None? ==>
              FreshName(addr) == "tbl_" + [d[addr / 0x1000], d[addr / 0x100 % 16], d[addr / 16 % 16], d[addr % 16]]
  {
    DigitIs(addr / 0x1000);
    DigitIs(addr / 0x100 % 16);
    DigitIs(addr / 16 % 16);
    DigitIs(addr % 16);
  }

  lemma DigitIs(n: nat)
    requires n < 16
    ensures HexChar(n) == "0123456789ABCDEF"[n]
  {
  }
}
