/** The pass that turns literal TBLPTR loads into label-relative ones.

  A source line is what the pass's line patterns see of it.  The address listing that the pass takes
  from the assembler is a parameter, and so is where the assembler puts each label.
*/
module Tblptr {
  import opened Wrappers

  const BOOTLOADER_FLOOR := 0x7800
  const APP_CODE_FLOOR := 0x004C
  const APP_CODE_CEILING := 0x1C00
  const CELL_LOW := 0x29
  const CELL_HIGH := 0x2A

  /** A program address as two bytes hold it. */
  type Addr16 = n: nat | n < 0x1_0000

  datatype Half = Low | High

  datatype Line =
    | Movlw(indent: string, lit: nat)
    | MovwfTblptr(half: Half)
    | MovwfCommon(off: nat)
    | LabelLine(name: string, addr: nat)
    | Other(text: string)
    | MovlwHigh(indent: string, name: string)
    | MovlwLow(indent: string, name: string)

  // ---------------------------------------------------------------- arithmetic of the target

  /** Bitwise or. */
  function Or(a: nat, b: nat): nat
    decreases a
  {
    if a == 0 then b
    else 2 * Or(a / 2, b / 2) + (if a % 2 == 1 || b % 2 == 1 then 1 else 0)
  }

  /** The 16-bit value of two literals; a low literal of more than eight bits runs into the high one. */
  function TargetOf(hi: nat, lo: nat): nat {
    Or(hi * 256, lo)
  }

  lemma OrTimes4(a: nat, b: nat)
    ensures Or(4 * a, b) == 4 * Or(a, b / 4) + b % 4
  {
  }

  lemma OrTimes16(a: nat, b: nat)
    ensures Or(16 * a, b) == 16 * Or(a, b / 16) + b % 16
  {
    OrTimes4(4 * a, b);
    OrTimes4(a, b / 4);
    assert b / 4 / 4 == b / 16;
  }

  lemma TargetParts(hi: nat, lo: nat)
    ensures TargetOf(hi, lo) == Or(hi, lo / 256) * 256 + lo % 256
  {
    OrTimes16(16 * hi, lo);
    OrTimes16(hi, lo / 16);
    assert lo / 16 / 16 == lo / 256;
  }

  /** Every bit of b is a bit of a. */
  predicate BitsWithin(b: nat, a: nat)
    decreases b
  {
    b == 0 || ((b % 2 == 1 ==> a % 2 == 1) && BitsWithin(b / 2, a / 2))
  }

  lemma {:induction false} OrWithin(a: nat, b: nat)
    ensures Or(a, b) >= a && (Or(a, b) == a <==> BitsWithin(b, a))
    decreases a
  {
    if a == 0 {
      NoBitsInZero(b);
    } else {
      OrWithin(a / 2, b / 2);
    }
  }

  lemma {:induction false} NoBitsInZero(b: nat)
    ensures BitsWithin(b, 0) <==> b == 0
    decreases b
  {
    if b > 0 {
      NoBitsInZero(b / 2);
    }
  }

  /** The part of a target above its low byte. */
  lemma TargetHigh(hi: nat, lo: nat) returns (h: nat)
    ensures TargetOf(hi, lo) == h * 256 + lo % 256
    ensures h >= hi && (h == hi <==> BitsWithin(lo / 256, hi))
  {
    h := Or(hi, lo / 256);
    TargetParts(hi, lo);
    OrWithin(hi, lo / 256);
  }

  /** The two bytes of a target, and when they are the two literals' bytes. */
  lemma TargetBytes(hi: nat, lo: nat, target: nat)
    requires target == TargetOf(hi, lo) < 0x8000
    ensures target / 256 % 256 == hi % 256 <==> BitsWithin(lo / 256, hi)
    ensures target % 256 == lo % 256
  {
    var h := TargetHigh(hi, lo);
    TwoBytes(target, h, lo % 256, hi);
  }

  lemma TwoBytes(target: nat, h: nat, l: nat, hi: nat)
    requires target == h * 256 + l < 0x8000 && l < 256 && hi <= h
    ensures target % 256 == l && (target / 256 % 256 == hi % 256 <==> h == hi)
  {
  }

  // ---------------------------------------------------------------- labels

  function HexChar(n: nat): char
    requires n < 16
  {
    if n < 10 then '0' + n as char else 'A' + (n - 10) as char
  }

  function Hex4(n: nat): (s: string)
    requires n < 0x1_0000
    ensures |s| == 4
  {
    [HexChar(n / 0x1000), HexChar(n / 0x100 % 16), HexChar(n / 16 % 16), HexChar(n % 16)]
  }

  function SemanticName(addr: nat): Option<string> {
    if addr == 0x0304 then Some("lcd_str_firmware_v")
    else if addr == 0x0310 then Some("lcd_str_waiting_for_dlcp")
    else if addr == 0x0322 then Some("lcd_str_standby_zzz")
    else if addr == 0x0334 then Some("lcd_str_waiting_for_dlcp_alt")
    else if addr == 0x0346 then Some("lcd_str_db_suffix")
    else if addr == 0x0354 then Some("lcd_str_mute")
    else if addr == 0x100C then Some("menu_title_table")
    else if addr == 0x13EE then Some("menu_setup_bl_timeout_entry")
    else if addr == 0x1572 then Some("menu_source_channel_table")
    else if addr == 0x15E2 then Some("menu_routing_table")
    else if addr == 0x1622 then Some("menu_input_cat_spdif_table")
    else if addr == 0x1882 then Some("menu_input_auto_detect_table")
    else None
  }

  /** The name of a new anchor. */
  function FreshName(addr: Addr16): string {
    if SemanticName(addr).Some? then SemanticName(addr).value else "tbl_" + Hex4(addr)
  }

  lemma HexCharInjective(a: nat, b: nat)
    requires a < 16 && b < 16 && HexChar(a) == HexChar(b)
    ensures a == b
  {
  }

  lemma Hex4Digits(n: nat)
    requires n < 0x1_0000
    ensures n == n / 0x1000 * 0x1000 + n / 0x100 % 16 * 0x100 + n / 16 % 16 * 16 + n % 16
  {
    assert n / 0x100 == n / 0x1000 * 16 + n / 0x100 % 16;
    assert n / 16 == n / 0x100 * 16 + n / 16 % 16;
  }

  lemma Hex4Injective(a: nat, b: nat)
    requires a < 0x1_0000 && b < 0x1_0000 && Hex4(a) == Hex4(b)
    ensures a == b
  {
    var s, t := Hex4(a), Hex4(b);
    Hex4Digits(a);
    Hex4Digits(b);
    assert s[0] == t[0] && s[1] == t[1] && s[2] == t[2] && s[3] == t[3];
    HexCharInjective(a / 0x1000, b / 0x1000);
    HexCharInjective(a / 0x100 % 16, b / 0x100 % 16);
    HexCharInjective(a / 16 % 16, b / 16 % 16);
    HexCharInjective(a % 16, b % 16);
  }

  lemma SemanticNameLength(addr: nat)
    requires SemanticName(addr).Some?
    ensures |SemanticName(addr).value| > 8
  {
  }

  lemma SemanticNamesDiffer(a: nat, b: nat)
    requires SemanticName(a).Some? && SemanticName(a) == SemanticName(b)
    ensures a == b
  {
    var s, t := SemanticName(a).value, SemanticName(b).value;
    assert |s| == |t| && s[0] == t[0];
  }

  /** Anchors of different targets have different names. */
  lemma FreshNamesDiffer(a: Addr16, b: Addr16)
    requires FreshName(a) == FreshName(b)
    ensures a == b
  {
    if SemanticName(a).Some? && SemanticName(b).Some? {
      SemanticNamesDiffer(a, b);
    } else if SemanticName(a).Some? {
      SemanticNameLength(a);
    } else if SemanticName(b).Some? {
      SemanticNameLength(b);
    } else {
      assert ("tbl_" + Hex4(a))[4..] == Hex4(a) && ("tbl_" + Hex4(b))[4..] == Hex4(b);
      Hex4Injective(a, b);
    }
  }

  /** The first label that the source defines at each address. */
  function ExistingLabels(lines: seq<Line>): map<nat, string> {
    if lines == [] then map[]
    else
      var m := ExistingLabels(lines[..|lines| - 1]);
      var last := lines[|lines| - 1];
      if last.LabelLine? && last.addr !in m then m[last.addr := last.name] else m
  }

  function LabelFor(existing: map<nat, string>, addr: Addr16): string {
    if addr in existing then existing[addr] else FreshName(addr)
  }

  // ---------------------------------------------------------------- sites

  /** A rewritten window: where it starts, which lines load the two halves, and their target. */
  datatype Site = Site(at: nat, hi: nat, lo: nat, target: Addr16)

  predicate Even(n: nat) { n % 2 == 0 }

  /** Two loads whose second lines write the two halves of one pointer; the first is the high half or not. */
  function PointerPair(second: Line, fourth: Line): Option<(bool, bool)> {
    if second.MovwfTblptr? && fourth.MovwfTblptr? && second.half != fourth.half then
      Some((second.half == High, false))
    else if second.MovwfCommon? && fourth.MovwfCommon?
        && ((second.off == CELL_LOW && fourth.off == CELL_HIGH)
            || (second.off == CELL_HIGH && fourth.off == CELL_LOW)) then
      Some((second.off > fourth.off, true))
    else None
  }

  /** Addresses that may become labels; pointers kept in RAM are held to the code body and to even ones. */
  predicate Anchorable(target: nat, strict: bool) {
    && APP_CODE_FLOOR <= target < BOOTLOADER_FLOOR
    && (strict ==> target < APP_CODE_CEILING && Even(target))
  }

  function SiteAt(lines: seq<Line>, i: nat): (s: Option<Site>)
    requires i + 3 < |lines|
    ensures s.Some? ==> s.value.at == i && (s.value.hi, s.value.lo) in {(i, i + 2), (i + 2, i)}
    ensures s.Some? ==> APP_CODE_FLOOR <= s.value.target < BOOTLOADER_FLOOR
    ensures s.Some? ==> lines[s.value.hi].Movlw? && lines[s.value.lo].Movlw?
    ensures s.Some? ==> s.value.target == TargetOf(lines[s.value.hi].lit, lines[s.value.lo].lit)
  {
    if !lines[i].Movlw? || !lines[i + 2].Movlw? then None
    else
      var pair := PointerPair(lines[i + 1], lines[i + 3]);
      if pair.None? then None
      else
        var hi := if pair.value.0 then i else i + 2;
        var lo := if pair.value.0 then i + 2 else i;
        var target := TargetOf(lines[hi].lit, lines[lo].lit);
        if Anchorable(target, pair.value.1) then Some(Site(i, hi, lo, target)) else None
  }

  /** The sites from line i on: a match takes four lines, a miss one. */
  function Sites(lines: seq<Line>, i: nat): seq<Site>
    decreases |lines| - i
  {
    if i + 3 >= |lines| then []
    else
      var s := SiteAt(lines, i);
      if s.Some? then [s.value] + Sites(lines, i + 4) else Sites(lines, i + 1)
  }

  type Replacements = map<nat, Line>

  function WithSite(reps: Replacements, lines: seq<Line>, existing: map<nat, string>, s: Site): Replacements
    requires s.hi < |lines| && s.lo < |lines| && lines[s.hi].Movlw? && lines[s.lo].Movlw?
  {
    var name := LabelFor(existing, s.target);
    reps[s.hi := MovlwHigh(lines[s.hi].indent, name)][s.lo := MovlwLow(lines[s.lo].indent, name)]
  }

  function ReplacementsFrom(reps: Replacements, lines: seq<Line>, existing: map<nat, string>, i: nat): Replacements
    decreases |lines| - i
  {
    if i + 3 >= |lines| then reps
    else
      var s := SiteAt(lines, i);
      if s.Some? then ReplacementsFrom(WithSite(reps, lines, existing, s.value), lines, existing, i + 4)
      else ReplacementsFrom(reps, lines, existing, i + 1)
  }

  function Replaced(lines: seq<Line>, reps: Replacements): (out: seq<Line>)
    ensures |out| == |lines|
    ensures forall i :: 0 <= i < |lines| ==> out[i] == if i in reps then reps[i] else lines[i]
  {
    seq(|lines|, i requires 0 <= i < |lines| => if i in reps then reps[i] else lines[i])
  }

  function Unlabelled(existing: map<nat, string>, target: nat): set<nat> {
    if target in existing then {} else {target}
  }

  /** The targets from line i on that no label of the source names. */
  function NewTargets(lines: seq<Line>, existing: map<nat, string>, i: nat): (ts: set<nat>)
    ensures forall t :: t in ts ==> t < BOOTLOADER_FLOOR && t !in existing
    decreases |lines| - i
  {
    if i + 3 >= |lines| then {}
    else
      var s := SiteAt(lines, i);
      if s.Some? then Unlabelled(existing, s.value.target) + NewTargets(lines, existing, i + 4)
      else NewTargets(lines, existing, i + 1)
  }

  /** They are the targets of the sites that have no label. */
  lemma {:induction false} NewTargetsOfSites(lines: seq<Line>, existing: map<nat, string>, i: nat, t: nat)
    ensures t in NewTargets(lines, existing, i) <==>
            t !in existing && exists s :: s in Sites(lines, i) && s.target == t
    decreases |lines| - i
  {
    if i + 3 < |lines| {
      var s := SiteAt(lines, i);
      if s.Some? {
        NewTargetsOfSites(lines, existing, i + 4, t);
        var rest := Sites(lines, i + 4);
        assert Sites(lines, i) == [s.value] + rest;
        assert s.value in Sites(lines, i);
        assert forall s' :: s' in Sites(lines, i) <==> s' == s.value || s' in rest;
      } else {
        NewTargetsOfSites(lines, existing, i + 1, t);
      }
    }
  }

  // ---------------------------------------------------------------- anchors

  /** The lines below n that get an anchor.  The test against the lines found so far compares an address
    with line numbers. */
  function AnchorLines(lineToAddr: map<nat, nat>, targets: set<nat>, n: nat): set<nat> {
    if n == 0 then {}
    else
      var before := AnchorLines(lineToAddr, targets, n - 1);
      var i := n - 1;
      if i in lineToAddr && lineToAddr[i] in targets && lineToAddr[i] !in before then before + {i} else before
  }

  /** The lines with their anchors above them. */
  function Woven(out: seq<Line>, anchors: set<nat>, lineToAddr: map<nat, nat>, n: nat): seq<Line>
    requires n <= |out|
    requires forall i :: i in anchors ==> i in lineToAddr && lineToAddr[i] < 0x1_0000
  {
    if n == 0 then []
    else
      var i := n - 1;
      Woven(out, anchors, lineToAddr, i)
      + (if i in anchors then [LabelLine(FreshName(lineToAddr[i]), lineToAddr[i])] else [])
      + [out[i]]
  }

  lemma {:induction false} AnchorLinesListed(lineToAddr: map<nat, nat>, targets: set<nat>, n: nat)
    ensures forall i :: i in AnchorLines(lineToAddr, targets, n) ==>
      i < n && i in lineToAddr && lineToAddr[i] in targets
  {
    if n > 0 {
      AnchorLinesListed(lineToAddr, targets, n - 1);
    }
  }

  /** The whole pass, given the assembler's listing of the unchanged source. */
  function Rewritten(lines: seq<Line>, lineToAddr: map<nat, nat>): seq<Line> {
    var existing := ExistingLabels(lines);
    var targets := NewTargets(lines, existing, 0);
    var anchors := AnchorLines(lineToAddr, targets, |lines|);
    AnchorLinesListed(lineToAddr, targets, |lines|);
    Woven(Replaced(lines, ReplacementsFrom(map[], lines, existing, 0)), anchors, lineToAddr, |lines|)
  }

  // ---------------------------------------------------------------- the pass as it runs

  method CollectAllLabelAddresses(lines: seq<Line>) returns (existing: map<nat, string>)
    ensures existing == ExistingLabels(lines)
  {
    existing := map[];
    for i := 0 to |lines|
      invariant existing == ExistingLabels(lines[..i])
    {
      assert lines[..i + 1][..i] == lines[..i];
      if lines[i].LabelLine? && lines[i].addr !in existing {
        existing := existing[lines[i].addr := lines[i].name];
      }
    }
    assert lines[..|lines|] == lines;
  }

  /** The new labels so far: each under its fresh name, none at a labelled address. */
  ghost predicate IsPool(newLabels: map<nat, string>, existing: map<nat, string>) {
    forall a: nat :: a in newLabels ==> a < 0x1_0000 && a !in existing && newLabels[a] == FreshName(a)
  }

  /** The label of a target, taken from the source, from the pool, or new to the pool. */
  method LabelForTarget(existing: map<nat, string>, newLabels: map<nat, string>, addr: Addr16)
    returns (name: string, pool: map<nat, string>)
    requires IsPool(newLabels, existing)
    ensures name == LabelFor(existing, addr)
    ensures IsPool(pool, existing)
    ensures pool.Keys == newLabels.Keys + Unlabelled(existing, addr)
  {
    if addr in existing {
      return existing[addr], newLabels;
    }
    if addr in newLabels {
      return newLabels[addr], newLabels;
    }
    name := FreshName(addr);
    pool := newLabels[addr := name];
  }

  /** The four-line match at line i. */
  method MatchSite(lines: seq<Line>, i: nat) returns (s: Option<Site>)
    requires i + 3 < |lines|
    ensures s == SiteAt(lines, i)
  {
    if !lines[i].Movlw? || !lines[i + 2].Movlw? {
      return None;
    }
    var second, fourth := lines[i + 1], lines[i + 3];
    var matched, highFirst, strict := false, false, true;
    if second.MovwfTblptr? && fourth.MovwfTblptr? && second.half != fourth.half {
      matched, highFirst, strict := true, second.half == High, false;
    } else if second.MovwfCommon? && fourth.MovwfCommon? {
      var lowCell := if second.off < fourth.off then second.off else fourth.off;
      var highCell := if second.off < fourth.off then fourth.off else second.off;
      if (lowCell, highCell) == (CELL_LOW, CELL_HIGH) {
        matched, highFirst := true, second.off > fourth.off;
      }
    }
    var k1, k2 := lines[i].lit, lines[i + 2].lit;
    var target := if highFirst then TargetOf(k1, k2) else TargetOf(k2, k1);
    if matched && Anchorable(target, strict) {
      return Some(if highFirst then Site(i, i, i + 2, target) else Site(i, i + 2, i, target));
    }
    return None;
  }

  method ScanSites(lines: seq<Line>, existing: map<nat, string>)
    returns (replacements: Replacements, newLabels: map<nat, string>)
    ensures replacements == ReplacementsFrom(map[], lines, existing, 0)
    ensures newLabels.Keys == NewTargets(lines, existing, 0)
    ensures IsPool(newLabels, existing)
  {
    replacements, newLabels := map[], map[];
    var i := 0;
    while i + 3 < |lines|
      invariant Scanning(lines, existing, i, replacements, newLabels)
    {
      var s := MatchSite(lines, i);
      if s.Some? {
        ghost var reps, pool := replacements, newLabels;
        replacements, newLabels := RecordSite(lines, existing, replacements, newLabels, s.value);
        ScanningHit(lines, existing, i, reps, pool, replacements, newLabels);
        i := i + 4;
      } else {
        ScanningMiss(lines, existing, i, replacements, newLabels);
        i := i + 1;
      }
    }
  }

  /** What the scan has recorded before line i, with what it will still record. */
  ghost predicate Scanning(lines: seq<Line>, existing: map<nat, string>, i: nat,
                           reps: Replacements, pool: map<nat, string>) {
    && ReplacementsFrom(reps, lines, existing, i) == ReplacementsFrom(map[], lines, existing, 0)
    && pool.Keys + NewTargets(lines, existing, i) == NewTargets(lines, existing, 0)
    && IsPool(pool, existing)
  }

  lemma ScanningHit(lines: seq<Line>, existing: map<nat, string>, i: nat,
                    reps: Replacements, pool: map<nat, string>, reps': Replacements, pool': map<nat, string>)
    requires Scanning(lines, existing, i, reps, pool)
    requires i + 3 < |lines| && SiteAt(lines, i).Some?
    requires reps' == WithSite(reps, lines, existing, SiteAt(lines, i).value)
    requires IsPool(pool', existing)
    requires pool'.Keys == pool.Keys + Unlabelled(existing, SiteAt(lines, i).value.target)
    ensures Scanning(lines, existing, i + 4, reps', pool')
  {
  }

  lemma ScanningMiss(lines: seq<Line>, existing: map<nat, string>, i: nat, reps: Replacements, pool: map<nat, string>)
    requires Scanning(lines, existing, i, reps, pool)
    requires i + 3 < |lines| && SiteAt(lines, i).None?
    ensures Scanning(lines, existing, i + 1, reps, pool)
  {
  }

  method RecordSite(lines: seq<Line>, existing: map<nat, string>, replacements: Replacements,
                    newLabels: map<nat, string>, s: Site)
    returns (reps: Replacements, pool: map<nat, string>)
    requires s.hi < |lines| && s.lo < |lines| && lines[s.hi].Movlw? && lines[s.lo].Movlw?
    requires IsPool(newLabels, existing)
    ensures reps == WithSite(replacements, lines, existing, s)
    ensures IsPool(pool, existing)
    ensures pool.Keys == newLabels.Keys + Unlabelled(existing, s.target)
  {
    var name;
    name, pool := LabelForTarget(existing, newLabels, s.target);
    reps := replacements[s.hi := MovlwHigh(lines[s.hi].indent, name)];
    reps := reps[s.lo := MovlwLow(lines[s.lo].indent, name)];
  }

  method FindAnchorLines(lineToAddr: map<nat, nat>, newLabels: map<nat, string>, n: nat) returns (found: set<nat>)
    ensures found == AnchorLines(lineToAddr, newLabels.Keys, n)
  {
    found := {};
    for idx := 0 to n
      invariant found == AnchorLines(lineToAddr, newLabels.Keys, idx)
    {
      if idx in lineToAddr && lineToAddr[idx] in newLabels && lineToAddr[idx] !in found {
        found := found + {idx};
      }
    }
  }

  method Replace(lines: seq<Line>, replacements: Replacements) returns (out: seq<Line>)
    ensures out == Replaced(lines, replacements)
  {
    out := lines;
    for idx := 0 to |lines|
      invariant |out| == |lines|
      invariant forall j :: 0 <= j < |lines| ==> out[j] == if j < idx && j in replacements then replacements[j] else lines[j]
    {
      if idx in replacements {
        out := out[idx := replacements[idx]];
      }
    }
  }

  /** Anchors go in bottom-up, so that the lines above keep their numbers. */
  method InsertAnchors(lines: seq<Line>, anchors: set<nat>, lineToAddr: map<nat, nat>, newLabels: map<nat, string>)
    returns (out: seq<Line>)
    requires forall i :: i in anchors ==> i in lineToAddr && lineToAddr[i] in newLabels
    requires forall a: nat :: a in newLabels ==> a < 0x1_0000 && newLabels[a] == FreshName(a)
    ensures out == Woven(lines, anchors, lineToAddr, |lines|)
  {
    out := lines;
    ghost var below: seq<Line> := [];
    var idx := |lines|;
    assert Woven(lines, anchors, lineToAddr, idx) + [] == Woven(lines, anchors, lineToAddr, idx);
    while idx > 0
      invariant 0 <= idx <= |lines|
      invariant out == lines[..idx] + below
      invariant Woven(lines, anchors, lineToAddr, idx) + below == Woven(lines, anchors, lineToAddr, |lines|)
    {
      idx := idx - 1;
      var anchor: seq<Line> := [];
      if idx in anchors {
        anchor := [LabelLine(newLabels[lineToAddr[idx]], lineToAddr[idx])];
      }
      WovenStep(lines, anchors, lineToAddr, idx, anchor, below);
      InsertStep(lines, idx, anchor, below);
      out := out[..idx] + anchor + out[idx..];
      below := anchor + [lines[idx]] + below;
    }
    assert out == [] + below;
  }

  /** The pass as it runs. */
  method RewriteTblptrLiterals(lines: seq<Line>, lineToAddr: map<nat, nat>) returns (out: seq<Line>)
    ensures out == Rewritten(lines, lineToAddr)
  {
    var existing := CollectAllLabelAddresses(lines);
    var replacements, newLabels := ScanSites(lines, existing);
    var anchors := FindAnchorLines(lineToAddr, newLabels, |lines|);
    AnchorLinesListed(lineToAddr, newLabels.Keys, |lines|);
    out := Replace(lines, replacements);
    out := InsertAnchors(out, anchors, lineToAddr, newLabels);
  }

  lemma InsertStep(lines: seq<Line>, idx: nat, anchor: seq<Line>, below: seq<Line>)
    requires idx < |lines|
    ensures var out := lines[..idx + 1] + below;
            out[..idx] + anchor + out[idx..] == lines[..idx] + (anchor + [lines[idx]] + below)
  {
  }

  lemma WovenStep(out: seq<Line>, anchors: set<nat>, lineToAddr: map<nat, nat>, i: nat, anchor: seq<Line>, below: seq<Line>)
    requires i < |out|
    requires forall j :: j in anchors ==> j in lineToAddr && lineToAddr[j] < 0x1_0000
    requires anchor == if i in anchors then [LabelLine(FreshName(lineToAddr[i]), lineToAddr[i])] else []
    ensures Woven(out, anchors, lineToAddr, i) + (anchor + [out[i]] + below)
         == Woven(out, anchors, lineToAddr, i + 1) + below
  {
  }
}
