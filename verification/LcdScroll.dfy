/** The filename row of the preset screen: what of a name is shown, and the machine that scrolls it. */
module LcdScroll {
  import opened Wrappers

  const LCD_W: int := 16

  // ---------------------------------------------------------------- names

  predicate Printable(c: char) {
    0x20 <= c as int <= 0x7E
  }

  /** How much of a name is printable from its start. */
  function PrintableRun(name: string): (n: nat)
    ensures n <= |name| && (forall i :: 0 <= i < n ==> Printable(name[i]))
    ensures n < |name| ==> !Printable(name[n])
  {
    if name == "" || !Printable(name[0]) then 0 else 1 + PrintableRun(name[1..])
  }

  method Sanitize(name: string) returns (out: string)
    ensures out == name[..PrintableRun(name)]
  {
    out := [];
    var i := 0;
    while i < |name|
      invariant i <= |name| && out == name[..i] && forall j :: 0 <= j < i ==> Printable(name[j])
    {
      if !Printable(name[i]) {
        break;
      }
      out := out + [name[i]];
      i := i + 1;
    }
    RunIs(name, i);
  }

  lemma RunIs(name: string, n: nat)
    requires n <= |name| && forall i :: 0 <= i < n ==> Printable(name[i])
    requires n < |name| ==> !Printable(name[n])
    ensures PrintableRun(name) == n
  {
  }

  function Body(name: string): string {
    name[..PrintableRun(name)]
  }

  /** d is where two texts first differ, an end counting as a difference. */
  predicate DivergeAt(a: string, b: string, d: nat) {
    && d <= |a| && d <= |b| && (d < |a| || d < |b|)
    && (forall i :: 0 <= i < d ==> a[i] == b[i])
    && (d < |a| && d < |b| ==> a[d] != b[d])
  }

  method DivergenceIndex(nameA: string, nameB: string) returns (d: Option<nat>)
    ensures d.Some? ==> DivergeAt(Body(nameA), Body(nameB), d.value)
    ensures d.None? <==> Body(nameA) == Body(nameB)
  {
    var a := Sanitize(nameA);
    var b := Sanitize(nameB);
    var n := if |a| < |b| then |a| else |b|;
    for i := 0 to n
      invariant forall j :: 0 <= j < i ==> a[j] == b[j]
    {
      if a[i] != b[i] {
        return Some(i);
      }
    }
    return if |a| != |b| then Some(n) else None;
  }

  lemma DivergenceIsUnique(a: string, b: string, d: nat, d': nat)
    requires DivergeAt(a, b, d) && DivergeAt(a, b, d')
    ensures d == d'
  {
  }

  // ---------------------------------------------------------------- the machine

  datatype Scroll = Scroll(maxOff: int, endHold: int, restOff: int, farOff: int, dir: int, off: int, hold: int)

  function Max(a: int, b: int): int { if a > b then a else b }
  function Min(a: int, b: int): int { if a < b then a else b }

  function RestOff(nameLen: nat, tailFirst: bool, divergence: Option<int>): int {
    var maxOff := Max(0, nameLen - LCD_W);
    if divergence.Some? then Max(0, Min(divergence.value - (LCD_W - 1), maxOff))
    else if tailFirst then maxOff else 0
  }

  function Start(nameLen: nat, endHold: int, tailFirst: bool, divergence: Option<int>): Scroll {
    var maxOff := Max(0, nameLen - LCD_W);
    var rest := RestOff(nameLen, tailFirst, divergence);
    if rest * 2 <= maxOff then Scroll(maxOff, endHold, rest, maxOff, 1, rest, endHold)
    else Scroll(maxOff, endHold, rest, 0, -1, rest, endHold)
  }

  function Tick(s: Scroll): Scroll {
    if s.maxOff <= 0 then s
    else if s.hold > 0 then s.(hold := s.hold - 1)
    else if s.off != s.farOff then
      var off := s.off + s.dir;
      s.(off := off, hold := if off == s.farOff then s.endHold else s.hold)
    else s.(off := s.restOff, hold := s.endHold)
  }

  function Run(s: Scroll, n: nat): Scroll {
    if n == 0 then s else Tick(Run(s, n - 1))
  }

  class ScrollState {
    var maxOff: int
    var endHold: int
    var restOff: int
    var farOff: int
    var dir: int
    var off: int
    var hold: int

    function Value(): Scroll
      reads this
    {
      Scroll(maxOff, endHold, restOff, farOff, dir, off, hold)
    }

    constructor (nameLen: nat, endHold: int, tailFirst: bool, divergence: Option<int>)
      ensures Value() == Start(nameLen, endHold, tailFirst, divergence)
    {
      var max := Max(0, nameLen - LCD_W);
      var rest: int;
      if divergence.Some? {
        rest := Max(0, Min(divergence.value - (LCD_W - 1), max));
      } else if tailFirst {
        rest := max;
      } else {
        rest := 0;
      }
      maxOff, restOff, off := max, rest, rest;
      this.endHold, hold := endHold, endHold;
      if rest * 2 <= max {
        farOff, dir := max, 1;
      } else {
        farOff, dir := 0, -1;
      }
    }

    method DoTick() returns (shown: int)
      modifies this
      ensures Value() == Tick(old(Value()))
      ensures shown == if maxOff > 0 then off else 0
    {
      if maxOff <= 0 {
        return 0;
      }
      if hold > 0 {
        hold := hold - 1;
        return off;
      }
      if off != farOff {
        off := off + dir;
        if off == farOff {
          hold := endHold;
        }
      } else {
        off := restOff;
        hold := endHold;
      }
      return off;
    }
  }

  // ---------------------------------------------------------------- the cycle

  function Travel(s: Scroll): nat {
    if s.farOff >= s.restOff then s.farOff - s.restOff else s.restOff - s.farOff
  }

  function Held(s: Scroll): nat {
    Max(s.endHold, 0)
  }

  function Period(s: Scroll): nat {
    2 * Held(s) + Travel(s) + 1
  }

  /** A scrolling machine at rest, pausing: how each (re)validation leaves it. */
  predicate AtRest(s: Scroll) {
    && s.maxOff > 0 && s.off == s.restOff && s.hold == s.endHold
    && 0 <= s.restOff <= s.maxOff && 2 * Travel(s) >= s.maxOff
    && ((s.farOff == s.maxOff && s.dir == 1) || (s.farOff == 0 && s.dir == -1))
  }

  /** A name longer than the row rests inside the row's range, and travels at least half of it. */
  lemma StartIsAtRest(nameLen: nat, endHold: int, tailFirst: bool, divergence: Option<int>)
    requires nameLen > LCD_W
    ensures AtRest(Start(nameLen, endHold, tailFirst, divergence))
    ensures Start(nameLen, endHold, tailFirst, divergence).maxOff == nameLen - LCD_W
  {
  }

  /** Where the machine is t ticks into a cycle: pausing at rest, stepping, pausing at the far end. */
  function OffAt(s: Scroll, t: nat): int {
    if t <= Held(s) then s.restOff
    else if t <= Held(s) + Travel(s) then s.restOff + s.dir * (t - Held(s))
    else s.farOff
  }

  function HoldAt(s: Scroll, t: nat): int {
    if s.endHold <= 0 then s.endHold
    else if t <= Held(s) then s.endHold - t
    else if t < Held(s) + Travel(s) then 0
    else 2 * s.endHold + Travel(s) - t
  }

  lemma {:induction false} CycleAt(s: Scroll, t: nat)
    requires AtRest(s) && t < Period(s)
    ensures Run(s, t) == s.(off := OffAt(s, t), hold := HoldAt(s, t))
  {
    if t > 0 {
      CycleAt(s, t - 1);
      CycleStep(s, t - 1);
    }
  }

  lemma CycleStep(s: Scroll, t: nat)
    requires AtRest(s) && t + 1 < Period(s)
    ensures Tick(s.(off := OffAt(s, t), hold := HoldAt(s, t))) == s.(off := OffAt(s, t + 1), hold := HoldAt(s, t + 1))
  {
  }

  /** The machine is back at rest, pausing, after exactly one period, and at no tick before. */
  lemma CycleReturns(s: Scroll, t: nat)
    requires AtRest(s)
    ensures Run(s, Period(s)) == s
    ensures 0 < t < Period(s) ==> Run(s, t) != s
  {
    CycleAt(s, Period(s) - 1);
    if 0 < t < Period(s) {
      CycleAt(s, t);
    }
  }

  lemma {:induction false} RunAdds(s: Scroll, m: nat, n: nat)
    ensures Run(s, m + n) == Run(Run(s, m), n)
  {
    if n > 0 {
      RunAdds(s, m, n - 1);
    }
  }

  /** At any later time the machine is where it is at some time of the first cycle. */
  lemma {:induction false} RunIsPeriodic(s: Scroll, n: nat) returns (t: nat)
    requires AtRest(s)
    ensures t < Period(s) && Run(s, n) == Run(s, t)
    ensures Run(s, n + Period(s)) == Run(s, n)
  {
    CycleReturns(s, 0);
    RunAdds(s, Period(s), n);
    if n < Period(s) {
      t := n;
    } else {
      t := RunIsPeriodic(s, n - Period(s));
      RunAdds(s, Period(s), n - Period(s));
    }
  }

  predicate Between(x: int, a: int, b: int) {
    a <= x <= b || b <= x <= a
  }

  /** Over any run the offset stays between the two ends, so never leaves the name. */
  lemma OffsetsStayInside(s: Scroll, n: nat)
    requires AtRest(s)
    ensures Between(Run(s, n).off, s.restOff, s.farOff) && 0 <= Run(s, n).off <= s.maxOff
  {
    var t := RunIsPeriodic(s, n);
    CycleAt(s, t);
    OffBetween(s, t);
  }

  lemma OffBetween(s: Scroll, t: nat)
    requires AtRest(s)
    ensures Between(OffAt(s, t), s.restOff, s.farOff)
  {
  }

  /** Every offset between the two ends is shown in each cycle. */
  lemma EveryOffsetIsVisited(s: Scroll, x: int) returns (t: nat)
    requires AtRest(s) && Between(x, s.restOff, s.farOff)
    ensures t < Period(s) && Run(s, t).off == x
  {
    t := Held(s) + if x >= s.restOff then x - s.restOff else s.restOff - x;
    CycleAt(s, t);
  }

  // ---------------------------------------------------------------- the row

  /** The row's window on a text: cut, then filled with spaces. */
  function Window(body: string, off: nat): (w: string)
    ensures |w| == LCD_W
  {
    seq(LCD_W, i requires 0 <= i < LCD_W => if off + i < |body| then body[off + i] else ' ')
  }

  predicate DifferAt(a: string, b: string, i: int) {
    0 <= i < |a| && i < |b| && a[i] != b[i]
  }

  method DiffColumns(a: string, b: string) returns (cols: seq<int>)
    ensures forall i :: i in cols <==> DifferAt(a, b, i)
    ensures forall j, k :: 0 <= j < k < |cols| ==> cols[j] < cols[k]
  {
    cols := [];
    var n := Min(|a|, |b|);
    var i := 0;
    while i < n
      invariant 0 <= i <= n
      invariant forall j :: j in cols <==> j < i && DifferAt(a, b, j)
      invariant forall j, k :: 0 <= j < k < |cols| ==> cols[j] < cols[k]
    {
      if a[i] != b[i] {
        assert forall j :: 0 <= j < |cols| ==> cols[j] in cols;
        cols := cols + [i];
      }
      i := i + 1;
    }
  }

  /** Two names that differ inside both rest alike, at max(0, d - 15), and what their rows show at rest
    first differs where the names do, in column d - rest. */
  lemma DivergenceAtRest(a: string, b: string, d: nat)
    requires DivergeAt(a, b, d) && d < |a| && d < |b|
    ensures var rest := Max(0, d - (LCD_W - 1));
            && RestOff(|a|, false, Some(d)) == rest == RestOff(|b|, false, Some(d))
            && 0 <= d - rest < LCD_W
            && DifferAt(Window(a, rest), Window(b, rest), d - rest)
            && forall i :: 0 <= i < d - rest ==> !DifferAt(Window(a, rest), Window(b, rest), i)
  {
  }

  /** When one name is the start of the other the two rest alike only if the shorter has
    less than 16 characters; else the longer rests one column further on. */
  lemma RestsAgreeExactly(a: string, b: string, d: nat)
    requires DivergeAt(a, b, d)
    ensures RestOff(|a|, false, Some(d)) == RestOff(|b|, false, Some(d)) <==> (d < |a| && d < |b|) || d < LCD_W
    ensures d >= LCD_W && d == |a| ==> RestOff(|b|, false, Some(d)) == RestOff(|a|, false, Some(d)) + 1
  {
  }

  /** Without a divergence a name longer than the row rests on its first 16 characters and scrolls to its last
    16, or tail first the other way. */
  lemma RestsAtAnEnd(name: string, endHold: int)
    requires |name| > 16
    ensures var head, tail := Start(|name|, endHold, false, None), Start(|name|, endHold, true, None);
            && Window(name, 0) == name[..16] && Window(name, |name| - 16) == name[|name| - 16..]
            && head.off == head.restOff == 0 && head.farOff == |name| - 16
            && tail.off == tail.restOff == |name| - 16 && tail.farOff == 0
  {
  }

  /** With one, the machine scrolls to the end that is farther from where it rests, on a tie to the tail. */
  lemma ScrollsToFartherEnd(nameLen: nat, endHold: int, tailFirst: bool, divergence: Option<int>)
    requires nameLen > 16
    ensures var s := Start(nameLen, endHold, tailFirst, divergence);
            var left, right := s.restOff, nameLen - 16 - s.restOff;
            && (right >= left ==> s.farOff == nameLen - 16 && s.dir == 1)
            && (right < left ==> s.farOff == 0 && s.dir == -1)
            && s.hold == endHold && s.off == s.restOff
  {
  }

  /** A name that fits the row stands still, with spaces behind it. */
  lemma {:induction false} ShortNameStands(name: string, endHold: int, tailFirst: bool, divergence: Option<int>, n: nat)
    requires |name| <= 16
    ensures var s := Start(|name|, endHold, tailFirst, divergence); s.off == 0 && Run(s, n) == s
    ensures Window(name, 0) == name + seq(16 - |name|, _ => ' ')
  {
    if n > 0 {
      ShortNameStands(name, endHold, tailFirst, divergence, n - 1);
    }
  }

  /** A name ends before its first character outside the printable ASCII ones. */
  lemma NameIsCut(front: string, c: char, rest: string)
    requires forall i :: 0 <= i < |front| ==> ' ' <= front[i] <= '~'
    requires c < ' ' || c > '~'
    ensures Body(front) == front && Body(front + [c] + rest) == front
  {
    RunIs(front, |front|);
    RunIs(front + [c] + rest, |front|);
  }
}
