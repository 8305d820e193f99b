/** The watchdog of a core: counting instruction cycles, timing out, and waking a halted core. */
module Watchdog {
  const WDT_BASE_TCY: nat := 16_000
  const U64_MAX: nat := 0xFFFF_FFFF_FFFF_FFFF
  const RCON_TO: bv8 := 8

  type u32 = x: int | 0 <= x < 0x1_0000_0000
  type scale = x: int | 0 <= x < 16

  datatype RunState = Running | Sleep | Idle

  /** What the watchdog reads and writes of a core; wdten and wdtps are configuration bits. */
  datatype State = State(
    wdten: bool, wdtps: scale, wdtcon: bv8, rcon: bv8, counter: nat, pending: bool, run: RunState)

  function Pow2(n: nat): (p: nat)
    ensures p > 0
  {
    if n == 0 then 1 else 2 * Pow2(n - 1)
  }

  function Timeout(s: State): nat {
    WDT_BASE_TCY * Pow2(s.wdtps)
  }

  predicate Enabled(s: State) {
    s.wdten || s.wdtcon & 1 != 0
  }

  function WithoutTo(rcon: bv8): bv8 {
    rcon & !RCON_TO
  }

  function SaturatingAdd(a: nat, b: nat): nat {
    if a + b > U64_MAX then U64_MAX else a + b
  }

  /** Whether a chunk of n cycles ends in a timeout. */
  predicate Fires(s: State, n: u32) {
    Enabled(s) && SaturatingAdd(s.counter, n) >= Timeout(s)
  }

  function Tick(s: State, n: u32): State {
    if !Enabled(s) then s.(counter := 0)
    else if !Fires(s, n) then s.(counter := SaturatingAdd(s.counter, n))
    else if s.run == Running then s.(counter := 0, pending := true)
    else s.(counter := 0, run := Running, rcon := WithoutTo(s.rcon))
  }

  function Woken(s: State, irq: bool): State {
    if s.run == Sleep && irq then s.(run := Running) else s
  }

  /** One thing that happens to the watchdog; irq is whether an interrupt is pending after the chunk. */
  datatype Action =
    | DoTick(n: u32)
    | DoHalted(n: u32, irq: bool)
    | DoClear
    | DoTake
    | DoWdtcon(value: bv8)

  function Step(s: State, a: Action): State {
    match a
    case DoTick(n) => Tick(s, n)
    case DoHalted(n, irq) => Tick(Woken(s, irq), n)
    case DoClear => s.(counter := 0, pending := false)
    case DoTake => s.(pending := false)
    case DoWdtcon(value) => s.(wdtcon := value)
  }

  class Core {
    const wdten: bool
    const wdtps: scale
    var wdtcon: bv8
    var rcon: bv8
    var wdtCounterTcy: nat
    var wdtTimeoutPending: bool
    var runState: RunState

    function Value(): State
      reads this
    {
      State(wdten, wdtps, wdtcon, rcon, wdtCounterTcy, wdtTimeoutPending, runState)
    }

    constructor (wdten: bool, wdtps: scale, wdtcon: bv8, rcon: bv8)
      ensures Value() == State(wdten, wdtps, wdtcon, rcon, 0, false, Running)
    {
      this.wdten, this.wdtps, this.wdtcon, this.rcon := wdten, wdtps, wdtcon, rcon;
      wdtCounterTcy, wdtTimeoutPending, runState := 0, false, Running;
    }

    method ClearWdt()
      modifies this
      ensures Value() == Step(old(Value()), DoClear)
    {
      wdtCounterTcy := 0;
      wdtTimeoutPending := false;
    }

    method TakeWdtTimeoutPending() returns (pending: bool)
      modifies this
      ensures pending == old(wdtTimeoutPending) && Value() == Step(old(Value()), DoTake)
    {
      pending := wdtTimeoutPending;
      wdtTimeoutPending := false;
    }

    method TickWdt(n: u32)
      modifies this
      ensures Value() == Step(old(Value()), DoTick(n))
    {
      var timeout := Timeout(Value());
      if !Enabled(Value()) {
        wdtCounterTcy := 0;
        return;
      }
      wdtCounterTcy := SaturatingAdd(wdtCounterTcy, n);
      if wdtCounterTcy < timeout {
        return;
      }
      wdtCounterTcy := 0;
      if runState == Running {
        wdtTimeoutPending := true;
      } else {
        runState := Running;
        rcon := WithoutTo(rcon);
      }
    }

    method AdvanceHaltedCycles(n: u32, irqPending: bool)
      modifies this
      ensures Value() == Step(old(Value()), DoHalted(n, irqPending))
    {
      if runState == Sleep {
        if irqPending {
          runState := Running;
        }
      }
      TickWdt(n);
    }
  }

  // ---------------------------------------------------------------- runs

  function Run(s: State, acts: seq<Action>): State
    decreases |acts|
  {
    if acts == [] then s else Run(Step(s, acts[0]), acts[1..])
  }

  /** The cycles of an action, and whether it ends in a timeout. */
  function Cycles(a: Action): nat {
    match a
    case DoTick(n) => n
    case DoHalted(n, _) => n
    case _ => 0
  }

  predicate TimesOut(s: State, a: Action) {
    (a.DoTick? || a.DoHalted?) && Fires(s, a.n)
  }

  function Total(acts: seq<Action>): nat {
    if acts == [] then 0 else Cycles(acts[0]) + Total(acts[1..])
  }

  function Timeouts(s: State, acts: seq<Action>): nat
    decreases |acts|
  {
    if acts == [] then 0 else (if TimesOut(s, acts[0]) then 1 else 0) + Timeouts(Step(s, acts[0]), acts[1..])
  }

  lemma TimeoutRange(s: State)
    ensures WDT_BASE_TCY <= Timeout(s) <= 16_000 * 32_768
  {
    Pow2Grows(s.wdtps, 15);
    PowersTo15();
  }

  lemma {:induction false} Pow2Grows(a: nat, b: nat)
    requires a <= b
    ensures Pow2(a) <= Pow2(b)
    decreases b
  {
    if a < b {
      Pow2Grows(a, b - 1);
    }
  }

  lemma PowersTo15()
    ensures Pow2(15) == 32_768
  {
    assert Pow2(5) == 32;
    assert Pow2(10) == 1024;
  }

  // ---------------------------------------------------------------- the counter

  predicate Safe(s: State) {
    s.counter < Timeout(s)
  }

  /** Every chunk leaves the counter below the timeout, wherever it stood; no other action raises it. */
  lemma StepIsSafe(s: State, a: Action)
    ensures Safe(s) || a.DoTick? || a.DoHalted? || a.DoClear? ==> Safe(Step(s, a))
    ensures Timeout(Step(s, a)) == Timeout(s)
  {
  }

  lemma {:induction false} RunIsSafe(s: State, acts: seq<Action>)
    requires Safe(s)
    ensures Safe(Run(s, acts))
    decreases |acts|
  {
    if acts != [] {
      StepIsSafe(s, acts[0]);
      RunIsSafe(Step(s, acts[0]), acts[1..]);
    }
  }

  /** No sum is ever cut off at 64 bits. */
  lemma NeverSaturates(s: State, n: u32)
    requires Safe(s)
    ensures SaturatingAdd(s.counter, n) == s.counter + n
  {
    TimeoutRange(s);
  }

  /** The watchdog is on and nothing turns it off. */
  predicate Steady(s: State, acts: seq<Action>) {
    Enabled(s) && Safe(s) && forall a :: a in acts ==> !a.DoWdtcon?
  }

  predicate NoClear(acts: seq<Action>) {
    forall a :: a in acts ==> !a.DoClear?
  }

  /** What one action of a steady run does to the counter. */
  lemma SteadyStep(s: State, a: Action)
    requires Enabled(s) && Safe(s) && !a.DoWdtcon?
    ensures Enabled(Step(s, a)) && Safe(Step(s, a)) && Timeout(Step(s, a)) == Timeout(s)
    ensures TimesOut(s, a) <==> !a.DoClear? && s.counter + Cycles(a) >= Timeout(s)
    ensures Step(s, a).counter == if a.DoClear? || TimesOut(s, a) then 0 else s.counter + Cycles(a)
  {
    StepIsSafe(s, a);
    if a.DoTick? || a.DoHalted? {
      NeverSaturates(s, a.n);
    }
  }

  lemma OneMore(k: nat, x: nat)
    ensures (k + 1) * x == k * x + x
  {
  }

  /** k timeouts take at least k whole periods, whatever is cleared on the way. */
  lemma {:induction false} TimeoutsAreApart(s: State, acts: seq<Action>)
    requires Steady(s, acts)
    ensures Timeouts(s, acts) * Timeout(s) + Run(s, acts).counter <= s.counter + Total(acts)
    decreases |acts|
  {
    if acts != [] {
      var next := Step(s, acts[0]);
      SteadyStep(s, acts[0]);
      TimeoutsAreApart(next, acts[1..]);
      OneMore(Timeouts(next, acts[1..]), Timeout(s));
    }
  }

  /** Without clears, chunks of at most m cycles cost each timeout at most m - 1 cycles more. */
  lemma {:induction false} TimeoutsAreDue(s: State, acts: seq<Action>, m: nat)
    requires Steady(s, acts) && NoClear(acts) && m >= 1 && forall a :: a in acts ==> Cycles(a) <= m
    ensures s.counter + Total(acts) <= Timeouts(s, acts) * (Timeout(s) + m - 1) + Run(s, acts).counter
    decreases |acts|
  {
    if acts != [] {
      var next := Step(s, acts[0]);
      SteadyStep(s, acts[0]);
      TimeoutsAreDue(next, acts[1..], m);
      OneMore(Timeouts(next, acts[1..]), Timeout(s) + m - 1);
    }
  }

  /** Without clears a timeout comes as soon as the cycles reach what is left of the period, and no
    sooner. */
  lemma {:induction false} FirstTimeoutExactly(s: State, acts: seq<Action>)
    requires Steady(s, acts) && NoClear(acts)
    ensures Timeouts(s, acts) == 0 <==> s.counter + Total(acts) < Timeout(s)
    decreases |acts|
  {
    if acts != [] {
      SteadyStep(s, acts[0]);
      if !TimesOut(s, acts[0]) {
        FirstTimeoutExactly(Step(s, acts[0]), acts[1..]);
      }
    }
  }

  /** After a timeout or a clear there is none for a whole period. */
  lemma NoneSooner(s: State, a: Action, acts: seq<Action>)
    requires Enabled(s) && Safe(s) && Steady(Step(s, a), acts) && !a.DoWdtcon?
    requires TimesOut(s, a) || a.DoClear?
    requires Timeouts(Step(s, a), acts) >= 1
    ensures Total(acts) >= Timeout(s)
  {
    SteadyStep(s, a);
    FromZero(Step(s, a), acts);
  }

  lemma FromZero(s: State, acts: seq<Action>)
    requires Steady(s, acts) && s.counter == 0 && Timeouts(s, acts) >= 1
    ensures Total(acts) >= Timeout(s)
  {
    TimeoutsAreApart(s, acts);
    AtLeastOnce(Timeouts(s, acts), Timeout(s));
  }

  lemma AtLeastOnce(n: nat, period: nat)
    requires n >= 1
    ensures n * period >= period
  {
  }

  // ---------------------------------------------------------------- the pending flag

  lemma {:induction false} RunSnoc(s: State, acts: seq<Action>, a: Action)
    ensures Run(s, acts + [a]) == Step(Run(s, acts), a)
    decreases |acts|
  {
    if acts == [] {
      assert [] + [a] == [a] && [a][1..] == [];
    } else {
      assert (acts + [a])[1..] == acts[1..] + [a];
      RunSnoc(Step(s, acts[0]), acts[1..], a);
    }
  }

  /** The action at i times out on a running core: a halted one is woken in its place. */
  predicate Raises(s: State, acts: seq<Action>, i: nat)
    requires i < |acts|
  {
    var before := Run(s, acts[..i]);
    TimesOut(before, acts[i]) && (if acts[i].DoHalted? then Woken(before, acts[i].irq) else before).run == Running
  }

  predicate Taken(a: Action) {
    a.DoTake? || a.DoClear?
  }

  /** A timeout is raised and nothing takes it until the end. */
  ghost predicate Owed(s: State, acts: seq<Action>) {
    exists i: nat :: i < |acts| && Raises(s, acts, i) && forall j :: i < j < |acts| ==> !Taken(acts[j])
  }

  lemma RaisesStays(s: State, acts: seq<Action>, a: Action, i: nat)
    requires i < |acts|
    ensures Raises(s, acts + [a], i) <==> Raises(s, acts, i)
  {
    assert (acts + [a])[..i] == acts[..i];
  }

  lemma RaisesLast(s: State, acts: seq<Action>, a: Action)
    ensures Raises(s, acts + [a], |acts|) ==> Step(Run(s, acts), a).pending && !Taken(a)
    ensures !Raises(s, acts + [a], |acts|) && !Taken(a) ==> Step(Run(s, acts), a).pending == Run(s, acts).pending
  {
  }

  lemma OwedSnoc(s: State, acts: seq<Action>, a: Action)
    ensures Owed(s, acts + [a]) <==> Raises(s, acts + [a], |acts|) || (!Taken(a) && Owed(s, acts))
  {
    var all := acts + [a];
    if Owed(s, all) {
      var i: nat :| i < |all| && Raises(s, all, i) && forall j :: i < j < |all| ==> !Taken(all[j]);
      if i < |acts| {
        RaisesStays(s, acts, a, i);
        assert !Taken(all[|acts|]);
        assert forall j :: i < j < |acts| ==> !Taken(all[j]);
      }
    }
    if !Taken(a) && Owed(s, acts) {
      var i: nat :| i < |acts| && Raises(s, acts, i) && forall j :: i < j < |acts| ==> !Taken(acts[j]);
      RaisesStays(s, acts, a, i);
      assert Raises(s, all, i);
    }
  }

  /** Over any run, from a core with nothing pending, the flag is up exactly when a timeout of the
    running core has not been taken or cleared. */
  lemma {:induction false} PendingIsOwed(s: State, acts: seq<Action>)
    requires !s.pending
    ensures Run(s, acts).pending <==> Owed(s, acts)
    decreases |acts|
  {
    if acts != [] {
      var k := |acts| - 1;
      var front, a := acts[..k], acts[k];
      assert acts == front + [a];
      PendingIsOwed(s, front);
      RunSnoc(s, front, a);
      OwedSnoc(s, front, a);
      RaisesLast(s, front, a);
    }
  }

  // ---------------------------------------------------------------- the configuration, spelled out

  /** 16000 cycles, doubled by each step of the postscaler. */
  lemma PeriodDoubles(s: State)
    ensures s.wdtps == 0 ==> Timeout(s) == 16_000
    ensures s.wdtps < 15 ==> Timeout(s.(wdtps := s.wdtps + 1)) == 2 * Timeout(s)
  {
  }

  /** The configuration bit enables the watchdog, and so does bit 0 of WDTCON, alone; no other bit does. */
  lemma EnabledByEitherBit(s: State, w: bv8)
    ensures s.wdten ==> Enabled(s)
    ensures Enabled(s.(wdtcon := w | 1))
    ensures Enabled(s.(wdtcon := w & 0xFE)) <==> s.wdten
  {
    assert (w | 1) & 1 != 0;
    assert (w & 0xFE) & 1 == 0;
  }

  /** The chunk that reaches the period wakes a halted core, clears bit 3 of RCON and no other, and leaves
    nothing pending; a running core gets a pending timeout and keeps RCON. */
  lemma TimeoutWakesOrIsPending(s: State, n: u32)
    requires Enabled(s) && s.counter + n >= Timeout(s)
    ensures var t := Tick(s, n);
            && t.counter == 0 && t.run == Running
            && (s.run != Running ==> t.rcon & 8 == 0 && t.rcon | 8 == s.rcon | 8 && t.pending == s.pending)
            && (s.run == Running ==> t.rcon == s.rcon && t.pending)
  {
    TimeoutRange(s);
    ClearedBit(s.rcon);
  }

  lemma ClearedBit(rcon: bv8)
    ensures (rcon & !8) & 8 == 0 && (rcon & !8) | 8 == rcon | 8
  {
  }

  /** An interrupt wakes a sleeping core before its watchdog counts, so that the timeout of the same chunk
    is pending; an idle core is not woken by it. */
  lemma InterruptWakesSleeper(s: State, n: u32)
    requires Enabled(s) && s.counter + n >= Timeout(s) && s.run != Running
    ensures s.run == Sleep ==> Step(s, DoHalted(n, true)) == s.(counter := 0, pending := true, run := Running)
    ensures s.run == Idle ==> Step(s, DoHalted(n, true)) == Step(s, DoHalted(n, false))
  {
    TimeoutRange(s);
  }

  /** A disabled watchdog counts nothing: when it is enabled again a whole period is left. */
  lemma EnabledAgainStartsOver(s: State, n: u32, w: bv8, acts: seq<Action>)
    requires !Enabled(s) && Enabled(s.(wdtcon := w))
    requires Steady(Step(Step(s, DoTick(n)), DoWdtcon(w)), acts) && NoClear(acts)
    ensures Timeouts(Step(Step(s, DoTick(n)), DoWdtcon(w)), acts) == 0 <==> Total(acts) < Timeout(s)
    ensures Step(s, DoTick(n)).pending == s.pending && Step(s, DoTick(n)).run == s.run
  {
    FirstTimeoutExactly(Step(Step(s, DoTick(n)), DoWdtcon(w)), acts);
  }
}
