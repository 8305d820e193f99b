/** The A/B preset link: a CONTROL unit that broadcasts the preset, MAIN units that follow it, and table
  uploads that land in the bank of the preset in force.
*/
module PresetLink {
  import opened Wrappers
  import HexImage
  import HexLax

  const TABLE: nat := 0xA00
  const BANK_A: nat := 0x5600
  const BANK_B: nat := 0x4A00
  const FLASH: nat := 0x6000

  datatype Frame = Frame(route: int, cmd: int, data: int)

  /** A MAIN unit's state. */
  datatype Main = Main(linkAddr: int, flash: seq<byte>, preset: int, applies: nat, rx: nat, handled: nat)

  datatype UploadError = BadLength | OutOfRange

  function Bit(data: int): int {
    data % 2
  }

  /** High nibble B; low nibble zero, for all, or the unit's own address. */
  predicate AcceptsRoute(linkAddr: int, route: int) {
    route / 16 % 16 == 0xB && (route % 16 == 0 || route % 16 == linkAddr)
  }

  predicate Handles(linkAddr: int, f: Frame) {
    AcceptsRoute(linkAddr, f.route) && f.cmd == 0x20
  }

  function SetPreset(m: Main, idx: int): Main {
    var normalized := if idx != 0 then 1 else 0;
    if normalized == m.preset then m else m.(preset := normalized, applies := m.applies + 1)
  }

  function ProcessFrame(m: Main, f: Frame): Main {
    var m1 := m.(rx := m.rx + 1);
    if Handles(m.linkAddr, f) then
      var m2 := SetPreset(m1, Bit(f.data));
      m2.(handled := m2.handled + 1)
    else m1
  }

  /** The address remap of preset B. */
  function MapAddr(preset: int, addr: int): int {
    if preset != 1 then addr
    else if addr / 0x1_0000 % 0x100 != 0 then addr
    else if 0x56 <= addr / 0x100 % 0x100 <= 0x5F then addr - 0xC00
    else addr
  }

  function Base(preset: int): nat {
    if preset == 1 then BANK_B else BANK_A
  }

  /** The payload over the flash from base on, cut at the flash's end. */
  function Overlay(flash: seq<byte>, base: nat, payload: seq<byte>): (r: seq<byte>)
    ensures |r| == |flash|
  {
    seq<byte>(|flash|, i requires 0 <= i < |flash| => if base <= i < base + |payload| then payload[i - base] else flash[i])
  }

  function UploadResult(m: Main, payload: seq<byte>): Option<UploadError> {
    if |payload| != TABLE then Some(BadLength)
    else if |m.flash| < Base(m.preset) + TABLE then Some(OutOfRange)
    else None
  }

  function Upload(m: Main, payload: seq<byte>): Main {
    if |payload| != TABLE then m else m.(flash := Overlay(m.flash, Base(m.preset), payload))
  }

  lemma TableIsMapped(preset: int, i: nat)
    requires i < TABLE
    ensures MapAddr(preset, 0x5600 + i) == Base(preset) + i
  {
  }

  // ---------------------------------------------------------------- the flash of a HEX file

  function FlashOf(mem: HexImage.Memory): seq<byte> {
    seq<byte>(FLASH, i requires 0 <= i < FLASH => HexImage.Fill(mem, i))
  }

  method FromMemory(mem: HexImage.Memory) returns (flash: array<byte>)
    ensures fresh(flash) && flash[..] == FlashOf(mem)
  {
    flash := new byte[FLASH](_ => 0xFF);
    var left := mem.Keys;
    while left != {}
      invariant left <= mem.Keys
      invariant forall k :: 0 <= k < FLASH ==> flash[k] == if k in left then 0xFF else HexImage.Fill(mem, k)
    {
      var a :| a in left;
      if 0 <= a < FLASH {
        flash[a] := mem[a];
      }
      left := left - {a};
    }
  }

  /** The flash that a unit is given is the one the strict loader reads from the same file, up to where
    the unit's flash ends. */
  lemma FlashIsImage(text: seq<byte>)
    requires HexImage.Load(text).Ok?
    ensures HexLax.ParseIntelHex(text).Some?
    ensures FlashOf(HexLax.ParseIntelHex(text).value) == HexImage.ImageOf(HexImage.Load(text).value).flash[..0x6000]
  {
    HexLax.LaxReaderAgrees(text);
  }

  // ---------------------------------------------------------------- the units

  class MainUnitSim {
    const name: string
    const linkAddr: int
    const flash: array<byte>
    var presetIdx: int
    var applyCount: nat
    var rxCount: nat
    var handledCount: nat

    ghost function Value(): Main
      reads this, flash
    {
      Main(linkAddr, flash[..], presetIdx, applyCount, rxCount, handledCount)
    }

    constructor (name: string, linkAddr: int, flash: array<byte>)
      ensures this.name == name && this.flash == flash
      ensures Value() == Main(linkAddr, flash[..], 0, 0, 0, 0)
    {
      this.name, this.linkAddr, this.flash := name, linkAddr, flash;
      presetIdx, applyCount, rxCount, handledCount := 0, 0, 0, 0;
    }

    method DoSetPreset(idx: int)
      modifies this
      ensures Value() == SetPreset(old(Value()), idx)
    {
      var normalized := if idx != 0 then 1 else 0;
      if normalized == presetIdx {
        return;
      }
      presetIdx := normalized;
      applyCount := applyCount + 1;
    }

    method DoProcessFrame(f: Frame) returns (handled: bool)
      modifies this
      ensures Value() == ProcessFrame(old(Value()), f) && handled == Handles(linkAddr, f)
    {
      rxCount := rxCount + 1;
      if !AcceptsRoute(linkAddr, f.route) {
        return false;
      }
      if f.cmd == 0x20 {
        DoSetPreset(Bit(f.data));
        handledCount := handledCount + 1;
        return true;
      }
      return false;
    }

    method UploadHfdTable(payload: seq<byte>) returns (error: Option<UploadError>)
      modifies flash
      ensures Value() == Upload(old(Value()), payload) && error == old(UploadResult(Value(), payload))
    {
      if |payload| != TABLE {
        return Some(BadLength);
      }
      ghost var before := flash[..];
      var i := 0;
      while i < |payload|
        invariant 0 <= i <= |payload| && flash[..] == Overlay(before, Base(presetIdx), payload[..i])
        invariant i > 0 ==> Base(presetIdx) + i <= flash.Length
      {
        TableIsMapped(presetIdx, i);
        var phys := MapAddr(presetIdx, 0x5600 + i);
        if !(0 <= phys < flash.Length) {
          CutAtEnd(before, Base(presetIdx), payload, i);
          return Some(OutOfRange);
        }
        flash[phys] := payload[i];
        OverlayStep(before, Base(presetIdx), payload, i);
        i := i + 1;
      }
      assert payload[..|payload|] == payload;
      return None;
    }
  }

  lemma OverlayStep(flash: seq<byte>, base: nat, payload: seq<byte>, i: nat)
    requires i < |payload| && base + i < |flash|
    ensures Overlay(flash, base, payload[..i])[base + i := payload[i]] == Overlay(flash, base, payload[..i + 1])
  {
  }

  lemma CutAtEnd(flash: seq<byte>, base: nat, payload: seq<byte>, i: nat)
    requires i < |payload| && base + i >= |flash|
    ensures Overlay(flash, base, payload[..i]) == Overlay(flash, base, payload)
  {
  }

  class ControlUnitSim {
    var presetIdx: int
    var presetVals: seq<int>
    var txFrames: seq<Frame>

    constructor ()
      ensures presetIdx == 0 && presetVals == [0, 0, 0, 0, 0, 0] && txFrames == []
    {
      presetIdx, presetVals, txFrames := 0, [0, 0, 0, 0, 0, 0], [];
    }

    method SetPreset(idx: int) returns (frame: Frame)
      requires |presetVals| == 6
      modifies this
      ensures frame == ControlFrame(idx)
      ensures presetIdx == Normalized(idx) && presetVals == seq(6, _ => Normalized(idx))
      ensures txFrames == old(txFrames) + [frame]
    {
      var normalized := if idx != 0 then 1 else 0;
      presetIdx := normalized;
      for i := 0 to 6
        invariant |presetVals| == 6 && forall j :: 0 <= j < i ==> presetVals[j] == normalized
        invariant presetIdx == normalized && txFrames == old(txFrames)
      {
        presetVals := presetVals[i := normalized];
      }
      frame := Frame(0xB0, 0x20, normalized);
      txFrames := txFrames + [frame];
    }
  }

  function Normalized(idx: int): int {
    if idx != 0 then 1 else 0
  }

  function ControlFrame(idx: int): Frame {
    Frame(0xB0, 0x20, Normalized(idx))
  }

  /** One frame processed n times, as by a unit listed n times. */
  function Repeat(m: Main, f: Frame, n: nat): Main {
    if n == 0 then m else ProcessFrame(Repeat(m, f, n - 1), f)
  }

  lemma {:induction false} RepeatKeepsAddr(m: Main, f: Frame, n: nat)
    ensures Repeat(m, f, n).linkAddr == m.linkAddr
  {
    if n > 0 {
      RepeatKeepsAddr(m, f, n - 1);
    }
  }

  /** The names of the units that handle a frame, in bus order. */
  function HandledBy(mains: seq<MainUnitSim>, f: Frame): seq<string> {
    if mains == [] then []
    else
      var last := mains[|mains| - 1];
      HandledBy(mains[..|mains| - 1], f) + if Handles(last.linkAddr, f) then [last.name] else []
  }

  lemma HandledByStep(mains: seq<MainUnitSim>, f: Frame, i: nat)
    requires i < |mains|
    ensures HandledBy(mains[..i + 1], f)
         == if Handles(mains[i].linkAddr, f) then HandledBy(mains[..i], f) + [mains[i].name] else HandledBy(mains[..i], f)
  {
    assert mains[..i + 1][..i] == mains[..i];
  }

  /** How often a unit is listed among the first i. */
  function Times(mains: seq<MainUnitSim>, i: nat, m: MainUnitSim): nat
    requires i <= |mains|
  {
    if i == 0 then 0 else Times(mains, i - 1, m) + if mains[i - 1] == m then 1 else 0
  }

  /** Every unit on the bus processes the frame, as often as it is listed. */
  method Deliver(mains: seq<MainUnitSim>, f: Frame) returns (handledBy: seq<string>)
    modifies mains
    ensures forall m :: m in mains ==> m.Value() == Repeat(old(m.Value()), f, Times(mains, |mains|, m))
    ensures handledBy == HandledBy(mains, f)
  {
    handledBy := [];
    for i := 0 to |mains|
      invariant forall m :: m in mains ==> m.Value() == Repeat(old(m.Value()), f, Times(mains, i, m))
      invariant handledBy == HandledBy(mains[..i], f)
    {
      HandledByStep(mains, f, i);
      label Before:
      var handled := mains[i].DoProcessFrame(f);
      forall m | m in mains
        ensures m.Value() == Repeat(old(m.Value()), f, Times(mains, i + 1, m))
      {
        if m != mains[i] {
          assert m.Value() == old@Before(m.Value());
        }
      }
      if handled {
        handledBy := handledBy + [mains[i].name];
      }
    }
    assert mains[..|mains|] == mains;
  }

  // ---------------------------------------------------------------- runs of one unit

  datatype Event = OnFrame(frame: Frame) | OnUpload(payload: seq<byte>)

  function Step(m: Main, e: Event): Main {
    match e
    case OnFrame(f) => ProcessFrame(m, f)
    case OnUpload(p) => Upload(m, p)
  }

  function Run(m: Main, es: seq<Event>): Main
    decreases |es|
  {
    if es == [] then m else Step(Run(m, es[..|es| - 1]), es[|es| - 1])
  }

  predicate Chooses(linkAddr: int, e: Event) {
    e.OnFrame? && Handles(linkAddr, e.frame)
  }

  /** The data bit of the last accepted preset frame, the initial preset when there is none. */
  function LastChoice(linkAddr: int, es: seq<Event>, initial: int): int
    decreases |es|
  {
    if es == [] then initial
    else if Chooses(linkAddr, es[|es| - 1]) then Bit(es[|es| - 1].frame.data)
    else LastChoice(linkAddr, es[..|es| - 1], initial)
  }

  /** How often an accepted preset frame asks for the other preset. */
  function Changes(linkAddr: int, es: seq<Event>, initial: int): nat
    decreases |es|
  {
    if es == [] then 0
    else
      var front, e := es[..|es| - 1], es[|es| - 1];
      var changed := Chooses(linkAddr, e) && Bit(e.frame.data) != LastChoice(linkAddr, front, initial);
      Changes(linkAddr, front, initial) + if changed then 1 else 0
  }

  function Frames(es: seq<Event>): nat {
    if es == [] then 0 else Frames(es[..|es| - 1]) + if es[|es| - 1].OnFrame? then 1 else 0
  }

  function Handled(linkAddr: int, es: seq<Event>): nat {
    if es == [] then 0 else Handled(linkAddr, es[..|es| - 1]) + if Chooses(linkAddr, es[|es| - 1]) then 1 else 0
  }

  /** The last whole table uploaded while a preset was in force. */
  function LastUpload(linkAddr: int, es: seq<Event>, initial: int, preset: int): Option<seq<byte>>
    decreases |es|
  {
    if es == [] then None
    else
      var front, e := es[..|es| - 1], es[|es| - 1];
      if e.OnUpload? && |e.payload| == TABLE && LastChoice(linkAddr, front, initial) == preset then Some(e.payload)
      else LastUpload(linkAddr, front, initial, preset)
  }

  /** Over any run the preset is the last choice, the counters count what their names say, and apply_count
    counts the real changes. */
  lemma {:induction false} RunCounts(m: Main, es: seq<Event>)
    requires m.preset == 0 || m.preset == 1
    ensures var r := Run(m, es);
            && r.linkAddr == m.linkAddr && |r.flash| == |m.flash|
            && r.preset == LastChoice(m.linkAddr, es, m.preset) && (r.preset == 0 || r.preset == 1)
            && r.applies == m.applies + Changes(m.linkAddr, es, m.preset)
            && r.rx == m.rx + Frames(es) && r.handled == m.handled + Handled(m.linkAddr, es)
    decreases |es|
  {
    if es != [] {
      RunCounts(m, es[..|es| - 1]);
    }
  }

  /** The presets alternate, so the parity of the changes tells which one is in force. */
  lemma {:induction false} ParityIsPreset(linkAddr: int, es: seq<Event>, initial: int)
    requires initial == 0 || initial == 1
    ensures LastChoice(linkAddr, es, initial) == (initial + Changes(linkAddr, es, initial)) % 2
    decreases |es|
  {
    if es != [] {
      ParityIsPreset(linkAddr, es[..|es| - 1], initial);
    }
  }

  /** What a flash byte holds after a run: the byte of the last table of its bank, or what it held. */
  function FlashByte(m: Main, a: Option<seq<byte>>, b: Option<seq<byte>>, k: nat): byte
    requires k < |m.flash|
    requires (a.Some? ==> |a.value| == TABLE) && (b.Some? ==> |b.value| == TABLE)
  {
    if BANK_A <= k < BANK_A + TABLE && a.Some? then a.value[k - BANK_A]
    else if BANK_B <= k < BANK_B + TABLE && b.Some? then b.value[k - BANK_B]
    else m.flash[k]
  }

  lemma {:induction false} LastUploadLength(linkAddr: int, es: seq<Event>, initial: int, preset: int)
    ensures var p := LastUpload(linkAddr, es, initial, preset); p.Some? ==> |p.value| == TABLE
    decreases |es|
  {
    if es != [] {
      LastUploadLength(linkAddr, es[..|es| - 1], initial, preset);
    }
  }

  /** Over any run bank A holds the last table uploaded under preset A, bank B the last one under preset
    B, and every other byte of the flash is what it was. */
  lemma {:induction false} BanksHoldLastUploads(m: Main, es: seq<Event>, k: nat)
    requires (m.preset == 0 || m.preset == 1) && k < |m.flash|
    ensures var a := LastUpload(m.linkAddr, es, m.preset, 0);
            var b := LastUpload(m.linkAddr, es, m.preset, 1);
            && (a.Some? ==> |a.value| == TABLE) && (b.Some? ==> |b.value| == TABLE)
            && |Run(m, es).flash| == |m.flash|
            && Run(m, es).flash[k] == FlashByte(m, a, b, k)
    decreases |es|
  {
    LastUploadLength(m.linkAddr, es, m.preset, 0);
    LastUploadLength(m.linkAddr, es, m.preset, 1);
    RunCounts(m, es);
    if es != [] {
      var front := es[..|es| - 1];
      RunCounts(m, front);
      BanksHoldLastUploads(m, front, k);
    }
  }

  // ---------------------------------------------------------------- runs of the whole link

  /** The states of two units that differ in their address only. */
  predicate Twins(a: Main, b: Main) {
    a == b.(linkAddr := a.linkAddr)
  }

  predicate Broadcast(f: Frame) {
    f.route / 16 % 16 == 0xB && f.route % 16 == 0
  }

  /** Units that start alike stay alike so long as the frames are broadcast. */
  lemma {:induction false} BroadcastKeepsTwins(a: Main, b: Main, es: seq<Event>)
    requires Twins(a, b) && forall e :: e in es && e.OnFrame? ==> Broadcast(e.frame)
    ensures Twins(Run(a, es), Run(b, es))
    decreases |es|
  {
    if es != [] {
      BroadcastKeepsTwins(a, b, es[..|es| - 1]);
      TwinStep(Run(a, es[..|es| - 1]), Run(b, es[..|es| - 1]), es[|es| - 1]);
    }
  }

  lemma TwinStep(a: Main, b: Main, e: Event)
    requires Twins(a, b) && (e.OnFrame? ==> Broadcast(e.frame))
    ensures Twins(Step(a, e), Step(b, e))
  {
  }

  /** A unit addressed alone leaves the others behind: the frame must be accepted by both or by neither. */
  lemma TwinsPartExactly(a: Main, b: Main, f: Frame)
    requires Twins(a, b)
    ensures Twins(ProcessFrame(a, f), ProcessFrame(b, f)) <==> (Handles(a.linkAddr, f) <==> Handles(b.linkAddr, f))
  {
  }

  datatype Command = Choose(idx: int) | UploadAll(payload: seq<byte>)

  /** What a unit sees of CONTROL's commands. */
  function Seen(cs: seq<Command>): (es: seq<Event>)
    ensures |es| == |cs|
  {
    seq(|cs|, i requires 0 <= i < |cs| =>
      match cs[i]
      case Choose(idx) => OnFrame(ControlFrame(idx))
      case UploadAll(payload) => OnUpload(payload))
  }

  function ControlPreset(cs: seq<Command>, initial: int): int
    decreases |cs|
  {
    if cs == [] then initial
    else if cs[|cs| - 1].Choose? then Normalized(cs[|cs| - 1].idx)
    else ControlPreset(cs[..|cs| - 1], initial)
  }

  /** Over any run of CONTROL's commands every unit that starts in CONTROL's preset is in it at the end,
    whatever its address. */
  lemma {:induction false} UnitsFollowControl(m: Main, cs: seq<Command>)
    requires m.preset == 0 || m.preset == 1
    ensures Run(m, Seen(cs)).preset == ControlPreset(cs, m.preset)
    decreases |cs|
  {
    RunCounts(m, Seen(cs));
    ChoicesOfSeen(m.linkAddr, cs, m.preset);
  }

  lemma {:induction false} ChoicesOfSeen(linkAddr: int, cs: seq<Command>, initial: int)
    ensures LastChoice(linkAddr, Seen(cs), initial) == ControlPreset(cs, initial)
    decreases |cs|
  {
    if cs != [] {
      var k := |cs| - 1;
      assert Seen(cs)[..k] == Seen(cs[..k]);
      ChoicesOfSeen(linkAddr, cs[..k], initial);
      if cs[k].Choose? {
        ControlFrameIsForAll(cs[k], linkAddr);
      }
    }
  }

  lemma ControlFrameIsForAll(c: Command, linkAddr: int)
    requires c.Choose?
    ensures Handles(linkAddr, ControlFrame(c.idx)) && Bit(ControlFrame(c.idx).data) == Normalized(c.idx)
  {
  }

  // ---------------------------------------------------------------- the frames, spelled out

  /** A route of high nibble B reaches the units of the address in its low nibble, and with zero there all
    units; no other low byte reaches any, and what stands above the low byte plays no part. */
  lemma RouteReaches(linkAddr: int, a: nat, low: nat, k: int)
    requires a < 16 && low < 256
    ensures AcceptsRoute(linkAddr, 256 * k + 0xB0 + a) <==> a == 0 || a == linkAddr
    ensures low < 0xB0 || low > 0xBF ==> !AcceptsRoute(linkAddr, 256 * k + low)
  {
    Nibbles(k, 0xB, a);
    Nibbles(k, low / 16, low % 16);
  }

  lemma Nibbles(k: int, high: nat, low: nat)
    requires high < 16 && low < 16
    ensures (256 * k + high * 16 + low) / 16 % 16 == high && (256 * k + high * 16 + low) % 16 == low
  {
    assert 256 * k + high * 16 + low == 16 * (16 * k + high) + low;
  }

  /** A preset frame that reaches a unit sets its preset to the lowest bit of the data; a frame with another
    command, or to another unit, leaves everything but the count of frames. */
  lemma FrameSetsPreset(m: Main, a: nat, cmd: int, data: int)
    requires a < 16
    ensures var after := ProcessFrame(m, Frame(0xB0 + a, cmd, data));
            if cmd == 0x20 && (a == 0 || a == m.linkAddr)
            then after.preset == data % 2 && after.handled == m.handled + 1 && after.rx == m.rx + 1
            else after == m.(rx := m.rx + 1)
  {
    RouteReaches(m.linkAddr, a, 0, 0);
  }

  /** A table has 2560 bytes, and needs them all inside the flash, from 0x5600 under preset A and from 0x4A00
    under preset B; what of it lies inside is put there, and nothing else is touched. */
  lemma UploadLands(m: Main, payload: seq<byte>, k: nat)
    requires m.preset in {0, 1} && k < |m.flash|
    ensures var base := if m.preset == 0 then 0x5600 else 0x4A00;
            && (UploadResult(m, payload) == Some(BadLength) <==> |payload| != 2560)
            && (UploadResult(m, payload) == Some(OutOfRange) <==> |payload| == 2560 && base + 2560 > |m.flash|)
            && Upload(m, payload).flash[k]
               == if |payload| == 2560 && base <= k < base + 2560 then payload[k - base] else m.flash[k]
  {
  }

  /** The remap moves the table's ten pages under preset B, and no other address of the 24-bit space. */
  lemma RemapMovesTheTable(preset: int, addr: nat)
    requires addr < 0x100_0000
    ensures MapAddr(preset, addr) == if preset == 1 && 0x5600 <= addr < 0x6000 then addr - 0xC00 else addr
  {
  }

  /** CONTROL's frame for a preset, and what any unit makes of it. */
  lemma ControlFrameReaches(m: Main, idx: int)
    ensures var preset := if idx == 0 then 0 else 1;
            ControlFrame(idx) == Frame(0xB0, 0x20, preset) && ProcessFrame(m, ControlFrame(idx)).preset == preset
  {
    RouteReaches(m.linkAddr, 0, 0, 0);
  }

  lemma {:induction false} TimesCounts(mains: seq<MainUnitSim>, i: nat, m: MainUnitSim)
    requires i <= |mains|
    ensures Times(mains, i, m) == multiset(mains[..i])[m]
  {
    if i > 0 {
      TimesCounts(mains, i - 1, m);
      assert mains[..i] == mains[..i - 1] + [mains[i - 1]];
    }
  }
}
