/** Receive rings kept in simulated RAM, and the injectors that write them from outside.

  A ring is a window of cells and two index bytes.  Both indices are taken modulo the depth before
  use, so any two bytes are a ring state.  The unread bytes are the queue that the ring stands for.
*/
module RxRing {
  import opened Wrappers

  const MEM_BYTES := 4096

  datatype Ring = Ring(base: nat, depth: nat, rdAddr: nat, wrAddr: nat) {
    predicate Valid() {
      && 0 < depth <= 256
      && base + depth <= MEM_BYTES && rdAddr < MEM_BYTES && wrAddr < MEM_BYTES
      && rdAddr != wrAddr
      && !(base <= rdAddr < base + depth) && !(base <= wrAddr < base + depth)
    }
  }

  const CONTROL_RING := Ring(0x066, 48, 0x098, 0x099)
  const MAIN_RING := Ring(0x200, 192, 0x0C6, 0x0C7)

  // ---------------------------------------------------------------- the queue in a memory

  predicate IsMemory(mem: seq<byte>) {
    |mem| == MEM_BYTES
  }

  function Rd(g: Ring, mem: seq<byte>): (i: nat)
    requires g.Valid() && IsMemory(mem)
    ensures i < g.depth
  {
    mem[g.rdAddr] as int % g.depth
  }

  function Wr(g: Ring, mem: seq<byte>): (i: nat)
    requires g.Valid() && IsMemory(mem)
    ensures i < g.depth
  {
    mem[g.wrAddr] as int % g.depth
  }

  /** The remainder by d of a number below 2d. */
  function Wrap(x: nat, d: nat): (r: nat)
    requires x < 2 * d
    ensures r < d
  {
    if x < d then x else x - d
  }

  lemma WrapIsMod(x: nat, d: nat)
    requires x < 2 * d
    ensures x % d == Wrap(x, d)
  {
  }

  function Used(g: Ring, mem: seq<byte>): (n: nat)
    requires g.Valid() && IsMemory(mem)
    ensures n < g.depth
  {
    Wrap(Wr(g, mem) + g.depth - Rd(g, mem), g.depth)
  }

  /** The address of the cell k places after an index. */
  function Cell(g: Ring, index: nat, k: nat): (a: nat)
    requires g.Valid() && index < g.depth && k < g.depth
    ensures g.base <= a < g.base + g.depth
  {
    g.base + Wrap(index + k, g.depth)
  }

  function Cells(g: Ring, mem: seq<byte>, index: nat, n: nat): (s: seq<byte>)
    requires g.Valid() && IsMemory(mem) && index < g.depth && n <= g.depth
    ensures |s| == n
    ensures forall k :: 0 <= k < n ==> s[k] == mem[Cell(g, index, k)]
  {
    seq<byte>(n, k requires 0 <= k < n => mem[Cell(g, index, k)])
  }

  /** The bytes written and not yet read, oldest first. */
  function Unread(g: Ring, mem: seq<byte>): seq<byte>
    requires g.Valid() && IsMemory(mem)
  {
    Cells(g, mem, Rd(g, mem), Used(g, mem))
  }

  /** Nothing but the cells of the ring and its write index differs. */
  predicate OnlyRingWritten(g: Ring, before: seq<byte>, after: seq<byte>)
    requires IsMemory(before) && IsMemory(after)
  {
    forall a :: 0 <= a < MEM_BYTES && a != g.wrAddr && !(g.base <= a < g.base + g.depth) ==> after[a] == before[a]
  }

  // ---------------------------------------------------------------- storing bytes

  /** Memory after storing bytes one after the other from an index on. */
  function Stored(g: Ring, mem: seq<byte>, wr: nat, bytes: seq<byte>): (mem': seq<byte>)
    requires g.Valid() && IsMemory(mem) && wr < g.depth
    ensures IsMemory(mem')
    decreases |bytes|
  {
    if bytes == [] then mem
    else Stored(g, mem[g.base + wr := bytes[0]], Wrap(wr + 1, g.depth), bytes[1..])
  }

  /** The index after n steps round the ring. */
  function Advance(g: Ring, wr: nat, n: nat): (wr': nat)
    requires g.Valid() && wr < g.depth
    ensures wr' < g.depth
    decreases n
  {
    if n == 0 then wr else Advance(g, Wrap(wr + 1, g.depth), n - 1)
  }

  lemma {:induction false} AdvanceIsWrap(g: Ring, wr: nat, n: nat)
    requires g.Valid() && wr < g.depth && n <= g.depth
    ensures Advance(g, wr, n) == Wrap(wr + n, g.depth)
    decreases n
  {
    if n > 0 {
      AdvanceIsWrap(g, Wrap(wr + 1, g.depth), n - 1);
    }
  }

  method StoreBytes(g: Ring, mem: array<byte>, start: nat, bytes: seq<byte>) returns (wr: nat)
    requires g.Valid() && mem.Length == MEM_BYTES && start < g.depth
    modifies mem
    ensures mem[..] == Stored(g, old(mem[..]), start, bytes)
    ensures wr == Advance(g, start, |bytes|)
  {
    wr := start;
    for i := 0 to |bytes|
      invariant wr < g.depth && Advance(g, wr, |bytes| - i) == Advance(g, start, |bytes|)
      invariant Stored(g, mem[..], wr, bytes[i..]) == Stored(g, old(mem[..]), start, bytes)
    {
      ghost var before := mem[..];
      StoredStep(g, before, wr, bytes, i);
      mem[g.base + wr] := bytes[i];
      assert mem[..] == before[g.base + wr := bytes[i]];
      WrapIsMod(wr + 1, g.depth);
      wr := (wr + 1) % g.depth;
    }
  }

  lemma StoredStep(g: Ring, mem: seq<byte>, wr: nat, bytes: seq<byte>, i: nat)
    requires g.Valid() && IsMemory(mem) && wr < g.depth && i < |bytes|
    ensures Stored(g, mem, wr, bytes[i..])
         == Stored(g, mem[g.base + wr := bytes[i]], Wrap(wr + 1, g.depth), bytes[i + 1..])
  {
  }

  lemma {:induction false} StoredFrame(g: Ring, mem: seq<byte>, wr: nat, bytes: seq<byte>)
    requires g.Valid() && IsMemory(mem) && wr < g.depth
    ensures OnlyRingWritten(g, mem, Stored(g, mem, wr, bytes))
    ensures Stored(g, mem, wr, bytes)[g.wrAddr] == mem[g.wrAddr]
    decreases |bytes|
  {
    if bytes != [] {
      StoredFrame(g, mem[g.base + wr := bytes[0]], Wrap(wr + 1, g.depth), bytes[1..]);
    }
  }

  lemma StoreOne(g: Ring, mem: seq<byte>, rd: nat, n: nat, b: byte)
    requires g.Valid() && IsMemory(mem) && rd < g.depth && n < g.depth
    ensures var mem' := mem[Cell(g, rd, n) := b];
            Cells(g, mem', rd, n + 1) == Cells(g, mem, rd, n) + [b]
  {
  }

  /** As long as the ring has room, storing after the n unread bytes leaves them and adds the rest. */
  lemma {:induction false} StoredAppends(g: Ring, mem: seq<byte>, rd: nat, n: nat, bytes: seq<byte>)
    requires g.Valid() && IsMemory(mem) && rd < g.depth && n + |bytes| < g.depth
    ensures Cells(g, Stored(g, mem, Wrap(rd + n, g.depth), bytes), rd, n + |bytes|) == Cells(g, mem, rd, n) + bytes
    decreases |bytes|
  {
    if bytes == [] {
      assert Cells(g, mem, rd, n) + bytes == Cells(g, mem, rd, n);
    } else {
      var mem' := mem[Cell(g, rd, n) := bytes[0]];
      StoreOne(g, mem, rd, n, bytes[0]);
      StoredAppends(g, mem', rd, n + 1, bytes[1..]);
      assert Cells(g, mem, rd, n) + [bytes[0]] + bytes[1..] == Cells(g, mem, rd, n) + bytes;
    }
  }

  // ---------------------------------------------------------------- an injected burst

  /** Memory after a burst is stored at the write index and the index moved past it. */
  function Injected(g: Ring, mem: seq<byte>, bytes: seq<byte>): (mem': seq<byte>)
    requires g.Valid() && IsMemory(mem)
    ensures IsMemory(mem')
  {
    Stored(g, mem, Wr(g, mem), bytes)[g.wrAddr := Advance(g, Wr(g, mem), |bytes|)]
  }

  lemma CellsSame(g: Ring, a: seq<byte>, b: seq<byte>, index: nat, n: nat)
    requires g.Valid() && IsMemory(a) && IsMemory(b) && index < g.depth && n <= g.depth
    requires forall k :: g.base <= k < g.base + g.depth ==> a[k] == b[k]
    ensures Cells(g, a, index, n) == Cells(g, b, index, n)
  {
  }

  lemma InjectedFrame(g: Ring, mem: seq<byte>, bytes: seq<byte>)
    requires g.Valid() && IsMemory(mem)
    ensures OnlyRingWritten(g, mem, Injected(g, mem, bytes))
    ensures Rd(g, Injected(g, mem, bytes)) == Rd(g, mem)
    ensures Wr(g, Injected(g, mem, bytes)) == Advance(g, Wr(g, mem), |bytes|)
  {
    StoredFrame(g, mem, Wr(g, mem), bytes);
    WrapIsMod(Advance(g, Wr(g, mem), |bytes|), g.depth);
  }

  /** A burst that fits is appended: the unread bytes stay and the burst follows them. */
  lemma InjectedAppends(g: Ring, mem: seq<byte>, bytes: seq<byte>)
    requires g.Valid() && IsMemory(mem)
    requires Used(g, mem) + |bytes| < g.depth
    ensures Unread(g, Injected(g, mem, bytes)) == Unread(g, mem) + bytes
  {
    var rd, u := Rd(g, mem), Used(g, mem);
    InjectedFrame(g, mem, bytes);
    AdvanceIsWrap(g, Wr(g, mem), |bytes|);
    assert Used(g, Injected(g, mem, bytes)) == u + |bytes|;
    StoredAppends(g, mem, rd, u, bytes);
    CellsSame(g, Stored(g, mem, Wr(g, mem), bytes), Injected(g, mem, bytes), rd, u + |bytes|);
  }

  /** Whatever the burst, appending it means having had the room. */
  lemma InjectedAppendsExactly(g: Ring, mem: seq<byte>, bytes: seq<byte>)
    requires g.Valid() && IsMemory(mem)
    ensures Unread(g, Injected(g, mem, bytes)) == Unread(g, mem) + bytes <==> Used(g, mem) + |bytes| < g.depth
  {
    if Used(g, mem) + |bytes| < g.depth {
      InjectedAppends(g, mem, bytes);
    } else {
      assert |Unread(g, Injected(g, mem, bytes))| < g.depth;
      assert |Unread(g, mem) + bytes| == Used(g, mem) + |bytes|;
    }
  }

  // ---------------------------------------------------------------- the two CONTROL injectors

  /** Whether the injector with the free-slot count takes a burst; the length is cut to 16 bits. */
  predicate Takes(mem: seq<byte>, bytes: seq<byte>)
    requires IsMemory(mem)
  {
    |bytes| % 0x1_0000 <= 47 - Used(CONTROL_RING, mem)
  }

  /** Whether the injector with the fixed high-water mark takes a burst; the length plays no part. */
  predicate TakesLoosely(mem: seq<byte>)
    requires IsMemory(mem)
  {
    Used(CONTROL_RING, mem) <= 0x2C
  }

  method InjectRxBytes(mem: array<byte>, bytes: seq<byte>) returns (taken: bool)
    requires mem.Length == MEM_BYTES
    modifies mem
    ensures taken == Takes(old(mem[..]), bytes)
    ensures mem[..] == if taken then Injected(CONTROL_RING, old(mem[..]), bytes) else old(mem[..])
  {
    var g := CONTROL_RING;
    var rd: int := mem[g.rdAddr] as int % 48;
    var wr: int := mem[g.wrAddr] as int % 48;
    var used := (wr + 48 - rd) % 48;
    assert used == Used(g, mem[..]);
    var free := if used <= 47 then 47 - used else 0;
    if |bytes| % 0x1_0000 > free {
      return false;
    }
    var end := StoreBytes(g, mem, wr, bytes);
    ghost var stored := mem[..];
    var index: byte := end;
    mem[g.wrAddr] := index;
    assert mem[..] == stored[g.wrAddr := index];
    return true;
  }

  method InjectControlRxBytes(mem: array<byte>, bytes: seq<byte>) returns (taken: bool)
    requires mem.Length == MEM_BYTES
    modifies mem
    ensures taken == TakesLoosely(old(mem[..]))
    ensures mem[..] == if taken then Injected(CONTROL_RING, old(mem[..]), bytes) else old(mem[..])
  {
    var g := CONTROL_RING;
    var rd: int := mem[g.rdAddr] as int % 48;
    var wr: int := mem[g.wrAddr] as int % 48;
    var used := (wr + 48 - rd) % 48;
    assert used == Used(g, mem[..]);
    if used > 0x2C {
      return false;
    }
    var end := StoreBytes(g, mem, wr, bytes);
    ghost var stored := mem[..];
    var index: byte := end;
    mem[g.wrAddr] := index;
    assert mem[..] == stored[g.wrAddr := index];
    return true;
  }

  /** A taken burst is appended to the queue exactly when it is shorter than 65536 bytes: the cut to
    16 bits lets a longer one through. */
  lemma TakenBurstIsAppended(mem: seq<byte>, bytes: seq<byte>)
    requires IsMemory(mem) && Takes(mem, bytes)
    ensures Unread(CONTROL_RING, Injected(CONTROL_RING, mem, bytes)) == Unread(CONTROL_RING, mem) + bytes
            <==> |bytes| < 0x1_0000
    ensures OnlyRingWritten(CONTROL_RING, mem, Injected(CONTROL_RING, mem, bytes))
  {
    InjectedAppendsExactly(CONTROL_RING, mem, bytes);
    InjectedFrame(CONTROL_RING, mem, bytes);
  }

  /** Below that length a burst is taken exactly when it fits beside the unread bytes. */
  lemma TakesExactlyWhatFits(mem: seq<byte>, bytes: seq<byte>)
    requires IsMemory(mem)
    ensures (Takes(mem, bytes) && |bytes| < 0x1_0000) <==> |bytes| <= 47 - |Unread(CONTROL_RING, mem)|
  {
  }

  /** A burst of 65536 bytes is taken by any ring, and drops what was unread. */
  lemma SixteenBitLengthLeak(mem: seq<byte>, bytes: seq<byte>)
    requires IsMemory(mem) && |bytes| == 0x1_0000
    ensures Takes(mem, bytes)
    ensures Unread(CONTROL_RING, Injected(CONTROL_RING, mem, bytes)) != Unread(CONTROL_RING, mem) + bytes
  {
  }

  /** The high-water injector appends exactly the bursts that fit. */
  lemma LooselyTakenBurstIsAppended(mem: seq<byte>, bytes: seq<byte>)
    requires IsMemory(mem) && TakesLoosely(mem)
    ensures Unread(CONTROL_RING, Injected(CONTROL_RING, mem, bytes)) == Unread(CONTROL_RING, mem) + bytes
            <==> |bytes| <= 47 - |Unread(CONTROL_RING, mem)|
  {
    InjectedAppendsExactly(CONTROL_RING, mem, bytes);
  }

  /** Up to three bytes always fit where the high-water injector writes, so the other injector takes
    them too and leaves the same memory; a fourth byte may not fit. */
  lemma ShortBurstsAgree(mem: seq<byte>, bytes: seq<byte>)
    requires IsMemory(mem) && TakesLoosely(mem)
    ensures |bytes| <= 3 ==> Takes(mem, bytes)
    ensures |bytes| <= 3 ==>
            Unread(CONTROL_RING, Injected(CONTROL_RING, mem, bytes)) == Unread(CONTROL_RING, mem) + bytes
    ensures |bytes| == 4 && |Unread(CONTROL_RING, mem)| == 0x2C ==> !Takes(mem, bytes)
  {
    LooselyTakenBurstIsAppended(mem, bytes);
  }

  // ---------------------------------------------------------------- runs against the CONTROL ring

  /** An injection by either injector, or the firmware taking the oldest unread byte. */
  datatype Op = Inject(bytes: seq<byte>) | InjectLoosely(bytes: seq<byte>) | Consume

  /** The ring's RAM with everything that went in and came out. */
  datatype RingRun = RingRun(mem: seq<byte>, taken: seq<byte>, read: seq<byte>)

  function Step(s: RingRun, op: Op): (s': RingRun)
    requires IsMemory(s.mem)
    ensures IsMemory(s'.mem)
  {
    var g := CONTROL_RING;
    match op
    case Inject(bytes) =>
      if Takes(s.mem, bytes) then RingRun(Injected(g, s.mem, bytes), s.taken + bytes, s.read) else s
    case InjectLoosely(bytes) =>
      if TakesLoosely(s.mem) then RingRun(Injected(g, s.mem, bytes), s.taken + bytes, s.read) else s
    case Consume =>
      if Used(g, s.mem) == 0 then s
      else
        var rd := Rd(g, s.mem);
        RingRun(s.mem[g.rdAddr := (rd + 1) % 48], s.taken, s.read + [s.mem[g.base + rd]])
  }

  /** A taken burst had the room: for the counting injector it is shorter than 65536 bytes, for the other
    one it is no longer than the free cells. */
  predicate Roomy(s: RingRun, op: Op)
    requires IsMemory(s.mem)
  {
    match op
    case Inject(bytes) => Takes(s.mem, bytes) ==> |bytes| < 0x1_0000
    case InjectLoosely(bytes) => TakesLoosely(s.mem) ==> |bytes| <= 47 - Used(CONTROL_RING, s.mem)
    case Consume => true
  }

  predicate RoomyRun(s: RingRun, ops: seq<Op>)
    requires IsMemory(s.mem)
    decreases |ops|
  {
    ops == [] || (Roomy(s, ops[0]) && RoomyRun(Step(s, ops[0]), ops[1..]))
  }

  function Run(s: RingRun, ops: seq<Op>): (s': RingRun)
    requires IsMemory(s.mem)
    ensures IsMemory(s'.mem)
    decreases |ops|
  {
    if ops == [] then s else Run(Step(s, ops[0]), ops[1..])
  }

  lemma ConsumeTakesOldest(mem: seq<byte>)
    requires IsMemory(mem) && Used(CONTROL_RING, mem) > 0
    ensures var rd := Rd(CONTROL_RING, mem);
            var mem' := mem[CONTROL_RING.rdAddr := (rd + 1) % 48];
            Unread(CONTROL_RING, mem) == [mem[CONTROL_RING.base + rd]] + Unread(CONTROL_RING, mem')
  {
    var g, rd := CONTROL_RING, Rd(CONTROL_RING, mem);
    var mem' := mem[g.rdAddr := (rd + 1) % 48];
    WrapIsMod(rd + 1, 48);
    assert Rd(g, mem') == Wrap(rd + 1, 48) && Wr(g, mem') == Wr(g, mem);
    CellsFromNext(g, mem, mem', rd, Used(g, mem));
  }

  lemma CellsFromNext(g: Ring, mem: seq<byte>, mem': seq<byte>, rd: nat, n: nat)
    requires g.Valid() && IsMemory(mem) && IsMemory(mem') && rd < g.depth && 0 < n <= g.depth
    requires forall a :: g.base <= a < g.base + g.depth ==> mem'[a] == mem[a]
    ensures Cells(g, mem, rd, n) == [mem[g.base + rd]] + Cells(g, mem', Wrap(rd + 1, g.depth), n - 1)
  {
    var next := Wrap(rd + 1, g.depth);
    var all, rest := Cells(g, mem, rd, n), Cells(g, mem', next, n - 1);
    forall k | 0 <= k < n - 1
      ensures rest[k] == all[k + 1]
    {
      assert Cell(g, rd, k + 1) == Cell(g, next, k);
    }
  }

  /** What was unread at the start and what was taken since, in order, is what was read since and what
    is unread now. */
  ghost predicate InOrder(start: seq<byte>, s: RingRun)
    requires IsMemory(s.mem)
  {
    s.read + Unread(CONTROL_RING, s.mem) == start + s.taken
  }

  lemma AppendOnBothSides(a: seq<byte>, b: seq<byte>, c: seq<byte>, d: seq<byte>, e: seq<byte>)
    requires a + b == c + d
    ensures a + (b + e) == c + (d + e)
  {
    assert a + (b + e) == (a + b) + e;
    assert c + (d + e) == (c + d) + e;
  }

  lemma SameOnBothSides(a: seq<byte>, b: seq<byte>, b': seq<byte>, c: seq<byte>, d: seq<byte>, e: seq<byte>)
    requires a + b == c + d
    ensures a + b' == c + (d + e) <==> b' == b + e
  {
    AppendOnBothSides(a, b, c, d, e);
    if a + b' == a + (b + e) {
      assert b' == (a + b')[|a|..] == (a + (b + e))[|a|..] == b + e;
    }
  }

  /** One step keeps the order exactly when what it takes had the room. */
  lemma StepKeepsOrder(start: seq<byte>, s: RingRun, op: Op)
    requires IsMemory(s.mem) && InOrder(start, s)
    ensures InOrder(start, Step(s, op)) <==> Roomy(s, op)
  {
    var g := CONTROL_RING;
    match op
    case Inject(bytes) =>
      if Takes(s.mem, bytes) {
        TakenBurstIsAppended(s.mem, bytes);
        var next := Unread(g, Injected(g, s.mem, bytes));
        SameOnBothSides(s.read, Unread(g, s.mem), next, start, s.taken, bytes);
      }
    case InjectLoosely(bytes) =>
      if TakesLoosely(s.mem) {
        LooselyTakenBurstIsAppended(s.mem, bytes);
        var next := Unread(g, Injected(g, s.mem, bytes));
        SameOnBothSides(s.read, Unread(g, s.mem), next, start, s.taken, bytes);
      }
    case Consume =>
      if Used(g, s.mem) > 0 {
        ConsumeKeepsOrder(start, s);
      }
  }

  lemma ConsumeKeepsOrder(start: seq<byte>, s: RingRun)
    requires IsMemory(s.mem) && InOrder(start, s) && Used(CONTROL_RING, s.mem) > 0
    ensures InOrder(start, Step(s, Consume))
  {
    var g := CONTROL_RING;
    ConsumeTakesOldest(s.mem);
    var s' := Step(s, Consume);
    var b := s.mem[g.base + Rd(g, s.mem)];
    assert s.read + ([b] + Unread(g, s'.mem)) == s.read + [b] + Unread(g, s'.mem);
  }

  /** In order now and after every step of a run. */
  ghost predicate AlwaysInOrder(start: seq<byte>, s: RingRun, ops: seq<Op>)
    requires IsMemory(s.mem)
    decreases |ops|
  {
    InOrder(start, s) && (ops == [] || AlwaysInOrder(start, Step(s, ops[0]), ops[1..]))
  }

  lemma {:induction false} RunKeepsOrder(start: seq<byte>, s: RingRun, ops: seq<Op>)
    requires IsMemory(s.mem) && InOrder(start, s)
    ensures AlwaysInOrder(start, s, ops) <==> RoomyRun(s, ops)
    ensures RoomyRun(s, ops) ==> InOrder(start, Run(s, ops))
    decreases |ops|
  {
    if ops != [] {
      StepKeepsOrder(start, s, ops[0]);
      if Roomy(s, ops[0]) {
        RunKeepsOrder(start, Step(s, ops[0]), ops[1..]);
      }
    }
  }

  /** The ring is a queue: from any RAM, over any run of injections and reads, the bytes read and then the
    bytes unread are at every moment those unread at the start and then the bursts taken, exactly when
    every burst that was taken had the room. */
  lemma RingIsAQueue(mem: seq<byte>, ops: seq<Op>)
    requires IsMemory(mem)
    ensures var s0 := RingRun(mem, [], []);
            && (AlwaysInOrder(Unread(CONTROL_RING, mem), s0, ops) <==> RoomyRun(s0, ops))
            && (RoomyRun(s0, ops) ==>
                  var s := Run(s0, ops);
                  s.read + Unread(CONTROL_RING, s.mem) == Unread(CONTROL_RING, mem) + s.taken)
  {
    assert [] + Unread(CONTROL_RING, mem) == Unread(CONTROL_RING, mem) + [];
    RunKeepsOrder(Unread(CONTROL_RING, mem), RingRun(mem, [], []), ops);
  }

  /** Bursts of the lengths that a caller can check beforehand always have the room. */
  lemma {:induction false} ShortBurstsAreRoomy(s: RingRun, ops: seq<Op>)
    requires IsMemory(s.mem)
    requires forall op :: op in ops && op.Inject? ==> |op.bytes| < 0x1_0000
    requires forall op :: op in ops && op.InjectLoosely? ==> |op.bytes| <= 3
    ensures RoomyRun(s, ops)
    decreases |ops|
  {
    if ops != [] {
      assert ops[0] in ops;
      ShortBurstsAreRoomy(Step(s, ops[0]), ops[1..]);
    }
  }

  /** The warm-up burst has 15 bytes: the high-water injector takes it up to 44 unread bytes, and from 33 on
    it is not appended but overruns them. */
  lemma WarmupBurst(mem: seq<byte>, bytes: seq<byte>)
    requires IsMemory(mem) && |bytes| == 15
    ensures TakesLoosely(mem) <==> |Unread(CONTROL_RING, mem)| <= 44
    ensures TakesLoosely(mem) ==>
            (Unread(CONTROL_RING, Injected(CONTROL_RING, mem, bytes)) == Unread(CONTROL_RING, mem) + bytes
             <==> |Unread(CONTROL_RING, mem)| <= 32)
  {
    if TakesLoosely(mem) {
      LooselyTakenBurstIsAppended(mem, bytes);
    }
  }

  // ---------------------------------------------------------------- the two rings in memory

  /** CONTROL's queue, in addresses: 48 cells from 0x066 on, the read index in 0x098, the write index in 0x099. */
  lemma ControlQueue(mem: seq<byte>, k: nat)
    requires |mem| == 4096
    ensures var rd, wr := mem[0x098] as int % 48, mem[0x099] as int % 48;
            && |Unread(CONTROL_RING, mem)| == (wr + 48 - rd) % 48
            && (k < |Unread(CONTROL_RING, mem)| ==> Unread(CONTROL_RING, mem)[k] == mem[0x066 + (rd + k) % 48])
  {
    QueueCell(CONTROL_RING, mem, k);
  }

  /** MAIN's: 192 cells from 0x200 on, the indices in 0x0C6 and 0x0C7. */
  lemma MainQueue(mem: seq<byte>, k: nat)
    requires |mem| == 4096
    ensures var rd, wr := mem[0x0C6] as int % 192, mem[0x0C7] as int % 192;
            && |Unread(MAIN_RING, mem)| == (wr + 192 - rd) % 192
            && (k < |Unread(MAIN_RING, mem)| ==> Unread(MAIN_RING, mem)[k] == mem[0x200 + (rd + k) % 192])
  {
    QueueCell(MAIN_RING, mem, k);
  }

  lemma QueueCell(g: Ring, mem: seq<byte>, k: nat)
    requires g.Valid() && IsMemory(mem)
    ensures var rd, wr := Rd(g, mem), Wr(g, mem);
            && |Unread(g, mem)| == (wr + g.depth - rd) % g.depth
            && (k < |Unread(g, mem)| ==>
                  g.base + (rd + k) % g.depth < |mem| && Unread(g, mem)[k] == mem[g.base + (rd + k) % g.depth])
  {
    WrapIsMod(Wr(g, mem) + g.depth - Rd(g, mem), g.depth);
    if k < g.depth {
      WrapIsMod(Rd(g, mem) + k, g.depth);
    }
  }
}
