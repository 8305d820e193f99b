/** Frames into the receive ring of a MAIN core: each whole or not at all. */
module RxFrames {
  import opened Wrappers
  import opened RxRing

  function Flatten(frames: seq<seq<byte>>): seq<byte> {
    if frames == [] then [] else frames[0] + Flatten(frames[1..])
  }

  predicate Fits(used: nat, limit: nat, frame: seq<byte>) {
    used + |frame| <= limit || frame == []
  }

  /** The frames that a queue of a given length takes: each in full, or not at all. */
  function Accepted(used: nat, limit: nat, frames: seq<seq<byte>>): seq<seq<byte>>
    decreases |frames|
  {
    if frames == [] then []
    else if Fits(used, limit, frames[0]) then
      [frames[0]] + Accepted(used + |frames[0]|, limit, frames[1..])
    else Accepted(used, limit, frames[1..])
  }

  function Clamp(fifoLimit: nat): nat {
    if fifoLimit < 1 then 1 else if fifoLimit > 191 then 191 else fifoLimit
  }

  /** The ring while frames go in: the write index is still to be stored. */
  ghost predicate Filling(g: Ring, before: seq<byte>, mem: seq<byte>, wr: nat, taken: seq<byte>)
    requires g.Valid() && IsMemory(before) && IsMemory(mem)
  {
    var used := Used(g, before) + |taken|;
    && used < g.depth && wr == Wrap(Rd(g, before) + used, g.depth)
    && Cells(g, mem, Rd(g, before), used) == Unread(g, before) + taken
    && OnlyRingWritten(g, before, mem) && mem[g.wrAddr] == before[g.wrAddr]
  }

  lemma FillingStart(g: Ring, mem: seq<byte>)
    requires g.Valid() && IsMemory(mem)
    ensures Filling(g, mem, mem, Wr(g, mem), [])
  {
  }

  lemma FillingUsed(g: Ring, before: seq<byte>, mem: seq<byte>, wr: nat, taken: seq<byte>)
    requires g.Valid() && IsMemory(before) && IsMemory(mem) && Filling(g, before, mem, wr, taken)
    ensures wr < g.depth
    ensures Wrap(wr + g.depth - Rd(g, before), g.depth) == Used(g, before) + |taken| < g.depth
  {
  }

  lemma FillingFrame(g: Ring, before: seq<byte>, mem: seq<byte>, wr: nat, taken: seq<byte>, frame: seq<byte>)
    requires g.Valid() && IsMemory(before) && IsMemory(mem) && Filling(g, before, mem, wr, taken)
    requires Used(g, before) + |taken| + |frame| < g.depth
    ensures Filling(g, before, Stored(g, mem, wr, frame), Advance(g, wr, |frame|), taken + frame)
  {
    var used := Used(g, before) + |taken|;
    FillingCells(g, mem, Rd(g, before), wr, used, Unread(g, before), taken, frame);
    AdvanceIsWrap(g, wr, |frame|);
    StoredFrame(g, mem, wr, frame);
    FillingJoin(g, before, Stored(g, mem, wr, frame), Advance(g, wr, |frame|), taken + frame, used + |frame|);
  }

  lemma FillingJoin(g: Ring, before: seq<byte>, mem: seq<byte>, wr: nat, taken: seq<byte>, used: nat)
    requires g.Valid() && IsMemory(before) && IsMemory(mem)
    requires used == Used(g, before) + |taken| < g.depth
    requires wr == Wrap(Rd(g, before) + used, g.depth)
    requires Cells(g, mem, Rd(g, before), used) == Unread(g, before) + taken
    requires OnlyRingWritten(g, before, mem) && mem[g.wrAddr] == before[g.wrAddr]
    ensures Filling(g, before, mem, wr, taken)
  {
  }

  lemma FillingCells(g: Ring, mem: seq<byte>, rd: nat, wr: nat, used: nat,
                     unread: seq<byte>, taken: seq<byte>, frame: seq<byte>)
    requires g.Valid() && IsMemory(mem) && rd < g.depth && used + |frame| < g.depth
    requires wr == Wrap(rd + used, g.depth)
    requires Cells(g, mem, rd, used) == unread + taken
    ensures Cells(g, Stored(g, mem, wr, frame), rd, used + |frame|) == unread + (taken + frame)
  {
    StoredAppends(g, mem, rd, used, frame);
    assert (unread + taken) + frame == unread + (taken + frame);
  }

  lemma FillingDone(g: Ring, before: seq<byte>, mem: seq<byte>, wr: byte, taken: seq<byte>)
    requires g.Valid() && IsMemory(before) && IsMemory(mem) && Filling(g, before, mem, wr, taken)
    ensures Unread(g, mem[g.wrAddr := wr]) == Unread(g, before) + taken
    ensures OnlyRingWritten(g, before, mem[g.wrAddr := wr])
  {
    var mem' := mem[g.wrAddr := wr];
    FillingUsed(g, before, mem, wr, taken);
    WrapIsMod(wr, g.depth);
    CellsSame(g, mem, mem', Rd(g, before), Used(g, before) + |taken|);
  }

  /** The bytes taken from frame i on. */
  ghost function Rest(used: nat, limit: nat, frames: seq<seq<byte>>, i: nat): seq<byte>
    requires i <= |frames|
  {
    Flatten(Accepted(used, limit, frames[i..]))
  }

  /** Where the count of frames stands before frame i. */
  ghost predicate Counting(start: nat, limit: nat, frames: seq<seq<byte>>, i: nat, taken: seq<byte>, overruns: nat)
    requires i <= |frames|
  {
    && taken + Rest(start + |taken|, limit, frames, i) == Flatten(Accepted(start, limit, frames))
    && |taken| + overruns + |Flatten(frames[i..])| == |Flatten(frames)|
  }

  lemma CountingStart(start: nat, limit: nat, frames: seq<seq<byte>>)
    ensures Counting(start, limit, frames, 0, [], 0)
  {
  }

  lemma CountingStep(start: nat, limit: nat, frames: seq<seq<byte>>, i: nat, taken: seq<byte>, overruns: nat)
    requires i < |frames| && Counting(start, limit, frames, i, taken, overruns)
    ensures if Room(limit, start + |taken|) < |frames[i]|
            then Counting(start, limit, frames, i + 1, taken, overruns + |frames[i]|)
            else Counting(start, limit, frames, i + 1, taken + frames[i], overruns)
  {
  }

  lemma CountingDone(start: nat, limit: nat, frames: seq<seq<byte>>, taken: seq<byte>, overruns: nat)
    requires Counting(start, limit, frames, |frames|, taken, overruns)
    ensures taken == Flatten(Accepted(start, limit, frames))
    ensures |taken| + overruns == |Flatten(frames)|
  {
  }

  lemma UsedNow(g: Ring, before: seq<byte>, mem: seq<byte>, wr: nat, taken: seq<byte>)
    requires g.Valid() && IsMemory(before) && IsMemory(mem) && Filling(g, before, mem, wr, taken)
    ensures (wr + g.depth - Rd(g, before)) % g.depth == Used(g, before) + |taken| < g.depth
  {
    FillingUsed(g, before, mem, wr, taken);
    WrapIsMod(wr + g.depth - Rd(g, before), g.depth);
  }

  /** One whole frame after the frames taken so far. */
  method StoreFrame(g: Ring, mem: array<byte>, wr: nat, frame: seq<byte>, ghost before: seq<byte>, ghost taken: seq<byte>)
    returns (wr': nat)
    requires g.Valid() && mem.Length == MEM_BYTES && IsMemory(before) && Filling(g, before, mem[..], wr, taken)
    requires Used(g, before) + |taken| + |frame| < g.depth
    modifies mem
    ensures wr' < g.depth && Filling(g, before, mem[..], wr', taken + frame)
    ensures frame == [] ==> mem[..] == old(mem[..])
  {
    FillingUsed(g, before, mem[..], wr, taken);
    FillingFrame(g, before, mem[..], wr, taken, frame);
    wr' := StoreBytes(g, mem, wr, frame);
  }

  /** A frame goes in whole when the limit leaves room for it, and not at all otherwise. */
  method OfferFrame(g: Ring, mem: array<byte>, rd: nat, wr: nat, limit: nat, frame: seq<byte>,
                    ghost before: seq<byte>, ghost taken: seq<byte>)
    returns (wr': nat, accepted: bool)
    requires g.Valid() && mem.Length == MEM_BYTES && IsMemory(before) && Filling(g, before, mem[..], wr, taken)
    requires rd == Rd(g, before) && limit < g.depth
    modifies mem
    ensures accepted <==> |frame| <= Room(limit, Used(g, before) + |taken|)
    ensures wr' < g.depth && Filling(g, before, mem[..], wr', if accepted then taken + frame else taken)
    ensures !accepted || frame == [] ==> mem[..] == old(mem[..])
  {
    UsedNow(g, before, mem[..], wr, taken);
    var used := (wr + g.depth - rd) % g.depth;
    var free := if used < limit then limit - used else 0;
    if free < |frame| {
      return wr, false;
    }
    wr' := StoreFrame(g, mem, wr, frame, before, taken);
    accepted := true;
  }

  function Room(limit: nat, used: nat): nat {
    if used < limit then limit - used else 0
  }

  method InjectMainFrames(mem: array<byte>, frames: seq<seq<byte>>, fifoLimit: nat)
    returns (delivered: nat, overruns: nat)
    requires mem.Length == MEM_BYTES
    modifies mem
    ensures var taken := Flatten(Accepted(Used(MAIN_RING, old(mem[..])), Clamp(fifoLimit), frames));
            && Unread(MAIN_RING, mem[..]) == Unread(MAIN_RING, old(mem[..])) + taken
            && delivered == |taken|
            && delivered + overruns == |Flatten(frames)|
    ensures OnlyRingWritten(MAIN_RING, old(mem[..]), mem[..])
    ensures delivered == 0 ==> mem[..] == old(mem[..])
  {
    var g := MAIN_RING;
    ghost var before := mem[..];
    var rd: int := mem[g.rdAddr] as int % 192;
    var wr: int := mem[g.wrAddr] as int % 192;
    var limit := if fifoLimit < 191 then fifoLimit else 191;
    limit := if limit > 1 then limit else 1;
    delivered, overruns := 0, 0;
    ghost var start := Used(g, before);
    ghost var taken: seq<byte> := [];
    FillingStart(g, before);
    CountingStart(start, limit, frames);
    for i := 0 to |frames|
      invariant 0 <= wr < 192 && Filling(g, before, mem[..], wr, taken) && |taken| == delivered
      invariant Counting(start, limit, frames, i, taken, overruns)
      invariant delivered == 0 ==> mem[..] == before
    {
      CountingStep(start, limit, frames, i, taken, overruns);
      var end, accepted := OfferFrame(g, mem, rd, wr, limit, frames[i], before, taken);
      wr := end;
      if accepted {
        delivered := delivered + |frames[i]|;
        taken := taken + frames[i];
      } else {
        overruns := overruns + |frames[i]|;
      }
    }
    CountingDone(start, limit, frames, taken, overruns);
    ghost var cells := mem[..];
    FillingDone(g, before, cells, wr, taken);
    if delivered > 0 {
      var index: byte := wr;
      mem[g.wrAddr] := index;
      assert mem[..] == cells[g.wrAddr := index];
    }
  }

  /** The queue never grows past the larger of the clamped limit and where it already was. */
  lemma {:induction false} OccupancyIsBounded(used: nat, limit: nat, frames: seq<seq<byte>>)
    ensures used + |Flatten(Accepted(used, limit, frames))| <= if used > limit then used else limit
    decreases |frames|
  {
    if frames != [] {
      var f := frames[0];
      if Fits(used, limit, f) {
        var rest := Accepted(used + |f|, limit, frames[1..]);
        OccupancyIsBounded(used + |f|, limit, frames[1..]);
        assert ([f] + rest)[1..] == rest;
      } else {
        OccupancyIsBounded(used, limit, frames[1..]);
      }
    }
  }

  // ---------------------------------------------------------------- the frames, one by one

  /** The length of the queue when a frame is offered. */
  function QueueAt(used: nat, limit: nat, frames: seq<seq<byte>>, i: nat): nat
    requires i <= |frames|
  {
    used + |Flatten(Accepted(used, limit, frames[..i]))|
  }

  lemma {:induction false} AcceptedAppend(used: nat, limit: nat, a: seq<seq<byte>>, b: seq<seq<byte>>)
    ensures Accepted(used, limit, a + b)
         == Accepted(used, limit, a) + Accepted(used + |Flatten(Accepted(used, limit, a))|, limit, b)
    decreases |a|
  {
    if a == [] {
      assert a + b == b;
      EmptyFront(Accepted(used, limit, b));
    } else {
      assert (a + b)[1..] == a[1..] + b;
      if Fits(used, limit, a[0]) {
        AcceptedAppend(used + |a[0]|, limit, a[1..], b);
        var later := Accepted(used + |a[0]|, limit, a[1..]);
        assert ([a[0]] + later)[1..] == later;
      } else {
        AcceptedAppend(used, limit, a[1..], b);
      }
    }
  }

  /** A frame is left out exactly when it has bytes and the queue before it, with it, passes the limit. */
  lemma LeftOutExactly(used: nat, limit: nat, frames: seq<seq<byte>>, i: nat)
    requires i < |frames|
    ensures Accepted(used, limit, frames[..i + 1])
         == Accepted(used, limit, frames[..i])
            + (if frames[i] != [] && QueueAt(used, limit, frames, i) + |frames[i]| > limit then [] else [frames[i]])
  {
    assert frames[..i + 1] == frames[..i] + [frames[i]];
    AcceptedAppend(used, limit, frames[..i], [frames[i]]);
  }

  /** The limit asked for, held between one byte and the 191 that the ring can keep. */
  lemma ClampedLimit(fifoLimit: nat)
    ensures 1 <= Clamp(fifoLimit) <= 191
    ensures 1 <= fifoLimit <= 191 ==> Clamp(fifoLimit) == fifoLimit
    ensures fifoLimit == 0 ==> Clamp(fifoLimit) == 1
    ensures fifoLimit > 191 ==> Clamp(fifoLimit) == 191
  {
  }
}
