/** Whole runs of a capture point: what its captures add up to, against an ideal reader. */
module UartRuns {
  import opened Wrappers
  import opened UartCapture

  // ---------------------------------------------------------------- views

  /** What can happen between a core's bytes and one reader of them. */
  datatype Op = Append(r: Record) | Evict | Mark | Capture

  /** The reader's view as the code keeps it, with all that it has returned. */
  datatype View = View(history: seq<Record>, total: nat, mark: nat, captured: seq<byte>)

  function Step(v: View, op: Op, core: nat): View {
    match op
    case Append(r) =>
      v.(history := v.history + [r], total := if r.core == core then SatAdd(v.total) else v.total)
    case Evict => if v.history == [] then v else v.(history := v.history[1..])
    case Mark => v.(mark := v.total)
    case Capture => v.(mark := v.total, captured := v.captured + Captured(v.history, v.total, v.mark, core))
  }

  function Run(v: View, ops: seq<Op>, core: nat): View
    decreases |ops|
  {
    if ops == [] then v else Run(Step(v, ops[0], core), ops[1..], core)
  }

  const FRESH := View([], 0, 0, [])

  /** The ideal reader: a queue of the bytes it is owed, with no history behind it. */
  datatype Ideal = Ideal(owed: seq<byte>, captured: seq<byte>)

  function IdealStep(q: Ideal, op: Op, core: nat): Ideal {
    match op
    case Append(r) => if r.core == core then q.(owed := q.owed + [r.data]) else q
    case Evict => q
    case Mark => q.(owed := [])
    case Capture => Ideal([], q.captured + q.owed)
  }

  function IdealRun(q: Ideal, ops: seq<Op>, core: nat): Ideal
    decreases |ops|
  {
    if ops == [] then q else IdealRun(IdealStep(q, ops[0], core), ops[1..], core)
  }

  /** Evicting the oldest record takes an owed byte away. */
  predicate LosesOwed(v: View, op: Op, core: nat) {
    op.Evict? && v.history != [] && v.history[0].core == core && v.total - v.mark >= |Of(v.history, core)|
  }

  predicate Lossless(v: View, ops: seq<Op>, core: nat)
    decreases |ops|
  {
    ops == [] || (!LosesOwed(v, ops[0], core) && Lossless(Step(v, ops[0], core), ops[1..], core))
  }

  /** The bytes of a core that a run appends. */
  function Appended(ops: seq<Op>, core: nat): seq<byte> {
    if ops == [] then []
    else AppendedBy(ops[0], core) + Appended(ops[1..], core)
  }

  function AppendedBy(op: Op, core: nat): seq<byte> {
    if op.Append? && op.r.core == core then [op.r.data] else []
  }

  /** The code's counts measure the ideal queue, and what is left of the history covers its tail. */
  ghost predicate Tracks(v: View, q: Ideal, core: nat) {
    v.mark <= v.total && v.total - v.mark == |q.owed| && SameEnd(Of(v.history, core), q.owed)
  }

  lemma OfTail(history: seq<Record>, core: nat)
    requires history != []
    ensures Of(history, core) ==
            (if history[0].core == core then [history[0].data] else []) + Of(history[1..], core)
  {
    OfAppend([history[0]], history[1..], core);
    assert [history[0]] + history[1..] == history;
    assert [history[0]][..0] == [];
  }

  /** A history covers the tail of what is owed, or the other way round. */
  predicate SameEnd(left: seq<byte>, owed: seq<byte>) {
    if |left| <= |owed| then owed[|owed| - |left|..] == left else left[|left| - |owed|..] == owed
  }

  lemma SameEndSnoc(left: seq<byte>, owed: seq<byte>, b: byte)
    requires SameEnd(left, owed)
    ensures SameEnd(left + [b], owed + [b])
  {
  }

  lemma SameEndEvict(first: seq<byte>, left: seq<byte>, owed: seq<byte>)
    requires |first| <= 1 && SameEnd(first + left, owed)
    ensures SameEnd(left, owed)
  {
  }

  lemma StepTracks(v: View, q: Ideal, op: Op, core: nat)
    requires Tracks(v, q, core) && v.total + |AppendedBy(op, core)| <= U64_MAX
    ensures Tracks(Step(v, op, core), IdealStep(q, op, core), core)
  {
    match op
    case Append(r) =>
      OfSnoc(v.history, r, core);
      if r.core == core {
        SameEndSnoc(Of(v.history, core), q.owed, r.data);
      } else {
        assert Of(v.history, core) + [] == Of(v.history, core);
      }
    case Evict =>
      if v.history != [] {
        OfTail(v.history, core);
        SameEndEvict(if v.history[0].core == core then [v.history[0].data] else [], Of(v.history[1..], core), q.owed);
      }
    case Mark =>
    case Capture =>
  }

  /** Each capture returns the longest suffix of the owed bytes that survives, and all of them when no
    owed byte was evicted. */
  lemma CaptureOfTracked(v: View, q: Ideal, core: nat)
    requires Tracks(v, q, core)
    ensures Captured(v.history, v.total, v.mark, core) == Tail(q.owed, |Of(v.history, core)|)
  {
  }

  ghost predicate Whole(v: View, q: Ideal, core: nat) {
    Tracks(v, q, core) && |q.owed| <= |Of(v.history, core)| && v.captured == q.captured
  }

  lemma StepStaysWhole(v: View, q: Ideal, op: Op, core: nat)
    requires Whole(v, q, core) && v.total + |AppendedBy(op, core)| <= U64_MAX && !LosesOwed(v, op, core)
    ensures Whole(Step(v, op, core), IdealStep(q, op, core), core)
  {
    StepTracks(v, q, op, core);
    CaptureOfTracked(v, q, core);
    match op
    case Append(r) => OfSnoc(v.history, r, core);
    case Evict =>
      if v.history != [] {
        OfTail(v.history, core);
      }
    case Mark =>
    case Capture =>
  }

  lemma {:induction false} RunTracks(v: View, q: Ideal, ops: seq<Op>, core: nat)
    requires Tracks(v, q, core) && v.total + |Appended(ops, core)| <= U64_MAX
    ensures Tracks(Run(v, ops, core), IdealRun(q, ops, core), core)
    decreases |ops|
  {
    if ops != [] {
      StepTracks(v, q, ops[0], core);
      RunTracks(Step(v, ops[0], core), IdealStep(q, ops[0], core), ops[1..], core);
    }
  }

  /** After any run a capture returns the longest surviving suffix of what the reader is owed. */
  lemma CaptureAfterRun(ops: seq<Op>, core: nat)
    requires |Appended(ops, core)| <= U64_MAX
    ensures var v := Run(FRESH, ops, core);
            var q := IdealRun(Ideal([], []), ops, core);
            Captured(v.history, v.total, v.mark, core) == Tail(q.owed, |Of(v.history, core)|)
  {
    RunTracks(FRESH, Ideal([], []), ops, core);
    CaptureOfTracked(Run(FRESH, ops, core), IdealRun(Ideal([], []), ops, core), core);
  }

  lemma {:induction false} RunStaysWhole(v: View, q: Ideal, ops: seq<Op>, core: nat)
    requires Whole(v, q, core) && v.total + |Appended(ops, core)| <= U64_MAX && Lossless(v, ops, core)
    ensures Whole(Run(v, ops, core), IdealRun(q, ops, core), core)
    decreases |ops|
  {
    if ops != [] {
      StepStaysWhole(v, q, ops[0], core);
      RunStaysWhole(Step(v, ops[0], core), IdealStep(q, ops[0], core), ops[1..], core);
    }
  }

  lemma {:induction false} IdealConserves(q: Ideal, ops: seq<Op>, core: nat)
    requires forall op :: op in ops ==> !op.Mark?
    ensures IdealRun(q, ops, core).captured + IdealRun(q, ops, core).owed
         == (q.captured + q.owed) + Appended(ops, core)
    decreases |ops|
  {
    if ops == [] {
      assert q.captured + q.owed + [] == q.captured + q.owed;
    } else {
      assert ops[0] in ops;
      IdealStepConserves(q, ops[0], core);
      var q' := IdealStep(q, ops[0], core);
      IdealConserves(q', ops[1..], core);
      Chain(q'.captured + q'.owed, q.captured + q.owed, AppendedBy(ops[0], core), Appended(ops[1..], core));
    }
  }

  lemma Chain(a: seq<byte>, b: seq<byte>, c: seq<byte>, d: seq<byte>)
    requires a == b + c
    ensures a + d == b + (c + d)
  {
  }

  lemma IdealStepConserves(q: Ideal, op: Op, core: nat)
    requires !op.Mark?
    ensures var q' := IdealStep(q, op, core);
            q'.captured + q'.owed == q.captured + q.owed + AppendedBy(op, core)
  {
  }

  lemma AtMark(before: seq<Op>, core: nat)
    requires |Appended(before, core)| <= U64_MAX
    ensures var v := Run(FRESH, before + [Mark], core);
            v.mark == v.total == |Appended(before, core)|
  {
    assert [Mark][1..] == [] && Appended([Mark], core) == [];
    RunAppend(FRESH, before, [Mark], core);
    TotalCounts(FRESH, before, core);
  }

  /** All but the last n bytes of a stretch. */
  predicate AllButLast(bytes: seq<byte>, stretch: seq<byte>, n: int) {
    0 <= n <= |stretch| && bytes == stretch[..|stretch| - n]
  }

  lemma SplitAfter(a: seq<byte>, b: seq<byte>, c: seq<byte>, d: seq<byte>)
    ensures a <= b && b + c == a + d ==> AllButLast(b[|a|..], d, |c|)
  {
    if a <= b && b + c == a + d {
      assert (b + c)[|a|..] == b[|a|..] + c;
      assert (a + d)[|a|..] == d;
    }
  }

  /** Exactly once: whatever was lost before a mark, the captures since the mark are the core's bytes since
    it, in order, up to those still owed, over any run that evicts none of the bytes owed since. */
  lemma CapturesAreExactlyOnce(before: seq<Op>, after: seq<Op>, core: nat)
    requires |Appended(before, core)| + |Appended(after, core)| <= U64_MAX
    requires forall op :: op in after ==> !op.Mark?
    requires Lossless(Run(FRESH, before + [Mark], core), after, core)
    ensures var atMark := Run(FRESH, before + [Mark], core);
            var v := Run(FRESH, before + [Mark] + after, core);
            && atMark.captured <= v.captured
            && AllButLast(v.captured[|atMark.captured|..], Appended(after, core), v.total - v.mark)
  {
    var v := Run(FRESH, before + [Mark], core);
    var q := Ideal([], v.captured);
    AtMark(before, core);
    RunAppend(FRESH, before + [Mark], after, core);
    RunStaysWhole(v, q, after, core);
    IdealConserves(q, after, core);
    IdealCapturedGrows(q, after, core);
    assert q.captured + q.owed == q.captured;
    SplitAfter(q.captured, IdealRun(q, after, core).captured, IdealRun(q, after, core).owed, Appended(after, core));
  }

  /** A byte evicted before the mark plays no part. */
  lemma LossBeforeMark(r: Record)
    ensures !Lossless(FRESH, [Append(r), Evict], r.core)
    ensures Lossless(Run(FRESH, [Append(r), Evict] + [Mark], r.core), [Append(r), Capture], r.core)
  {
    var ops := [Append(r), Evict, Mark];
    assert [Append(r), Evict] + [Mark] == ops;
    assert ops[1..] == [Evict, Mark] && [Evict, Mark][1..] == [Mark] && [Mark][1..] == [];
    assert [Append(r), Evict][1..] == [Evict] && [Append(r), Capture][1..] == [Capture] && [Capture][1..] == [];
    var v := Step(FRESH, Append(r), r.core);
    OfSnoc([], r, r.core);
    assert v.history == [r] == [] + [r] && v.total == 1;
    assert LosesOwed(v, Evict, r.core);
  }

  lemma {:induction false} RunAppend(v: View, a: seq<Op>, b: seq<Op>, core: nat)
    ensures Run(v, a + b, core) == Run(Run(v, a, core), b, core)
    decreases |a|
  {
    if a == [] {
      assert a + b == b;
    } else {
      assert (a + b)[1..] == a[1..] + b;
      RunAppend(Step(v, a[0], core), a[1..], b, core);
    }
  }

  lemma {:induction false} TotalCounts(v: View, ops: seq<Op>, core: nat)
    requires v.total + |Appended(ops, core)| <= U64_MAX
    ensures Run(v, ops, core).total == v.total + |Appended(ops, core)|
    decreases |ops|
  {
    if ops != [] {
      TotalCounts(Step(v, ops[0], core), ops[1..], core);
    }
  }

  lemma {:induction false} AppendedAppend(a: seq<Op>, b: seq<Op>, core: nat)
    ensures Appended(a + b, core) == Appended(a, core) + Appended(b, core)
    decreases |a|
  {
    if a == [] {
      assert a + b == b;
      assert [] + Appended(b, core) == Appended(b, core);
    } else {
      assert (a + b)[1..] == a[1..] + b;
      AppendedAppend(a[1..], b, core);
    }
  }

  lemma {:induction false} IdealCapturedGrows(q: Ideal, ops: seq<Op>, core: nat)
    ensures q.captured <= IdealRun(q, ops, core).captured
    decreases |ops|
  {
    if ops != [] {
      IdealCapturedGrows(IdealStep(q, ops[0], core), ops[1..], core);
    }
  }

  // ---------------------------------------------------------------- the recorder and its reader as a view

  /** What a recorder and one of its readers show of a core. */
  function ViewOf(history: seq<Record>, log: seq<Record>, mark: nat, captured: seq<byte>, core: nat): View {
    View(history, Saturated(|Of(log, core)|), mark, captured)
  }

  /** Recording a byte appends it, and at the cap first evicts the oldest. */
  method RecordIsAppend(recorder: Recorder, r: Record, ghost mark: nat, ghost captured: seq<byte>, ghost core: nat)
    requires recorder.Valid() && r.core < |recorder.totals|
    modifies recorder
    ensures recorder.Valid()
    ensures var before := old(ViewOf(recorder.history, recorder.log, mark, captured, core));
            var room := if |before.history| < HISTORY_CAP then before else Step(before, Evict, core);
            ViewOf(recorder.history, recorder.log, mark, captured, core) == Step(room, Append(r), core)
  {
    CountOneMore(recorder.log, r, core);
    recorder.RecordByte(r);
  }

  /** Marking a reader is the mark of the view. */
  method MarkIsMark(recorder: Recorder, point: CapturePoint, ghost captured: seq<byte>)
    requires recorder.Valid() && point.core < |recorder.totals|
    modifies point
    ensures var before := ViewOf(recorder.history, recorder.log, old(point.mark), captured, point.core);
            ViewOf(recorder.history, recorder.log, point.mark, captured, point.core) == Step(before, Mark, point.core)
  {
    point.Mark(recorder);
  }

  /** A capture is the capture of the view. */
  method CaptureIsCapture(recorder: Recorder, point: CapturePoint, ghost captured: seq<byte>)
    returns (bytes: seq<byte>)
    requires recorder.Valid() && point.core < |recorder.totals|
    modifies point
    ensures var before := ViewOf(recorder.history, recorder.log, old(point.mark), captured, point.core);
            ViewOf(recorder.history, recorder.log, point.mark, captured + bytes, point.core)
            == Step(before, Capture, point.core)
  {
    bytes := point.SinceLastCapture(recorder);
  }
}
