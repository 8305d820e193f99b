/** Reading "what arrived since the last capture" from a rolling history.

  A recorder keeps at most a fixed number of records, dropping the oldest, and an absolute count per
  core that never drops.  A capture point remembers the count at its last mark or capture and returns
  that many of the newest matching records, or all that are left.
*/
module UartCapture {
  import opened Wrappers

  const HISTORY_CAP := 1_000_000
  const U64_MAX := 0xFFFF_FFFF_FFFF_FFFF

  /** A byte with the core it is counted under. */
  datatype Record = Record(core: nat, data: byte)

  function SatAdd(x: nat): nat {
    if x < U64_MAX then x + 1 else U64_MAX
  }

  function Saturated(x: nat): nat {
    if x <= U64_MAX then x else U64_MAX
  }

  /** The bytes of one core, in order. */
  function Of(log: seq<Record>, core: nat): seq<byte> {
    if log == [] then []
    else
      var last := log[|log| - 1];
      Of(log[..|log| - 1], core) + (if last.core == core then [last.data] else [])
  }

  function Tail(s: seq<byte>, n: nat): seq<byte> {
    if n >= |s| then s else s[|s| - n..]
  }

  /** What a capture returns: the count says how many bytes are new, the history how many are left. */
  function Captured(history: seq<Record>, total: nat, mark: nat, core: nat): seq<byte> {
    Tail(Of(history, core), if total > mark then total - mark else 0)
  }

  lemma {:induction false} OfAppend(a: seq<Record>, b: seq<Record>, core: nat)
    ensures Of(a + b, core) == Of(a, core) + Of(b, core)
    decreases |b|
  {
    if b == [] {
      assert a + b == a;
      assert Of(a, core) + [] == Of(a, core);
    } else {
      assert (a + b)[..|a + b| - 1] == a + b[..|b| - 1];
      OfAppend(a, b[..|b| - 1], core);
      assert (a + b)[|a + b| - 1] == b[|b| - 1];
    }
  }

  lemma OfSnoc(log: seq<Record>, r: Record, core: nat)
    ensures Of(log + [r], core) == Of(log, core) + (if r.core == core then [r.data] else [])
  {
    assert (log + [r])[..|log|] == log;
  }

  lemma CountOneMore(log: seq<Record>, r: Record, core: nat)
    ensures Saturated(|Of(log + [r], core)|)
         == if r.core == core then SatAdd(Saturated(|Of(log, core)|)) else Saturated(|Of(log, core)|)
  {
    OfSnoc(log, r, core);
  }

  /** What a recorder keeps of its log. */
  ghost predicate Keeps(log: seq<Record>, history: seq<Record>, dropped: nat) {
    && |history| <= |log| && history == log[|log| - |history|..]
    && |history| <= HISTORY_CAP
    && dropped == Saturated(|log| - |history|)
  }

  ghost predicate Counts(log: seq<Record>, totals: seq<nat>) {
    forall c :: 0 <= c < |totals| ==> totals[c] == Saturated(|Of(log, c)|)
  }

  lemma KeepOneMore(log: seq<Record>, history: seq<Record>, dropped: nat, r: Record)
    requires Keeps(log, history, dropped)
    ensures if |history| < HISTORY_CAP then Keeps(log + [r], history + [r], dropped)
            else Keeps(log + [r], history[1..] + [r], SatAdd(dropped))
  {
  }

  lemma CountEachOneMore(log: seq<Record>, totals: seq<nat>, r: Record)
    requires Counts(log, totals) && r.core < |totals|
    ensures Counts(log + [r], totals[r.core := SatAdd(totals[r.core])])
  {
    forall c | 0 <= c < |totals|
      ensures totals[r.core := SatAdd(totals[r.core])][c] == Saturated(|Of(log + [r], c)|)
    {
      CountOneMore(log, r, c);
    }
  }

  // ---------------------------------------------------------------- the recorder and its readers

  class Recorder {
    var history: seq<Record>
    var dropped: nat
    var totals: seq<nat>
    /** Everything recorded since construction or the last reset. */
    ghost var log: seq<Record>

    ghost predicate Valid()
      reads this
    {
      Keeps(log, history, dropped) && Counts(log, totals)
    }

    constructor (cores: nat)
      ensures Valid() && log == [] && |totals| == cores
    {
      history, dropped, log := [], 0, [];
      totals := seq(cores, _ => 0);
    }

    method RecordByte(r: Record)
      requires Valid() && r.core < |totals|
      modifies this
      ensures Valid() && log == old(log) + [r] && |totals| == old(|totals|)
      ensures history == (if |old(history)| < 1_000_000 then old(history) else old(history)[1..]) + [r]
    {
      KeepOneMore(log, history, dropped, r);
      CountEachOneMore(log, totals, r);
      if |history| >= HISTORY_CAP {
        history := history[1..];
        dropped := SatAdd(dropped);
      }
      totals := totals[r.core := SatAdd(totals[r.core])];
      history := history + [r];
      log := log + [r];
    }

    method Reset()
      requires Valid()
      modifies this
      ensures Valid() && log == [] && history == [] && dropped == 0 && |totals| == old(|totals|)
    {
      history, dropped, log := [], 0, [];
      totals := seq(|totals|, _ => 0);
    }
  }

  class CapturePoint {
    const core: nat
    var mark: nat

    constructor (core: nat)
      ensures this.core == core && mark == 0
    {
      this.core := core;
      mark := 0;
    }

    method Mark(r: Recorder)
      requires r.Valid() && core < |r.totals|
      modifies this
      ensures mark == Saturated(|Of(r.log, core)|)
    {
      mark := r.totals[core];
    }

    method SinceLastCapture(r: Recorder) returns (bytes: seq<byte>)
      requires r.Valid() && core < |r.totals|
      modifies this
      ensures bytes == Captured(r.history, Saturated(|Of(r.log, core)|), old(mark), core)
      ensures mark == Saturated(|Of(r.log, core)|)
    {
      var records := Matching(r.history, core);
      var totalNow := r.totals[core];
      var want := if totalNow > mark then totalNow - mark else 0;
      var take := if want < |records| then want else |records|;
      bytes := records[|records| - take..];
      mark := totalNow;
    }
  }

  /** The bytes of one core, collected. */
  method Matching(history: seq<Record>, core: nat) returns (records: seq<byte>)
    ensures records == Of(history, core)
  {
    records := [];
    for i := 0 to |history|
      invariant records == Of(history[..i], core)
    {
      OfNext(history, i, core);
      if history[i].core == core {
        records := records + [history[i].data];
      }
    }
    assert history[..|history|] == history;
  }

  lemma OfNext(history: seq<Record>, i: nat, core: nat)
    requires i < |history|
    ensures Of(history[..i + 1], core)
         == if history[i].core == core then Of(history[..i], core) + [history[i].data] else Of(history[..i], core)
  {
    assert history[..i + 1][..i] == history[..i];
  }

  // ---------------------------------------------------------------- one capture

  /** A capture returns what survives of the bytes recorded since the mark: here the log is cut at the
    mark and at the oldest record still held. */
  lemma CaptureIsSurvivingDelta(log: seq<Record>, start: nat, marked: nat, core: nat)
    requires start <= |log| && marked <= |log|
    ensures var from := if start < marked then marked else start;
            Captured(log[start..], |Of(log, core)|, |Of(log[..marked], core)|, core) == Of(log[from..], core)
  {
    OfCut(log, 0, marked, core);
    assert log[0..] == log;
    if start < marked {
      OfCut(log, start, marked, core);
      TailOfSum(Of(log[start..marked], core), Of(log[marked..], core));
    } else {
      OfCut(log, marked, start, core);
    }
  }

  lemma OfCut(log: seq<Record>, i: nat, j: nat, core: nat)
    requires i <= j <= |log|
    ensures Of(log[i..], core) == Of(log[i..j], core) + Of(log[j..], core)
  {
    OfAppend(log[i..j], log[j..], core);
    assert log[i..j] + log[j..] == log[i..];
  }

  lemma TailOfSum(a: seq<byte>, b: seq<byte>)
    ensures Tail(a + b, |b|) == b
  {
  }

  /** The count is a 64-bit word that sticks at its maximum: the difference of two counts is the number
    of new bytes exactly when the count has not passed it or nothing is new. */
  lemma SaturationIsExact(now: nat, marked: nat)
    requires marked <= now
    ensures Saturated(now) - Saturated(marked) == now - marked <==> now <= U64_MAX || now == marked
  {
  }

  // ---------------------------------------------------------------- resets

  /** A reset clears the history and the counts but not the capture points.  A capture after it returns
    the bytes recorded since the reset exactly when the stale mark is zero or there are none. */
  lemma CaptureAfterReset(log: seq<Record>, staleMark: nat, core: nat)
    ensures Captured(log, |Of(log, core)|, staleMark, core) == Of(log, core) <==> staleMark == 0 || Of(log, core) == []
  {
  }
}
