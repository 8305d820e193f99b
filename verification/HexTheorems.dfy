/** What the strict loader accepts, what it leaves in memory, and that printing undoes it. */
module HexTheorems {
  import opened Wrappers
  import opened HexRecord
  import opened HexText
  import opened HexImage

  // ---------------------------------------------------------------- records and the bytes they put

  type Write = (nat, byte)

  /** The fields of a line that some record occupies. */
  predicate Parses(line: seq<byte>) {
    ParseRecord(line, 0).Ok?
  }

  predicate AllParse(lines: seq<seq<byte>>) {
    forall i :: 0 <= i < |lines| ==> Parses(lines[i])
  }

  function Records(lines: seq<seq<byte>>): (recs: seq<ParsedRecord>)
    requires AllParse(lines)
    ensures |recs| == |lines|
    ensures forall i :: 0 <= i < |recs| ==> recs[i] == ParseRecord(lines[i], 0).value
  {
    if lines == [] then [] else [ParseRecord(lines[0], 0).value] + Records(lines[1..])
  }

  predicate IsData(r: ParsedRecord) { r.kind == 0 }

  predicate IsEla(r: ParsedRecord) { r.kind == 4 && r.address == 0 && |r.data| == 2 }

  predicate IsEof(r: ParsedRecord) { r.kind == 1 && r.address == 0 && r.data == [] }

  /** The last record is the end of file; every one before it is data or an extended address. */
  predicate WellFormed(recs: seq<ParsedRecord>) {
    && recs != []
    && IsEof(recs[|recs| - 1])
    && forall i :: 0 <= i < |recs| - 1 ==> IsData(recs[i]) || IsEla(recs[i])
  }

  function DataWrites(base: nat, data: seq<byte>): (ws: seq<Write>)
    ensures |ws| == |data|
    ensures forall i :: 0 <= i < |ws| ==> ws[i] == (base + i, data[i])
  {
    seq<Write>(|data|, i requires 0 <= i < |data| => (base + i, data[i]))
  }

  function NextEla(r: ParsedRecord, ela: nat): nat {
    if IsEla(r) then UpperHalf(r.data) else ela
  }

  function RecordWrites(r: ParsedRecord, ela: nat): seq<Write> {
    if IsData(r) then DataWrites(ela + r.address, r.data) else []
  }

  /** Every (address, byte) pair that the records put, in order. */
  function Writes(recs: seq<ParsedRecord>, ela: nat): seq<Write> {
    if recs == [] then []
    else RecordWrites(recs[0], ela) + Writes(recs[1..], NextEla(recs[0], ela))
  }

  predicate AllLoadable(ws: seq<Write>) {
    forall k :: 0 <= k < |ws| ==> Loadable(ws[k].0)
  }

  /** The memory after the writes, the later over the earlier. */
  function Overlay(mem: Memory, ws: seq<Write>): Memory
    decreases ws
  {
    if ws == [] then mem else Overlay(mem[ws[0].0 := ws[0].1], ws[1..])
  }

  /** The texts that the format allows: every non-blank line is a record, the end-of-file record is
    the last of them and the only one, and every data byte lies in a window. */
  predicate Accepted(text: seq<byte>) {
    var lines := NonBlank(Lines(text));
    && AllParse(lines)
    && WellFormed(Records(lines))
    && AllLoadable(Writes(Records(lines), 0))
  }

  // ---------------------------------------------------------------- last write wins

  predicate LastAt(ws: seq<Write>, addr: nat, k: int) {
    0 <= k < |ws| && ws[k].0 == addr && forall j :: k < j < |ws| ==> ws[j].0 != addr
  }

  predicate Touches(ws: seq<Write>, addr: nat) {
    exists k :: 0 <= k < |ws| && ws[k].0 == addr
  }

  lemma {:induction false} OverlayAppend(mem: Memory, a: seq<Write>, b: seq<Write>)
    ensures Overlay(mem, a + b) == Overlay(Overlay(mem, a), b)
    decreases a
  {
    if a == [] {
      assert a + b == b;
    } else {
      assert (a + b)[1..] == a[1..] + b;
      OverlayAppend(mem[a[0].0 := a[0].1], a[1..], b);
    }
  }

  lemma {:induction false} OverlayLookup(mem: Memory, ws: seq<Write>, addr: nat)
    ensures addr in Overlay(mem, ws) <==> addr in mem || Touches(ws, addr)
    ensures !Touches(ws, addr) && addr in mem ==> Overlay(mem, ws)[addr] == mem[addr]
    ensures forall k :: LastAt(ws, addr, k) ==> addr in Overlay(mem, ws) && Overlay(mem, ws)[addr] == ws[k].1
    decreases |ws|
  {
    if ws != [] {
      var init, last := ws[..|ws| - 1], ws[|ws| - 1];
      assert ws == init + [last];
      OverlayAppend(mem, init, [last]);
      assert Overlay(mem, ws) == Overlay(mem, init)[last.0 := last.1];
      OverlayLookup(mem, init, addr);
      assert Touches(ws, addr) <==> Touches(init, addr) || last.0 == addr by {
        assert last.0 == addr ==> ws[|ws| - 1].0 == addr;
        assert forall k :: 0 <= k < |init| ==> init[k] == ws[k];
      }
      forall k | LastAt(ws, addr, k)
        ensures addr in Overlay(mem, ws) && Overlay(mem, ws)[addr] == ws[k].1
      {
        if k < |init| {
          assert last == ws[|ws| - 1];
          assert LastAt(init, addr, k);
        }
      }
    }
  }

  // ---------------------------------------------------------------- loading is overlaying

  lemma ParseLineNoIrrelevant(line: seq<byte>, a: nat, b: nat)
    ensures ParseRecord(line, a).Ok? <==> ParseRecord(line, b).Ok?
    ensures ParseRecord(line, a).Ok? ==> ParseRecord(line, a) == ParseRecord(line, b)
  {
  }

  lemma {:induction false} PutDataIsOverlay(mem: Memory, addr: nat, data: seq<byte>, lineNo: nat, len: nat)
    ensures PutData(mem, addr, data, lineNo, len).Ok? <==> AllLoadable(DataWrites(addr, data))
    ensures AllLoadable(DataWrites(addr, data)) ==>
            PutData(mem, addr, data, lineNo, len) == Ok(Overlay(mem, DataWrites(addr, data)))
    decreases data
  {
    var ws := DataWrites(addr, data);
    if data != [] {
      assert ws[0] == (addr, data[0]);
      var rest := DataWrites(addr + 1, data[1..]);
      assert ws[1..] == rest;
      assert AllLoadable(ws) <==> Loadable(addr) && AllLoadable(rest) by {
        assert forall k :: 0 <= k < |rest| ==> rest[k] == ws[k + 1];
        assert forall k :: 1 <= k < |ws| ==> ws[k] == rest[k - 1];
      }
      if Loadable(addr) {
        PutDataIsOverlay(mem[addr := data[0]], addr + 1, data[1..], lineNo, len);
      }
    }
  }

  /** One record, short of the end-of-file one, moves the loader on exactly when it is data for the
    windows or an extended address. */
  lemma ApplyRecordIsOverlay(st: LoadState, r: ParsedRecord, lineNo: nat)
    ensures ApplyRecord(st, r, lineNo).Ok? <==>
            (IsData(r) || IsEla(r) || IsEof(r)) && AllLoadable(RecordWrites(r, st.ela))
    ensures ApplyRecord(st, r, lineNo).Ok? ==>
              ApplyRecord(st, r, lineNo).value ==
              LoadState(Overlay(st.mem, RecordWrites(r, st.ela)), NextEla(r, st.ela), st.sawEof || IsEof(r))
  {
    if IsData(r) {
      PutDataIsOverlay(st.mem, st.ela + r.address, r.data, lineNo, |r.data|);
    }
  }

  lemma WellFormedCons(r: ParsedRecord, recs: seq<ParsedRecord>)
    ensures WellFormed([r] + recs) <==>
            if recs == [] then IsEof(r) else (IsData(r) || IsEla(r)) && WellFormed(recs)
  {
    var all := [r] + recs;
    assert forall i :: 0 <= i < |recs| ==> all[i + 1] == recs[i];
    if recs != [] && WellFormed(all) {
      assert IsData(all[0]) || IsEla(all[0]);
      forall i | 0 <= i < |recs| - 1
        ensures IsData(recs[i]) || IsEla(recs[i])
      {
        assert all[i + 1] == recs[i];
      }
    }
  }

  lemma AllLoadableAppend(a: seq<Write>, b: seq<Write>)
    ensures AllLoadable(a + b) <==> AllLoadable(a) && AllLoadable(b)
  {
    assert forall k :: 0 <= k < |a| ==> (a + b)[k] == a[k];
    assert forall k :: 0 <= k < |b| ==> (a + b)[|a| + k] == b[k];
  }

  predicate GoodRest(lines: seq<seq<byte>>, ela: nat) {
    AllParse(lines) && WellFormed(Records(lines)) && AllLoadable(Writes(Records(lines), ela))
  }

  lemma GoodRestCons(line: seq<byte>, lines: seq<seq<byte>>, ela: nat)
    ensures GoodRest([line] + lines, ela) <==>
            && Parses(line)
            && var r := ParseRecord(line, 0).value;
               && AllLoadable(RecordWrites(r, ela))
               && (if lines == [] then IsEof(r) else (IsData(r) || IsEla(r)) && GoodRest(lines, NextEla(r, ela)))
    ensures GoodRest([line] + lines, ela) ==>
            Writes(Records([line] + lines), ela) ==
            RecordWrites(ParseRecord(line, 0).value, ela)
            + (if lines == [] then [] else Writes(Records(lines), NextEla(ParseRecord(line, 0).value, ela)))
  {
    var all := [line] + lines;
    assert all[1..] == lines;
    assert AllParse(all) <==> Parses(line) && AllParse(lines) by {
      assert forall i :: 0 <= i < |lines| ==> all[i + 1] == lines[i];
      assert all[0] == line;
    }
    if AllParse(all) {
      var r := ParseRecord(line, 0).value;
      var recs := Records(lines);
      assert Records(all) == [r] + recs;
      WellFormedCons(r, recs);
      assert ([r] + recs)[1..] == recs;
      AllLoadableAppend(RecordWrites(r, ela), Writes(recs, NextEla(r, ela)));
    }
  }

  lemma {:induction false} LoadAfterEof(st: LoadState, lines: seq<seq<byte>>, lineNo: nat)
    requires st.sawEof
    ensures LoadLines(st, lines, lineNo).Ok? <==> NonBlank(lines) == []
    ensures LoadLines(st, lines, lineNo).Ok? ==> LoadLines(st, lines, lineNo).value == st.mem
    decreases lines
  {
    if lines != [] {
      LoadAfterEof(st, lines[1..], lineNo + 1);
    }
  }

  lemma FirstLineLoads(st: LoadState, lines: seq<seq<byte>>, lineNo: nat)
    requires !st.sawEof && lines != [] && TrimEnd(lines[0]) != []
    ensures var line := TrimEnd(lines[0]);
            if Parses(line) then
              var next := ApplyRecord(st, ParseRecord(line, 0).value, lineNo);
              LoadLines(st, lines, lineNo)
              == if next.Err? then Err(next.error) else LoadLines(next.value, lines[1..], lineNo + 1)
            else LoadLines(st, lines, lineNo).Err?
  {
    ParseLineNoIrrelevant(TrimEnd(lines[0]), lineNo, 0);
  }

  lemma {:induction false} LoadIsOverlay(st: LoadState, lines: seq<seq<byte>>, lineNo: nat)
    requires !st.sawEof
    ensures LoadLines(st, lines, lineNo).Ok? <==> GoodRest(NonBlank(lines), st.ela)
    ensures GoodRest(NonBlank(lines), st.ela) ==>
            LoadLines(st, lines, lineNo).value == Overlay(st.mem, Writes(Records(NonBlank(lines)), st.ela))
    decreases lines, 0
  {
    if lines != [] {
      var line := TrimEnd(lines[0]);
      var rest := lines[1..];
      if line == [] {
        assert NonBlank(lines) == NonBlank(rest);
        LoadIsOverlay(st, rest, lineNo + 1);
      } else {
        assert NonBlank(lines) == [line] + NonBlank(rest);
        GoodRestCons(line, NonBlank(rest), st.ela);
        FirstLineLoads(st, lines, lineNo);
        if Parses(line) {
          LoadParsedLine(st, ParseRecord(line, 0).value, rest, lineNo);
        }
      }
    }
  }

  lemma {:induction false} LoadParsedLine(st: LoadState, r: ParsedRecord, rest: seq<seq<byte>>, lineNo: nat)
    requires !st.sawEof
    ensures var next := ApplyRecord(st, r, lineNo);
            var good := AllLoadable(RecordWrites(r, st.ela))
              && (if NonBlank(rest) == [] then IsEof(r)
                  else (IsData(r) || IsEla(r)) && GoodRest(NonBlank(rest), NextEla(r, st.ela)));
            var later := if good && NonBlank(rest) != [] then Writes(Records(NonBlank(rest)), NextEla(r, st.ela)) else [];
            && (good <==> next.Ok? && LoadLines(next.value, rest, lineNo + 1).Ok?)
            && (good ==> LoadLines(next.value, rest, lineNo + 1).value == Overlay(st.mem, RecordWrites(r, st.ela) + later))
    decreases rest, 1
  {
    ApplyRecordIsOverlay(st, r, lineNo);
    var next := ApplyRecord(st, r, lineNo);
    if next.Ok? {
      if IsEof(r) {
        LoadAfterEof(next.value, rest, lineNo + 1);
        assert RecordWrites(r, st.ela) + [] == RecordWrites(r, st.ela);
      } else {
        LoadIsOverlay(next.value, rest, lineNo + 1);
        if GoodRest(NonBlank(rest), NextEla(r, st.ela)) {
          OverlayAppend(st.mem, RecordWrites(r, st.ela), Writes(Records(NonBlank(rest)), NextEla(r, st.ela)));
        }
      }
    }
  }

  /** The strict loader accepts exactly the well-formed texts. */
  lemma LoadAcceptsExactly(text: seq<byte>)
    ensures Load(text).Ok? <==> Accepted(text)
    ensures Accepted(text) ==> Load(text).value == Overlay(map[], Writes(Records(NonBlank(Lines(text))), 0))
  {
    LoadIsOverlay(START, Lines(text), 1);
  }

  /** The image of an accepted text: a byte is present exactly when some record put one there, it is
    the last one put there, and every byte that no record put is erased. */
  lemma LastWriteWins(text: seq<byte>, addr: nat)
    requires Load(text).Ok?
    ensures Accepted(text)
    ensures var ws := Writes(Records(NonBlank(Lines(text))), 0);
            var image := ImageOf(Load(text).value);
            && (image.ByteAt(addr).Some? <==> addr < FLASH_BYTES && Touches(ws, addr))
            && (forall k :: LastAt(ws, addr, k) && addr < FLASH_BYTES ==> image.ByteAt(addr) == Some(ws[k].1))
            && (forall k :: LastAt(ws, addr, k) ==> Fill(Load(text).value, addr) == ws[k].1)
            && (!Touches(ws, addr) ==> Fill(Load(text).value, addr) == ERASED)
            && (addr in Load(text).value ==> Loadable(addr))
  {
    LoadAcceptsExactly(text);
    LastWriteOf(Writes(Records(NonBlank(Lines(text))), 0), addr);
  }

  lemma LastWriteOf(ws: seq<Write>, addr: nat)
    ensures var mem := Overlay(map[], ws);
            var image := ImageOf(mem);
            && (image.ByteAt(addr).Some? <==> addr < FLASH_BYTES && Touches(ws, addr))
            && (forall k :: LastAt(ws, addr, k) && addr < FLASH_BYTES ==> image.ByteAt(addr) == Some(ws[k].1))
            && (forall k :: LastAt(ws, addr, k) ==> Fill(mem, addr) == ws[k].1)
            && (!Touches(ws, addr) ==> Fill(mem, addr) == ERASED)
            && (AllLoadable(ws) && addr in mem ==> Loadable(addr))
  {
    OverlayLookup(map[], ws, addr);
    ImageByte(Overlay(map[], ws), addr);
    if AllLoadable(ws) && Touches(ws, addr) {
      var k :| 0 <= k < |ws| && ws[k].0 == addr;
      assert Loadable(ws[k].0);
    }
  }

  lemma ImageByte(mem: Memory, addr: nat)
    ensures ImageOf(mem).ByteAt(addr) == if addr < FLASH_BYTES && addr in mem then Some(mem[addr]) else None
  {
  }
}
