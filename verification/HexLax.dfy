/** The lax HEX reader of the link simulation, and its agreement with the strict loader. */
module HexLax {
  import opened Wrappers
  import opened HexRecord
  import opened HexText
  import opened HexImage
  import opened HexTheorems

  // ---------------------------------------------------------------- the reader

  function Slice(s: seq<byte>, lo: nat, hi: nat): seq<byte>
    requires lo <= hi
  {
    if |s| <= lo then [] else if |s| <= hi then s[lo..] else s[lo..hi]
  }

  function HexNumber(s: seq<byte>): nat
    requires AllHex(s)
  {
    if s == [] then 0
    else
      var last: int := HexDigit(s[|s| - 1]).value;
      HexNumber(s[..|s| - 1]) * 16 + last
  }

  /** int(s, 16) on plain digits; None stands for an exception. */
  function PyInt(s: seq<byte>): Option<nat> {
    if s != [] && AllHex(s) then Some(HexNumber(s)) else None
  }

  /** bytes.fromhex(s) on plain digits. */
  function PyFromHex(s: seq<byte>): Option<seq<byte>> {
    if |s| % 2 == 0 && AllHex(s) then Some(Decode(s)) else None
  }

  datatype PyRecord = PyRecord(ll: nat, addr16: nat, rtype: nat, data: seq<byte>)

  /** The fields of a line that starts with a colon; no checksum is looked at. */
  function PyFields(line: seq<byte>): Option<PyRecord> {
    var ll := PyInt(Slice(line, 1, 3));
    var addr16 := PyInt(Slice(line, 3, 7));
    var rtype := PyInt(Slice(line, 7, 9));
    if ll.None? || addr16.None? || rtype.None? then None
    else
      var data := PyFromHex(Slice(line, 9, 9 + 2 * ll.value));
      if data.None? then None else Some(PyRecord(ll.value, addr16.value, rtype.value, data.value))
  }

  datatype PyState = PyState(mem: Memory, upper: nat, stopped: bool)

  function PyApply(st: PyState, r: PyRecord): Option<PyState> {
    if r.rtype == 0 then
      Some(st.(mem := Overlay(st.mem, DataWrites(st.upper * 0x1_0000 + r.addr16, r.data))))
    else if r.rtype == 1 then Some(st.(stopped := true))
    else if r.rtype == 4 then
      if r.ll != 2 || |r.data| < 2 then None
      else
        var high: int := r.data[0];
        Some(st.(upper := high * 256 + r.data[1]))
    else Some(st)
  }

  function PyLine(st: PyState, line: seq<byte>): Option<PyState> {
    if line == [] || line[0] != COLON then None
    else
      var r := PyFields(line);
      if r.None? then None else PyApply(st, r.value)
  }

  function PyLoad(st: PyState, lines: seq<seq<byte>>): Option<Memory>
    decreases lines
  {
    if lines == [] || st.stopped then Some(st.mem)
    else
      var next := PyLine(st, lines[0]);
      if next.None? then None else PyLoad(next.value, lines[1..])
  }

  predicate Ascii(text: seq<byte>) {
    forall i :: 0 <= i < |text| ==> text[i] < 128
  }

  /** The bytes that the lax reader finds in a text, or None where it raises. */
  function ParseIntelHex(text: seq<byte>): Option<Memory> {
    if !Ascii(text) then None else PyLoad(PyState(map[], 0, false), PyNonBlank(text))
  }

  /** What one record does to the two variables of the reader. */
  method Apply(mem: Memory, upper: nat, record: PyRecord) returns (r: Option<PyState>)
    ensures r == PyApply(PyState(mem, upper, false), record)
  {
    if record.rtype == 0 {
      var mem' := StoreAll(mem, upper * 0x1_0000 + record.addr16, record.data);
      return Some(PyState(mem', upper, false));
    } else if record.rtype == 1 {
      return Some(PyState(mem, upper, true));
    } else if record.rtype == 4 {
      if record.ll != 2 || |record.data| < 2 {
        return None;
      }
      var high: int := record.data[0];
      return Some(PyState(mem, high * 256 + record.data[1], false));
    }
    return Some(PyState(mem, upper, false));
  }

  /** The lax reader as it runs. */
  method ParseIntelHexLoop(text: seq<byte>) returns (r: Option<Memory>)
    ensures r == ParseIntelHex(text)
  {
    if !Ascii(text) {
      return None;
    }
    var mem: Memory := map[];
    var upper: nat := 0;
    var lines := PyNonBlank(text);
    for n := 0 to |lines|
      invariant PyLoad(PyState(map[], 0, false), lines) == PyLoad(PyState(mem, upper, false), lines[n..])
    {
      var line := lines[n];
      PyLoadStep(PyState(mem, upper, false), lines, n);
      if line == [] || line[0] != COLON {
        return None;
      }
      var fields := PyFields(line);
      if fields.None? {
        return None;
      }
      var next := Apply(mem, upper, fields.value);
      if next.None? {
        return None;
      }
      mem, upper := next.value.mem, next.value.upper;
      if next.value.stopped {
        return Some(mem);
      }
    }
    return Some(mem);
  }

  lemma PyLoadStep(st: PyState, lines: seq<seq<byte>>, n: nat)
    requires n < |lines| && !st.stopped
    ensures var next := PyLine(st, lines[n]);
            PyLoad(st, lines[n..]) == (if next.None? then None else PyLoad(next.value, lines[n + 1..]))
  {
  }

  method StoreAll(mem: Memory, base: nat, data: seq<byte>) returns (r: Memory)
    ensures r == Overlay(mem, DataWrites(base, data))
  {
    r := mem;
    for i := 0 to |data|
      invariant r == Overlay(mem, DataWrites(base, data[..i]))
    {
      assert DataWrites(base, data[..i + 1]) == DataWrites(base, data[..i]) + [(base + i, data[i])];
      OverlayAppend(mem, DataWrites(base, data[..i]), [(base + i, data[i])]);
      r := r[base + i := data[i]];
    }
    assert data[..|data|] == data;
  }

  // ---------------------------------------------------------------- agreement

  lemma HexNumberOfTwo(a: byte, b: byte)
    requires HexDigit(a).Some? && HexDigit(b).Some?
    ensures AllHex([a, b])
    ensures HexNumber([a, b]) == HexDigit(a).value as int * 16 + HexDigit(b).value
  {
    assert [a, b][..1] == [a] && [a][..0] == [];
    assert HexNumber([a]) == HexDigit(a).value;
  }

  lemma HexNumberOfPair(body: seq<byte>, k: nat)
    requires |body| % 2 == 0 && AllHex(body) && 2 * k + 1 < |body|
    ensures AllHex(body[2 * k..2 * k + 2]) && HexNumber(body[2 * k..2 * k + 2]) == Pair(body, k)
  {
    HexNumberOfTwo(body[2 * k], body[2 * k + 1]);
    assert body[2 * k..2 * k + 2] == [body[2 * k], body[2 * k + 1]];
  }

  lemma HexNumberOfTwoPairs(body: seq<byte>, k: nat)
    requires |body| % 2 == 0 && AllHex(body) && 2 * k + 3 < |body|
    ensures AllHex(body[2 * k..2 * k + 4])
    ensures var high: int := Pair(body, k);
            HexNumber(body[2 * k..2 * k + 4]) == high * 256 + Pair(body, k + 1)
  {
    var s, t := body[2 * k..2 * k + 4], body[2 * k..2 * k + 3];
    HexNumberOfPair(body, k);
    assert t[..2] == body[2 * k..2 * k + 2];
    assert HexNumber(t) == HexNumber(t[..2]) * 16 + HexDigit(t[2]).value;
    assert s[..3] == t;
    assert HexNumber(s) == HexNumber(t) * 16 + HexDigit(s[3]).value;
  }

  lemma DecodeSlice(body: seq<byte>, lo: nat, hi: nat)
    requires |body| % 2 == 0 && AllHex(body) && lo <= hi && 2 * hi <= |body|
    ensures AllHex(body[2 * lo..2 * hi])
    ensures Decode(body[2 * lo..2 * hi]) == Decode(body)[lo..hi]
  {
    var sub := body[2 * lo..2 * hi];
    forall k | 0 <= k < hi - lo
      ensures Decode(sub)[k] == Decode(body)[lo..hi][k]
    {
      assert sub[2 * k] == body[2 * (lo + k)] && sub[2 * k + 1] == body[2 * (lo + k) + 1];
      assert Decode(sub)[k] == Pair(sub, k) && Decode(body)[lo + k] == Pair(body, lo + k);
    }
  }

  lemma SliceOfLine(line: seq<byte>, lo: nat, hi: nat)
    requires 1 <= lo <= hi <= |line|
    ensures Slice(line, lo, hi) == line[1..][lo - 1..hi - 1]
  {
  }

  lemma HeaderNumbers(body: seq<byte>, d: seq<byte>)
    requires |body| >= 10 && |body| % 2 == 0 && AllHex(body) && d == Decode(body)
    ensures AllHex(body[0..2]) && AllHex(body[2..6]) && AllHex(body[6..8])
    ensures HexNumber(body[0..2]) == d[0] && HexNumber(body[6..8]) == d[3]
    ensures HexNumber(body[2..6]) == d[1] as int * 256 + d[2] as int
  {
    assert d[0] == Pair(body, 0) && d[1] == Pair(body, 1) && d[2] == Pair(body, 2) && d[3] == Pair(body, 3);
    HexNumberOfPair(body, 0);
    HexNumberOfTwoPairs(body, 1);
    HexNumberOfPair(body, 3);
  }

  /** On a line that the strict parser takes, the lax reader sees the same record. */
  lemma PyFieldsOfParsedLine(line: seq<byte>)
    requires Parses(line)
    ensures var r := ParseRecord(line, 0).value;
            PyFields(line) == Some(PyRecord(|r.data|, r.address, r.kind, r.data))
  {
    AcceptedLineShape(line, 0);
    var body := line[1..];
    var d := Decode(body);
    HeaderNumbers(body, d);
    SliceOfLine(line, 1, 3);
    SliceOfLine(line, 3, 7);
    SliceOfLine(line, 7, 9);
    var ll: int := d[0];
    SliceOfLine(line, 9, 9 + 2 * ll);
    DecodeSlice(body, 4, 4 + ll);
  }

  lemma PyLineOfParsedLine(st: PyState, line: seq<byte>)
    requires Parses(line)
    ensures var r := ParseRecord(line, 0).value;
            IsData(r) || IsEla(r) || IsEof(r) ==>
              var ela := st.upper * 0x1_0000;
              && PyLine(st, line).Some?
              && var next := PyLine(st, line).value;
                 && next.mem == Overlay(st.mem, RecordWrites(r, ela))
                 && next.upper * 0x1_0000 == NextEla(r, ela)
                 && next.stopped == (st.stopped || IsEof(r))
  {
    PyFieldsOfParsedLine(line);
    AcceptedLineShape(line, 0);
  }

  lemma {:induction false} PyLoadOfRecords(st: PyState, lines: seq<seq<byte>>)
    requires !st.stopped && GoodRest(lines, st.upper * 0x1_0000)
    ensures PyLoad(st, lines) == Some(Overlay(st.mem, Writes(Records(lines), st.upper * 0x1_0000)))
    decreases lines
  {
    var line, rest := lines[0], lines[1..];
    assert lines == [line] + rest;
    var ela := st.upper * 0x1_0000;
    GoodRestCons(line, rest, ela);
    PyLineOfParsedLine(st, line);
    var r := ParseRecord(line, 0).value;
    var next := PyLine(st, line).value;
    assert PyLoad(st, lines) == PyLoad(next, rest);
    if rest == [] {
      assert RecordWrites(r, ela) + [] == RecordWrites(r, ela);
    } else {
      PyLoadOfRecords(next, rest);
      OverlayAppend(st.mem, RecordWrites(r, ela), Writes(Records(rest), NextEla(r, ela)));
    }
  }

  lemma {:induction false} LineIsKept(lines: seq<seq<byte>>, line: seq<byte>)
    requires line in lines && TrimEnd(line) != []
    ensures TrimEnd(line) in NonBlank(lines)
    decreases lines
  {
    if line != lines[0] {
      LineIsKept(lines[1..], line);
    }
  }

  lemma {:induction false} AsciiByLines(text: seq<byte>)
    requires forall line :: line in Lines(text) ==> Ascii(line)
    ensures Ascii(text)
    decreases |text|
  {
    if text != [] {
      var n := FirstNewline(text);
      assert Lines(text)[0] == text[..n];
      if n < |text| {
        assert Lines(text) == [text[..n]] + Lines(text[n + 1..]);
        assert forall line :: line in Lines(text[n + 1..]) ==> line in Lines(text);
        AsciiByLines(text[n + 1..]);
        forall i | 0 <= i < |text|
          ensures text[i] < 128
        {
          assert Ascii(text[..n]);
          assert i < n ==> text[i] == text[..n][i];
          assert i > n ==> text[i] == text[n + 1..][i - n - 1];
        }
      }
    }
  }

  lemma AcceptedLineIsPlain(line: seq<byte>)
    requires TrimEnd(line) == [] || Parses(TrimEnd(line))
    ensures PlainLine(line) && Ascii(line)
  {
    var t := TrimEnd(line);
    if t != [] {
      AcceptedLineShape(t, 0);
      forall i | 0 <= i < |t|
        ensures !PySpace(t[i]) && t[i] < 128
      {
        if i > 0 {
          assert t[1..][i - 1] == t[i];
        }
      }
    }
    assert forall i :: 0 <= i < |t| ==> line[i] == t[i];
  }

  /** Whatever the strict loader accepts, the lax reader reads to the same bytes. */
  lemma LaxReaderAgrees(text: seq<byte>)
    requires Load(text).Ok?
    ensures ParseIntelHex(text) == Some(Load(text).value)
  {
    LoadAcceptsExactly(text);
    var lines := Lines(text);
    forall line | line in lines
      ensures PlainLine(line) && Ascii(line)
    {
      if TrimEnd(line) != [] {
        LineIsKept(lines, line);
      }
      AcceptedLineIsPlain(line);
    }
    AsciiByLines(text);
    SameNonBlankLines(text);
    PyLoadOfRecords(PyState(map[], 0, false), NonBlank(lines));
  }

  // ---------------------------------------------------------------- what the lax reader refuses

  /** A text that is not ASCII is refused, and so is one whose first line that carries something, stripped, does
    not start with a colon. */
  lemma LaxRefusals(text: seq<byte>)
    ensures (exists i :: 0 <= i < |text| && text[i] > 127) ==> ParseIntelHex(text).None?
    ensures PyNonBlank(text) != [] && (PyNonBlank(text)[0] == [] || PyNonBlank(text)[0][0] != 58) ==>
              ParseIntelHex(text).None?
  {
  }

  /** The line after any lines read so far is refused alike, unless an end record came before it. */
  lemma {:induction false} LaxLineNeedsColon(st: PyState, lines: seq<seq<byte>>, bad: seq<byte>, rest: seq<seq<byte>>)
    requires bad == [] || bad[0] != 58
    requires PyLoad(st, lines).Some? && PyLoad(st, lines + [bad] + rest).Some?
    ensures PyLoad(st, lines + [bad] + rest) == PyLoad(st, lines)
    decreases |lines|
  {
    var all := lines + [bad] + rest;
    if !st.stopped {
      if lines == [] {
        assert all[0] == bad;
      } else {
        assert all[1..] == lines[1..] + [bad] + rest;
        LaxLineNeedsColon(PyLine(st, lines[0]).value, lines[1..], bad, rest);
      }
    }
  }
}
