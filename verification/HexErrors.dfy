/** What the strict loader refuses, and with which error, in the numbers of the format. */
module HexErrors {
  import opened Wrappers
  import opened HexText
  import opened HexRecord
  import opened HexImage

  // ---------------------------------------------------------------- addresses

  /** The four windows and the two bytes of the device ID. */
  lemma WindowsInNumbers(addr: nat)
    ensures Loadable(addr) <==>
            addr < 0x8000 || 0x20_0000 <= addr < 0x20_0008 || 0x30_0000 <= addr < 0x30_000E || 0xF0_0000 <= addr < 0xF0_0100
    ensures WindowOf(addr) == DeviceId <==> addr == 0x3F_FFFE || addr == 0x3F_FFFF
  {
  }

  /** A data record is refused for its first byte outside the windows, and says which one. */
  lemma {:induction false} FirstBadByte(mem: Memory, addr: nat, data: seq<byte>, lineNo: nat, len: nat, k: nat)
    requires k < |data| && !Loadable(addr + k) && addr + k <= 0xFFFF_FFFF
    requires forall a: nat :: addr <= a < addr + k ==> Loadable(a)
    ensures PutData(mem, addr, data, lineNo, len)
         == Err(if addr + k == 0x3F_FFFE || addr + k == 0x3F_FFFF then DeviceIdRecord(lineNo, addr + k)
                else AddressOutOfRange(lineNo, addr + k, len))
    decreases k
  {
    if k > 0 {
      assert Loadable(addr);
      FirstBadByte(mem[addr := data[0]], addr + 1, data[1..], lineNo, len, k - 1);
    }
  }

  /** A record that is no data is refused in these cases, and in no others; the extended address is the
    upper half of what follows. */
  lemma ControlRecords(st: LoadState, r: ParsedRecord, lineNo: nat)
    requires r.kind != 0
    ensures ApplyRecord(st, r, lineNo) ==
            if r.kind != 1 && r.kind != 4 then Err(UnknownRecordType(lineNo, r.kind))
            else if r.kind == 1 && |r.data| > 0 then Err(EofWithPayload(lineNo))
            else if r.kind == 4 && |r.data| != 2 then Err(BadElaLength(lineNo, |r.data|))
            else if r.address > 0 then Err(BadControlRecordAddress(lineNo, r.kind, r.address))
            else if r.kind == 1 then Ok(LoadState(st.mem, st.ela, true))
            else Ok(LoadState(st.mem, (r.data[0] as int * 256 + r.data[1] as int) * 0x1_0000, st.sawEof))
  {
  }

  // ---------------------------------------------------------------- the first error

  /** The loader after the first k lines, or the first error in them. */
  function After(lines: seq<seq<byte>>, k: nat): Result<LoadState, HexLoadError>
    requires k <= |lines|
  {
    if k == 0 then Ok(LoadState(map[], 0, false))
    else
      var before := After(lines, k - 1);
      if before.Err? then before else LoadLine(before.value, lines[k - 1], k)
  }

  lemma {:induction false} LoadFrom(lines: seq<seq<byte>>, k: nat)
    requires k <= |lines| && After(lines, k).Ok?
    ensures LoadLines(START, lines, 1) == LoadLines(After(lines, k).value, lines[k..], k + 1)
  {
    if k == 0 {
      assert lines[0..] == lines;
    } else {
      LoadFrom(lines, k - 1);
      assert lines[k - 1..][1..] == lines[k..];
    }
  }

  /** The error of a text is the one of its first bad line, counted from one; a text whose lines are all good
    loads exactly when one of them was the end record. */
  lemma FirstErrorIsReported(text: seq<byte>, k: nat)
    requires k <= |Lines(text)| && After(Lines(text), k).Ok?
    ensures var st := After(Lines(text), k).value;
            if k == |Lines(text)| then Load(text) == if st.sawEof then Ok(st.mem) else Err(MissingEof)
            else LoadLine(st, Lines(text)[k], k + 1).Err? ==> Load(text) == Err(LoadLine(st, Lines(text)[k], k + 1).error)
  {
    LoadFrom(Lines(text), k);
  }

  /** A line behind the end record is an error of its own, unless it is blank. */
  lemma LinesAfterEnd(st: LoadState, line: seq<byte>, lineNo: nat)
    requires st.sawEof
    ensures LoadLine(st, line, lineNo) == if TrimEnd(line) == [] then Ok(st) else Err(RecordsAfterEof(lineNo))
  {
  }
}
