/** Printing a whole image and loading it back. */
module HexPrint {
  import opened Wrappers
  import opened HexRecord
  import opened HexText
  import opened HexImage
  import opened HexTheorems

  // ---------------------------------------------------------------- texts of records

  /** One record a line. */
  function BuildHex(recs: seq<ParsedRecord>): seq<byte>
    requires forall r :: r in recs ==> WellSized(r)
  {
    if recs == [] then []
    else
      assert WellSized(recs[0]);
      Print(recs[0]) + [NEWLINE] + BuildHex(recs[1..])
  }

  lemma PrintIsOneLine(r: ParsedRecord)
    requires WellSized(r)
    ensures Print(r) != [] && FirstNewline(Print(r) + [NEWLINE]) == |Print(r)|
    ensures TrimEnd(Print(r)) == Print(r)
    ensures ParseRecord(Print(r), 0) == Ok(r)
  {
    var line := Print(r);
    ParseInvertsRec(r.kind, r.address, r.data, 0);
    AcceptedLineShape(line, 0);
    forall i | 0 <= i < |line|
      ensures !Trailing(line[i])
    {
      if i > 0 {
        assert line[1..][i - 1] == line[i];
      }
    }
    FirstNewlineIs(line + [NEWLINE], |line|);
  }

  lemma FirstNewlineIs(text: seq<byte>, n: nat)
    requires n < |text| && text[n] == NEWLINE
    requires forall i :: 0 <= i < n ==> text[i] != NEWLINE
    ensures FirstNewline(text) == n
  {
  }

  lemma LinesCons(line: seq<byte>, rest: seq<byte>)
    requires FirstNewline(line + [NEWLINE]) == |line|
    ensures Lines(line + [NEWLINE] + rest) == [line] + Lines(rest)
  {
    var text := line + [NEWLINE] + rest;
    assert forall i :: 0 <= i < |line| ==> text[i] == (line + [NEWLINE])[i];
    FirstNewlineIs(text, |line|);
    assert text[..|line|] == line && text[|line| + 1..] == rest;
  }

  lemma {:induction false} LinesOfBuildHex(recs: seq<ParsedRecord>)
    requires forall r :: r in recs ==> WellSized(r)
    ensures var lines := NonBlank(Lines(BuildHex(recs))); AllParse(lines) && Records(lines) == recs
  {
    if recs != [] {
      assert WellSized(recs[0]);
      var line, rest := Print(recs[0]), BuildHex(recs[1..]);
      PrintIsOneLine(recs[0]);
      LinesCons(line, rest);
      LinesOfBuildHex(recs[1..]);
      NonBlankOfPrinted(line, Lines(rest));
      RecordsCons(line, NonBlank(Lines(rest)), recs[0], recs[1..]);
      assert [recs[0]] + recs[1..] == recs;
    }
  }

  lemma NonBlankOfPrinted(line: seq<byte>, lines: seq<seq<byte>>)
    requires line != [] && TrimEnd(line) == line
    ensures NonBlank([line] + lines) == [line] + NonBlank(lines)
  {
  }

  lemma RecordsCons(line: seq<byte>, lines: seq<seq<byte>>, r: ParsedRecord, recs: seq<ParsedRecord>)
    requires ParseRecord(line, 0) == Ok(r) && AllParse(lines) && Records(lines) == recs
    ensures AllParse([line] + lines) && Records([line] + lines) == [r] + recs
  {
  }

  /** A printed list of records loads exactly when the list is well formed and stays in the windows,
    and then to the bytes that it puts. */
  lemma LoadOfPrintedRecords(recs: seq<ParsedRecord>)
    requires forall r :: r in recs ==> WellSized(r)
    ensures Load(BuildHex(recs)).Ok? <==> WellFormed(recs) && AllLoadable(Writes(recs, 0))
    ensures Load(BuildHex(recs)).Ok? ==> Load(BuildHex(recs)).value == Overlay(map[], Writes(recs, 0))
  {
    LinesOfBuildHex(recs);
    LoadAcceptsExactly(BuildHex(recs));
  }

  // ---------------------------------------------------------------- the records of an image

  const EOF_RECORD := ParsedRecord(1, 0, [])

  function ElaRecord(upper: byte): ParsedRecord {
    ParsedRecord(4, 0, [0, upper])
  }

  /** One data record for every present flash byte below n. */
  function FlashRecords(v: ImageValue, n: nat): (recs: seq<ParsedRecord>)
    requires v.Sized() && n <= FLASH_BYTES
    ensures forall r :: r in recs ==> IsData(r) && WellSized(r)
  {
    if n == 0 then []
    else
      var rest := FlashRecords(v, n - 1);
      if v.flashPresent[n - 1] then rest + [ParsedRecord(0, n - 1, [v.flash[n - 1]])] else rest
  }

  /** The present flash bytes and the other three windows in full; the EEPROM takes two records. */
  function ImageRecords(v: ImageValue): (recs: seq<ParsedRecord>)
    requires v.Sized()
    ensures forall r :: r in recs ==> WellSized(r)
  {
    FlashRecords(v, FLASH_BYTES) + WindowRecords(v)
  }

  function WindowRecords(v: ImageValue): (recs: seq<ParsedRecord>)
    requires v.Sized()
    ensures forall r :: r in recs ==> WellSized(r)
  {
    [ ElaRecord(0x20), ParsedRecord(0, 0, v.userId),
      ElaRecord(0x30), ParsedRecord(0, 0, v.config),
      ElaRecord(0xF0), ParsedRecord(0, 0, v.eeprom[..128]), ParsedRecord(0, 128, v.eeprom[128..]),
      EOF_RECORD ]
  }

  function PrintImage(v: ImageValue): seq<byte>
    requires v.Sized()
  {
    BuildHex(ImageRecords(v))
  }

  // ---------------------------------------------------------------- the bytes that those records put

  function FlashWrites(v: ImageValue, n: nat): seq<Write>
    requires v.Sized() && n <= FLASH_BYTES
  {
    if n == 0 then []
    else
      var rest := FlashWrites(v, n - 1);
      if v.flashPresent[n - 1] then rest + [(n - 1, v.flash[n - 1])] else rest
  }

  lemma {:induction false} WritesAppend(a: seq<ParsedRecord>, b: seq<ParsedRecord>, ela: nat)
    requires forall r :: r in a ==> IsData(r)
    ensures Writes(a + b, ela) == Writes(a, ela) + Writes(b, ela)
  {
    if a == [] {
      assert a + b == b;
      assert Writes(a, ela) + Writes(b, ela) == Writes(b, ela);
    } else {
      assert (a + b)[1..] == a[1..] + b;
      assert a[0] in a;
      WritesAppend(a[1..], b, ela);
    }
  }

  lemma WritesOfOne(r: ParsedRecord, ela: nat)
    ensures Writes([r], ela) == RecordWrites(r, ela)
  {
  }

  lemma {:induction false} WritesOfFlashRecords(v: ImageValue, n: nat)
    requires v.Sized() && n <= FLASH_BYTES
    ensures Writes(FlashRecords(v, n), 0) == FlashWrites(v, n)
  {
    if n > 0 {
      WritesOfFlashRecords(v, n - 1);
      if v.flashPresent[n - 1] {
        WritesOfByteRecord(FlashRecords(v, n - 1), n - 1, v.flash[n - 1]);
      }
    }
  }

  lemma WritesOfByteRecord(recs: seq<ParsedRecord>, addr: nat, b: byte)
    requires addr < 0x1_0000 && forall r :: r in recs ==> IsData(r)
    ensures Writes(recs + [ParsedRecord(0, addr, [b])], 0) == Writes(recs, 0) + [(addr, b)]
  {
    var r := ParsedRecord(0, addr, [b]);
    WritesAppend(recs, [r], 0);
    WritesOfOne(r, 0);
    assert DataWrites(addr, [b]) == [(addr, b)];
  }

  function WindowWrites(v: ImageValue): seq<Write>
    requires v.Sized()
  {
    DataWrites(USER_ID_BASE, v.userId) + (DataWrites(CONFIG_BASE, v.config) + DataWrites(EEPROM_BASE, v.eeprom))
  }

  lemma WritesElaData(upper: byte, data: seq<byte>, rest: seq<ParsedRecord>, ela: nat)
    ensures var high: int := upper;
            Writes([ElaRecord(upper), ParsedRecord(0, 0, data)] + rest, ela)
            == DataWrites(high * 0x1_0000, data) + Writes(rest, high * 0x1_0000)
  {
  }

  lemma WritesOfWindowRecords(v: ImageValue)
    requires v.Sized()
    ensures Writes(WindowRecords(v), 0) == WindowWrites(v)
  {
    var low, high := ParsedRecord(0, 0, v.eeprom[..128]), ParsedRecord(0, 128, v.eeprom[128..]);
    var e := [ElaRecord(0xF0), low] + [high, EOF_RECORD];
    var c := [ElaRecord(0x30), ParsedRecord(0, 0, v.config)] + e;
    assert WindowRecords(v) == [ElaRecord(0x20), ParsedRecord(0, 0, v.userId)] + c;
    WritesElaData(0x20, v.userId, c, 0);
    WritesElaData(0x30, v.config, e, USER_ID_BASE);
    WritesElaData(0xF0, v.eeprom[..128], [high, EOF_RECORD], CONFIG_BASE);
    WritesThenEof(high, EEPROM_BASE);
    HalvesOfWrites(EEPROM_BASE, v.eeprom, 128);
  }

  lemma WritesThenEof(r: ParsedRecord, ela: nat)
    requires IsData(r)
    ensures Writes([r, EOF_RECORD], ela) == RecordWrites(r, ela)
  {
    assert [r, EOF_RECORD] == [r] + [EOF_RECORD];
    WritesAppend([r], [EOF_RECORD], ela);
    WritesOfOne(r, ela);
    WritesOfOne(EOF_RECORD, ela);
  }

  lemma HalvesOfWrites(base: nat, data: seq<byte>, n: nat)
    requires n <= |data|
    ensures DataWrites(base, data) == DataWrites(base, data[..n]) + DataWrites(base + n, data[n..])
  {
  }

  lemma {:induction false} FlashOverlay(v: ImageValue, n: nat, addr: nat)
    requires v.Sized() && n <= FLASH_BYTES
    ensures AllLoadable(FlashWrites(v, n))
    ensures var m := Overlay(map[], FlashWrites(v, n));
            && (addr in m <==> addr < n && v.flashPresent[addr])
            && (addr in m ==> m[addr] == v.flash[addr])
  {
    if n > 0 {
      FlashOverlay(v, n - 1, addr);
      if v.flashPresent[n - 1] {
        OverlayAppend(map[], FlashWrites(v, n - 1), [(n - 1, v.flash[n - 1])]);
      }
    }
  }

  lemma DataOverlay(mem: Memory, base: nat, data: seq<byte>, addr: nat)
    ensures var m := Overlay(mem, DataWrites(base, data));
            if base <= addr < base + |data| then addr in m && m[addr] == data[addr - base]
            else (addr in m <==> addr in mem) && (addr in m ==> m[addr] == mem[addr])
  {
    var ws := DataWrites(base, data);
    OverlayLookup(mem, ws, addr);
    if base <= addr < base + |data| {
      assert LastAt(ws, addr, addr - base);
    } else {
      assert !Touches(ws, addr);
    }
  }

  /** The memory of a printed image, byte by byte. */
  ghost predicate Holds(v: ImageValue, m: Memory, addr: nat)
    requires v.Sized()
  {
    match WindowOf(addr)
    case Flash => (addr in m <==> v.flashPresent[addr]) && (addr in m ==> m[addr] == v.flash[addr])
    case UserId => addr in m && m[addr] == v.userId[addr - USER_ID_BASE]
    case Config => addr in m && m[addr] == v.config[addr - CONFIG_BASE]
    case Eeprom => addr in m && m[addr] == v.eeprom[addr - EEPROM_BASE]
    case _ => addr !in m
  }

  function PrintedMemory(v: ImageValue): Memory
    requires v.Sized()
  {
    Overlay(map[], Writes(ImageRecords(v), 0))
  }

  lemma PrintedMemoryHolds(v: ImageValue, addr: nat)
    requires v.Sized()
    ensures Holds(v, PrintedMemory(v), addr)
  {
    WritesAppend(FlashRecords(v, FLASH_BYTES), WindowRecords(v), 0);
    WritesOfFlashRecords(v, FLASH_BYTES);
    WritesOfWindowRecords(v);
    var u, c, e := DataWrites(USER_ID_BASE, v.userId), DataWrites(CONFIG_BASE, v.config), DataWrites(EEPROM_BASE, v.eeprom);
    var m0 := Overlay(map[], FlashWrites(v, FLASH_BYTES));
    OverlayAppend(map[], FlashWrites(v, FLASH_BYTES), u + (c + e));
    OverlayAppend(m0, u, c + e);
    OverlayAppend(Overlay(m0, u), c, e);
    FlashOverlay(v, FLASH_BYTES, addr);
    DataOverlay(m0, USER_ID_BASE, v.userId, addr);
    DataOverlay(Overlay(m0, u), CONFIG_BASE, v.config, addr);
    DataOverlay(Overlay(Overlay(m0, u), c), EEPROM_BASE, v.eeprom, addr);
  }

  lemma PrintedImageIsAccepted(v: ImageValue)
    requires v.Sized()
    ensures WellFormed(ImageRecords(v)) && AllLoadable(Writes(ImageRecords(v), 0))
  {
    var recs, f, w := ImageRecords(v), FlashRecords(v, FLASH_BYTES), WindowRecords(v);
    assert recs[|recs| - 1] == w[|w| - 1];
    forall i | 0 <= i < |recs| - 1
      ensures IsData(recs[i]) || IsEla(recs[i])
    {
      if i < |f| {
        assert recs[i] == f[i];
      } else {
        assert recs[i] == w[i - |f|];
      }
    }
    WritesAppend(f, w, 0);
    WritesOfFlashRecords(v, FLASH_BYTES);
    WritesOfWindowRecords(v);
    FlashOverlay(v, FLASH_BYTES, 0);
    var u, c, e := DataWrites(USER_ID_BASE, v.userId), DataWrites(CONFIG_BASE, v.config), DataWrites(EEPROM_BASE, v.eeprom);
    AllLoadableAppend(FlashWrites(v, FLASH_BYTES), u + (c + e));
    AllLoadableAppend(u, c + e);
    AllLoadableAppend(c, e);
  }

  /** Absent flash bytes read as erased. */
  predicate AbsentIsErased(v: ImageValue)
    requires v.Sized()
  {
    forall a :: 0 <= a < FLASH_BYTES && !v.flashPresent[a] ==> v.flash[a] == ERASED
  }

  lemma FlashOfHeld(v: ImageValue, m: Memory)
    requires v.Sized() && forall addr: nat :: Holds(v, m, addr)
    ensures ImageOf(m).flashPresent == v.flashPresent
    ensures ImageOf(m).flash == v.flash <==> AbsentIsErased(v)
  {
    var w := ImageOf(m);
    forall a | 0 <= a < FLASH_BYTES
      ensures w.flashPresent[a] == v.flashPresent[a]
      ensures w.flash[a] == if v.flashPresent[a] then v.flash[a] else ERASED
    {
      assert Holds(v, m, a);
      assert w.flashPresent[a] == (a in m);
      assert w.flash[a] == Fill(m, 0 + a);
    }
    if AbsentIsErased(v) {
      assert forall a :: 0 <= a < FLASH_BYTES ==> w.flash[a] == v.flash[a];
    } else {
      var a :| 0 <= a < FLASH_BYTES && !v.flashPresent[a] && v.flash[a] != ERASED;
      assert w.flash[a] == ERASED;
    }
  }

  lemma ImageOfHeld(v: ImageValue, m: Memory)
    requires v.Sized() && forall addr: nat :: Holds(v, m, addr)
    ensures ImageOf(m) == v <==> AbsentIsErased(v)
  {
    FlashOfHeld(v, m);
    var w := ImageOf(m);
    forall i | 0 <= i < USER_ID_BYTES
      ensures w.userId[i] == v.userId[i]
    {
      assert Holds(v, m, USER_ID_BASE + i);
    }
    assert w.userId == v.userId;
    forall i | 0 <= i < CONFIG_BYTES
      ensures w.config[i] == v.config[i]
    {
      assert Holds(v, m, CONFIG_BASE + i);
    }
    assert w.config == v.config;
    forall i | 0 <= i < EEPROM_BYTES
      ensures w.eeprom[i] == v.eeprom[i]
    {
      assert Holds(v, m, EEPROM_BASE + i);
    }
    assert w.eeprom == v.eeprom;
  }

  /** Printing an image and loading the text gives the image back, presence bits included, exactly
    when its absent flash bytes read as erased. */
  lemma ImageRoundTrip(v: ImageValue)
    requires v.Sized()
    ensures Load(PrintImage(v)).Ok?
    ensures ImageOf(Load(PrintImage(v)).value) == v <==> AbsentIsErased(v)
  {
    PrintedImageIsAccepted(v);
    LoadOfPrintedRecords(ImageRecords(v));
    forall addr: nat
      ensures Holds(v, PrintedMemory(v), addr)
    {
      PrintedMemoryHolds(v, addr);
    }
    ImageOfHeld(v, PrintedMemory(v));
  }

  /** So every image that the loader makes survives a further print and load. */
  lemma LoadedImageRoundTrip(text: seq<byte>)
    requires Load(text).Ok?
    ensures var v := ImageOf(Load(text).value);
            Load(PrintImage(v)).Ok? && ImageOf(Load(PrintImage(v)).value) == v
  {
    var v := ImageOf(Load(text).value);
    ImageRoundTrip(v);
    assert AbsentIsErased(v);
  }
}
