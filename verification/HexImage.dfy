/** The strict HEX loader: a line-by-line state machine that routes record bytes into four memory
  windows.  A sparse map from address to byte is the reference that the image refines. */
module HexImage {
  import opened Wrappers
  import opened HexRecord
  import opened HexText

  const FLASH_BYTES := 0x8000
  const USER_ID_BYTES := 8
  const CONFIG_BYTES := 14
  const EEPROM_BYTES := 256
  const USER_ID_BASE := 0x20_0000
  const CONFIG_BASE := 0x30_0000
  const DEVID_BASE := 0x3F_FFFE
  const EEPROM_BASE := 0xF0_0000
  const U32_MAX := 0xFFFF_FFFF
  const ERASED: byte := 0xFF

  type Memory = map<nat, byte>

  // ---------------------------------------------------------------- windows

  datatype Window = Flash | UserId | Config | DeviceId | Eeprom | Outside

  function WindowOf(addr: nat): Window {
    if addr < FLASH_BYTES then Flash
    else if USER_ID_BASE <= addr < USER_ID_BASE + USER_ID_BYTES then UserId
    else if CONFIG_BASE <= addr < CONFIG_BASE + CONFIG_BYTES then Config
    else if DEVID_BASE <= addr < DEVID_BASE + 2 then DeviceId
    else if EEPROM_BASE <= addr < EEPROM_BASE + EEPROM_BYTES then Eeprom
    else Outside
  }

  /** The address lies in one of the four windows. */
  predicate Loadable(addr: nat) {
    WindowOf(addr) != DeviceId && WindowOf(addr) != Outside
  }

  // ---------------------------------------------------------------- the loader over a sparse map

  function Refusal(addr: nat, lineNo: nat, recordLen: nat): HexLoadError
    requires !Loadable(addr)
  {
    if WindowOf(addr) == DeviceId then DeviceIdRecord(lineNo, addr) else AddressOutOfRange(lineNo, addr, recordLen)
  }

  function Put(mem: Memory, addr: nat, b: byte, lineNo: nat, recordLen: nat): Result<Memory, HexLoadError> {
    if Loadable(addr) then Ok(mem[addr := b]) else Err(Refusal(addr, lineNo, recordLen))
  }

  /** The bytes of a data record, stored from addr on; addresses are 32-bit words. */
  function PutData(mem: Memory, addr: nat, data: seq<byte>, lineNo: nat, recordLen: nat): Result<Memory, HexLoadError>
    decreases data
  {
    if data == [] then Ok(mem)
    else if addr > U32_MAX then Err(AddressOutOfRange(lineNo, U32_MAX, recordLen))
    else
      var next := Put(mem, addr, data[0], lineNo, recordLen);
      if next.Err? then next else PutData(next.value, addr + 1, data[1..], lineNo, recordLen)
  }

  datatype LoadState = LoadState(mem: Memory, ela: nat, sawEof: bool)

  const START := LoadState(map[], 0, false)

  /** The upper half of the addresses after an extended linear address record. */
  function UpperHalf(data: seq<byte>): nat
    requires |data| == 2
  {
    var high: int := data[0];
    var low: int := data[1];
    high * 0x100_0000 + low * 0x1_0000
  }

  function ApplyRecord(st: LoadState, r: ParsedRecord, lineNo: nat): Result<LoadState, HexLoadError> {
    if r.kind == 0 then
      var mem := PutData(st.mem, st.ela + r.address, r.data, lineNo, |r.data|);
      if mem.Err? then Err(mem.error) else Ok(st.(mem := mem.value))
    else if r.kind == 1 then
      if r.data != [] then Err(EofWithPayload(lineNo))
      else if r.address != 0 then Err(BadControlRecordAddress(lineNo, 1, r.address))
      else Ok(st.(sawEof := true))
    else if r.kind == 4 then
      if |r.data| != 2 then Err(BadElaLength(lineNo, |r.data|))
      else if r.address != 0 then Err(BadControlRecordAddress(lineNo, 4, r.address))
      else Ok(st.(ela := UpperHalf(r.data)))
    else Err(UnknownRecordType(lineNo, r.kind))
  }

  function LoadLine(st: LoadState, rawLine: seq<byte>, lineNo: nat): Result<LoadState, HexLoadError> {
    var line := TrimEnd(rawLine);
    if line == [] then Ok(st)
    else if st.sawEof then Err(RecordsAfterEof(lineNo))
    else
      var r := ParseRecord(line, lineNo);
      if r.Err? then Err(r.error) else ApplyRecord(st, r.value, lineNo)
  }

  function LoadLines(st: LoadState, lines: seq<seq<byte>>, lineNo: nat): Result<Memory, HexLoadError>
    decreases lines
  {
    if lines == [] then if st.sawEof then Ok(st.mem) else Err(MissingEof)
    else
      var next := LoadLine(st, lines[0], lineNo);
      if next.Err? then Err(next.error) else LoadLines(next.value, lines[1..], lineNo + 1)
  }

  /** The memory that a text describes, or the first error in it. */
  function Load(text: seq<byte>): Result<Memory, HexLoadError> {
    LoadLines(START, Lines(text), 1)
  }

  // ---------------------------------------------------------------- the image

  /** The contents of an image. */
  datatype ImageValue = ImageValue(
    flash: seq<byte>, flashPresent: seq<bool>, userId: seq<byte>, config: seq<byte>, eeprom: seq<byte>)
  {
    predicate Sized() {
      && |flash| == FLASH_BYTES && |flashPresent| == FLASH_BYTES
      && |userId| == USER_ID_BYTES && |config| == CONFIG_BYTES && |eeprom| == EEPROM_BYTES
    }

    function ByteAt(addr: nat): Option<byte>
      requires Sized()
    {
      if addr < FLASH_BYTES && flashPresent[addr] then Some(flash[addr]) else None
    }
  }

  function Fill(mem: Memory, addr: nat): byte {
    if addr in mem then mem[addr] else ERASED
  }

  function WindowBytes(mem: Memory, base: nat, len: nat): (s: seq<byte>)
    ensures |s| == len
    ensures forall i :: 0 <= i < len ==> s[i] == Fill(mem, base + i)
  {
    seq<byte>(len, i requires 0 <= i < len => Fill(mem, base + i))
  }

  /** The image of a sparse memory: erased bytes are 0xFF and absent. */
  function ImageOf(mem: Memory): (v: ImageValue)
    ensures v.Sized()
  {
    ImageValue(
      WindowBytes(mem, 0, FLASH_BYTES),
      seq(FLASH_BYTES, a requires 0 <= a < FLASH_BYTES => a in mem),
      WindowBytes(mem, USER_ID_BASE, USER_ID_BYTES),
      WindowBytes(mem, CONFIG_BASE, CONFIG_BYTES),
      WindowBytes(mem, EEPROM_BASE, EEPROM_BYTES))
  }

  /** An image with one byte stored in the window that its address lies in. */
  function Stored(v: ImageValue, addr: nat, b: byte): ImageValue
    requires v.Sized() && Loadable(addr)
  {
    var w := WindowOf(addr);
    if w == Flash then v.(flash := v.flash[addr := b], flashPresent := v.flashPresent[addr := true])
    else if w == UserId then v.(userId := v.userId[addr - USER_ID_BASE := b])
    else if w == Config then v.(config := v.config[addr - CONFIG_BASE := b])
    else v.(eeprom := v.eeprom[addr - EEPROM_BASE := b])
  }

  lemma ImageOfPut(mem: Memory, addr: nat, b: byte)
    requires Loadable(addr)
    ensures ImageOf(mem[addr := b]) == Stored(ImageOf(mem), addr, b)
  {
  }

  class HexImage {
    const flash: array<byte>
    const flashPresent: array<bool>
    const userId: array<byte>
    const config: array<byte>
    const eeprom: array<byte>

    ghost predicate Valid() {
      && flash.Length == FLASH_BYTES && flashPresent.Length == FLASH_BYTES
      && userId.Length == USER_ID_BYTES && config.Length == CONFIG_BYTES && eeprom.Length == EEPROM_BYTES
      && flash != userId && flash != config && flash != eeprom
      && userId != config && userId != eeprom && config != eeprom
    }

    ghost const Repr: set<object> := {flash as object, flashPresent, userId, config, eeprom}

    ghost function Value(): ImageValue
      reads flash, flashPresent, userId, config, eeprom
    {
      ImageValue(flash[..], flashPresent[..], userId[..], config[..], eeprom[..])
    }

    constructor ()
      ensures Valid() && fresh(Repr)
      ensures Value() == ImageOf(map[])
    {
      flash := new byte[FLASH_BYTES](_ => ERASED);
      flashPresent := new bool[FLASH_BYTES](_ => false);
      userId := new byte[USER_ID_BYTES](_ => ERASED);
      config := new byte[CONFIG_BYTES](_ => ERASED);
      eeprom := new byte[EEPROM_BYTES](_ => ERASED);
    }

    method ByteAt(addr: nat) returns (r: Option<byte>)
      requires Valid()
      ensures r == Value().ByteAt(addr)
    {
      if addr < FLASH_BYTES && flashPresent[addr] {
        return Some(flash[addr]);
      }
      return None;
    }

    method WriteByte(addr: nat, b: byte, lineNo: nat, recordLen: nat) returns (e: Option<HexLoadError>)
      requires Valid()
      modifies Repr
      ensures e == if Loadable(addr) then None else Some(Refusal(addr, lineNo, recordLen))
      ensures Value() == if Loadable(addr) then Stored(old(Value()), addr, b) else old(Value())
    {
      if addr < FLASH_BYTES {
        flash[addr] := b;
        flashPresent[addr] := true;
      } else if USER_ID_BASE <= addr < USER_ID_BASE + USER_ID_BYTES {
        userId[addr - USER_ID_BASE] := b;
      } else if CONFIG_BASE <= addr < CONFIG_BASE + CONFIG_BYTES {
        config[addr - CONFIG_BASE] := b;
      } else if DEVID_BASE <= addr < DEVID_BASE + 2 {
        return Some(DeviceIdRecord(lineNo, addr));
      } else if EEPROM_BASE <= addr < EEPROM_BASE + EEPROM_BYTES {
        eeprom[addr - EEPROM_BASE] := b;
      } else {
        return Some(AddressOutOfRange(lineNo, addr, recordLen));
      }
      return None;
    }

    /** The data bytes of one record. */
    method WriteData(base: nat, data: seq<byte>, lineNo: nat, ghost mem: Memory)
      returns (e: Option<HexLoadError>)
      requires Valid() && Value() == ImageOf(mem)
      modifies Repr
      ensures match PutData(mem, base, data, lineNo, |data|)
              case Ok(mem') => e.None? && Value() == ImageOf(mem')
              case Err(error) => e == Some(error)
    {
      ghost var cur: Memory := mem;
      for i := 0 to |data|
        invariant Value() == ImageOf(cur)
        invariant PutData(mem, base, data, lineNo, |data|) == PutData(cur, base + i, data[i..], lineNo, |data|)
      {
        if base + i > U32_MAX {
          return Some(AddressOutOfRange(lineNo, U32_MAX, |data|));
        }
        var r := WriteByte(base + i, data[i], lineNo, |data|);
        if r.Some? {
          return r;
        }
        ImageOfPut(cur, base + i, data[i]);
        cur := cur[base + i := data[i]];
      }
      return None;
    }

    /** What one record does to the image and to the two loader variables. */
    method Apply(record: ParsedRecord, lineNo: nat, ela: nat, sawEof: bool, ghost mem: Memory)
      returns (r: Result<(nat, bool), HexLoadError>)
      requires Valid() && Value() == ImageOf(mem)
      modifies Repr
      ensures match ApplyRecord(LoadState(mem, ela, sawEof), record, lineNo)
              case Ok(st) => r == Ok((st.ela, st.sawEof)) && Value() == ImageOf(st.mem)
              case Err(error) => r == Err(error)
    {
      if record.kind == 0 {
        var e := WriteData(ela + record.address, record.data, lineNo, mem);
        if e.Some? {
          return Err(e.value);
        }
        return Ok((ela, sawEof));
      } else if record.kind == 1 {
        if record.data != [] {
          return Err(EofWithPayload(lineNo));
        }
        if record.address != 0 {
          return Err(BadControlRecordAddress(lineNo, 1, record.address));
        }
        return Ok((ela, true));
      } else if record.kind == 4 {
        if |record.data| != 2 {
          return Err(BadElaLength(lineNo, |record.data|));
        }
        if record.address != 0 {
          return Err(BadControlRecordAddress(lineNo, 4, record.address));
        }
        return Ok((UpperHalf(record.data), sawEof));
      } else {
        return Err(UnknownRecordType(lineNo, record.kind));
      }
    }

    /** The loader as it runs. */
    static method FromHexStr(text: seq<byte>) returns (r: Result<HexImage, HexLoadError>)
      ensures match Load(text)
              case Ok(mem) => r.Ok? && fresh(r.value) && r.value.Valid() && r.value.Value() == ImageOf(mem)
              case Err(error) => r == Err(error)
    {
      var image := new HexImage();
      var ela: nat := 0;
      var sawEof := false;
      ghost var st := START;
      var lines := Lines(text);
      for idx := 0 to |lines|
        invariant image.Valid() && fresh(image) && fresh(image.Repr)
        invariant image.Value() == ImageOf(st.mem) && ela == st.ela && sawEof == st.sawEof
        invariant Load(text) == LoadLines(st, lines[idx..], idx + 1)
      {
        LoadLinesStep(st, lines, idx);
        var line := TrimEnd(lines[idx]);
        if line == [] {
          continue;
        }
        if sawEof {
          return Err(RecordsAfterEof(idx + 1));
        }
        var parsed := ParseRecordLoop(line, idx + 1);
        if parsed.Err? {
          return Err(parsed.error);
        }
        ghost var next := LoadLine(st, lines[idx], idx + 1);
        var applied := image.Apply(parsed.value, idx + 1, ela, sawEof, st.mem);
        if applied.Err? {
          return Err(applied.error);
        }
        ela, sawEof := applied.value.0, applied.value.1;
        st := next.value;
      }
      if !sawEof {
        return Err(MissingEof);
      }
      return Ok(image);
    }
  }

  lemma LoadLinesStep(st: LoadState, lines: seq<seq<byte>>, idx: nat)
    requires idx < |lines|
    ensures LoadLines(st, lines[idx..], idx + 1) ==
            var next := LoadLine(st, lines[idx], idx + 1);
            if next.Err? then Err(next.error) else LoadLines(next.value, lines[idx + 1..], idx + 2)
  {
  }
}
