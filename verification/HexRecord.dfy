/** One line of an Intel HEX file: the strict record parser and the record printer beside it.

  Lines are byte sequences, because the parser indexes the bytes of its text and reports byte offsets.
*/
module HexRecord {
  import opened Wrappers

  const COLON: byte := 0x3A

  datatype ParsedRecord = ParsedRecord(kind: byte, address: nat, data: seq<byte>)

  datatype HexLoadError =
    | BadStartChar(line: nat)
    | BadHexDigit(line: nat, byteOffset: nat)
    | OddByteCount(line: nat)
    | ShortRecord(line: nat, bodyLen: nat)
    | ByteCountMismatch(line: nat, declared: byte, actual: nat)
    | BadChecksum(line: nat, computed: byte, found: byte)
    | UnknownRecordType(line: nat, kind: byte)
    | BadElaLength(line: nat, len: nat)
    | EofWithPayload(line: nat)
    | BadControlRecordAddress(line: nat, kind: byte, address: nat)
    | RecordsAfterEof(line: nat)
    | MissingEof
    | AddressOutOfRange(line: nat, address: nat, length: nat)
    | DeviceIdRecord(line: nat, address: nat)

  /** A record as its fields can hold it: a 16-bit address and at most 255 data bytes. */
  predicate WellSized(r: ParsedRecord) {
    r.address < 0x1_0000 && |r.data| <= 255
  }

  // ---------------------------------------------------------------- hex digits

  function HexDigit(b: byte): Option<byte> {
    if 0x30 <= b <= 0x39 then Some(b - 0x30)
    else if 0x61 <= b <= 0x66 then Some(b - 0x61 + 10)
    else if 0x41 <= b <= 0x46 then Some(b - 0x41 + 10)
    else None
  }

  /** The digit that the printer writes for a nibble (upper case). */
  function DigitChar(n: byte): byte
    requires n < 16
  {
    if n < 10 then 0x30 + n else 0x41 + n - 10
  }

  function UpperDigit(b: byte): byte {
    if 0x61 <= b <= 0x66 then b - 0x20 else b
  }

  function Upper(s: seq<byte>): (u: seq<byte>)
    ensures |u| == |s|
  {
    seq(|s|, i requires 0 <= i < |s| => UpperDigit(s[i]))
  }

  predicate AllHex(s: seq<byte>) {
    forall i :: 0 <= i < |s| ==> HexDigit(s[i]).Some?
  }

  /** Offset of the first byte at or after i that is not a hex digit, or the length when there is none. */
  function FirstNonHex(s: seq<byte>, i: nat): (k: nat)
    requires i <= |s|
    ensures i <= k <= |s|
    ensures forall j :: i <= j < k ==> HexDigit(s[j]).Some?
    ensures k < |s| ==> HexDigit(s[k]).None?
    decreases |s| - i
  {
    if i == |s| || HexDigit(s[i]).None? then i else FirstNonHex(s, i + 1)
  }

  /** The byte that the digits at offsets 2k and 2k + 1 stand for. */
  function Pair(body: seq<byte>, k: nat): byte
    requires 2 * k + 1 < |body| && HexDigit(body[2 * k]).Some? && HexDigit(body[2 * k + 1]).Some?
  {
    HexDigit(body[2 * k]).value * 16 + HexDigit(body[2 * k + 1]).value
  }

  function Decode(body: seq<byte>): (d: seq<byte>)
    requires |body| % 2 == 0 && AllHex(body)
    ensures |d| == |body| / 2
  {
    seq(|body| / 2, k requires 0 <= k < |body| / 2 => Pair(body, k))
  }

  function NibbleOf(d: seq<byte>, i: nat): byte
    requires i < 2 * |d|
  {
    if i % 2 == 0 then d[i / 2] / 16 else d[i / 2] % 16
  }

  function Encode(d: seq<byte>): (body: seq<byte>)
    ensures |body| == 2 * |d|
  {
    seq(2 * |d|, i requires 0 <= i < 2 * |d| => DigitChar(NibbleOf(d, i)))
  }

  lemma DigitRoundTripBack(b: byte)
    requires HexDigit(b).Some?
    ensures HexDigit(b).value < 16 && DigitChar(HexDigit(b).value) == UpperDigit(b)
  {
  }

  lemma DecodeInvertsEncode(d: seq<byte>)
    ensures AllHex(Encode(d)) && Decode(Encode(d)) == d
  {
  }

  lemma EncodeInvertsDecode(body: seq<byte>)
    requires |body| % 2 == 0 && AllHex(body)
    ensures Encode(Decode(body)) == Upper(body)
  {
    forall i | 0 <= i < |body|
      ensures Encode(Decode(body))[i] == Upper(body)[i]
    {
      EncodeInvertsDecodeAt(body, i);
    }
  }

  lemma EncodeInvertsDecodeAt(body: seq<byte>, i: nat)
    requires |body| % 2 == 0 && AllHex(body) && i < |body|
    ensures Encode(Decode(body))[i] == UpperDigit(body[i])
  {
    var k := i / 2;
    assert i == 2 * k || i == 2 * k + 1;
    DigitRoundTripBack(body[2 * k]);
    DigitRoundTripBack(body[2 * k + 1]);
    assert Decode(body)[k] == Pair(body, k);
    assert NibbleOf(Decode(body), i) == HexDigit(body[i]).value;
  }

  // ---------------------------------------------------------------- checksums

  function Sum(s: seq<byte>): nat {
    if s == [] then 0 else s[0] + Sum(s[1..])
  }

  lemma {:induction false} SumAppend(s: seq<byte>, t: seq<byte>)
    ensures Sum(s + t) == Sum(s) + Sum(t)
  {
    if s == [] {
      assert s + t == t;
    } else {
      assert (s + t)[1..] == s[1..] + t;
      SumAppend(s[1..], t);
    }
  }

  lemma SumSnoc(s: seq<byte>, b: byte)
    ensures Sum(s + [b]) == Sum(s) + b
  {
    SumAppend(s, [b]);
    assert [b][1..] == [];
  }

  // ---------------------------------------------------------------- the parser

  /** What the decoded bytes of a record say, or why they are refused. */
  function Interpret(decoded: seq<byte>, lineNo: nat): Result<ParsedRecord, HexLoadError>
    requires |decoded| >= 5
  {
    var length: int := decoded[0];
    if |decoded| != length + 5 then
      Err(ByteCountMismatch(lineNo, decoded[0], |decoded|))
    else if Sum(decoded) % 256 != 0 then
      var found: int := decoded[|decoded| - 1];
      Err(BadChecksum(lineNo, (found - Sum(decoded)) % 256, found))
    else
      var addressHigh: int := decoded[1];
      Ok(ParsedRecord(decoded[3], addressHigh * 256 + decoded[2], decoded[4..|decoded| - 1]))
  }

  function ParseRecord(line: seq<byte>, lineNo: nat): Result<ParsedRecord, HexLoadError> {
    if line == [] || line[0] != COLON then Err(BadStartChar(lineNo))
    else
      var body := line[1..];
      if |body| < 10 then Err(ShortRecord(lineNo, |body|))
      else if |body| % 2 != 0 then Err(OddByteCount(lineNo))
      else
        var k := FirstNonHex(body, 0);
        if k < |body| then Err(BadHexDigit(lineNo, k)) else Interpret(Decode(body), lineNo)
  }

  /** One pass over the body that pushes a byte for every two digits and stops at the first byte
    that is no hex digit. */
  method DecodeBody(body: seq<byte>, lineNo: nat) returns (r: Result<seq<byte>, HexLoadError>)
    requires |body| % 2 == 0
    ensures var k := FirstNonHex(body, 0);
            if k < |body| then r == Err(BadHexDigit(lineNo, k)) else r == Ok(Decode(body))
  {
    var decoded: seq<byte> := [];
    var i := 0;
    while i < |body|
      invariant 0 <= i <= |body| && |decoded| == i / 2 && i % 2 == 0
      invariant forall j :: 0 <= j < i ==> HexDigit(body[j]).Some?
      invariant forall k :: 0 <= k < |decoded| ==> decoded[k] == Pair(body, k)
      invariant FirstNonHex(body, 0) == FirstNonHex(body, i)
    {
      var hi := HexDigit(body[i]);
      if hi.None? {
        return Err(BadHexDigit(lineNo, i));
      }
      var lo := HexDigit(body[i + 1]);
      if lo.None? {
        return Err(BadHexDigit(lineNo, i + 1));
      }
      assert hi.value * 16 + lo.value == Pair(body, i / 2);
      decoded := decoded + [hi.value * 16 + lo.value];
      i := i + 2;
    }
    assert decoded == Decode(body);
    return Ok(decoded);
  }

  /** The running 8-bit sum. */
  method Checksum(decoded: seq<byte>) returns (checksum: int)
    ensures checksum == Sum(decoded) % 256
  {
    checksum := 0;
    for j := 0 to |decoded|
      invariant checksum == Sum(decoded[..j]) % 256
    {
      assert decoded[..j + 1] == decoded[..j] + [decoded[j]];
      SumSnoc(decoded[..j], decoded[j]);
      checksum := (checksum + decoded[j]) % 256;
    }
    assert decoded[..|decoded|] == decoded;
  }

  /** The record parser as it runs. */
  method ParseRecordLoop(line: seq<byte>, lineNo: nat) returns (r: Result<ParsedRecord, HexLoadError>)
    ensures r == ParseRecord(line, lineNo)
  {
    if line == [] || line[0] != COLON {
      return Err(BadStartChar(lineNo));
    }
    var body := line[1..];
    if |body| < 10 {
      return Err(ShortRecord(lineNo, |body|));
    }
    if |body| % 2 != 0 {
      return Err(OddByteCount(lineNo));
    }
    var d := DecodeBody(body, lineNo);
    if d.Err? {
      return Err(d.error);
    }
    r := InterpretBytes(d.value, lineNo);
  }

  /** The second half of the parser, from the decoded bytes on. */
  method InterpretBytes(decoded: seq<byte>, lineNo: nat) returns (r: Result<ParsedRecord, HexLoadError>)
    requires |decoded| >= 5
    ensures r == Interpret(decoded, lineNo)
  {
    var length: int := decoded[0];
    if |decoded| != length + 5 {
      return Err(ByteCountMismatch(lineNo, decoded[0], |decoded|));
    }
    var checksum := Checksum(decoded);
    if checksum != 0 {
      var found: int := decoded[|decoded| - 1];
      SameResidue(found, Sum(decoded));
      return Err(BadChecksum(lineNo, (found - checksum) % 256, found));
    }
    var addressHigh: int := decoded[1];
    return Ok(ParsedRecord(decoded[3], addressHigh * 256 + decoded[2], decoded[4..4 + length]));
  }

  lemma SameResidue(found: int, sum: int)
    ensures (found - sum % 256) % 256 == (found - sum) % 256
  {
  }

  // ---------------------------------------------------------------- the printer

  /** The bytes that a record holds before its checksum; the length field keeps eight bits. */
  function Header(kind: byte, addr: nat, data: seq<byte>): seq<byte>
    requires addr < 0x1_0000
  {
    [|data| % 256, addr / 256, addr % 256, kind] + data
  }

  function RecordBytes(kind: byte, addr: nat, data: seq<byte>): seq<byte>
    requires addr < 0x1_0000
  {
    var h := Header(kind, addr, data);
    h + [(0 - Sum(h) as int) % 256]
  }

  function Rec(kind: byte, addr: nat, data: seq<byte>): seq<byte>
    requires addr < 0x1_0000
  {
    [COLON] + Encode(RecordBytes(kind, addr, data))
  }

  function Print(r: ParsedRecord): seq<byte>
    requires r.address < 0x1_0000
  {
    Rec(r.kind, r.address, r.data)
  }

  lemma RecordBytesBalance(kind: byte, addr: nat, data: seq<byte>)
    requires addr < 0x1_0000
    ensures Sum(RecordBytes(kind, addr, data)) % 256 == 0
  {
    var h := Header(kind, addr, data);
    SumSnoc(h, (0 - Sum(h) as int) % 256);
    Balances(Sum(h));
  }

  lemma Balances(sum: nat)
    ensures (sum + (0 - sum as int) % 256) % 256 == 0
  {
  }

  /** The one byte that balances a sum. */
  lemma BalanceIsUnique(sum: nat, b: byte)
    requires (sum + b) % 256 == 0
    ensures b == (0 - sum as int) % 256
  {
  }

  /** A line that starts with a colon and goes on with the digits of at least five bytes. */
  lemma ParseOfEncoded(bytes: seq<byte>, lineNo: nat)
    requires |bytes| >= 5
    ensures ParseRecord([COLON] + Encode(bytes), lineNo) == Interpret(bytes, lineNo)
  {
    DecodeInvertsEncode(bytes);
    var line := [COLON] + Encode(bytes);
    assert line[1..] == Encode(bytes);
  }

  /** The parser inverts the printer on exactly the records whose data fits the length field. */
  lemma ParseInvertsRec(kind: byte, addr: nat, data: seq<byte>, lineNo: nat)
    requires addr < 0x1_0000
    ensures ParseRecord(Rec(kind, addr, data), lineNo) == Ok(ParsedRecord(kind, addr, data)) <==> |data| <= 255
  {
    ParseOfEncoded(RecordBytes(kind, addr, data), lineNo);
    InterpretInvertsBytes(kind, addr, data, lineNo);
  }

  lemma InterpretInvertsBytes(kind: byte, addr: nat, data: seq<byte>, lineNo: nat)
    requires addr < 0x1_0000
    ensures Interpret(RecordBytes(kind, addr, data), lineNo) == Ok(ParsedRecord(kind, addr, data)) <==> |data| <= 255
  {
    var bytes := RecordBytes(kind, addr, data);
    RecordBytesBalance(kind, addr, data);
    assert bytes[4..|bytes| - 1] == data;
    assert bytes[0] == |data| % 256;
    AddressInHalves(addr);
  }

  lemma AddressInHalves(addr: nat)
    ensures addr / 256 * 256 + addr % 256 == addr
  {
  }

  /** An accepted line is a colon and a body of digits whose bytes are read by Interpret. */
  lemma AcceptedLineShape(line: seq<byte>, lineNo: nat)
    requires ParseRecord(line, lineNo).Ok?
    ensures |line| >= 11 && line[0] == COLON && |line[1..]| % 2 == 0 && AllHex(line[1..])
    ensures ParseRecord(line, lineNo) == Interpret(Decode(line[1..]), lineNo)
  {
  }

  /** Accepted bytes are the bytes that the printer would write for the record they say. */
  lemma InterpretedBytesAreRecordBytes(d: seq<byte>, lineNo: nat)
    requires |d| >= 5 && Interpret(d, lineNo).Ok?
    ensures var r := Interpret(d, lineNo).value;
            WellSized(r) && d == RecordBytes(r.kind, r.address, r.data)
  {
    var r := Interpret(d, lineNo).value;
    var h := Header(r.kind, r.address, r.data);
    HeaderOfInterpreted(d, lineNo);
    SumSnoc(h, d[|d| - 1]);
    BalanceIsUnique(Sum(h), d[|d| - 1]);
  }

  lemma HeaderOfInterpreted(d: seq<byte>, lineNo: nat)
    requires |d| >= 5 && Interpret(d, lineNo).Ok?
    ensures var r := Interpret(d, lineNo).value;
            WellSized(r) && d == Header(r.kind, r.address, r.data) + [d[|d| - 1]]
  {
  }

  /** Every accepted line is the printed form of its own parse, up to the case of its digits. */
  lemma AcceptedLineIsItsPrint(line: seq<byte>, lineNo: nat)
    requires ParseRecord(line, lineNo).Ok?
    ensures WellSized(ParseRecord(line, lineNo).value)
    ensures Upper(line) == Print(ParseRecord(line, lineNo).value)
  {
    AcceptedLineShape(line, lineNo);
    InterpretedBytesAreRecordBytes(Decode(line[1..]), lineNo);
    EncodeInvertsDecode(line[1..]);
    assert Upper(line) == [COLON] + Upper(line[1..]);
  }

  lemma DecodeUpdate(body: seq<byte>, i: nat, c: byte)
    requires |body| % 2 == 0 && AllHex(body) && i < |body| && HexDigit(c).Some?
    ensures AllHex(body[i := c])
    ensures Decode(body[i := c]) == Decode(body)[i / 2 := Pair(body[i := c], i / 2)]
  {
  }

  lemma OneWrongByteIsCaught(d: seq<byte>, lineNo: nat, j: nat, b: byte)
    requires |d| >= 5 && Interpret(d, lineNo).Ok? && j < |d| && b != d[j]
    ensures Interpret(d[j := b], lineNo).Err?
    ensures var e := Interpret(d[j := b], lineNo).error;
            if j == 0 then e.ByteCountMismatch? else e.BadChecksum?
  {
    SumUpdate(d, j, b);
  }

  /** One wrong hex digit anywhere in an accepted line is always caught. */
  lemma OneWrongDigitIsCaught(line: seq<byte>, lineNo: nat, i: nat, c: byte)
    requires ParseRecord(line, lineNo).Ok?
    requires 1 <= i < |line| && HexDigit(c).Some? && UpperDigit(c) != UpperDigit(line[i])
    ensures ParseRecord(line[i := c], lineNo).Err?
    ensures var e := ParseRecord(line[i := c], lineNo).error;
            if i <= 2 then e.ByteCountMismatch? else e.BadChecksum?
  {
    AcceptedLineShape(line, lineNo);
    var body := line[1..];
    assert line[i := c] == [COLON] + body[i - 1 := c];
    WrongBodyIsCaught(body, lineNo, i - 1, c);
    ParseOfBody(body[i - 1 := c], lineNo);
  }

  lemma ParseOfBody(body: seq<byte>, lineNo: nat)
    requires |body| >= 10 && |body| % 2 == 0 && AllHex(body)
    ensures ParseRecord([COLON] + body, lineNo) == Interpret(Decode(body), lineNo)
  {
  }

  lemma WrongBodyIsCaught(body: seq<byte>, lineNo: nat, i: nat, c: byte)
    requires |body| >= 10 && |body| % 2 == 0 && AllHex(body) && Interpret(Decode(body), lineNo).Ok?
    requires i < |body| && HexDigit(c).Some? && UpperDigit(c) != UpperDigit(body[i])
    ensures AllHex(body[i := c]) && Interpret(Decode(body[i := c]), lineNo).Err?
    ensures var e := Interpret(Decode(body[i := c]), lineNo).error;
            if i <= 1 then e.ByteCountMismatch? else e.BadChecksum?
  {
    DecodeUpdate(body, i, c);
    WrongDigitWrongByte(body, i, c);
    OneWrongByteIsCaught(Decode(body), lineNo, i / 2, Pair(body[i := c], i / 2));
  }

  lemma WrongDigitWrongByte(body: seq<byte>, i: nat, c: byte)
    requires |body| % 2 == 0 && AllHex(body) && i < |body| && HexDigit(c).Some?
    requires UpperDigit(c) != UpperDigit(body[i])
    ensures Pair(body[i := c], i / 2) != Decode(body)[i / 2]
  {
    DigitRoundTripBack(c);
    DigitRoundTripBack(body[i]);
    assert HexDigit(c).value != HexDigit(body[i]).value;
    assert Decode(body)[i / 2] == Pair(body, i / 2);
    if i % 2 == 0 {
      DigitRoundTripBack(body[i + 1]);
    } else {
      DigitRoundTripBack(body[i - 1]);
    }
  }

  lemma {:induction false} SumUpdate(s: seq<byte>, j: nat, b: byte)
    requires j < |s|
    ensures Sum(s[j := b]) == Sum(s) - s[j] + b
  {
    if j == 0 {
      assert s[0 := b][1..] == s[1..];
    } else {
      assert s[j := b][1..] == s[1..][j - 1 := b];
      SumUpdate(s[1..], j - 1, b);
    }
  }

  // ---------------------------------------------------------------- digits and refusals, spelled out

  /** The digits are 0 to 9 and A to F in letters of either size, and nothing else is one. */
  lemma DigitsSpelled(b: byte)
    ensures 48 <= b <= 57 ==> HexDigit(b) == Some(b - 48)
    ensures 65 <= b <= 70 ==> HexDigit(b) == HexDigit(b + 32) == Some(b - 65 + 10)
    ensures HexDigit(b).Some? ==> 48 <= b <= 57 || 65 <= b <= 70 || 97 <= b <= 102
  {
  }

  lemma UpperReadsAlike(b: byte)
    ensures HexDigit(UpperDigit(b)) == HexDigit(b)
  {
  }

  lemma {:induction false} UpperFirstNonHex(s: seq<byte>, i: nat)
    requires i <= |s|
    ensures FirstNonHex(Upper(s), i) == FirstNonHex(s, i)
    decreases |s| - i
  {
    if i < |s| {
      UpperReadsAlike(s[i]);
      if HexDigit(s[i]).Some? {
        UpperFirstNonHex(s, i + 1);
      }
    }
  }

  lemma UpperDecode(s: seq<byte>)
    requires |s| % 2 == 0 && AllHex(s)
    ensures AllHex(Upper(s)) && Decode(Upper(s)) == Decode(s)
  {
    forall i | 0 <= i < |s|
      ensures HexDigit(Upper(s)[i]) == HexDigit(s[i])
    {
      UpperReadsAlike(s[i]);
    }
  }

  /** A line is read alike with its digits in upper case. */
  lemma CaseDoesNotMatter(line: seq<byte>, lineNo: nat)
    ensures ParseRecord(Upper(line), lineNo) == ParseRecord(line, lineNo)
  {
    if line != [] && line[0] == 0x3A {
      var body := line[1..];
      assert Upper(line) == [0x3A] + Upper(body);
      UpperFirstNonHex(body, 0);
      if |body| % 2 == 0 && AllHex(body) {
        UpperDecode(body);
      }
    }
  }

  /** What the first refusals say: only a colon starts a record, and one too short, of odd length or with the
    wrong count is told by its length and its count. */
  lemma RefusalsTell(line: seq<byte>, d: seq<byte>, lineNo: nat)
    ensures ParseRecord(line, lineNo) == Err(BadStartChar(lineNo)) <==> line == [] || line[0] != 58
    ensures ParseRecord(line, lineNo).Ok? ==> |line| >= 11 && |line| % 2 == 1
    ensures |d| >= 5 && d[0] as int + 5 != |d| ==> Interpret(d, lineNo) == Err(ByteCountMismatch(lineNo, d[0], |d|))
  {
  }

  /** A bad checksum is reported with the one that the record carries and the one that would have made it valid. */
  lemma ReportedChecksumFits(d: seq<byte>, lineNo: nat)
    requires |d| >= 5 && Interpret(d, lineNo).Err? && Interpret(d, lineNo).error.BadChecksum?
    ensures var e := Interpret(d, lineNo).error;
            e.found == d[|d| - 1] && Interpret(d[|d| - 1 := e.computed], lineNo).Ok?
  {
    var e := Interpret(d, lineNo).error;
    var n := |d| - 1;
    var front := d[..n];
    assert d == front + [d[n]] && d[n := e.computed] == front + [e.computed];
    SumSnoc(front, d[n]);
    SumSnoc(front, e.computed);
    Fits(d[n], Sum(front), e.computed);
  }

  lemma Fits(found: int, sum: int, computed: int)
    requires computed == (found - (sum + found)) % 256
    ensures (sum + computed) % 256 == 0
  {
    assert computed == (-sum) % 256;
  }
}
