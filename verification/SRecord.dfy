/**
  Uploading memory as Motorola S-records.

  The writer sends a header, S3 records of up to sixteen data bytes, and an end record. A decoder
  that follows the rules of the format gets exactly the memory back.
 */
module SRecord {

  import opened Basics

  const SPACE := 0x1_0000_0000
  const BYTES_PER_RECORD := 16
  const HEX := "0123456789ABCDEF"

  const START := "S0030000FC"
  const END := "S70500000000FA"

  /** The memory: a byte at every address. */
  type Memory = nat -> Byte

  // ---------------------------------------------------------------------------------------------
  // The format
  // ---------------------------------------------------------------------------------------------

  function DigitValue(c: char): int {
    if '0' <= c <= '9' then c as int - '0' as int
    else if 'A' <= c <= 'F' then c as int - 'A' as int + 10
    else -1
  }

  /** Pairs of hexadecimal digits. */
  function ParseBytes(s: string): Option<seq<Byte>> {
    if s == [] then Some([])
    else if |s| == 1 || DigitValue(s[0]) < 0 || DigitValue(s[1]) < 0 then None
    else
      match ParseBytes(s[2..])
      case None => None
      case Some(rest) => Some([16 * DigitValue(s[0]) + DigitValue(s[1])] + rest)
  }

  function Sum(bs: seq<Byte>): nat {
    if bs == [] then 0 else bs[0] as int + Sum(bs[1..])
  }

  datatype Record = Record(kind: char, payload: seq<Byte>)

  /**
    A record: an S, a type digit, a byte that counts the bytes behind it, these bytes, the last of
    which makes all bytes add up to 0xff modulo 256.
   */
  function ParseRecord(line: string): Option<Record> {
    if |line| < 2 || line[0] != 'S' then None
    else
      match ParseBytes(line[2..])
      case None => None
      case Some(bs) =>
        if |bs| < 2 || bs[0] as int != |bs| - 1 || Sum(bs) % 256 != 0xFF then None
        else Some(Record(line[1], bs[1..|bs| - 1]))
  }

  /** The lines of a text in which every line ends with a newline. */
  function Lines(text: string): Option<seq<string>> {
    if text == [] then Some([])
    else if text[0] == '\n' then
      match Lines(text[1..])
      case None => None
      case Some(rest) => Some([[]] + rest)
    else
      match Lines(text[1..])
      case None => None
      case Some(rest) => if rest == [] then None else Some([[text[0]] + rest[0]] + rest[1..])
  }

  function BigEndian(bs: seq<Byte>): nat {
    if bs == [] then 0 else 256 * BigEndian(bs[..|bs| - 1]) + bs[|bs| - 1] as int
  }

  /** One byte loaded to an address. */
  datatype Load = Load(address: nat, value: Byte)

  /** Bytes loaded to consecutive addresses, which wrap around at the end of memory. */
  function LoadsAt(address: nat, bs: seq<Byte>): seq<Load> {
    seq(|bs|, k requires 0 <= k < |bs| => Load((address + k) % SPACE, bs[k]))
  }

  /** What the lines load: header, S3 records, and nothing behind the end record. */
  function Loads(lines: seq<string>): Option<seq<Load>> {
    if lines == [] then None
    else
      match ParseRecord(lines[0])
      case None => None
      case Some(r) =>
        if r.kind == '7' then if |lines| == 1 && |r.payload| == 4 then Some([]) else None
        else
          match Loads(lines[1..])
          case None => None
          case Some(rest) =>
            if r.kind == '0' then Some(rest)
            else if r.kind == '3' && |r.payload| >= 4 then
              Some(LoadsAt(BigEndian(r.payload[..4]), r.payload[4..]) + rest)
            else None
  }

  /** The decoder. */
  function Decode(text: string): Option<seq<Load>> {
    match Lines(text)
    case None => None
    case Some(lines) => Loads(lines)
  }

  // ---------------------------------------------------------------------------------------------
  // What is written
  // ---------------------------------------------------------------------------------------------

  function Hex2(x: Byte): string {
    [HEX[x / 16], HEX[x % 16]]
  }

  function HexBytes(bs: seq<Byte>): string {
    if bs == [] then [] else Hex2(bs[0]) + HexBytes(bs[1..])
  }

  /** The four bytes of an address, highest first. */
  function AddressBytes(a: nat): (r: seq<Byte>)
    ensures |r| == 4
  {
    [a / 256 / 256 / 256 % 256, a / 256 / 256 % 256, a / 256 % 256, a % 256]
  }

  function Slice(mem: Memory, address: nat, n: nat): (r: seq<Byte>)
    ensures |r| == n && forall k | 0 <= k < n :: r[k] == mem((address + k) % SPACE)
  {
    seq(n, k requires 0 <= k => mem((address + k) % SPACE))
  }

  /** The bytes of a data record before its checksum. */
  function Covered(address: nat, bs: seq<Byte>): seq<Byte>
    requires |bs| <= BYTES_PER_RECORD
  {
    [4 + |bs| + 1] + AddressBytes(address) + bs
  }

  function Checksum(bs: seq<Byte>): Byte {
    255 - Sum(bs) % 256
  }

  function RecordText(address: nat, bs: seq<Byte>): string
    requires |bs| <= BYTES_PER_RECORD
  {
    "S3" + HexBytes(Covered(address, bs) + [Checksum(Covered(address, bs))])
  }

  function Least(n: nat): (m: nat)
    ensures m <= n && m <= BYTES_PER_RECORD && (n > 0 ==> m > 0)
  {
    if n < BYTES_PER_RECORD then n else BYTES_PER_RECORD
  }

  /** The data records of a memory range. */
  function Records(mem: Memory, address: nat, count: nat): seq<string>
    decreases count
  {
    if count == 0 then []
    else
      var n := Least(count);
      [RecordText(address % SPACE, Slice(mem, address, n))] + Records(mem, address + n, count - n)
  }

  function Text(lines: seq<string>): string {
    if lines == [] then [] else lines[0] + "\n" + Text(lines[1..])
  }

  // ---------------------------------------------------------------------------------------------
  // The decoder gets back what is written
  // ---------------------------------------------------------------------------------------------

  lemma HexIsRead(x: Byte)
    ensures |Hex2(x)| == 2 && DigitValue(Hex2(x)[0]) == x / 16 && DigitValue(Hex2(x)[1]) == x % 16
    ensures '\n' !in Hex2(x) && '\0' !in Hex2(x)
  {
  }

  lemma {:induction false} HexBytesAreRead(bs: seq<Byte>)
    ensures ParseBytes(HexBytes(bs)) == Some(bs) && |HexBytes(bs)| == 2 * |bs|
    ensures '\n' !in HexBytes(bs) && '\0' !in HexBytes(bs)
  {
    hide Hex2, DigitValue;
    if bs == [] {
    } else {
      HexBytesAreRead(bs[1..]);
      HexIsRead(bs[0]);
      assert HexBytes(bs)[2..] == HexBytes(bs[1..]);
      assert [bs[0]] + bs[1..] == bs;
    }
  }

  lemma {:induction false} SumSplits(a: seq<Byte>, b: seq<Byte>)
    ensures Sum(a + b) == Sum(a) + Sum(b)
  {
    if a == [] {
      assert a + b == b;
    } else {
      SumSplits(a[1..], b);
      assert (a + b)[1..] == a[1..] + b;
    }
  }

  /** With its checksum a record adds up to 0xff modulo 256. */
  lemma ChecksumFits(bs: seq<Byte>)
    ensures Sum(bs + [Checksum(bs)]) % 256 == 0xFF
  {
    SumSplits(bs, [Checksum(bs)]);
    assert Sum([Checksum(bs)]) == Checksum(bs) as int;
  }

  lemma AddressIsRead(a: nat)
    requires a < SPACE
    ensures BigEndian(AddressBytes(a)) == a
  {
    var b := AddressBytes(a);
    assert BigEndian([]) == 0;
    FourDigits(a);
    hide BigEndian;
    OneMore([], b[0], [b[0]]);
    OneMore([b[0]], b[1], [b[0], b[1]]);
    OneMore([b[0], b[1]], b[2], [b[0], b[1], b[2]]);
    OneMore([b[0], b[1], b[2]], b[3], b);
  }

  lemma FourDigits(a: nat)
    requires a < SPACE
    ensures 256 * (256 * (256 * (a / 256 / 256 / 256 % 256) + a / 256 / 256 % 256) + a / 256 % 256) + a % 256 == a
  {
  }

  lemma OneMore(bs: seq<Byte>, x: Byte, cs: seq<Byte>)
    requires cs == bs + [x]
    ensures BigEndian(cs) == 256 * BigEndian(bs) + x as int
  {
    assert cs[..|cs| - 1] == bs;
  }

  /** A data record is at most 47 characters long, newline included, and is read as what it was made from. */
  lemma RecordIsRead(address: nat, bs: seq<Byte>)
    requires address < SPACE && |bs| <= BYTES_PER_RECORD
    ensures var t := RecordText(address, bs);
            && |t| == 14 + 2 * |bs| && '\n' !in t
            && ParseRecord(t) == Some(Record('3', AddressBytes(address) + bs))
    ensures BigEndian((AddressBytes(address) + bs)[..4]) == address && (AddressBytes(address) + bs)[4..] == bs
  {
    var c := Covered(address, bs);
    var all := c + [Checksum(c)];
    HexBytesAreRead(all);
    ChecksumFits(c);
    AddressIsRead(address);
    var t := RecordText(address, bs);
    assert t[2..] == HexBytes(all);
    assert all[1..|all| - 1] == AddressBytes(address) + bs;
    assert (AddressBytes(address) + bs)[..4] == AddressBytes(address);
  }

  lemma {:induction false} LineIsSplit(line: string, rest: string)
    requires '\n' !in line && Lines(rest).Some?
    ensures Lines(line + "\n" + rest) == Some([line] + Lines(rest).value)
  {
    var text := line + "\n" + rest;
    if line == [] {
      assert text[1..] == rest;
    } else {
      LineIsSplit(line[1..], rest);
      assert text[1..] == line[1..] + "\n" + rest;
      assert [line[0]] + line[1..] == line;
    }
  }

  lemma {:induction false} TextIsSplit(lines: seq<string>)
    requires forall i | 0 <= i < |lines| :: '\n' !in lines[i]
    ensures Lines(Text(lines)) == Some(lines)
  {
    if lines == [] {
    } else {
      TextIsSplit(lines[1..]);
      LineIsSplit(lines[0], Text(lines[1..]));
      assert [lines[0]] + lines[1..] == lines;
    }
  }

  lemma {:induction false} RecordsAreShort(mem: Memory, address: nat, count: nat)
    ensures forall i | 0 <= i < |Records(mem, address, count)| :: |Records(mem, address, count)[i]| <= 46
    decreases count
  {
    if count == 0 {
    } else {
      var n := Least(count);
      RecordsAreShort(mem, address + n, count - n);
      RecordIsRead(address % SPACE, Slice(mem, address, n));
    }
  }

  /** There are as many records as it takes, and all but the last one are full: sixteen bytes each. */
  lemma {:induction false} RecordsAreFull(mem: Memory, address: nat, count: nat)
    ensures |Records(mem, address, count)| == (count + 15) / 16
    ensures forall i | 0 <= i < count / 16 :: |Records(mem, address, count)[i]| == 46
    decreases count
  {
    hide RecordText, Slice;
    if count == 0 {
    } else {
      var n := Least(count);
      RecordsAreFull(mem, address + n, count - n);
      FullRecordLength(address % SPACE, Slice(mem, address, n));
    }
  }

  lemma FullRecordLength(address: nat, bs: seq<Byte>)
    requires address < SPACE && |bs| <= BYTES_PER_RECORD
    ensures |bs| == 16 ==> |RecordText(address, bs)| == 46
  {
    RecordIsRead(address, bs);
    hide RecordText;
  }

  /** The lines around the data records, letter by letter. */
  lemma EmptyUpload(mem: Memory, address: nat)
    ensures Upload(mem, address, 0) == ["S0030000FC", "S70500000000FA"]
  {
  }

  lemma {:induction false} RecordsHaveNoNewline(mem: Memory, address: nat, count: nat)
    ensures forall i | 0 <= i < |Records(mem, address, count)| :: '\n' !in Records(mem, address, count)[i]
    decreases count
  {
    if count == 0 {
    } else {
      var n := Least(count);
      RecordsHaveNoNewline(mem, address + n, count - n);
      RecordIsRead(address % SPACE, Slice(mem, address, n));
    }
  }

  lemma DataRecordLoads(address: nat, bs: seq<Byte>, rest: seq<string>)
    requires address < SPACE && |bs| <= BYTES_PER_RECORD && Loads(rest).Some?
    ensures Loads([RecordText(address, bs)] + rest) == Some(LoadsAt(address, bs) + Loads(rest).value)
  {
    RecordIsRead(address, bs);
    hide RecordText, BigEndian, AddressBytes, ParseRecord, LoadsAt;
    assert ([RecordText(address, bs)] + rest)[1..] == rest;
  }

  /** The records and the end record load exactly the memory range, in order. */
  lemma {:induction false} RecordsAreLoaded(mem: Memory, address: nat, count: nat)
    ensures Loads(Records(mem, address, count) + [END]) == Some(LoadsAt(address, Slice(mem, address, count)))
    decreases count
  {
    hide RecordText, Slice, ParseRecord, LoadsAt, Loads;
    if count == 0 {
      NothingIsLoaded(mem, address);
    } else {
      var n := Least(count);
      var bs := Slice(mem, address, n);
      var rest := Records(mem, address + n, count - n) + [END];
      RecordsAreLoaded(mem, address + n, count - n);
      DataRecordLoads(address % SPACE, bs, rest);
      assert Records(mem, address, count) + [END] == [RecordText(address % SPACE, bs)] + rest;
      LoadsSplit(mem, address, n, count - n);
    }
  }

  lemma NothingIsLoaded(mem: Memory, address: nat)
    ensures Loads(Records(mem, address, 0) + [END]) == Some(LoadsAt(address, Slice(mem, address, 0)))
  {
    EndIsRead();
    hide ParseRecord;
    assert LoadsAt(address, Slice(mem, address, 0)) == [];
    assert Records(mem, address, 0) + [END] == [END];
  }

  lemma LoadsSplit(mem: Memory, address: nat, m: nat, n: nat)
    ensures LoadsAt(address % SPACE, Slice(mem, address, m)) + LoadsAt(address + m, Slice(mem, address + m, n))
            == LoadsAt(address, Slice(mem, address, m + n))
  {
  }

  lemma BytePrepended(x: Byte, s: string, bs: seq<Byte>, t: string, cs: seq<Byte>)
    requires t == Hex2(x) + s && ParseBytes(s) == Some(bs) && cs == [x] + bs
    ensures ParseBytes(t) == Some(cs) && Sum(cs) == x as int + Sum(bs)
  {
    hide Hex2, DigitValue;
    HexIsRead(x);
    assert t[2..] == s;
    assert cs[1..] == bs;
  }

  lemma NothingParsed()
    ensures ParseBytes("") == Some([]) && Sum([]) == 0
  {
  }

  lemma EndBytes()
    ensures ParseBytes("0500000000FA") == Some([5, 0, 0, 0, 0, 0xFA]) && Sum([5, 0, 0, 0, 0, 0xFA]) == 255
  {
    hide ParseBytes, Sum;
    NothingParsed();
    BytePrepended(0xFA, "", [], "FA", [0xFA]);
    BytePrepended(0, "FA", [0xFA], "00FA", [0, 0xFA]);
    BytePrepended(0, "00FA", [0, 0xFA], "0000FA", [0, 0, 0xFA]);
    BytePrepended(0, "0000FA", [0, 0, 0xFA], "000000FA", [0, 0, 0, 0xFA]);
    BytePrepended(0, "000000FA", [0, 0, 0, 0xFA], "00000000FA", [0, 0, 0, 0, 0xFA]);
    BytePrepended(5, "00000000FA", [0, 0, 0, 0, 0xFA], "0500000000FA", [5, 0, 0, 0, 0, 0xFA]);
  }

  lemma StartBytes()
    ensures ParseBytes("030000FC") == Some([3, 0, 0, 0xFC]) && Sum([3, 0, 0, 0xFC]) == 255
  {
    hide ParseBytes, Sum;
    NothingParsed();
    BytePrepended(0xFC, "", [], "FC", [0xFC]);
    BytePrepended(0, "FC", [0xFC], "00FC", [0, 0xFC]);
    BytePrepended(0, "00FC", [0, 0xFC], "0000FC", [0, 0, 0xFC]);
    BytePrepended(3, "0000FC", [0, 0, 0xFC], "030000FC", [3, 0, 0, 0xFC]);
  }

  lemma EndIsRead()
    ensures ParseRecord(END) == Some(Record('7', [0, 0, 0, 0]))
  {
    EndBytes();
    hide ParseBytes, Sum;
    assert END == "S7" + "0500000000FA";
    assert END[2..] == "0500000000FA";
    var bs: seq<Byte> := [5, 0, 0, 0, 0, 0xFA];
    assert bs[1..|bs| - 1] == [0, 0, 0, 0];
  }

  lemma StartIsRead()
    ensures ParseRecord(START) == Some(Record('0', [0, 0]))
  {
    StartBytes();
    hide ParseBytes, Sum;
    assert START == "S0" + "030000FC";
    assert START[2..] == "030000FC";
    var bs: seq<Byte> := [3, 0, 0, 0xFC];
    assert bs[1..|bs| - 1] == [0, 0];
  }

  lemma HeaderLoadsNothing(rest: seq<string>)
    requires Loads(rest).Some?
    ensures Loads([START] + rest) == Loads(rest)
  {
    StartIsRead();
    hide ParseRecord;
    assert ([START] + rest)[1..] == rest;
  }

  /** The whole upload. */
  function Upload(mem: Memory, address: nat, count: nat): seq<string> {
    [START] + Records(mem, address, count) + [END]
  }

  lemma UploadHasNoNewline(mem: Memory, address: nat, count: nat)
    ensures forall i | 0 <= i < |Upload(mem, address, count)| :: '\n' !in Upload(mem, address, count)[i]
  {
    RecordsHaveNoNewline(mem, address, count);
  }

  /** Every upload decodes to exactly the bytes of the memory range at their addresses. */
  lemma UploadIsExact(mem: Memory, address: nat, count: nat)
    ensures Decode(Text(Upload(mem, address, count))) == Some(LoadsAt(address, Slice(mem, address, count)))
  {
    var lines := Upload(mem, address, count);
    UploadHasNoNewline(mem, address, count);
    TextIsSplit(lines);
    RecordsAreLoaded(mem, address, count);
    hide LoadsAt, Slice, Records, Text, Lines, Loads;
    HeaderLoadsNothing(Records(mem, address, count) + [END]);
    assert lines == [START] + (Records(mem, address, count) + [END]);
  }

  // ---------------------------------------------------------------------------------------------
  // The writer
  // ---------------------------------------------------------------------------------------------

  /** A string in a character buffer ends at the first NUL. */
  function CString(s: seq<char>): string {
    if s == [] || s[0] == '\0' then [] else [s[0]] + CString(s[1..])
  }

  lemma {:induction false} StringEnds(t: string, s: seq<char>)
    requires '\0' !in t && |t| < |s| && s[..|t|] == t && s[|t|] == '\0'
    ensures CString(s) == t
  {
    if t == [] {
    } else {
      assert s[0] == t[0] && s[1..][..|t| - 1] == t[1..];
      StringEnds(t[1..], s[1..]);
    }
  }

  lemma {:induction false} HexBytesSplit(a: seq<Byte>, b: seq<Byte>)
    ensures HexBytes(a + b) == HexBytes(a) + HexBytes(b)
  {
    hide Hex2;
    if a == [] {
      assert a + b == b;
    } else {
      HexBytesSplit(a[1..], b);
      assert (a + b)[1..] == a[1..] + b;
      assert HexBytes(a + b) == Hex2(a[0]) + (HexBytes(a[1..]) + HexBytes(b));
    }
  }

  /** A string printed into a buffer, with its NUL. */
  method Print(buf: array<char>, t: string)
    requires |t| < buf.Length
    modifies buf
    ensures buf[..|t|] == t && buf[|t|] == '\0'
  {
    var i := 0;
    while i < |t|
      invariant i <= |t| && buf[..i] == t[..i]
    {
      buf[i] := t[i];
      i := i + 1;
    }
    buf[i] := '\0';
  }

  /** One byte of data in hexadecimal behind those before it. */
  method Collect(data: array<char>, reclen: nat, c: Byte, ghost bs: seq<Byte>)
    requires data.Length == 2 * BYTES_PER_RECORD + 1 && reclen == |bs| < BYTES_PER_RECORD
    requires data[..2 * reclen] == HexBytes(bs)
    modifies data
    ensures data[..2 * (reclen + 1)] == HexBytes(bs + [c]) && data[2 * (reclen + 1)] == '\0'
  {
    data[2 * reclen] := HEX[c / 16];
    data[2 * reclen + 1] := HEX[c % 16];
    data[2 * reclen + 2] := '\0';
    HexBytesSplit(bs, [c]);
    assert HexBytes([c]) == Hex2(c);
  }

  /** The sum of the low bytes of a number. */
  method AddBytes(x: nat, n: nat, sum0: nat) returns (sum: nat)
    ensures sum == sum0 + LowBytes(x, n)
  {
    sum := sum0;
    var i, rest := 0, x;
    while i < n
      invariant i <= n && sum + LowBytes(rest, n - i) == sum0 + LowBytes(x, n)
    {
      sum := sum + rest % 256;
      rest := rest / 256;
      i := i + 1;
    }
  }

  function LowBytes(x: nat, n: nat): nat {
    if n == 0 then 0 else x % 256 + LowBytes(x / 256, n - 1)
  }

  lemma SumCons(x: Byte, bs: seq<Byte>, cs: seq<Byte>)
    requires cs == [x] + bs
    ensures Sum(cs) == x as int + Sum(bs)
  {
    assert cs[1..] == bs;
  }

  lemma LowByte(x: nat, n: nat)
    ensures LowBytes(x, n + 1) == x % 256 + LowBytes(x / 256, n)
  {
  }

  lemma ShortNumber(x: Byte)
    ensures LowBytes(x, 2) == x as int
  {
    LowByte(x, 1);
    LowByte(0, 0);
    assert LowBytes(0, 0) == 0;
  }

  lemma OneByte(x: Byte)
    ensures HexBytes([x]) == Hex2(x)
  {
    assert HexBytes([x][1..]) == [];
  }

  lemma AddressSum(a: nat)
    ensures LowBytes(a, 4) == Sum(AddressBytes(a))
  {
    var b := AddressBytes(a);
    assert Sum([]) == 0 && LowBytes(a / 256 / 256 / 256 / 256, 0) == 0;
    hide Sum, LowBytes;
    SumCons(b[3], [], [b[3]]);
    SumCons(b[2], [b[3]], [b[2], b[3]]);
    SumCons(b[1], [b[2], b[3]], [b[1], b[2], b[3]]);
    SumCons(b[0], [b[1], b[2], b[3]], b);
    LowByte(a, 3);
    LowByte(a / 256, 2);
    LowByte(a / 256 / 256, 1);
    LowByte(a / 256 / 256 / 256, 0);
  }

  /** The record buffer takes a full record: 46 characters, the newline and the NUL. */
  method BuildRecord(record: array<char>, data: array<char>, reclen: nat, address: nat, sum: nat, ghost bs: seq<Byte>)
    requires record.Length == 2 * BYTES_PER_RECORD + 16 && data.Length == 2 * BYTES_PER_RECORD + 1
    requires reclen == |bs| <= BYTES_PER_RECORD && address < SPACE
    requires data[..2 * reclen] == HexBytes(bs) && data[2 * reclen] == '\0' && sum == Sum(bs)
    modifies record
    ensures CString(record[..]) == RecordText(address, bs) + "\n"
  {
    hide CString, HexBytes, ParseBytes, Sum, Hex2, AddressBytes, LowBytes, RecordText, Checksum;
    var length := 4 + reclen + 1;
    var checksum := AddBytes(length, 2, sum);
    checksum := AddBytes(address, 4, checksum);
    checksum := 255 - checksum % 256;
    HexBytesAreRead(bs);
    StringEnds(HexBytes(bs), data[..]);
    var text := "S3" + Hex2(length) + HexBytes(AddressBytes(address)) + CString(data[..]) + Hex2(checksum) + "\n";
    RecordParts(address, bs, length, sum);
    RecordIsRead(address, bs);
    RecordHasNoNul(address, bs);
    Print(record, text);
    StringEnds(text, record[..]);
  }

  lemma RecordHasNoNul(address: nat, bs: seq<Byte>)
    requires |bs| <= BYTES_PER_RECORD
    ensures '\0' !in RecordText(address, bs)
  {
    HexBytesAreRead(Covered(address, bs) + [Checksum(Covered(address, bs))]);
  }

  lemma RecordSum(address: nat, bs: seq<Byte>, length: Byte)
    requires |bs| <= BYTES_PER_RECORD && length as int == 4 + |bs| + 1
    ensures Sum(Covered(address, bs)) == Sum(bs) + LowBytes(length, 2) + LowBytes(address, 4)
  {
    var a := AddressBytes(address);
    AddressSum(address);
    ShortNumber(length);
    hide AddressBytes, LowBytes, Sum;
    SumSplits([length] + a, bs);
    SumCons(length, a, [length] + a);
  }

  lemma RecordParts(address: nat, bs: seq<Byte>, length: Byte, sum: nat)
    requires address < SPACE && |bs| <= BYTES_PER_RECORD && length as int == 4 + |bs| + 1 && sum == Sum(bs)
    ensures var c := Checksum(Covered(address, bs));
            && c as int == 255 - (sum + LowBytes(length, 2) + LowBytes(address, 4)) % 256
            && RecordText(address, bs) == "S3" + Hex2(length) + HexBytes(AddressBytes(address)) + HexBytes(bs) + Hex2(c)
  {
    hide Sum, LowBytes, RecordText, Covered, HexBytes, Hex2, AddressBytes;
    var c := Checksum(Covered(address, bs));
    RecordSum(address, bs, length);
    RecordPieces(address, bs, length, c);
  }

  lemma RecordPieces(address: nat, bs: seq<Byte>, length: Byte, c: Byte)
    requires |bs| <= BYTES_PER_RECORD && length as int == 4 + |bs| + 1 && c == Checksum(Covered(address, bs))
    ensures RecordText(address, bs) == "S3" + Hex2(length) + HexBytes(AddressBytes(address)) + HexBytes(bs) + Hex2(c)
  {
    var a := AddressBytes(address);
    hide AddressBytes, HexBytes, Hex2, Checksum;
    OneByte(length);
    OneByte(c);
    HexBytesSplit([length] + a + bs, [c]);
    HexBytesSplit([length] + a, bs);
    HexBytesSplit([length], a);
    Regrouped("S3", Hex2(length), HexBytes(a), HexBytes(bs), Hex2(c));
  }

  lemma Regrouped(s: string, t: string, u: string, v: string, w: string)
    ensures s + (t + u + v + w) == s + t + u + v + w
  {
  }

  /** Sends a string up to its NUL; the user may abort after it. */
  method WriteRecord(buf: seq<char>, sent0: string, aborted: bool) returns (rc: int, sent: string)
    ensures sent == sent0 + CString(buf) && rc == if aborted then -1 else 0
  {
    sent := sent0;
    var i := 0;
    while i < |buf| && buf[i] != '\0'
      invariant i <= |buf| && sent + CString(buf[i..]) == sent0 + CString(buf)
    {
      assert buf[i..][1..] == buf[i + 1..];
      sent := sent + [buf[i]];
      i := i + 1;
    }
    assert CString(buf[i..]) == [];
    rc := if aborted then -1 else 0;
  }

  lemma {:induction false} TextGrows(lines: seq<string>, line: string)
    ensures Text(lines + [line]) == Text(lines) + line + "\n"
  {
    if lines == [] {
      assert [line][1..] == [] && Text([line]) == line + "\n" + Text([]);
    } else {
      TextGrows(lines[1..], line);
      assert (lines + [line])[1..] == lines[1..] + [line];
      assert lines[0] + "\n" + (Text(lines[1..]) + line + "\n") == (lines[0] + "\n" + Text(lines[1..])) + line + "\n";
    }
  }

  /** Some bytes of a record have been collected: the memory from `start` on, in the buffer and in the sum. */
  ghost predicate Collected(mem: Memory, start: nat, reclen: nat, data: seq<char>, sum: nat) {
    && reclen <= BYTES_PER_RECORD && 2 * reclen < |data|
    && data[..2 * reclen] == HexBytes(Slice(mem, start, reclen)) && sum == Sum(Slice(mem, start, reclen))
    && (reclen > 0 ==> data[2 * reclen] == '\0')
  }

  lemma SliceGrows(mem: Memory, start: nat, n: nat)
    ensures Slice(mem, start, n + 1) == Slice(mem, start, n) + [mem((start % SPACE + n) % SPACE)]
  {
  }

  method CollectNext(mem: Memory, ghost start: nat, address: nat, reclen: nat, data: array<char>, sum: nat)
    returns (sum': nat)
    requires data.Length == 2 * BYTES_PER_RECORD + 1 && reclen < BYTES_PER_RECORD && address == start % SPACE
    requires Collected(mem, start, reclen, data[..], sum)
    modifies data
    ensures Collected(mem, start, reclen + 1, data[..], sum')
  {
    hide HexBytes, Sum, Slice;
    ghost var bs := Slice(mem, start, reclen);
    var c := mem((address + reclen) % SPACE);
    assert data[..][..2 * reclen] == data[..2 * reclen];
    Collect(data, reclen, c, bs);
    sum' := sum + c;
    SumSplits(bs, [c]);
    SumCons(c, [], [c]);
    NothingParsed();
    SliceGrows(mem, start, reclen);
    assert data[..][..2 * (reclen + 1)] == data[..2 * (reclen + 1)];
  }

  /** The lines up to some point of an upload. */
  ghost predicate Sent(mem: Memory, address0: nat, count0: nat, lines: seq<string>, start: nat, rest: nat,
      sent: string) {
    && [START] + Records(mem, address0, count0) == lines + Records(mem, start, rest)
    && sent == Text(lines)
  }

  lemma SendNext(mem: Memory, address0: nat, count0: nat, lines: seq<string>, start: nat, rest: nat, sent: string,
      n: nat)
    requires Sent(mem, address0, count0, lines, start, rest, sent) && rest > 0 && n == Least(rest)
    ensures var line := RecordText(start % SPACE, Slice(mem, start, n));
            Sent(mem, address0, count0, lines + [line], start + n, rest - n, sent + line + "\n")
  {
    var line := RecordText(start % SPACE, Slice(mem, start, n));
    TextGrows(lines, line);
    hide RecordText, Slice, Text;
    assert lines + ([line] + Records(mem, start + n, rest - n)) == lines + [line] + Records(mem, start + n, rest - n);
  }

  /** What has been sent is a first part of the upload. */
  lemma SentIsPrefix(mem: Memory, address0: nat, count0: nat, lines: seq<string>, start: nat, rest: nat, sent: string)
    requires Sent(mem, address0, count0, lines, start, rest, sent)
    ensures |lines| <= |Upload(mem, address0, count0)| && sent == Text(Upload(mem, address0, count0)[..|lines|])
    ensures rest == 0 ==>
              sent + END + "\n" == Text(Upload(mem, address0, count0)) && |Upload(mem, address0, count0)| == |lines| + 1
  {
    hide RecordText, Slice;
    var u := Upload(mem, address0, count0);
    assert u == lines + Records(mem, start, rest) + [END];
    assert u[..|lines|] == lines;
    TextGrows(lines, END);
  }

  /**
    The upload of a memory range. `lines` is the number of lines that were sent; only a break by the
    user after the last of them ends the upload early.
   */
  method SaveSerial(mem: Memory, address0: nat, count0: nat, aborted: nat -> bool)
    returns (rc: int, sent: string, lines: nat)
    requires address0 < SPACE
    ensures lines <= |Upload(mem, address0, count0)| && sent == Text(Upload(mem, address0, count0)[..lines])
    ensures rc == 0 || rc == -1
    ensures lines > 0 && (lines < |Upload(mem, address0, count0)| ==> rc == -1)
    ensures forall i | 0 <= i < lines :: aborted(i) <==> rc == -1 && i == lines - 1
  {
    hide Text, Records, CString, HexBytes, ParseBytes, Sum, Slice, RecordText, Collected, Sent, Upload, Least;
    var record, data := new char[2 * BYTES_PER_RECORD + 16], new char[2 * BYTES_PER_RECORD + 1];
    var address, count, reclen: nat, checksum: nat := address0, count0, 0, 0;
    ghost var start: nat, sentLines := address0, [START];
    Opening(mem, address0, count0, data[..]);
    lines := 1;
    rc, sent := WriteRecord(START + "\n\0", "", aborted(0));
    assert sent == START + "\n";
    SentIsPrefix(mem, address0, count0, sentLines, start, count0, sent);
    if rc != 0 {
      return;
    }
    while true
      invariant data != record && reclen < BYTES_PER_RECORD && address == start % SPACE && lines == |sentLines| > 0
      invariant forall i | 0 <= i < lines :: !aborted(i)
      invariant Collected(mem, start, reclen, data[..], checksum)
      invariant Sent(mem, address0, count0, sentLines, start, reclen + count, sent)
      decreases count
    {
      if count != 0 {
        checksum := CollectNext(mem, start, address, reclen, data, checksum);
        reclen := reclen + 1;
        count := count - 1;
      }
      if reclen == BYTES_PER_RECORD || count == 0 {
        if reclen != 0 {
          FullRecord(mem, start, reclen, count, data[..], checksum);
          BuildRecord(record, data, reclen, address, checksum, Slice(mem, start, reclen));
          SendNext(mem, address0, count0, sentLines, start, reclen + count, sent, reclen);
          ghost var line := RecordText(start % SPACE, Slice(mem, start, reclen));
          assert sent + (line + "\n") == sent + line + "\n";
          sentLines := sentLines + [line];
          rc, sent := WriteRecord(record[..], sent, aborted(lines));
          lines := lines + 1;
          if rc != 0 {
            SentIsPrefix(mem, address0, count0, sentLines, start + reclen, count, sent);
            return;
          }
        }
        address := (address + reclen) % SPACE;
        start := start + reclen;
        checksum, reclen := 0, 0;
        NothingCollected(mem, start, data[..]);
      }
      if count == 0 {
        break;
      }
    }
    SentIsPrefix(mem, address0, count0, sentLines, start, 0, sent);
    EndText();
    assert sent + (END + "\n") == sent + END + "\n";
    rc, sent := WriteRecord(END + "\n\0", sent, aborted(lines));
    lines := lines + 1;
    ghost var upload := Upload(mem, address0, count0);
    assert upload[..lines] == upload;
  }

  lemma NothingCollected(mem: Memory, start: nat, data: seq<char>)
    requires |data| > 0
    ensures Collected(mem, start, 0, data, 0)
  {
    assert HexBytes(Slice(mem, start, 0)) == [];
  }

  lemma Opening(mem: Memory, address0: nat, count0: nat, data: seq<char>)
    requires |data| > 0
    ensures Collected(mem, address0, 0, data, 0)
    ensures CString(START + "\n\0") == START + "\n"
    ensures Sent(mem, address0, count0, [START], address0, count0, START + "\n")
  {
    NothingCollected(mem, address0, data);
    StringEnds(START + "\n", START + "\n\0");
    TextGrows([], START);
  }

  lemma EndText()
    ensures CString(END + "\n\0") == END + "\n"
  {
    StringEnds(END + "\n", END + "\n\0");
  }

  lemma FullRecord(mem: Memory, start: nat, reclen: nat, count: nat, data: seq<char>, sum: nat)
    requires Collected(mem, start, reclen, data, sum) && reclen > 0 && (reclen == BYTES_PER_RECORD || count == 0)
    ensures reclen == Least(reclen + count) && data[2 * reclen] == '\0'
    ensures data[..2 * reclen] == HexBytes(Slice(mem, start, reclen)) && sum == Sum(Slice(mem, start, reclen))
  {
  }

}
