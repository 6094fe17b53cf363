// S-records: the dump of a memory range, the reader of one record, and the loader
// (common/cmd_load.c, common/s_record.c, include/s_record.h).

module SRecord {
  import opened Words
  import CText

  const SREC_BYTES_PER_RECORD := 16
  const SREC_MAXRECLEN := 516

  const SREC3_START: string := "S0030000FC\n"
  const SREC3_END: string := "S70500000000FA\n"

  // ----- hexadecimal text --------------------------------------------------------------------

  // "%02X" of a byte
  function Hex2(b: byte): (s: string)
    ensures |s| == 2
  {
    [CText.HexDigit(b / 16, true), CText.HexDigit(b % 16, true)]
  }

  function HexAll(data: seq<byte>): (s: string)
    ensures |s| == 2 * |data|
  {
    if data == [] then "" else Hex2(data[0]) + HexAll(data[1..])
  }

  function AddressBytes(a: u32): seq<byte> {
    [a / 0x100_0000, a / 0x1_0000 % 0x100, a / 0x100 % 0x100, a % 0x100]
  }

  lemma {:induction false} HexAppend(a: seq<byte>, b: seq<byte>)
    ensures HexAll(a + b) == HexAll(a) + HexAll(b)
  {
    if a == [] {
      assert a + b == b;
    } else {
      assert (a + b)[1..] == a[1..] + b;
      HexAppend(a[1..], b);
    }
  }

  lemma HexThree(a: byte, b: byte, c: byte)
    ensures HexAll([a, b, c]) == Hex2(a) + Hex2(b) + Hex2(c)
  {
    hide Hex2;
    assert [a, b, c][1..] == [b, c] && [b, c][1..] == [c] && [c][1..] == [];
    assert HexAll([c]) == Hex2(c) && HexAll([b, c]) == Hex2(b) + HexAll([c]);
  }

  // Hexadecimal text is printed in capitals.
  lemma {:induction false} HexCapital(data: seq<byte>)
    ensures forall i :: 0 <= i < |HexAll(data)| ==> '0' <= HexAll(data)[i] <= '9' || 'A' <= HexAll(data)[i] <= 'F'
  {
    if data != [] {
      HexCapital(data[1..]);
    }
  }

  // ~sum & 0xff
  function Check(sum: nat): byte {
    0xFF - sum % 0x100
  }

  // ----- the dump ------------------------------------------------------------------------------

  // Length, address and data of an S3 record.
  function RecordBody(address: u32, data: seq<byte>): (r: seq<byte>)
    requires |data| <= SREC_BYTES_PER_RECORD
    ensures |r| == |data| + 5
  {
    [4 + |data| + 1] + AddressBytes(address) + data
  }

  function RecordBytes(address: u32, data: seq<byte>): (r: seq<byte>)
    requires |data| <= SREC_BYTES_PER_RECORD
    ensures |r| == |data| + 6
  {
    var body := RecordBody(address, data);
    body + [Check(Sum(body))]
  }

  function DataRecord(address: u32, data: seq<byte>): string
    requires |data| <= SREC_BYTES_PER_RECORD
  {
    "S3" + HexAll(RecordBytes(address, data)) + "\n"
  }

  function DataRecords(address: u32, data: seq<byte>): string
    decreases |data|
  {
    if data == [] then ""
    else
      var n := Least(|data|, SREC_BYTES_PER_RECORD);
      DataRecord(address, data[..n]) + DataRecords(Wrap(address + n), data[n..])
  }

  // What save_serial sends for a memory range.
  function Dump(address: u32, data: seq<byte>): string {
    SREC3_START + DataRecords(address, data) + SREC3_END
  }

  // ----- one record ----------------------------------------------------------------------------

  function Hex2Bin(s: string): Option<byte> {
    if |s| >= 2 && CText.IsHexDigit(s[0]) && CText.IsHexDigit(s[1]) then
      Some(CText.HexValue(s[0]) * 16 + CText.HexValue(s[1]))
    else None
  }

  datatype Bytes = NotHex | Bytes(values: seq<byte>, rest: string)

  function ReadBytes(s: string, n: int): (r: Bytes)
    ensures r.Bytes? ==> |r.values| == if n > 0 then n else 0
    decreases n
  {
    if n <= 0 then Bytes([], s)
    else match Hex2Bin(s)
      case None => NotHex
      case Some(b) =>
        match ReadBytes(s[2..], n - 1)
        case NotHex => NotHex
        case Bytes(values, rest) => Bytes([b] + values, rest)
  }

  lemma Hex2Reads(b: byte, rest: string)
    ensures Hex2Bin(Hex2(b) + rest) == Some(b) && (Hex2(b) + rest)[2..] == rest
  {
  }

  // Reading takes bytes off the front of printed ones.
  lemma {:induction false} ReadsHex(data: seq<byte>, k: nat)
    requires k <= |data|
    ensures ReadBytes(HexAll(data), k) == Bytes(data[..k], HexAll(data[k..]))
  {
    if k > 0 {
      Hex2Reads(data[0], HexAll(data[1..]));
      hide Hex2Bin, Hex2;
      ReadsHex(data[1..], k - 1);
      assert data[1..][k - 1..] == data[k..];
      assert [data[0]] + data[1..][..k - 1] == data[..k];
    }
  }

  // Type codes and errors of srec_decode.
  const SREC_START := 0
  const SREC_DATA2 := 1
  const SREC_DATA3 := 2
  const SREC_DATA4 := 3
  const SREC_COUNT := 5
  const SREC_END4 := 7
  const SREC_END3 := 8
  const SREC_END2 := 9
  const SREC_EMPTY := 10
  const SREC_E_BADTYPE := -1
  const SREC_E_NOSREC := -2
  const SREC_E_BADCHKS := -3

  datatype Record = Record(code: int, addr: u32, data: seq<byte>)

  function AfterS(line: string): string {
    if line == "" then "" else if line[0] == 'S' then line[1..] else AfterS(line[1..])
  }

  // Bytes of the address field of a record type.
  function AddressLength(t: char): (n: Option<nat>)
    ensures n.Some? ==> n.value <= 4
  {
    if t == '3' || t == '7' then Some(4)
    else if t == '2' || t == '8' then Some(3)
    else if t == '0' || t == '1' || t == '5' || t == '9' then Some(2)
    else None
  }

  function BigEndian(b: seq<byte>): nat {
    if b == [] then 0 else BigEndian(b[..|b| - 1]) * 0x100 + b[|b| - 1]
  }

  // srec_decode
  function SrecDecode(line: string): Record {
    var s := AfterS(line);
    if s == "" then Record(SREC_EMPTY, 0, [])
    else
      var count := Hex2Bin(s[1..]);
      if count.None? then Record(SREC_E_NOSREC, 0, [])
      else if AddressLength(s[0]).None? then Record(SREC_E_BADTYPE, 0, [])
      else
        var width := AddressLength(s[0]).value;
        var address := ReadBytes(s[3..], width);
        if address.NotHex? then Record(SREC_E_NOSREC, 0, [])
        else
          var data := ReadBytes(address.rest, if s[0] == '5' then 0 else count.value - width - 1);
          if data.NotHex? then Record(SREC_E_NOSREC, 0, [])
          else
            var check := Hex2Bin(data.rest);
            if check.None? then Record(SREC_E_NOSREC, 0, [])
            else Checked(s[0] as int - '0' as int, count.value, address.values, data.values, check.value)
  }

  // The record, if its check byte is right.
  function Checked(code: int, count: byte, address: seq<byte>, data: seq<byte>, check: byte): Record {
    if check != Check(count as int + Sum(address) + Sum(data)) then Record(SREC_E_BADCHKS, 0, [])
    else Record(code, Wrap(BigEndian(address)), data)
  }

  lemma BigEndianFour(b: seq<byte>)
    requires |b| == 4
    ensures BigEndian(b) == ((b[0] as int * 0x100 + b[1]) * 0x100 + b[2]) * 0x100 + b[3]
  {
    assert b[..3][..2] == b[..2] && b[..2][..1] == b[..1] && b[..1][..0] == [];
    assert BigEndian(b[..1]) == b[0];
    var front: nat := BigEndian(b[..2]);
    assert front == b[0] as int * 0x100 + b[1];
  }

  lemma AddressReads(a: u32)
    ensures BigEndian(AddressBytes(a)) == a
  {
    hide BigEndian;
    BigEndianFour(AddressBytes(a));
    assert a / 0x1_0000 == a / 0x100_0000 * 0x100 + a / 0x1_0000 % 0x100;
    assert a / 0x100 == a / 0x1_0000 * 0x100 + a / 0x100 % 0x100;
  }

  lemma BodySum(address: u32, data: seq<byte>)
    requires |data| <= SREC_BYTES_PER_RECORD
    ensures Sum(RecordBody(address, data)) == 5 + |data| + Sum(AddressBytes(address)) + Sum(data)
  {
    var len, a := 4 + |data| + 1, AddressBytes(address);
    hide AddressBytes;
    SumConcat([len] + a, data);
    SumConcat([len], a);
    assert Sum([len]) == len;
  }

  lemma BodyLayout(address: u32, data: seq<byte>)
    requires |data| <= SREC_BYTES_PER_RECORD
    ensures var b := RecordBody(address, data);
            b[0] == 5 + |data| && b[1..5] == AddressBytes(address) && b[5..] == data
  {
  }

  lemma PartsChecked(t: char, width: nat, text: string, len: byte, a: seq<byte>, r1: string, data: seq<byte>, r2: string, check: byte)
    requires AddressLength(t) == Some(width) && t != '5'
    requires Hex2Bin(text) == Some(len) && |text| >= 2 && ReadBytes(text[2..], width) == Bytes(a, r1)
    requires ReadBytes(r1, len as int - width - 1) == Bytes(data, r2) && Hex2Bin(r2) == Some(check)
    ensures SrecDecode(['S', t] + text) == Checked(t as int - '0' as int, len, a, data, check)
  {
    hide Hex2Bin, ReadBytes, AfterS, AddressLength, Checked;
    var line := ['S', t] + text;
    AfterLead(line);
    assert line[1..][0] == t && line[1..][1..] == text && line[1..][3..] == text[2..];
  }

  lemma DecodeParts(t: char, width: nat, text: string, len: byte, a: seq<byte>, r1: string, data: seq<byte>, r2: string)
    requires AddressLength(t) == Some(width) && t != '5'
    requires Hex2Bin(text) == Some(len) && |text| >= 2 && ReadBytes(text[2..], width) == Bytes(a, r1)
    requires ReadBytes(r1, len as int - width - 1) == Bytes(data, r2)
    requires Hex2Bin(r2) == Some(Check(len as int + Sum(a) + Sum(data)))
    ensures SrecDecode(['S', t] + text) == Record(t as int - '0' as int, Wrap(BigEndian(a)), data)
  {
    hide Sum, BigEndian, Hex2Bin, ReadBytes, Check, AddressLength, Wrap, SrecDecode;
    PartsChecked(t, width, text, len, a, r1, data, r2, Check(len as int + Sum(a) + Sum(data)));
  }

  lemma AfterLead(line: string)
    requires line != "" && line[0] == 'S'
    ensures AfterS(line) == line[1..]
  {
  }

  lemma HexLeads(data: seq<byte>)
    requires data != []
    ensures Hex2Bin(HexAll(data)) == Some(data[0]) && HexAll(data)[2..] == HexAll(data[1..])
  {
    Hex2Reads(data[0], HexAll(data[1..]));
  }

  lemma HexParts(all: seq<byte>, n: nat)
    requires |all| == n + 6
    ensures ReadBytes(HexAll(all[1..]), 4) == Bytes(all[1..5], HexAll(all[5..]))
    ensures ReadBytes(HexAll(all[5..]), n) == Bytes(all[5..5 + n], HexAll(all[5 + n..]))
  {
    hide HexAll, ReadBytes;
    ReadsHex(all[1..], 4);
    assert all[1..][4..] == all[5..] && all[1..][..4] == all[1..5];
    ReadsHex(all[5..], n);
    assert all[5..][n..] == all[5 + n..] && all[5..][..n] == all[5..5 + n];
  }

  lemma RecordLayout(address: u32, data: seq<byte>)
    requires |data| <= SREC_BYTES_PER_RECORD
    ensures var all, n, a := RecordBytes(address, data), |data|, AddressBytes(address);
            && all[1..5] == a && all[5..5 + n] == data
            && all[0] == 5 + n && all[5 + n] == Check(Sum(RecordBody(address, data)))
  {
    hide Sum, Check, AddressBytes, RecordBody;
    BodyLayout(address, data);
    var b := RecordBody(address, data);
    FrontSlice(b, Check(Sum(b)), 1, 5);
    FrontSlice(b, Check(Sum(b)), 5, |b|);
  }

  lemma FrontSlice(b: seq<byte>, c: byte, i: nat, j: nat)
    requires i <= j <= |b|
    ensures (b + [c])[i..j] == b[i..j] && (j == |b| ==> b[i..j] == b[i..])
  {
  }

  // An S3 record, without its line feed, decodes to the address and the data it was made of.
  lemma RecordDecodes(address: u32, data: seq<byte>)
    requires |data| <= SREC_BYTES_PER_RECORD
    ensures SrecDecode("S3" + HexAll(RecordBytes(address, data))) == Record(SREC_DATA4, address, data)
  {
    hide Sum, BigEndian, AddressBytes, RecordBody, RecordBytes, Hex2Bin, ReadBytes, HexAll, Check, SrecDecode, Wrap;
    RecordLayout(address, data);
    BodySum(address, data);
    var all, n, a := RecordBytes(address, data), |data|, AddressBytes(address);
    HexLeads(all);
    HexParts(all, n);
    HexLeads(all[5 + n..]);
    DecodeParts('3', 4, HexAll(all), all[0], a, HexAll(all[5..]), data, HexAll(all[5 + n..]));
    AddressReads(address);
    WrapSmall(address);
  }

  lemma WrapSmall(a: u32)
    ensures Wrap(a) == a
  {
  }

  lemma BareReads(t: char, width: nat, a: seq<byte>, check: byte)
    requires AddressLength(t) == Some(width) && |a| == width
    ensures var text := HexAll([width + 1] + a + [check]);
            && Hex2Bin(text) == Some(width + 1) && |text| >= 2
            && ReadBytes(text[2..], width) == Bytes(a, HexAll([check]))
            && Hex2Bin(HexAll([check])) == Some(check)
            && ReadBytes(HexAll([check]), 0) == Bytes([], HexAll([check]))
  {
    hide Hex2Bin, HexAll, AddressLength;
    var all: seq<byte> := [width + 1] + a + [check];
    HexLeads(all);
    assert all[1..] == a + [check];
    HexLeads([check]);
    ReadsHex(a + [check], width);
    assert (a + [check])[..width] == a && (a + [check])[width..] == [check];
  }

  lemma BareParts(t: char, width: nat, text: string, a: seq<byte>, rest: string, check: byte)
    requires AddressLength(t) == Some(width) && t != '5' && |a| == width
    requires Hex2Bin(text) == Some(width + 1) && |text| >= 2 && ReadBytes(text[2..], width) == Bytes(a, rest)
    requires Hex2Bin(rest) == Some(check) && ReadBytes(rest, 0) == Bytes([], rest)
    requires check == Check(width + 1 + Sum(a))
    ensures SrecDecode(['S', t] + text) == Record(t as int - '0' as int, Wrap(BigEndian(a)), [])
  {
    hide Hex2Bin, Check, BigEndian, SrecDecode, AddressLength, Wrap, Sum, ReadBytes;
    SumNothing();
    DecodeParts(t, width, text, width + 1, a, rest, [], rest);
  }

  // A record without data.
  lemma BareDecodes(t: char, width: nat, a: seq<byte>, check: byte)
    requires AddressLength(t) == Some(width) && t != '5' && |a| == width
    requires check == Check(width + 1 + Sum(a))
    ensures SrecDecode(['S', t] + HexAll([width + 1] + a + [check])) == Record(t as int - '0' as int, Wrap(BigEndian(a)), [])
  {
    BareReads(t, width, a, check);
    hide Hex2Bin, Check, BigEndian, SrecDecode, HexAll, AddressLength, Wrap, Sum, ReadBytes;
    BareParts(t, width, HexAll([width + 1] + a + [check]), a, HexAll([check]), check);
  }

  lemma StartDecodes()
    ensures SREC3_START == "S0" + HexAll([3, 0, 0, 0xFC]) + "\n"
    ensures SrecDecode("S0" + HexAll([3, 0, 0, 0xFC])) == Record(SREC_START, 0, [])
  {
    StartText();
    assert "S0" + "030000FC" + "\n" == SREC3_START;
    hide HexAll, Check, Sum, SrecDecode, BigEndian;
    BareDecodes('0', 2, [0, 0], 0xFC);
    assert [3] + [0, 0] + [0xFC] == [3, 0, 0, 0xFC];
  }

  lemma StartText()
    ensures HexAll([3, 0, 0, 0xFC]) == "030000FC"
    ensures Check(3) == 0xFC && Sum([0, 0]) == 0 && BigEndian([0, 0]) == 0
  {
    HexAppend([3, 0], [0, 0xFC]);
    assert [3, 0] + [0, 0xFC] == [3, 0, 0, 0xFC];
    assert HexAll([3, 0]) == "0300" && HexAll([0, 0xFC]) == "00FC";
    assert [0, 0][..1] == [0] && [0][..0] == [];
  }

  lemma EndDecodes()
    ensures SREC3_END == "S7" + HexAll([5, 0, 0, 0, 0, 0xFA]) + "\n"
    ensures SrecDecode("S7" + HexAll([5, 0, 0, 0, 0, 0xFA])) == Record(SREC_END4, 0, [])
  {
    EndText();
    hide HexAll, SrecDecode, BigEndian, Check, Sum;
    assert SREC3_END == "S7" + HexAll([5, 0, 0, 0, 0, 0xFA]) + "\n" by {
      EndShape();
    }
    BigEndianFour([0, 0, 0, 0]);
    BareDecodes('7', 4, [0, 0, 0, 0], 0xFA);
    assert [5] + [0, 0, 0, 0] + [0xFA] == [5, 0, 0, 0, 0, 0xFA];
  }

  lemma EndShape()
    ensures "S7" + "0500000000FA" + "\n" == SREC3_END
  {
  }

  lemma EndText()
    ensures HexAll([5, 0, 0, 0, 0, 0xFA]) == "0500000000FA"
    ensures Check(5) == 0xFA && Sum([0, 0, 0, 0]) == 0
  {
    SumConcat([0, 0], [0, 0]);
    assert [0, 0] + [0, 0] == [0, 0, 0, 0] && [0, 0][..1] == [0] && [0][..0] == [];
    HexAppend([5, 0, 0], [0, 0, 0xFA]);
    assert [5, 0, 0] + [0, 0, 0xFA] == [5, 0, 0, 0, 0, 0xFA];
    HexThree(5, 0, 0);
    HexThree(0, 0, 0xFA);
    assert Hex2(5) == "05" && Hex2(0) == "00" && Hex2(0xFA) == "FA";
    hide HexAll, Hex2;
  }
}
