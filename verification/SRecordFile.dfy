// Whole S-record files of every address width, as load_serial takes them (common/cmd_load.c,
// common/s_record.c).

module SRecordFile {
  import opened Words
  import CText
  import opened SRecord
  import opened SRecordLoad

  // ----- one record -----------------------------------------------------------------------------

  // S1 and S9, S2 and S8, S3 and S7 carry two, three and four bytes of address; the header S0 and
  // the count S5 have the form of S1.
  predicate Kind(t: char, width: nat) {
    || (width == 2 && (t == '0' || t == '1' || t == '5' || t == '9'))
    || (width == 3 && (t == '2' || t == '8'))
    || (width == 4 && (t == '3' || t == '7'))
  }

  predicate InWidth(address: u32, width: nat) {
    || width == 4
    || (width == 3 && address < 0x100_0000)
    || (width == 2 && address < 0x1_0000)
  }

  function AddressField(width: nat, address: u32): (r: seq<byte>)
    requires 2 <= width <= 4
    ensures |r| == width
  {
    AddressBytes(address)[4 - width..]
  }

  // Length, address and data.
  function Body(width: nat, address: u32, data: seq<byte>): (r: seq<byte>)
    requires 2 <= width <= 4 && width + |data| + 1 <= 0xFF
  {
    [width + |data| + 1] + AddressField(width, address) + data
  }

  function RecordText(t: char, width: nat, address: u32, data: seq<byte>, check: byte): string
    requires 2 <= width <= 4 && width + |data| + 1 <= 0xFF
  {
    ['S', t] + HexAll(Body(width, address, data) + [check])
  }

  function RightCheck(width: nat, address: u32, data: seq<byte>): byte
    requires 2 <= width <= 4 && width + |data| + 1 <= 0xFF
  {
    0xFF - Sum(Body(width, address, data)) % 0x100
  }

  lemma FieldReads(width: nat, address: u32)
    requires 2 <= width <= 4 && InWidth(address, width)
    ensures BigEndian(AddressField(width, address)) == address
  {
    AddressReads(address);
    var b := AddressBytes(address);
    if width == 4 {
      assert AddressField(width, address) == b;
    } else {
      assert b[0] == 0 && (width == 2 ==> b[1] == 0);
      hide AddressBytes;
      BigEndianFour(b);
      BigEndianShort(b);
    }
  }

  lemma BigEndianShort(b: seq<byte>)
    requires |b| == 4
    ensures BigEndian(b[1..]) == (b[1] as int * 0x100 + b[2]) * 0x100 + b[3]
    ensures BigEndian(b[2..]) == b[2] as int * 0x100 + b[3]
  {
    var c, d := b[1..], b[2..];
    assert c[..2][..1] == c[..1] && c[..1][..0] == [] && d[..1][..0] == [];
    assert BigEndian(c[..1]) == c[0] && BigEndian(d[..1]) == d[0];
    assert BigEndian(c[..2]) == c[0] as int * 0x100 + c[1];
  }

  lemma BodySums(width: nat, address: u32, data: seq<byte>)
    requires 2 <= width <= 4 && width + |data| + 1 <= 0xFF
    ensures Sum(Body(width, address, data)) == width + |data| + 1 + Sum(AddressField(width, address)) + Sum(data)
  {
    hide AddressField, Sum;
    SumThree(width + |data| + 1, AddressField(width, address), data);
  }

  lemma SumThree(len: byte, a: seq<byte>, data: seq<byte>)
    ensures Sum([len] + a + data) == len + Sum(a) + Sum(data)
  {
    hide Sum;
    SumConcat([len] + a, data);
    SumConcat([len], a);
    SumAlone(len);
  }

  lemma SumAlone(b: byte)
    ensures Sum([b]) == b
  {
    SumNothing();
    SumOne([], b);
    assert [] + [b] == [b];
  }

  // The pieces of a record as srec_decode reads them.
  lemma PiecesRead(len: byte, a: seq<byte>, data: seq<byte>, check: byte)
    ensures var text := HexAll([len] + a + data + [check]);
            && |text| >= 2 && Hex2Bin(text) == Some(len)
            && ReadBytes(text[2..], |a|) == Bytes(a, HexAll(data + [check]))
            && ReadBytes(HexAll(data + [check]), |data|) == Bytes(data, HexAll([check]))
            && Hex2Bin(HexAll([check])) == Some(check)
  {
    hide Hex2Bin, HexAll, ReadBytes;
    var all := [len] + a + data + [check];
    HexLeads(all);
    assert all[1..] == a + (data + [check]);
    ReadsHex(a + (data + [check]), |a|);
    assert (a + (data + [check]))[..|a|] == a && (a + (data + [check]))[|a|..] == data + [check];
    ReadsHex(data + [check], |data|);
    assert (data + [check])[..|data|] == data && (data + [check])[|data|..] == [check];
    HexLeads([check]);
  }

  lemma KindLength(t: char, width: nat)
    requires Kind(t, width)
    ensures AddressLength(t) == Some(width)
  {
  }

  // A count record has no data.
  lemma TypedDecodes(t: char, width: nat, address: u32, data: seq<byte>)
    requires Kind(t, width) && InWidth(address, width) && width + |data| + 1 <= 0xFF && (t == '5' ==> data == [])
    ensures SrecDecode(RecordText(t, width, address, data, RightCheck(width, address, data)))
         == Record(t as int - '0' as int, address, data)
  {
    hide Hex2Bin, HexAll, ReadBytes, AddressField, InWidth, Sum, BigEndian, SrecDecode, AddressLength, Wrap, Check, RightCheck;
    KindLength(t, width);
    FieldReads(width, address);
    WrapSmall(address);
    var len, a, check := width + |data| + 1, AddressField(width, address), RightCheck(width, address, data);
    CheckIsRight(width, address, data);
    PiecesRead(len, a, data, check);
    var text := HexAll([len] + a + data + [check]);
    if t == '5' {
      SumNothing();
      assert [] + [check] == [check];
      hide Kind;
      CountParts(text, a, HexAll(data + [check]), HexAll([check]));
    } else {
      DecodeParts(t, width, text, len, a, HexAll(data + [check]), data, HexAll([check]));
    }
  }

  lemma CheckIsRight(width: nat, address: u32, data: seq<byte>)
    requires 2 <= width <= 4 && width + |data| + 1 <= 0xFF
    ensures RightCheck(width, address, data)
         == Check(width + |data| + 1 + Sum(AddressField(width, address)) + Sum(data))
  {
    hide Sum, AddressField, Body;
    BodySums(width, address, data);
  }

  lemma CountParts(text: string, a: seq<byte>, r1: string, r2: string)
    requires AddressLength('5') == Some(2) && |text| >= 2 && Hex2Bin(text) == Some(3)
    requires ReadBytes(text[2..], 2) == Bytes(a, r1) && r1 == r2
    requires Hex2Bin(r2) == Some(Check(3 + Sum(a)))
    ensures SrecDecode(['S', '5'] + text) == Record(5, Wrap(BigEndian(a)), [])
  {
    hide Sum, BigEndian, Hex2Bin, Check, AfterS, AddressLength, Wrap;
    SumNothing();
    var line := ['S', '5'] + text;
    AfterLead(line);
    assert line[1..][0] == '5' && line[1..][1..] == text && line[1..][3..] == text[2..];
  }

  // A record whose check byte is wrong is an error.
  lemma WrongCheck(t: char, width: nat, address: u32, data: seq<byte>, check: byte)
    requires Kind(t, width) && t != '5' && width + |data| + 1 <= 0xFF
    requires check != RightCheck(width, address, data)
    ensures SrecDecode(RecordText(t, width, address, data, check)).code == SREC_E_BADCHKS
  {
    hide Hex2Bin, HexAll, ReadBytes, AddressField, Sum, BigEndian, SrecDecode, AddressLength, Wrap, Check, RightCheck;
    KindLength(t, width);
    var len, a := width + |data| + 1, AddressField(width, address);
    CheckIsRight(width, address, data);
    PiecesRead(len, a, data, check);
    PartsChecked(t, width, HexAll([len] + a + data + [check]), len, a, HexAll(data + [check]), data, HexAll([check]), check);
  }

  // A record of any other type is an error, and so is one whose length is not hexadecimal.
  lemma TypeRefused(t: char, text: string)
    requires t !in {'0', '1', '2', '3', '5', '7', '8', '9'}
    ensures SrecDecode(['S', t] + text).code == if Hex2Bin(text).Some? then SREC_E_BADTYPE else SREC_E_NOSREC
  {
    hide Hex2Bin, ReadBytes, AfterS;
    var line := ['S', t] + text;
    AfterLead(line);
    assert line[1..][0] == t && line[1..][1..] == text;
  }

  // What stands in front of the first S is passed over.
  lemma {:induction false} LeadSkipped(lead: string, line: string)
    requires 'S' !in lead
    ensures SrecDecode(lead + line) == SrecDecode(line)
  {
    AfterSkips(lead, line);
    hide AfterS, Hex2Bin, ReadBytes, AddressLength, Checked;
  }

  lemma {:induction false} AfterSkips(lead: string, line: string)
    requires 'S' !in lead
    ensures AfterS(lead + line) == AfterS(line)
  {
    if lead == "" {
      assert lead + line == line;
    } else {
      assert (lead + line)[1..] == lead[1..] + line;
      AfterSkips(lead[1..], line);
    }
  }

  // ----- lines -----------------------------------------------------------------------------------

  // Every way a line can end.
  lemma {:induction false} LineRead(text: string, c: char, rest: string, room: nat)
    requires PlainText(text) && !Plain(c)
    ensures |text| < room ==>
              ReadLine(text + ([c] + rest), room) == if c == '\r' || c == '\n' then Line(text, rest) else Stopped
    ensures ReadLine(text + rest, |text|) == Line(text, rest)
  {
    var input := text + ([c] + rest);
    if text == "" {
      assert input[1..] == rest && text + rest == rest;
    } else {
      assert input[1..] == text[1..] + ([c] + rest) && (text + rest)[1..] == text[1..] + rest;
      assert Plain(text[0]);
      LineRead(text[1..], c, rest, if room > 0 then room - 1 else 0);
    }
  }

  predicate LineEnd(eol: string) {
    eol == "\n" || eol == "\r" || eol == "\r\n"
  }

  // What the loop does with a line.
  lemma LineLoads(input: string, text: string, rest: string, offset: int, st: LoadState)
    requires ReadLine(input, SREC_MAXRECLEN) == Line(text, rest)
    ensures var r, now := SrecDecode(text), Load(input, offset, st);
            && (r.code < 0 ==> now == Aborted(st.mem))
            && (1 <= r.code <= 3 ==> now == Load(rest, offset, Store(st, Wrap(r.addr + offset), r.data)))
            && (7 <= r.code <= 9 ==> now == Loaded(st.mem, st.start, Wrap(st.end - st.start + 1), r.addr))
            && (r.code == 0 || r.code == 5 || r.code == 10 ==> now == Load(rest, offset, st))
  {
    hide SrecDecode, Store, Wrap, ReadLine;
  }

  // What a record does, whichever way its line ends.
  lemma LineTaken(text: string, eol: string, rest: string, offset: int, st: LoadState)
    requires PlainText(text) && |text| < SREC_MAXRECLEN && LineEnd(eol)
    ensures var r, now := SrecDecode(text), Load(text + (eol + rest), offset, st);
            && (r.code < 0 ==> now == Aborted(st.mem))
            && (1 <= r.code <= 3 ==> now == Load(rest, offset, Store(st, Wrap(r.addr + offset), r.data)))
            && (7 <= r.code <= 9 ==> now == Loaded(st.mem, st.start, Wrap(st.end - st.start + 1), r.addr))
            && (r.code == 0 || r.code == 5 || r.code == 10 ==> now == Load(rest, offset, st))
  {
    hide SrecDecode, Store, Wrap, PlainText, Load, ReadLine;
    var behind := eol[1..] + rest;
    LineRead(text, eol[0], behind, SREC_MAXRECLEN);
    assert [eol[0]] + behind == eol + rest;
    LineLoads(text + (eol + rest), text, behind, offset, st);
    if eol == "\r\n" {
      assert eol[1..] == "\n";
      BlankLine(rest, offset, st);
      BlankLine(rest, offset, Store(st, Wrap(SrecDecode(text).addr + offset), SrecDecode(text).data));
    } else {
      assert behind == rest;
    }
  }

  // An empty line is passed over.
  lemma BlankLine(rest: string, offset: int, st: LoadState)
    ensures Load("\n" + rest, offset, st) == Load(rest, offset, st)
  {
    assert ("\n" + rest)[1..] == rest;
    assert ReadLine("\n" + rest, SREC_MAXRECLEN) == Line("", rest);
    assert SrecDecode("").code == SREC_EMPTY;
    hide SrecDecode, ReadLine;
  }

  // A NUL or ^C ends the transfer wherever it comes in.
  lemma StopAborts(text: string, c: char, rest: string, offset: int, st: LoadState)
    requires PlainText(text) && |text| < SREC_MAXRECLEN && (c == NUL || c == CTRL_C)
    ensures Load(text + ([c] + rest), offset, st) == Aborted(st.mem)
  {
    LineRead(text, c, rest, SREC_MAXRECLEN);
    hide ReadLine, PlainText;
  }

  // ----- files --------------------------------------------------------------------------------------

  // A header, a data record, or a count of records; and the way its line ends.
  datatype Rec =
    | Header(text: seq<byte>, eol: string)
    | Data(width: nat, address: u32, data: seq<byte>, eol: string)
    | Count(number: u32, eol: string)

  predicate ValidRec(r: Rec) {
    && LineEnd(r.eol)
    && match r
       case Header(text, _) => |text| + 3 <= 0xFF
       case Data(width, address, data, _) => 2 <= width <= 4 && InWidth(address, width) && width + |data| + 1 <= 0xFF
       case Count(number, _) => number < 0x1_0000
  }

  predicate ValidRecs(recs: seq<Rec>) {
    forall i :: 0 <= i < |recs| ==> ValidRec(recs[i])
  }

  function Printed(t: char, width: nat, address: u32, data: seq<byte>): string
    requires 2 <= width <= 4 && width + |data| + 1 <= 0xFF
  {
    RecordText(t, width, address, data, RightCheck(width, address, data))
  }

  function RecText(r: Rec): string
    requires ValidRec(r)
  {
    match r
    case Header(text, _) => Printed('0', 2, 0, text)
    case Data(2, address, data, _) => Printed('1', 2, address, data)
    case Data(3, address, data, _) => Printed('2', 3, address, data)
    case Data(_, address, data, _) => Printed('3', 4, address, data)
    case Count(number, _) => Printed('5', 2, number, [])
  }

  function FileText(recs: seq<Rec>, rest: string): string
    requires ValidRecs(recs)
    decreases |recs|
  {
    if recs == [] then rest else RecText(recs[0]) + (recs[0].eol + FileText(recs[1..], rest))
  }

  // S9, S8 or S7 with the entry address.
  function EndText(width: nat, entry: u32): string
    requires 2 <= width <= 4
  {
    Printed(if width == 2 then '9' else if width == 3 then '8' else '7', width, entry, [])
  }

  lemma PrintedPlain(t: char, width: nat, address: u32, data: seq<byte>)
    requires 2 <= width <= 4 && width + |data| + 1 <= 0xFF && Plain(t)
    ensures PlainText(Printed(t, width, address, data)) && |Printed(t, width, address, data)| < SREC_MAXRECLEN
  {
    hide HexAll, PlainText, RightCheck;
    RecordIsPlain(t, Body(width, address, data) + [RightCheck(width, address, data)]);
  }

  lemma RecLoads(r: Rec, rest: string, offset: int, st: LoadState)
    requires ValidRec(r)
    ensures Load(RecText(r) + (r.eol + rest), offset, st)
         == Load(rest, offset, if r.Data? then Store(st, Wrap(r.address + offset), r.data) else st)
  {
    hide Load, SrecDecode, PlainText, Printed, Store, Wrap, RecordText;
    var t, width, address, data :=
      if r.Header? then '0' else if r.Count? then '5' else if r.width == 2 then '1' else if r.width == 3 then '2' else '3',
      if r.Data? then r.width else 2,
      if r.Header? then 0 else if r.Count? then r.number else r.address,
      if r.Header? then r.text else if r.Count? then [] else r.data;
    assert RecText(r) == Printed(t, width, address, data);
    PrintedDecodes(t, width, address, data);
    PrintedPlain(t, width, address, data);
    LineTaken(RecText(r), r.eol, rest, offset, st);
  }

  lemma PrintedDecodes(t: char, width: nat, address: u32, data: seq<byte>)
    requires Kind(t, width) && InWidth(address, width) && width + |data| + 1 <= 0xFF && (t == '5' ==> data == [])
    ensures SrecDecode(Printed(t, width, address, data)) == Record(t as int - '0' as int, address, data)
  {
    hide SrecDecode, RecordText, RightCheck;
    TypedDecodes(t, width, address, data);
  }

  // What the data records store.
  function StoreRecs(st: LoadState, recs: seq<Rec>, offset: int): LoadState
    decreases |recs|
  {
    if recs == [] then st
    else StoreRecs(if recs[0].Data? then Store(st, Wrap(recs[0].address + offset), recs[0].data) else st, recs[1..], offset)
  }

  lemma {:induction false} RecsLoad(recs: seq<Rec>, rest: string, offset: int, st: LoadState)
    requires ValidRecs(recs)
    ensures Load(FileText(recs, rest), offset, st) == Load(rest, offset, StoreRecs(st, recs, offset))
    decreases |recs|
  {
    hide Load, RecText, Store, Wrap, ValidRec;
    if recs != [] {
      RecLoads(recs[0], FileText(recs[1..], rest), offset, st);
      RecsLoad(recs[1..], rest, offset, if recs[0].Data? then Store(st, Wrap(recs[0].address + offset), recs[0].data) else st);
    }
  }

  lemma EndLoads(width: nat, entry: u32, eol: string, rest: string, offset: int, st: LoadState)
    requires 2 <= width <= 4 && InWidth(entry, width) && LineEnd(eol)
    ensures Load(EndText(width, entry) + (eol + rest), offset, st)
         == Loaded(st.mem, st.start, Wrap(st.end - st.start + 1), entry)
  {
    hide Load, SrecDecode, PlainText, Printed, Wrap, InWidth;
    var t := if width == 2 then '9' else if width == 3 then '8' else '7';
    PrintedDecodes(t, width, entry, []);
    PrintedPlain(t, width, entry, []);
    LineTaken(EndText(width, entry), eol, rest, offset, st);
  }

  // Reported start and end: the lowest address a record has been stored at, and the highest last
  // address of one.
  predicate Bounds(st: LoadState, recs: seq<Rec>, offset: int, r: LoadState) {
    && r.start <= st.start && st.end <= r.end
    && (forall i :: 0 <= i < |recs| && recs[i].Data? ==>
          r.start <= Wrap(recs[i].address + offset) && LastOf(recs[i], offset) <= r.end)
    && (r.start == st.start || exists i :: 0 <= i < |recs| && recs[i].Data? && r.start == Wrap(recs[i].address + offset))
    && (r.end == st.end || exists i :: 0 <= i < |recs| && recs[i].Data? && r.end == LastOf(recs[i], offset))
  }

  function LastOf(r: Rec, offset: int): u32
    requires r.Data?
  {
    Wrap(Wrap(r.address + offset) + |r.data| - 1)
  }

  lemma BoundsFirst(st: LoadState, st1: LoadState, recs: seq<Rec>, offset: int, r: LoadState)
    requires recs != [] && Bounds(st1, recs[1..], offset, r)
    requires st1 == if recs[0].Data? then Store(st, Wrap(recs[0].address + offset), recs[0].data) else st
    ensures Bounds(st, recs, offset, r)
  {
    hide Wrap, Poke;
    var more := recs[1..];
    assert forall i :: 0 < i < |recs| ==> recs[i] == more[i - 1];
    if r.start != st1.start {
      var i :| 0 <= i < |more| && more[i].Data? && r.start == Wrap(more[i].address + offset);
      assert recs[i + 1] == more[i];
    }
    if r.end != st1.end {
      var i :| 0 <= i < |more| && more[i].Data? && r.end == LastOf(more[i], offset);
      assert recs[i + 1] == more[i];
    }
  }

  lemma {:induction false} RecsBound(st: LoadState, recs: seq<Rec>, offset: int)
    ensures Bounds(st, recs, offset, StoreRecs(st, recs, offset))
    decreases |recs|
  {
    hide Store, Wrap;
    if recs != [] {
      var st1 := if recs[0].Data? then Store(st, Wrap(recs[0].address + offset), recs[0].data) else st;
      RecsBound(st1, recs[1..], offset);
      hide Bounds;
      BoundsFirst(st, st1, recs, offset, StoreRecs(st, recs, offset));
    }
  }

  // The bytes of the data records, put to memory one record after the other.
  function PokeRecs(mem: map<int, byte>, recs: seq<Rec>, offset: int): map<int, byte>
    decreases |recs|
  {
    if recs == [] then mem
    else PokeRecs(if recs[0].Data? then Poke(mem, Wrap(recs[0].address + offset), recs[0].data) else mem, recs[1..], offset)
  }

  lemma {:induction false} RecsPoke(st: LoadState, recs: seq<Rec>, offset: int)
    ensures StoreRecs(st, recs, offset).mem == PokeRecs(st.mem, recs, offset)
    decreases |recs|
  {
    hide Poke, Wrap;
    if recs != [] {
      RecsPoke(if recs[0].Data? then Store(st, Wrap(recs[0].address + offset), recs[0].data) else st, recs[1..], offset);
    }
  }

  // Main result: a file of any records of any address widths, in any order and with any line ends,
  // puts the bytes of its data records to their shifted addresses, reports the lowest and the
  // span up to the highest of them, and returns the entry address of its end record.
  lemma FileLoads(recs: seq<Rec>, width: nat, entry: u32, eol: string, rest: string, offset: int, mem: map<int, byte>)
    requires ValidRecs(recs) && 2 <= width <= 4 && InWidth(entry, width) && LineEnd(eol)
    ensures match Load(FileText(recs, EndText(width, entry) + (eol + rest)), offset, Empty(mem))
            case Loaded(now, start, size, at) =>
              && now == PokeRecs(mem, recs, offset) && at == entry
              && exists end: u32 :: size == Wrap(end - start + 1)
                   && Bounds(Empty(mem), recs, offset, LoadState(now, start, end))
            case _ => false
  {
    hide Load, FileText, EndText, StoreRecs, PokeRecs, Bounds, Wrap, InWidth, ValidRecs;
    var st := StoreRecs(Empty(mem), recs, offset);
    RecsLoad(recs, EndText(width, entry) + (eol + rest), offset, Empty(mem));
    EndLoads(width, entry, eol, rest, offset, st);
    RecsBound(Empty(mem), recs, offset);
    RecsPoke(Empty(mem), recs, offset);
    assert st == LoadState(st.mem, st.start, st.end);
  }
}
