// Tables of common/cmd_jffs2.c that do not survive their own printout, one for each reason.

module MtdExamples {
  import opened Words
  import opened CText
  import opened MtdTypes
  import opened MtdText
  import opened MtdTable

  // ----- a table with two partitions at one offset --------------------------------------------

  // Two partitions one block behind the start of a chip with 4 KiB blocks.
  function Pair(first: u32, second: u32): seq<PartInfo> {
    [PartInfo(first, 0x1000, None, 0), PartInfo(second, 0x1000, None, 0)]
  }

  // The printout of such a table reads back with the two partitions swapped.
  lemma PairSwaps(ids: seq<MtdId>, id: MtdId, first: u32, second: u32)
    requires FindId(ids, id.mtdId) == Some(id) && ':' !in id.mtdId
    requires id.chip == NandChip(0x1000) && id.size >= 0x3000
    requires first in {0x1000, 0x2000} && second in {0x1000, 0x2000}
    ensures var t := [MtdDevice(id, Pair(first, second))];
            && GoodTable(ids, t) && ReadableTable(t)
            && ParseTable(ids, TableText(t)) == Some([MtdDevice(id, Pair(second, first))])
  {
    hide GoodTable, ParseTable, TableText, ReverseRuns;
    PairGood(ids, id, first, second);
    PairTurned(first, second);
    var t := [MtdDevice(id, Pair(first, second))];
    TableRoundTrip(ids, t);
    assert RereadAll(t) == [Reread(t[0])];
  }

  // The reader accepts such a table, and what it then prints reads back as another one.
  lemma EqualOffsetsSwap(ids: seq<MtdId>, id: MtdId)
    requires FindId(ids, id.mtdId) == Some(id) && ':' !in id.mtdId
    requires id.chip == NandChip(0x1000) && id.size >= 0x3000
    ensures var was, now := [MtdDevice(id, Pair(0x1000, 0x2000))], [MtdDevice(id, Pair(0x2000, 0x1000))];
            && GoodTable(ids, was) && NoRepetitions(was) && ReadableTable(was) && !MirroredTable(was)
            && ParseTable(ids, TableText(now)) == Some(was)
            && ParseTable(ids, TableText(was)) == Some(now)
  {
    PairSwaps(ids, id, 0x1000, 0x2000);
    PairSwaps(ids, id, 0x2000, 0x1000);
    hide GoodTable, ParseTable, TableText, ReadableTable, Mirrored, ReverseRuns;
    var was := [MtdDevice(id, Pair(0x1000, 0x2000))];
    MirroredIsFixed(was[0].parts);
    PairTurned(0x1000, 0x2000);
    assert was[0].parts[0].size != Pair(0x2000, 0x1000)[0].size && !Mirrored(was[0].parts);
  }

  lemma PairGood(ids: seq<MtdId>, id: MtdId, first: u32, second: u32)
    requires FindId(ids, id.mtdId) == Some(id) && ':' !in id.mtdId
    requires id.chip == NandChip(0x1000) && id.size >= 0x3000
    requires first in {0x1000, 0x2000} && second in {0x1000, 0x2000}
    ensures GoodTable(ids, [MtdDevice(id, Pair(first, second))])
  {
    assert GoodDevice(ids, MtdDevice(id, Pair(first, second)));
  }

  lemma PairTurned(first: u32, second: u32)
    ensures ReverseRuns(Pair(first, second), []) == Pair(second, first)
  {
    var p := Pair(first, second);
    assert p[1..][1..] == [];
    assert ReverseRuns(p, []) == [] + ReverseRuns(p[1..], [p[0]]);
    assert ReverseRuns(p[1..], [p[0]]) == ReverseRuns([], [p[1]] + [p[0]]);
  }

  // ----- partitions that cannot be read back -----------------------------------------------------

  lemma FourKPrinted()
    ensures SizeText(0x1000) == "4k"
  {
    assert Decimal(4) == "4";
  }

  // Reading "4k", with or without "@4k", in front of another definition.
  lemma FourKScans(at: u32, rest: string)
    requires at == 0 || at == 0x1000
    requires rest != "" && rest[0] == ','
    ensures ScanPart((if at == 0 then "4k" else "4k@4k") + rest)
         == Scanned(PartInfo(0x1000, if at == 0 then OFFSET_NOT_SPECIFIED else at, None, 0), rest[1..])
  {
    hide SizeText, ScanPart;
    FourKPrinted();
    var part := PartInfo(0x1000, at, None, 0);
    assert PartText(None, part) == if at == 0 then "4k" else "4k@4k";
    PartRoundTrip(None, part, rest);
  }

  // A single device's definition, read.
  lemma OneDeviceParses(ids: seq<MtdId>, id: MtdId, text: string, parts: seq<PartInfo>, sorted: seq<PartInfo>)
    requires FindId(ids, id.mtdId) == Some(id) && ':' !in id.mtdId
    requires ScanParts(id, text, 0, []) == Scanned(parts, "") && SortAll(parts, []) == Some(sorted)
    ensures ParseTable(ids, PREFIX + (id.mtdId + ":" + text)) == Some([MtdDevice(id, sorted)])
  {
    hide ScanParts, SortAll, FindId;
    var s := id.mtdId + ":" + text;
    FindBehind(id.mtdId, ':', text);
    assert s[..|id.mtdId|] == id.mtdId && s[|id.mtdId| + 1..] == text;
    assert ScanDevice(ids, [], s) == Scanned(MtdDevice(id, sorted), "");
    assert (PREFIX + s)[|PREFIX|..] == s;
    OneDeviceScanned(ids, s, MtdDevice(id, sorted));
  }

  lemma OneDeviceScanned(ids: seq<MtdId>, s: string, dev: MtdDevice)
    requires s != "" && ScanDevice(ids, [], s) == Scanned(dev, "")
    ensures ScanDevices(ids, s, []) == Some([dev])
  {
    hide ScanDevice;
    assert [] + [dev] == [dev];
  }

  // Two definitions, read one behind the other.
  lemma TwoScan(id: MtdId, s: string, more: string, a: PartInfo, b: PartInfo, first: PartInfo, second: PartInfo)
    requires s != "" && s[0] != ';' && more != "" && more[0] != ';'
    requires ScanPart(s) == Scanned(a, more) && PartValidate(id, Place(a, 0)) == Some(first)
    requires ScanPart(more) == Scanned(b, "")
    requires PartValidate(id, Place(b, Wrap(first.offset + first.size))) == Some(second)
    ensures ScanParts(id, s, 0, []) == Scanned([first, second], "")
  {
    hide ScanPart, PartValidate, Place, Wrap;
    var found := [] + [first];
    var offset := Wrap(first.offset + first.size);
    var offset' := Wrap(second.offset + second.size);
    assert ScanParts(id, s, 0, []) == ScanParts(id, more, offset, found);
    assert ScanParts(id, more, offset, found) == ScanParts(id, "", offset', found + [second]);
    assert ScanParts(id, "", offset', found + [second]) == Scanned(found + [second], "");
    assert found + [second] == [first, second];
  }

  // "-" alone, or "-@0"
  lemma RestScans(s: string, offset: string)
    requires s == "-" + offset && offset in {"", "@0"}
    ensures ScanPart(s) == Scanned(PartInfo(SIZE_REMAINING, if offset == "" then OFFSET_NOT_SPECIFIED else 0, None, 0), "")
  {
    assert s[1..] == offset;
    if offset != "" {
      assert Decimal(0) + "" == "0" && offset[1..] == "0";
      StrtoulReadsDecimal(0, "");
    }
  }

  lemma TwoSorted(first: PartInfo, second: PartInfo)
    requires first.offset != second.offset
    ensures SortAll([first, second], []) == Some(if first.offset < second.offset then [first, second] else [second, first])
  {
    var one, place := [first], if first.offset < second.offset then 1 else 0;
    var two := InsertAt(one, place, second);
    assert [first, second][1..] == [second] && [second][1..] == [] && one[1..] == [];
    assert InsertAt([], 0, first) == one;
    assert SortPosition([], first.offset) == Some(0) && SortPosition(one, second.offset) == Some(place);
    assert SortAll([second], one) == SortAll([], two);
    assert two == if place == 1 then [first, second] else [second, first];
  }

  // What the reader has built and cannot read back.
  lemma Unreadable(ids: seq<MtdId>, text: string, id: MtdId, parts: seq<PartInfo>)
    requires ParseTable(ids, text) == Some([MtdDevice(id, parts)]) && !ReadableParts(parts)
    ensures ParseTable(ids, TableText([MtdDevice(id, parts)])) == None
  {
    hide ParseTable, TableText, ReadableParts, GoodTable;
    var t := [MtdDevice(id, parts)];
    ParseTableGood(ids, text);
    TableRoundTrip(ids, t);
    assert !ReadableParts(t[0].parts);
  }

  // The rest of a chip can be smaller than what the reader accepts as a size.
  lemma ShortRestLost(ids: seq<MtdId>, id: MtdId)
    requires FindId(ids, id.mtdId) == Some(id) && ':' !in id.mtdId
    requires id.chip == NandChip(0x200) && id.size == 0x1200
    ensures var t := [MtdDevice(id, [PartInfo(0x1000, 0, None, 0), PartInfo(0x200, 0x1000, None, 0)])];
            ParseTable(ids, PREFIX + (id.mtdId + ":" + "4k,-")) == Some(t) && ParseTable(ids, TableText(t)) == None
  {
    hide ScanPart, ScanParts, SortAll, ParseTable, TableText, FindId;
    var first, second := PartInfo(0x1000, 0, None, 0), PartInfo(0x200, 0x1000, None, 0);
    FourKScans(0, ",-");
    RestScans("-", "");
    assert "4k" + ",-" == "4k,-" && ",-"[1..] == "-";
    TwoScan(id, "4k,-", "-", PartInfo(0x1000, OFFSET_NOT_SPECIFIED, None, 0), PartInfo(SIZE_REMAINING, OFFSET_NOT_SPECIFIED, None, 0), first, second);
    TwoSorted(first, second);
    OneDeviceParses(ids, id, "4k,-", [first, second], [first, second]);
    assert [first, second][1] == second && !ReadableParts([first, second]);
    Unreadable(ids, PREFIX + (id.mtdId + ":" + "4k,-"), id, [first, second]);
  }

  // The whole of a chip of 0xFFFFFFFF bytes is printed as a size that means "the rest".
  lemma WholeChipLost(ids: seq<MtdId>, id: MtdId)
    requires FindId(ids, id.mtdId) == Some(id) && ':' !in id.mtdId
    requires id.chip == NandChip(1) && id.size == MAX_U32
    ensures var t := [MtdDevice(id, [PartInfo(MAX_U32, 0, None, 0), PartInfo(0x1000, 0x1000, None, 0)])];
            ParseTable(ids, PREFIX + (id.mtdId + ":" + "4k@4k,-@0")) == Some(t) && ParseTable(ids, TableText(t)) == None
  {
    hide ScanPart, ScanParts, SortAll, ParseTable, TableText, FindId;
    var first, second := PartInfo(0x1000, 0x1000, None, 0), PartInfo(MAX_U32, 0, None, 0);
    FourKScans(0x1000, ",-@0");
    RestScans("-@0", "@0");
    assert "4k@4k" + ",-@0" == "4k@4k,-@0" && ",-@0"[1..] == "-@0";
    TwoScan(id, "4k@4k,-@0", "-@0", first, PartInfo(SIZE_REMAINING, 0, None, 0), first, second);
    TwoSorted(first, second);
    OneDeviceParses(ids, id, "4k@4k,-@0", [first, second], [second, first]);
    assert [second, first][0] == second && !ReadableParts([second, first]);
    Unreadable(ids, PREFIX + (id.mtdId + ":" + "4k@4k,-@0"), id, [second, first]);
  }
}
