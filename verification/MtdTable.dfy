// The device and partition lists of common/cmd_jffs2.c: building them from the
// `mtdparts` text and printing them back.

module MtdTable {
  import opened Words
  import opened CText
  import opened MtdTypes
  import opened MtdText

  // ----- lists kept sorted by offset ------------------------------------------

  // Where part_sort_add links a new partition: in front of the first one that does not
  // start below it.  A second partition at offset 0 is refused.
  function SortPosition(parts: seq<PartInfo>, offset: u32): (r: Option<nat>)
    ensures r.Some? ==> r.value <= |parts|
  {
    if parts == [] then Some(0)
    else if offset == parts[0].offset && offset == 0 then None
    else if offset <= parts[0].offset then Some(0)
    else match SortPosition(parts[1..], offset)
      case None => None
      case Some(k) => Some(k + 1)
  }

  function InsertAt<T>(xs: seq<T>, k: nat, x: T): (r: seq<T>)
    requires k <= |xs|
    ensures |r| == |xs| + 1 && r[k] == x
    ensures r[..k] == xs[..k] && r[k + 1..] == xs[k..]
  {
    xs[..k] + [x] + xs[k..]
  }

  function RemoveAt<T>(xs: seq<T>, k: nat): (r: seq<T>)
    requires k < |xs|
    ensures |r| == |xs| - 1
  {
    xs[..k] + xs[k + 1..]
  }

  predicate Ascending(parts: seq<PartInfo>) {
    forall i, j :: 0 <= i < j < |parts| ==> parts[i].offset <= parts[j].offset
  }

  predicate StrictlyAscending(parts: seq<PartInfo>) {
    forall i, j :: 0 <= i < j < |parts| ==> parts[i].offset < parts[j].offset
  }

  // Only the first partition of a device can lie at offset 0.
  predicate SingleZero(parts: seq<PartInfo>) {
    forall i :: 0 < i < |parts| ==> parts[i].offset != 0
  }

  lemma {:induction false} SortPositionSplits(parts: seq<PartInfo>, offset: u32)
    requires Ascending(parts)
    ensures SortPosition(parts, offset).None? <==> (parts != [] && offset == 0 == parts[0].offset)
    ensures SortPosition(parts, offset).Some? ==>
              var k := SortPosition(parts, offset).value;
              && (forall i :: 0 <= i < k ==> parts[i].offset < offset)
              && (forall i :: k <= i < |parts| ==> offset <= parts[i].offset)
  {
    if parts != [] {
      var tail := parts[1..];
      assert forall i, j :: 0 <= i < j < |tail| ==> tail[i] == parts[i + 1] && tail[j] == parts[j + 1];
      SortPositionSplits(tail, offset);
      assert forall i :: 0 < i < |parts| ==> parts[i] == tail[i - 1];
    }
  }

  lemma InsertAtIndex<T>(xs: seq<T>, k: nat, x: T)
    requires k <= |xs|
    ensures forall i :: 0 <= i < k ==> InsertAt(xs, k, x)[i] == xs[i]
    ensures forall i :: k < i <= |xs| ==> InsertAt(xs, k, x)[i] == xs[i - 1]
  {
  }

  lemma InsertAscends(parts: seq<PartInfo>, k: nat, part: PartInfo)
    requires k <= |parts| && Ascending(parts)
    requires forall i :: 0 <= i < k ==> parts[i].offset <= part.offset
    requires forall i :: k <= i < |parts| ==> part.offset <= parts[i].offset
    ensures Ascending(InsertAt(parts, k, part))
  {
    var r := InsertAt(parts, k, part);
    InsertAtIndex(parts, k, part);
    hide InsertAt;
    forall i, j | 0 <= i < j < |r|
      ensures r[i].offset <= r[j].offset
    {
      assert i != k ==> r[i] == parts[if i < k then i else i - 1];
      assert j != k ==> r[j] == parts[if j < k then j else j - 1];
    }
  }

  lemma InsertKeepsZero(parts: seq<PartInfo>, k: nat, part: PartInfo)
    requires k <= |parts| && SingleZero(parts) && (k > 0 ==> part.offset != 0)
    requires k == 0 && parts != [] ==> parts[0].offset != 0
    ensures SingleZero(InsertAt(parts, k, part))
  {
    var r := InsertAt(parts, k, part);
    InsertAtIndex(parts, k, part);
    hide InsertAt;
    forall i | 0 < i < |r|
      ensures r[i].offset != 0
    {
      assert i != k ==> r[i] == parts[if i < k then i else i - 1];
    }
  }

  // Insertion keeps the list sorted, and keeps zero offsets unique.
  lemma SortInsertKeepsOrder(parts: seq<PartInfo>, part: PartInfo)
    requires Ascending(parts) && SingleZero(parts)
    requires SortPosition(parts, part.offset).Some?
    ensures var r := InsertAt(parts, SortPosition(parts, part.offset).value, part);
            Ascending(r) && SingleZero(r)
  {
    SortPositionSplits(parts, part.offset);
    var k := SortPosition(parts, part.offset).value;
    hide SortPosition, InsertAt, Ascending, SingleZero;
    InsertAscends(parts, k, part);
    assert k > 0 ==> parts[0].offset < part.offset;
    InsertKeepsZero(parts, k, part);
  }

  // part_sort_add for every partition of a definition, in the order of the text.
  function SortAll(parts: seq<PartInfo>, sorted: seq<PartInfo>): Option<seq<PartInfo>> {
    if parts == [] then Some(sorted)
    else match SortPosition(sorted, parts[0].offset)
      case None => None
      case Some(k) => SortAll(parts[1..], InsertAt(sorted, k, parts[0]))
  }

  // The list with every run of equal offsets turned around; `run` is the part of the
  // current run that has been read already.
  function ReverseRuns(parts: seq<PartInfo>, run: seq<PartInfo>): seq<PartInfo>
    decreases |parts|
  {
    if parts == [] then run
    else if run != [] && parts[0].offset == run[0].offset then ReverseRuns(parts[1..], [parts[0]] + run)
    else run + ReverseRuns(parts[1..], [parts[0]])
  }

  predicate AllAt(run: seq<PartInfo>, offset: u32) {
    forall i :: 0 <= i < |run| ==> run[i].offset == offset
  }

  predicate Below(parts: seq<PartInfo>, offset: u32) {
    forall i :: 0 <= i < |parts| ==> parts[i].offset < offset
  }

  lemma {:induction false} SortPositionBehind(below: seq<PartInfo>, run: seq<PartInfo>, offset: u32)
    requires Below(below, offset) && AllAt(run, offset) && (run != [] ==> offset != 0)
    ensures SortPosition(below + run, offset) == Some(|below|)
  {
    if below != [] {
      assert (below + run)[1..] == below[1..] + run;
      SortPositionBehind(below[1..], run, offset);
    } else {
      assert below + run == run;
    }
  }

  lemma AppendLast<T>(xs: seq<T>, x: T)
    ensures xs + [] == xs && InsertAt(xs, |xs|, x) == xs + [x]
  {
  }

  lemma InsertMiddle<T>(a: seq<T>, b: seq<T>, x: T)
    ensures InsertAt(a + b, |a|, x) == a + ([x] + b)
  {
  }

  lemma AscendingTail(parts: seq<PartInfo>)
    requires parts != [] && Ascending(parts) && SingleZero(parts)
    ensures Ascending(parts[1..]) && SingleZero(parts[1..])
    ensures parts[1..] != [] ==> parts[0].offset <= parts[1].offset != 0 && parts[1..][0] == parts[1]
  {
    var more := parts[1..];
    assert forall i :: 0 <= i < |more| ==> more[i] == parts[i + 1];
  }

  // Definitions that are written in ascending order come out with their runs of equal
  // offsets turned around.
  lemma {:induction false} SortAllReverses(parts: seq<PartInfo>, below: seq<PartInfo>, run: seq<PartInfo>)
    requires Ascending(parts) && SingleZero(parts)
    requires run != [] ==> AllAt(run, run[0].offset) && Below(below, run[0].offset)
    requires run != [] && parts != [] ==> run[0].offset <= parts[0].offset != 0
    requires run == [] ==> below == []
    ensures SortAll(parts, below + run) == Some(below + ReverseRuns(parts, run))
    decreases |parts|
  {
    hide Ascending, SingleZero, SortPosition, InsertAt;
    if parts != [] {
      var part, more := parts[0], parts[1..];
      AscendingTail(parts);
      if run != [] && part.offset == run[0].offset {
        SortPositionBehind(below, run, part.offset);
        InsertMiddle(below, run, part);
        SortAllReverses(more, below, [part] + run);
      } else {
        var all := below + run;
        AppendLast(all, part);
        SortPositionBehind(all, [], part.offset);
        SortAllReverses(more, all, [part]);
        assert ReverseRuns(parts, run) == run + ReverseRuns(more, [part]);
        hide SortAll, ReverseRuns, Below, AllAt;
        assert below + (run + ReverseRuns(more, [part])) == all + ReverseRuns(more, [part]);
      }
    }
  }

  lemma {:induction false} StrictIsFixed(parts: seq<PartInfo>)
    requires parts != [] && StrictlyAscending(parts)
    ensures ReverseRuns(parts[1..], [parts[0]]) == parts
    decreases |parts|
  {
    var more := parts[1..];
    assert [parts[0]] + more == parts;
    if more != [] {
      assert StrictlyAscending(more) && parts[0].offset < more[0].offset;
      hide StrictlyAscending;
      StrictIsFixed(more);
    }
  }

  predicate AllDifferent(parts: seq<PartInfo>) {
    forall i, j :: 0 <= i < j < |parts| ==> parts[i] != parts[j]
  }

  lemma {:induction false} ReverseRunsHead(parts: seq<PartInfo>, run: seq<PartInfo>)
    requires run != []
    ensures ReverseRuns(parts, run) != []
    ensures var head := ReverseRuns(parts, run)[0]; head == run[0] || head in parts
    decreases |parts|
  {
    if parts != [] && parts[0].offset == run[0].offset {
      ReverseRunsHead(parts[1..], [parts[0]] + run);
    }
  }

  // Of lists without repetitions, turning the runs around keeps only the strict ones.
  lemma {:induction false} FixedIsStrict(parts: seq<PartInfo>)
    requires parts != [] && Ascending(parts) && AllDifferent(parts)
    requires ReverseRuns(parts[1..], [parts[0]]) == parts
    ensures StrictlyAscending(parts)
    decreases |parts|
  {
    var more := parts[1..];
    assert forall i :: 0 <= i < |more| ==> more[i] == parts[i + 1];
    if more != [] {
      assert AllDifferent(more) && Ascending(more) && parts[0] != more[0] && parts[0].offset <= more[0].offset;
      hide Ascending;
      if more[0].offset == parts[0].offset {
        ReverseRunsHead(more[1..], [more[0]] + [parts[0]]);
        assert false;
      } else {
        assert ReverseRuns(more[1..], [more[0]]) == parts[1..];
        FixedIsStrict(more);
        assert forall i :: 0 < i < |parts| ==> parts[i] == more[i - 1];
      }
    }
  }

  lemma StrictSurvives(parts: seq<PartInfo>)
    requires StrictlyAscending(parts)
    ensures ReverseRuns(parts, []) == parts
  {
    if parts != [] {
      assert ReverseRuns(parts, []) == [] + ReverseRuns(parts[1..], [parts[0]]);
      StrictIsFixed(parts);
    }
  }

  lemma ReverseRunsFixed(parts: seq<PartInfo>)
    requires parts != [] && Ascending(parts) && AllDifferent(parts)
    ensures ReverseRuns(parts, []) == parts <==> StrictlyAscending(parts)
  {
    assert ReverseRuns(parts, []) == ReverseRuns(parts[1..], [parts[0]]);
    if ReverseRuns(parts, []) == parts {
      FixedIsStrict(parts);
    }
    if StrictlyAscending(parts) {
      StrictIsFixed(parts);
    }
  }

  // ----- runs that read the same backwards ----------------------------------------

  function Reversed<T>(xs: seq<T>): (r: seq<T>)
    ensures |r| == |xs|
  {
    if xs == [] then [] else Reversed(xs[1..]) + [xs[0]]
  }

  // Number of leading partitions at an offset.
  function LeadingRun(parts: seq<PartInfo>, offset: u32): (n: nat)
    ensures n <= |parts| && (parts != [] && parts[0].offset == offset ==> n > 0)
  {
    if parts == [] || parts[0].offset != offset then 0 else 1 + LeadingRun(parts[1..], offset)
  }

  // Every run of equal offsets is a palindrome; a run of one always is.
  predicate Mirrored(parts: seq<PartInfo>)
    decreases |parts|
  {
    parts == [] ||
    var n := LeadingRun(parts, parts[0].offset);
    Reversed(parts[..n]) == parts[..n] && Mirrored(parts[n..])
  }

  lemma Shift<T>(a: seq<T>, x: T, b: seq<T>, c: seq<T>)
    ensures a + ([x] + b) + c == a + [x] + b + c
  {
  }

  lemma RunGoesOn(parts: seq<PartInfo>, run: seq<PartInfo>, offset: u32)
    requires run != [] && AllAt(run, offset) && LeadingRun(parts, offset) > 0
    ensures LeadingRun(parts, offset) == 1 + LeadingRun(parts[1..], offset)
    ensures AllAt([parts[0]] + run, offset) && ReverseRuns(parts, run) == ReverseRuns(parts[1..], [parts[0]] + run)
  {
  }

  lemma ReversedLeads(parts: seq<PartInfo>, m: nat)
    requires 0 < m <= |parts|
    ensures Reversed(parts[..m]) == Reversed(parts[1..][..m - 1]) + [parts[0]]
    ensures parts[1..][m - 1..] == parts[m..]
  {
    assert parts[..m][1..] == parts[1..][..m - 1];
  }

  lemma {:induction false} ReverseRunsSplit(parts: seq<PartInfo>, run: seq<PartInfo>, offset: u32)
    requires run != [] && AllAt(run, offset)
    ensures var m := LeadingRun(parts, offset);
            ReverseRuns(parts, run) == Reversed(parts[..m]) + run + ReverseRuns(parts[m..], [])
    decreases |parts|
  {
    var m := LeadingRun(parts, offset);
    if m > 0 {
      var part, more := parts[0], parts[1..];
      RunGoesOn(parts, run, offset);
      ReversedLeads(parts, m);
      hide ReverseRuns, Reversed, LeadingRun, AllAt;
      ReverseRunsSplit(more, [part] + run, offset);
      Shift(Reversed(more[..m - 1]), part, run, ReverseRuns(parts[m..], []));
    } else {
      NewRun(parts, run);
    }
  }

  // A run that does not go on is complete.
  lemma NewRun(parts: seq<PartInfo>, run: seq<PartInfo>)
    requires run != [] && (parts != [] ==> parts[0].offset != run[0].offset)
    ensures ReverseRuns(parts, run) == Reversed(parts[..0]) + run + ReverseRuns(parts[0..], [])
  {
    assert parts[..0] == [] && parts[0..] == parts;
    if parts != [] {
      assert ReverseRuns(parts, []) == [] + ReverseRuns(parts[1..], [parts[0]]);
    }
  }

  lemma FirstRunSplit(parts: seq<PartInfo>)
    requires parts != []
    ensures var n := LeadingRun(parts, parts[0].offset);
            ReverseRuns(parts, []) == Reversed(parts[..n]) + ReverseRuns(parts[n..], [])
  {
    var part, more := parts[0], parts[1..];
    var m := LeadingRun(more, part.offset);
    ReverseRunsSplit(more, [part], part.offset);
    assert ReverseRuns(parts, []) == [] + ReverseRuns(more, [part]);
    assert more[..m] == parts[..m + 1][1..] && more[m..] == parts[m + 1..];
  }

  // A list is left as it is by turning its runs around exactly if they are palindromes.
  lemma {:induction false} MirroredIsFixed(parts: seq<PartInfo>)
    ensures |ReverseRuns(parts, [])| == |parts|
    ensures ReverseRuns(parts, []) == parts <==> Mirrored(parts)
    decreases |parts|
  {
    if parts != [] {
      var n := LeadingRun(parts, parts[0].offset);
      FirstRunSplit(parts);
      MirroredIsFixed(parts[n..]);
      hide ReverseRuns, Reversed, LeadingRun;
      var all := ReverseRuns(parts, []);
      assert all[..n] == Reversed(parts[..n]) && all[n..] == ReverseRuns(parts[n..], []);
      assert parts == parts[..n] + parts[n..];
    }
  }

  // Without repetitions only runs of one are palindromes.
  lemma DifferentMirrored(parts: seq<PartInfo>)
    requires Ascending(parts) && AllDifferent(parts)
    ensures Mirrored(parts) <==> StrictlyAscending(parts)
  {
    MirroredIsFixed(parts);
    if parts != [] {
      ReverseRunsFixed(parts);
    }
  }

  // ----- one device -------------------------------------------------------------

  // id_find_by_mtd_id
  function FindId(ids: seq<MtdId>, mtdId: string): (r: Option<MtdId>)
    ensures r.Some? ==> r.value in ids && r.value.mtdId == mtdId
    ensures r.None? ==> forall i :: 0 <= i < |ids| ==> ids[i].mtdId != mtdId
  {
    if ids == [] then None
    else if ids[0].mtdId == mtdId then Some(ids[0])
    else FindId(ids[1..], mtdId)
  }

  // It is the first one with this name.
  lemma {:induction false} FindIdFirst(ids: seq<MtdId>, i: nat)
    requires i < |ids| && forall j :: 0 <= j < i ==> ids[j].mtdId != ids[i].mtdId
    ensures FindId(ids, ids[i].mtdId) == Some(ids[i])
  {
    if i > 0 {
      var more := ids[1..];
      assert forall j :: 0 <= j < |more| ==> more[j] == ids[j + 1];
      FindIdFirst(more, i - 1);
    }
  }

  // device_find: position of the device with this type and number.
  function FindDevice(devices: seq<MtdDevice>, devType: DevType, num: byte): (r: Option<nat>)
    ensures r.Some? ==> r.value < |devices| && Names(devices[r.value].id, devType, num)
    ensures r.Some? ==> forall i :: 0 <= i < r.value ==> !Names(devices[i].id, devType, num)
    ensures r.None? ==> forall i :: 0 <= i < |devices| ==> !Names(devices[i].id, devType, num)
  {
    if devices == [] then None
    else if Names(devices[0].id, devType, num) then Some(0)
    else match FindDevice(devices[1..], devType, num)
      case None => None
      case Some(k) => Some(k + 1)
  }

  predicate Names(id: MtdId, devType: DevType, num: byte) {
    id.devType == devType && id.num == num
  }

  // The loop of device_parse over partition definitions: `offset` is where a definition
  // without an offset goes.
  function ScanParts(id: MtdId, s: string, offset: u32, found: seq<PartInfo>): (r: Scan<seq<PartInfo>>)
    ensures r.Scanned? ==> |r.rest| <= |s|
    decreases |s|
  {
    if s == "" || s[0] == ';' then
      if found == [] then Rejected else Scanned(found, s)
    else
      ScanPartAdvances(s);
      match ScanPart(s)
      case Rejected => Rejected
      case Scanned(spelled, rest) =>
        match PartValidate(id, Place(spelled, offset))
        case None => Rejected
        case Some(part) => ScanParts(id, rest, Wrap(part.offset + part.size), found + [part])
  }

  function Place(part: PartInfo, offset: u32): PartInfo {
    if part.offset == OFFSET_NOT_SPECIFIED then part.(offset := offset) else part
  }

  // Where device_parse starts to count offsets.
  function StartOffset(devices: seq<MtdDevice>, id: MtdId): u32 {
    match FindDevice(devices, id.devType, id.num)
    case None => 0
    case Some(k) =>
      var parts := devices[k].parts;
      if parts == [] then 0 else Wrap(parts[|parts| - 1].offset + parts[|parts| - 1].size)
  }

  // device_parse; the rest is the text behind the ';'.
  function ScanDevice(ids: seq<MtdId>, devices: seq<MtdDevice>, s: string): (r: Scan<MtdDevice>)
    ensures r.Scanned? ==> |r.rest| < |s|
  {
    match Find(s, ':')
    case None => Rejected
    case Some(colon) =>
      match FindId(ids, s[..colon])
      case None => Rejected
      case Some(id) =>
        match ScanParts(id, s[colon + 1..], StartOffset(devices, id), [])
        case Rejected => Rejected
        case Scanned(parts, rest) =>
          match SortAll(parts, [])
          case None => Rejected
          case Some(sorted) => Scanned(MtdDevice(id, sorted), if rest == "" then rest else rest[1..])
  }

  // device_parse gets as far as linking the partitions into its device.
  predicate Links(ids: seq<MtdId>, devices: seq<MtdDevice>, s: string) {
    match Find(s, ':')
    case None => false
    case Some(colon) =>
      match FindId(ids, s[..colon])
      case None => false
      case Some(id) => ScanParts(id, s[colon + 1..], StartOffset(devices, id), []).Scanned?
  }

  // ----- the whole table --------------------------------------------------------

  // The loop of parse_mtdparts over device definitions.
  function ScanDevices(ids: seq<MtdId>, s: string, devices: seq<MtdDevice>): Option<seq<MtdDevice>>
    decreases |s|
  {
    if s == "" then
      if devices == [] then None else Some(devices)
    else
      match ScanDevice(ids, devices, s)
      case Rejected => None
      case Scanned(dev, rest) =>
        if FindDevice(devices, dev.id.devType, dev.id.num).Some? then None
        else ScanDevices(ids, rest, devices + [dev])
  }

  const PREFIX := "mtdparts="

  // parse_mtdparts: the table a text describes, None if it is not accepted.
  function ParseTable(ids: seq<MtdId>, text: string): Option<seq<MtdDevice>> {
    if PREFIX <= text then ScanDevices(ids, text[|PREFIX|..], []) else None
  }

  // ----- printing ----------------------------------------------------------------

  function PartsText(prev: Option<PartInfo>, parts: seq<PartInfo>): string
    decreases |parts|
  {
    if parts == [] then ""
    else PartText(prev, parts[0]) + (if |parts| > 1 then "," else "") + PartsText(Some(parts[0]), parts[1..])
  }

  function DeviceText(dev: MtdDevice): string {
    dev.id.mtdId + ":" + PartsText(None, dev.parts)
  }

  function DevicesText(devices: seq<MtdDevice>): string {
    if devices == [] then ""
    else DeviceText(devices[0]) + (if |devices| > 1 then ";" else "") + DevicesText(devices[1..])
  }

  // The text generate_mtdparts produces, without regard to its buffer.
  function TableText(devices: seq<MtdDevice>): string {
    if devices == [] then "" else PREFIX + DevicesText(devices)
  }

  // ----- what every parsed table satisfies ----------------------------------------

  predicate GoodPart(id: MtdId, part: PartInfo) {
    Fits(id, part) && Nameable(part)
  }

  predicate GoodParts(id: MtdId, parts: seq<PartInfo>) {
    forall i :: 0 <= i < |parts| ==> GoodPart(id, parts[i])
  }

  predicate GoodDevice(ids: seq<MtdId>, dev: MtdDevice) {
    && ':' !in dev.id.mtdId
    && FindId(ids, dev.id.mtdId) == Some(dev.id)
    && dev.parts != []
    && GoodParts(dev.id, dev.parts)
    && Ascending(dev.parts) && SingleZero(dev.parts)
  }

  predicate DistinctDevices(devices: seq<MtdDevice>) {
    forall i, j :: 0 <= i < j < |devices| ==>
      !Names(devices[i].id, devices[j].id.devType, devices[j].id.num)
  }

  predicate GoodTable(ids: seq<MtdId>, devices: seq<MtdDevice>) {
    && (forall i :: 0 <= i < |devices| ==> GoodDevice(ids, devices[i]))
    && DistinctDevices(devices)
  }

  lemma ScanPartNameable(s: string)
    ensures ScanPart(s).Scanned? ==> Nameable(ScanPart(s).value)
  {
    hide ScanPartSize, ScanOffset, ScanSeparator;
  }

  lemma {:induction false} ScanPartsGood(id: MtdId, s: string, offset: u32, found: seq<PartInfo>)
    requires GoodParts(id, found)
    ensures ScanParts(id, s, offset, found).Scanned? ==>
              var parts := ScanParts(id, s, offset, found).value;
              parts != [] && GoodParts(id, parts)
    decreases |s|
  {
    hide ScanPart, PartValidate, Fits, Nameable;
    if s != "" && s[0] != ';' {
      ScanPartAdvances(s);
      ScanPartNameable(s);
      if ScanPart(s).Scanned? {
        var placed := Place(ScanPart(s).value, offset);
        assert Nameable(placed) by {
          PlaceKeepsName(ScanPart(s).value, offset);
        }
        ValidateExact(id, placed);
        if PartValidate(id, placed).Some? {
          var part := PartValidate(id, placed).value;
          ValidateKeepsName(id, placed);
          ScanPartsGood(id, ScanPart(s).rest, Wrap(part.offset + part.size), found + [part]);
        }
      }
    }
  }

  lemma PlaceKeepsName(part: PartInfo, offset: u32)
    ensures Nameable(Place(part, offset)) <==> Nameable(part)
  {
  }

  lemma ValidateKeepsName(id: MtdId, part: PartInfo)
    requires PartValidate(id, part).Some?
    ensures Nameable(PartValidate(id, part).value) <==> Nameable(part)
  {
    hide Aligned;
  }

  lemma {:induction false} SortAllGood(id: MtdId, parts: seq<PartInfo>, sorted: seq<PartInfo>)
    requires GoodParts(id, parts) && GoodParts(id, sorted) && Ascending(sorted) && SingleZero(sorted)
    ensures SortAll(parts, sorted).Some? ==>
              var r := SortAll(parts, sorted).value;
              GoodParts(id, r) && Ascending(r) && SingleZero(r) && |r| == |sorted| + |parts|
    decreases |parts|
  {
    hide GoodPart, Ascending, SingleZero;
    if parts != [] && SortPosition(sorted, parts[0].offset).Some? {
      var k := SortPosition(sorted, parts[0].offset).value;
      SortInsertKeepsOrder(sorted, parts[0]);
      InsertAtIndex(sorted, k, parts[0]);
      assert GoodParts(id, parts[1..]);
      SortAllGood(id, parts[1..], InsertAt(sorted, k, parts[0]));
    }
  }

  lemma ScanDeviceGood(ids: seq<MtdId>, devices: seq<MtdDevice>, s: string)
    ensures ScanDevice(ids, devices, s).Scanned? ==> GoodDevice(ids, ScanDevice(ids, devices, s).value)
  {
    hide ScanParts, SortAll, GoodParts, GoodPart;
    var colon := Find(s, ':');
    if colon.Some? && FindId(ids, s[..colon.value]).Some? {
      var id := FindId(ids, s[..colon.value]).value;
      var parts := ScanParts(id, s[colon.value + 1..], StartOffset(devices, id), []);
      assert GoodParts(id, []) by {
        NoPartsGood(id);
      }
      ScanPartsGood(id, s[colon.value + 1..], StartOffset(devices, id), []);
      if parts.Scanned? {
        SortAllGood(id, parts.value, []);
      }
    }
  }

  lemma NoPartsGood(id: MtdId)
    ensures GoodParts(id, [])
  {
  }

  lemma {:induction false} ScanDevicesGood(ids: seq<MtdId>, s: string, devices: seq<MtdDevice>)
    requires GoodTable(ids, devices)
    ensures ScanDevices(ids, s, devices).Some? ==>
              var r := ScanDevices(ids, s, devices).value;
              r != [] && GoodTable(ids, r)
    decreases |s|
  {
    hide ScanDevice, GoodDevice;
    if s != "" {
      ScanDeviceGood(ids, devices, s);
      var first := ScanDevice(ids, devices, s);
      if first.Scanned? && FindDevice(devices, first.value.id.devType, first.value.id.num).None? {
        ScanDevicesGood(ids, first.rest, devices + [first.value]);
      }
    }
  }

  // The reader only builds tables whose partitions fit their chips, carry printable names,
  // are sorted, and whose devices are distinct and named by their own ids.
  lemma ParseTableGood(ids: seq<MtdId>, text: string)
    ensures ParseTable(ids, text).Some? ==>
              ParseTable(ids, text).value != [] && GoodTable(ids, ParseTable(ids, text).value)
  {
    if PREFIX <= text {
      ScanDevicesGood(ids, text[|PREFIX|..], []);
    }
  }

  // ----- how many partitions a text can describe -----------------------------------

  lemma {:induction false} ScanPartsCount(id: MtdId, s: string, offset: u32, found: seq<PartInfo>)
    ensures var r := ScanParts(id, s, offset, found);
            r.Scanned? ==> 2 * |r.value| <= 2 * |found| + |s| - |r.rest| + 1
    decreases |s|
  {
    hide ScanPart, PartValidate, Place;
    if s != "" && s[0] != ';' {
      ScanPartAdvances(s);
      var first := ScanPart(s);
      if first.Scanned? && PartValidate(id, Place(first.value, offset)).Some? {
        var part := PartValidate(id, Place(first.value, offset)).value;
        if first.rest != "" && first.rest[0] != ';' {
          ScanPartTakesTwo(s);
        }
        ScanPartsCount(id, first.rest, Wrap(part.offset + part.size), found + [part]);
      }
    }
  }

  lemma {:induction false} SortAllLength(parts: seq<PartInfo>, sorted: seq<PartInfo>)
    ensures SortAll(parts, sorted).Some? ==> |SortAll(parts, sorted).value| == |sorted| + |parts|
    decreases |parts|
  {
    if parts != [] && SortPosition(sorted, parts[0].offset).Some? {
      SortAllLength(parts[1..], InsertAt(sorted, SortPosition(sorted, parts[0].offset).value, parts[0]));
    }
  }

  lemma ScanDeviceCount(ids: seq<MtdId>, devices: seq<MtdDevice>, s: string)
    ensures var r := ScanDevice(ids, devices, s);
            r.Scanned? ==> 2 * |r.value.parts| <= |s| - |r.rest|
  {
    hide ScanParts, SortAll, FindId, StartOffset;
    var colon := Find(s, ':');
    if colon.Some? && FindId(ids, s[..colon.value]).Some? {
      var id := FindId(ids, s[..colon.value]).value;
      var parts := ScanParts(id, s[colon.value + 1..], StartOffset(devices, id), []);
      ScanPartsCount(id, s[colon.value + 1..], StartOffset(devices, id), []);
      if parts.Scanned? {
        SortAllLength(parts.value, []);
      }
    }
  }

  // All partitions, device after device.
  function AllParts(devices: seq<MtdDevice>): seq<PartInfo> {
    if devices == [] then [] else devices[0].parts + AllParts(devices[1..])
  }

  lemma {:induction false} AllPartsSnoc(devices: seq<MtdDevice>, dev: MtdDevice)
    ensures AllParts(devices + [dev]) == AllParts(devices) + dev.parts
    decreases |devices|
  {
    if devices == [] {
      assert AllParts([dev]) == dev.parts + AllParts([]);
    } else {
      assert (devices + [dev])[1..] == devices[1..] + [dev];
      AllPartsSnoc(devices[1..], dev);
    }
  }

  lemma {:induction false} ScanDevicesCount(ids: seq<MtdId>, s: string, devices: seq<MtdDevice>)
    ensures var r := ScanDevices(ids, s, devices);
            r.Some? ==> 2 * |AllParts(r.value)| <= 2 * |AllParts(devices)| + |s|
    decreases |s|
  {
    hide ScanDevice;
    if s != "" {
      ScanDeviceCount(ids, devices, s);
      var first := ScanDevice(ids, devices, s);
      if first.Scanned? && FindDevice(devices, first.value.id.devType, first.value.id.num).None? {
        AllPartsSnoc(devices, first.value);
        ScanDevicesCount(ids, first.rest, devices + [first.value]);
      }
    }
  }

  lemma {:induction false} PartsOfOne(devices: seq<MtdDevice>, i: nat)
    requires i < |devices|
    ensures |devices[i].parts| <= |AllParts(devices)|
    decreases |devices|
  {
    if i > 0 {
      PartsOfOne(devices[1..], i - 1);
    }
  }

  // A parsed table has no more partitions in all than half the characters of its text.
  lemma ParseTableCount(ids: seq<MtdId>, text: string)
    ensures ParseTable(ids, text).Some? ==> 2 * |AllParts(ParseTable(ids, text).value)| <= |text| - |PREFIX|
  {
    if PREFIX <= text {
      ScanDevicesCount(ids, text[|PREFIX|..], []);
    }
  }

  // ----- which tables survive a printout --------------------------------------------

  // The reader refuses sizes below MIN_PART_SIZE, and takes a size of 0xFFFFFFFF for "the
  // rest", which only the last partition may be.
  predicate ReadableParts(parts: seq<PartInfo>) {
    forall i :: 0 <= i < |parts| ==>
      MIN_PART_SIZE <= parts[i].size && (i < |parts| - 1 ==> parts[i].size != SIZE_REMAINING)
  }

  predicate ReadableTable(devices: seq<MtdDevice>) {
    forall i :: 0 <= i < |devices| ==> ReadableParts(devices[i].parts)
  }

  predicate MirroredTable(devices: seq<MtdDevice>) {
    forall i :: 0 <= i < |devices| ==> Mirrored(devices[i].parts)
  }

  predicate StrictTable(devices: seq<MtdDevice>) {
    forall i :: 0 <= i < |devices| ==> StrictlyAscending(devices[i].parts)
  }

  lemma PlaceSpelled(id: MtdId, prev: Option<PartInfo>, part: PartInfo)
    requires Fits(id, part)
    ensures Place(Spelled(prev, part), DefaultOffset(prev)) == part
  {
  }

  // What follows the first of some printed partitions.
  function Behind(parts: seq<PartInfo>, rest: string): string
    requires parts != []
  {
    (if |parts| > 1 then "," else "") + (PartsText(Some(parts[0]), parts[1..]) + rest)
  }

  predicate ReadableFirst(parts: seq<PartInfo>)
    requires parts != []
  {
    MIN_PART_SIZE <= parts[0].size && (|parts| > 1 ==> parts[0].size != SIZE_REMAINING)
  }

  lemma PartsTextSplits(prev: Option<PartInfo>, parts: seq<PartInfo>, rest: string)
    requires parts != []
    ensures PartsText(prev, parts) + rest == PartText(prev, parts[0]) + Behind(parts, rest)
    ensures PartText(prev, parts[0]) != "" && IsDigit(PartText(prev, parts[0])[0])
  {
    hide SizeText, OffsetText, NameText, FlagText, DefaultOffset;
    var text, more := PartText(prev, parts[0]), PartsText(Some(parts[0]), parts[1..]);
    assert text[0] == SizeText(parts[0].size)[0];
    hide PartText;
    var comma := if |parts| > 1 then "," else "";
    Reassociate(text + comma, more, rest);
    Reassociate(text, comma, more + rest);
  }

  lemma FirstPartScans(prev: Option<PartInfo>, parts: seq<PartInfo>, rest: string)
    requires parts != [] && Nameable(parts[0])
    requires rest == "" || rest[0] == ';'
    ensures ScanPart(PartText(prev, parts[0]) + Behind(parts, rest))
         == if ReadableFirst(parts)
            then Scanned(Spelled(prev, parts[0]), PartsText(Some(parts[0]), parts[1..]) + rest)
            else Rejected
  {
    var tail, more := Behind(parts, rest), PartsText(Some(parts[0]), parts[1..]) + rest;
    assert |parts| == 1 ==> tail == more == rest;
    assert |parts| > 1 ==> tail[0] == ',' && tail[1..] == more;
    PartRoundTrip(prev, parts[0], tail);
  }

  // One round of the loop of device_parse over a definition that was printed.
  lemma ScanFirst(id: MtdId, s: string, prev: Option<PartInfo>, part: PartInfo, readable: bool, more: string, found: seq<PartInfo>)
    requires s != "" && s[0] != ';' && Fits(id, part)
    requires ScanPart(s) == if readable then Scanned(Spelled(prev, part), more) else Rejected
    ensures ScanParts(id, s, DefaultOffset(prev), found)
         == if readable then ScanParts(id, more, DefaultOffset(Some(part)), found + [part]) else Rejected
  {
    hide ScanPart, PartValidate, Place, Spelled, Fits, Aligned;
    PlaceSpelled(id, prev, part);
    ValidateExact(id, part);
  }

  // The first printed partition, read back; the loop goes on with the others.
  lemma FirstPartRoundTrip(id: MtdId, prev: Option<PartInfo>, parts: seq<PartInfo>, rest: string, found: seq<PartInfo>)
    requires parts != [] && GoodPart(id, parts[0])
    requires rest == "" || rest[0] == ';'
    ensures ScanParts(id, PartsText(prev, parts) + rest, DefaultOffset(prev), found)
         == if ReadableFirst(parts)
            then ScanParts(id, PartsText(Some(parts[0]), parts[1..]) + rest, DefaultOffset(Some(parts[0])), found + [parts[0]])
            else Rejected
  {
    hide ScanParts, ScanPart, PartText, PartsText, Behind, Fits, Spelled, ReadableFirst, Nameable, DefaultOffset;
    var s := PartText(prev, parts[0]) + Behind(parts, rest);
    PartsTextSplits(prev, parts, rest);
    FirstPartScans(prev, parts, rest);
    ScanFirst(id, s, prev, parts[0], ReadableFirst(parts), PartsText(Some(parts[0]), parts[1..]) + rest, found);
  }

  // The printed partitions of a device, read back.
  lemma {:induction false} PartsRoundTrip(id: MtdId, prev: Option<PartInfo>, parts: seq<PartInfo>, rest: string, found: seq<PartInfo>)
    requires GoodParts(id, parts) && found + parts != []
    requires rest == "" || rest[0] == ';'
    ensures ScanParts(id, PartsText(prev, parts) + rest, DefaultOffset(prev), found)
         == if ReadableParts(parts) then Scanned(found + parts, rest) else Rejected
    decreases |parts|
  {
    hide GoodPart, DefaultOffset, ScanPart, PartValidate, Place, PartText;
    if parts == [] {
      assert found + parts == found;
      assert PartsText(prev, parts) + rest == rest;
    } else {
      FirstPartRoundTrip(id, prev, parts, rest, found);
      ReadableSplit(parts);
      if ReadableFirst(parts) {
        assert found + parts == found + [parts[0]] + parts[1..];
        PartsRoundTrip(id, Some(parts[0]), parts[1..], rest, found + [parts[0]]);
      }
    }
  }

  lemma ReadableSplit(parts: seq<PartInfo>)
    requires parts != []
    ensures ReadableParts(parts) <==> ReadableFirst(parts) && ReadableParts(parts[1..])
  {
    var more := parts[1..];
    assert forall i :: 0 < i < |parts| ==> parts[i] == more[i - 1];
    if ReadableParts(parts) {
      assert forall i :: 0 <= i < |more| ==> more[i] == parts[i + 1];
    }
  }

  // The device as it comes back from its own printout.
  function Reread(dev: MtdDevice): MtdDevice {
    dev.(parts := ReverseRuns(dev.parts, []))
  }

  function RereadAll(devices: seq<MtdDevice>): (r: seq<MtdDevice>)
    ensures |r| == |devices| && forall i :: 0 <= i < |r| ==> r[i] == Reread(devices[i])
  {
    if devices == [] then [] else [Reread(devices[0])] + RereadAll(devices[1..])
  }

  lemma DeviceRoundTrip(ids: seq<MtdId>, devices: seq<MtdDevice>, dev: MtdDevice, rest: string)
    requires GoodDevice(ids, dev)
    requires FindDevice(devices, dev.id.devType, dev.id.num).None?
    requires rest == "" || rest[0] == ';'
    ensures ScanDevice(ids, devices, DeviceText(dev) + rest)
         == if ReadableParts(dev.parts) then Scanned(Reread(dev), if rest == "" then rest else rest[1..]) else Rejected
  {
    hide ScanParts, ScanPart, SortAll, ReadableParts, GoodParts, GoodPart, ReverseRuns, Ascending, SingleZero, PartsText, FindDevice;
    var mtdId, text := dev.id.mtdId, PartsText(None, dev.parts) + rest;
    var s := mtdId + ":" + text;
    assert s == DeviceText(dev) + rest;
    FindBehind(mtdId, ':', text);
    assert s[..|mtdId|] == mtdId && s[|mtdId| + 1..] == text;
    PartsRoundTrip(dev.id, None, dev.parts, rest, []);
    assert [] + dev.parts == dev.parts;
    SortAllReverses(dev.parts, [], []);
    var none: seq<PartInfo> := [];
    assert none + none == none;
    assert none + ReverseRuns(dev.parts, none) == ReverseRuns(dev.parts, none);
  }

  // The first printed device, read back; the loop goes on with the others.
  lemma FirstDeviceRoundTrip(ids: seq<MtdId>, done: seq<MtdDevice>, devices: seq<MtdDevice>)
    requires devices != [] && GoodDevice(ids, devices[0])
    requires FindDevice(done, devices[0].id.devType, devices[0].id.num).None?
    ensures ScanDevices(ids, DevicesText(devices), done)
         == if ReadableParts(devices[0].parts)
            then ScanDevices(ids, DevicesText(devices[1..]), done + [Reread(devices[0])]) else None
  {
    hide ScanDevice, GoodDevice, ReadableParts, ReverseRuns;
    var dev, more := devices[0], DevicesText(devices[1..]);
    var rest := (if |devices| > 1 then ";" else "") + more;
    assert DevicesText(devices) == DeviceText(dev) + rest;
    assert |devices| == 1 ==> rest == "" == more;
    assert |devices| > 1 ==> rest[1..] == more;
    DeviceRoundTrip(ids, done, dev, rest);
  }

  predicate NoneNamed(devices: seq<MtdDevice>, id: MtdId) {
    forall i :: 0 <= i < |devices| ==> !Names(devices[i].id, id.devType, id.num)
  }

  lemma {:induction false} DevicesRoundTrip(ids: seq<MtdId>, done: seq<MtdDevice>, devices: seq<MtdDevice>)
    requires GoodTable(ids, devices) && done + devices != []
    requires forall i :: 0 <= i < |devices| ==> NoneNamed(done, devices[i].id)
    ensures ScanDevices(ids, DevicesText(devices), done)
         == if ReadableTable(devices) then Some(done + RereadAll(devices)) else None
    decreases |devices|
  {
    hide GoodDevice, ReadableParts, ScanDevice, DeviceText, FindId, ReverseRuns;
    if devices == [] {
      assert done + RereadAll(devices) == done;
    } else {
      var dev, more := devices[0], devices[1..];
      FirstDeviceRoundTrip(ids, done, devices);
      assert forall i :: 0 <= i < |more| ==> more[i] == devices[i + 1];
      assert forall i :: 0 < i < |devices| ==> devices[i] == more[i - 1];
      if ReadableParts(dev.parts) {
        assert done + [Reread(dev)] + RereadAll(more) == done + RereadAll(devices);
        DevicesRoundTrip(ids, done + [Reread(dev)], more);
        assert ReadableTable(devices) <==> ReadableTable(more);
      }
    }
  }

  // Main result, for every table the reader can build: the printout is refused exactly when
  // some partition is smaller than MIN_PART_SIZE or one of size 0xFFFFFFFF is followed by
  // another; otherwise it reads back as the table with its runs of equal offsets reversed.
  lemma TableRoundTrip(ids: seq<MtdId>, devices: seq<MtdDevice>)
    requires devices != [] && GoodTable(ids, devices)
    ensures ParseTable(ids, TableText(devices)) == if ReadableTable(devices) then Some(RereadAll(devices)) else None
  {
    hide GoodTable, ReadableTable, ScanDevices, DevicesText;
    assert [] + devices == devices;
    assert [] + RereadAll(devices) == RereadAll(devices);
    DevicesRoundTrip(ids, [], devices);
    assert TableText(devices)[|PREFIX|..] == DevicesText(devices);
  }

  // A table survives printing and reading if and only if it is readable and each of its runs
  // of equal offsets reads the same backwards.
  lemma TableSurvivesIff(ids: seq<MtdId>, devices: seq<MtdDevice>)
    requires devices != [] && GoodTable(ids, devices)
    ensures ParseTable(ids, TableText(devices)) == Some(devices) <==> ReadableTable(devices) && MirroredTable(devices)
  {
    hide GoodTable, ReadableTable, ParseTable, TableText, Mirrored, ReverseRuns;
    TableRoundTrip(ids, devices);
    forall i | 0 <= i < |devices|
      ensures Reread(devices[i]) == devices[i] <==> Mirrored(devices[i].parts)
    {
      MirroredIsFixed(devices[i].parts);
    }
    assert RereadAll(devices) == devices <==> forall i :: 0 <= i < |devices| ==> Reread(devices[i]) == devices[i];
  }

  lemma PrintedTableReads(ids: seq<MtdId>, devices: seq<MtdDevice>)
    requires devices != [] && GoodTable(ids, devices) && ReadableTable(devices) && MirroredTable(devices)
    ensures ParseTable(ids, TableText(devices)) == Some(devices)
  {
    hide GoodTable, ReadableTable, MirroredTable, ParseTable, TableText;
    TableSurvivesIff(ids, devices);
  }

  predicate NoRepetitions(devices: seq<MtdDevice>) {
    forall i :: 0 <= i < |devices| ==> AllDifferent(devices[i].parts)
  }

  // Strictly ascending offsets are always enough, and necessary where no device lists one
  // partition twice.
  lemma StrictTableSurvives(ids: seq<MtdId>, devices: seq<MtdDevice>)
    requires GoodTable(ids, devices)
    ensures StrictTable(devices) ==> MirroredTable(devices)
    ensures NoRepetitions(devices) ==> (MirroredTable(devices) <==> StrictTable(devices))
  {
    hide FindId, GoodParts, SingleZero, Mirrored;
    forall i | 0 <= i < |devices|
      ensures StrictlyAscending(devices[i].parts) ==> Mirrored(devices[i].parts)
      ensures AllDifferent(devices[i].parts) && Mirrored(devices[i].parts) ==> StrictlyAscending(devices[i].parts)
    {
      MirroredIsFixed(devices[i].parts);
      if StrictlyAscending(devices[i].parts) {
        StrictSurvives(devices[i].parts);
      }
      if AllDifferent(devices[i].parts) {
        DifferentMirrored(devices[i].parts);
      }
    }
  }
}
