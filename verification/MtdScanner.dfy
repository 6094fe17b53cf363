// The loops of common/cmd_jffs2.c that read and print `mtdparts` text, with an index in
// place of the source's advancing pointer.

module MtdScanner {
  import opened Words
  import opened CText
  import opened MtdTypes
  import opened MtdText
  import opened MtdTable

  lemma ShiftWraps(a: int)
    ensures Wrap(Wrap(a) * 1024) == Wrap(a * 1024)
  {
    var q, r := Wrap(a) * 1024 / 0x1_0000_0000, Wrap(Wrap(a) * 1024);
    ModUnique(a * 1024, 0x1_0000_0000, a / 0x1_0000_0000 * 1024 + q, r);
  }

  // memsize_parse, whose cases fall through from 'G' to 'K'.
  method MemsizeParse(s: string, p: nat) returns (value: u32, next: nat)
    requires p <= |s|
    ensures p <= next <= |s|
    ensures ScanSize(s[p..]) == Number(value, s[next..])
  {
    value, next := SimpleStrtoul(s, p, 0);
    hide Strtoul;
    ghost var n := value;
    if next < |s| {
      var c := s[next];
      var shifts := 0;
      if c == 'G' || c == 'g' {
        value := Wrap(value * KB);
        shifts := 1;
      }
      if shifts == 1 || c == 'M' || c == 'm' {
        ShiftWraps(n * KB);
        value := Wrap(value * KB);
        shifts := shifts + 1;
      }
      if shifts > 0 || c == 'K' || c == 'k' {
        ShiftWraps(n * KB);
        ShiftWraps(n * KB * KB);
        value := Wrap(value * KB);
        next := next + 1;
      }
    }
  }

  // memsize_format
  method MemsizeFormat(size: u32) returns (text: string)
    ensures text == SizeText(size)
    ensures forall rest: string :: EndsSize(rest) ==> ScanSize(text + rest) == Number(size, rest)
  {
    if size % GB == 0 {
      text := Decimal(size / GB) + "g";
    } else if size % MB == 0 {
      text := Decimal(size / MB) + "m";
    } else if size % KB == 0 {
      text := Decimal(size / KB) + "k";
    } else {
      text := Decimal(size);
    }
    forall rest: string | EndsSize(rest)
      ensures ScanSize(text + rest) == Number(size, rest)
    {
      SizeRoundTrip(size, rest);
    }
  }

  method IndexOf(s: string, c: char, from: nat) returns (r: Option<nat>)
    requires from <= |s|
    ensures r.Some? ==> from <= r.value < |s|
    ensures Find(s[from..], c) == if r.Some? then Some(r.value - from) else None
  {
    for i := from to |s|
      invariant c !in s[from..i]
    {
      if s[i] == c {
        assert s[from..][..i - from] == s[from..i];
        FindAt(s[from..], c, i - from);
        return Some(i);
      }
    }
    return None;
  }

  lemma {:induction false} FindAt(s: string, c: char, k: nat)
    requires k < |s| && s[k] == c && c !in s[..k]
    ensures Find(s, c) == Some(k)
  {
    if k > 0 {
      assert s[0] == s[..k][0];
      assert s[1..][..k - 1] == s[..k][1..];
      FindAt(s[1..], c, k - 1);
    }
  }

  // The pieces of part_parse.

  method ReadPartSize(s: string, p: nat) returns (size: Option<u32>, next: nat)
    requires p <= |s|
    ensures p <= next <= |s|
    ensures ScanPartSize(s[p..]) == if size.Some? then Scanned(size.value, s[next..]) else Rejected
  {
    hide ScanSize;
    if p < |s| && s[p] == '-' {
      assert s[p..][1..] == s[p + 1..];
      return Some(SIZE_REMAINING), p + 1;
    }
    var value, after := MemsizeParse(s, p);
    if value < MIN_PART_SIZE {
      return None, after;
    }
    return Some(value), after;
  }

  method ReadOffset(s: string, p: nat) returns (offset: u32, next: nat)
    requires p <= |s|
    ensures p <= next <= |s|
    ensures ScanOffset(s[p..]) == Number(offset, s[next..])
  {
    hide ScanSize;
    if p < |s| && s[p] == '@' {
      assert s[p..][1..] == s[p + 1..];
      offset, next := MemsizeParse(s, p + 1);
    } else {
      offset, next := OFFSET_NOT_SPECIFIED, p;
    }
  }

  method ReadName(s: string, p: nat) returns (name: Option<Option<string>>, next: nat)
    requires p <= |s|
    ensures p <= next <= |s|
    ensures ScanName(s[p..]) == if name.Some? then Scanned(name.value, s[next..]) else Rejected
  {
    hide Find;
    if p == |s| || s[p] != '(' {
      return Some(None), p;
    }
    assert s[p..][1..] == s[p + 1..];
    var close := IndexOf(s, ')', p + 1);
    if close.None? {
      return None, p;
    }
    if close.value == p + 1 {
      return None, p;
    }
    assert s[p + 1..][..close.value - p - 1] == s[p + 1..close.value];
    assert s[p + 1..][close.value - p..] == s[close.value + 1..];
    return Some(Some(s[p + 1..close.value])), close.value + 1;
  }

  method ReadFlags(s: string, p: nat) returns (maskFlags: u32, next: nat)
    requires p <= |s|
    ensures p <= next <= |s|
    ensures ScanFlags(s[p..]) == Number(maskFlags, s[next..])
  {
    RoPrefix(s, p);
    maskFlags, next := 0, p;
    if p + 1 < |s| && s[p] == 'r' && s[p + 1] == 'o' {
      maskFlags, next := MTD_WRITEABLE_CMD, p + 2;
    }
  }

  lemma RoPrefix(s: string, p: nat)
    requires p <= |s|
    ensures "ro" <= s[p..] <==> p + 1 < |s| && s[p] == 'r' && s[p + 1] == 'o'
    ensures p + 1 < |s| ==> s[p..][2..] == s[p + 2..]
  {
  }

  // part_parse
  method PartParse(s: string, start: nat) returns (part: Option<PartInfo>, next: nat)
    requires start <= |s|
    ensures next <= |s|
    ensures ScanPart(s[start..]) == if part.Some? then Scanned(part.value, s[next..]) else Rejected
    ensures part.Some? ==> start < next
  {
    hide ScanPartSize, ScanOffset, ScanName, ScanFlags;
    ScanPartAdvances(s[start..]);
    var size, afterSize := ReadPartSize(s, start);
    if size.None? {
      return None, start;
    }
    var offset, afterOffset := ReadOffset(s, afterSize);
    var name, afterName := ReadName(s, afterOffset);
    if name.None? {
      return None, start;
    }
    var maskFlags, p := ReadFlags(s, afterName);
    if p < |s| && s[p] == ',' {
      if size.value == SIZE_REMAINING {
        return None, start;
      }
      assert s[p..][1..] == s[p + 1..];
      p := p + 1;
    } else if p < |s| && s[p] != ';' {
      return None, start;
    }
    return Some(PartInfo(size.value, offset, name.value, maskFlags)), p;
  }

  // device_find
  method DeviceFind(devices: seq<MtdDevice>, devType: DevType, num: byte) returns (r: Option<nat>)
    ensures r == FindDevice(devices, devType, num)
  {
    for i := 0 to |devices|
      invariant forall k :: 0 <= k < i ==> !Names(devices[k].id, devType, num)
    {
      if Names(devices[i].id, devType, num) {
        return Some(i);
      }
    }
    return None;
  }

  // id_find_by_mtd_id
  method IdFindByMtdId(ids: seq<MtdId>, mtdId: string) returns (r: Option<MtdId>)
    ensures r == FindId(ids, mtdId)
  {
    var i := 0;
    while i < |ids|
      invariant 0 <= i <= |ids|
      invariant FindId(ids, mtdId) == FindId(ids[i..], mtdId)
    {
      if ids[i].mtdId == mtdId {
        return Some(ids[i]);
      }
      i := i + 1;
    }
    return None;
  }

  // The walk of part_sort_add along the list.
  method SortedPlace(parts: seq<PartInfo>, offset: u32) returns (r: Option<nat>)
    ensures r == SortPosition(parts, offset)
    ensures Ascending(parts) && r.Some? ==>
              && (forall i :: 0 <= i < r.value ==> parts[i].offset < offset)
              && (forall i :: r.value <= i < |parts| ==> offset <= parts[i].offset)
  {
    if Ascending(parts) {
      SortPositionSplits(parts, offset);
    }
    var i := 0;
    while i < |parts|
      invariant 0 <= i <= |parts|
      invariant SortPosition(parts, offset)
             == match SortPosition(parts[i..], offset) case None => None case Some(k) => Some(k + i)
    {
      if offset == parts[i].offset && parts[i].offset == 0 {
        return None;
      }
      if offset <= parts[i].offset {
        return Some(i);
      }
      i := i + 1;
    }
    return Some(|parts|);
  }

  // The loop of device_parse over the partition definitions of a device.
  method PartsParse(id: MtdId, s: string, start: nat, startOffset: u32)
      returns (parts: Option<seq<PartInfo>>, next: nat)
    requires start <= |s|
    requires id.chip.NorBank? ==> |id.chip.starts| > 0
    ensures start <= next <= |s|
    ensures ScanParts(id, s[start..], startOffset, []) == if parts.Some? then Scanned(parts.value, s[next..]) else Rejected
  {
    hide ScanPart, PartValidate;
    var p := start;
    var offset: u32 := startOffset;
    var tmpList: seq<PartInfo> := [];
    while p < |s| && s[p] != ';'
      invariant start <= p <= |s|
      invariant ScanParts(id, s[start..], startOffset, []) == ScanParts(id, s[p..], offset, tmpList)
      decreases |s| - p
    {
      var part, after := PartParse(s, p);
      if part.None? {
        return None, start;
      }
      var placed := part.value;
      if placed.offset == OFFSET_NOT_SPECIFIED {
        placed := placed.(offset := offset);
      } else {
        offset := placed.offset;
      }
      var valid := Validate(id, placed);
      if valid.None? {
        return None, start;
      }
      ValidateKeepsOffset(id, placed);
      offset := Wrap(offset + valid.value.size);
      tmpList := tmpList + [valid.value];
      p := after;
    }
    if tmpList == [] {
      return None, start;
    }
    return Some(tmpList), p;
  }

  lemma ValidateKeepsOffset(id: MtdId, part: PartInfo)
    ensures PartValidate(id, part).Some? ==> PartValidate(id, part).value.offset == part.offset
  {
  }

  // The loop of device_parse that links the partitions in.
  method SortParts(parts: seq<PartInfo>) returns (r: Option<seq<PartInfo>>)
    ensures r == SortAll(parts, [])
  {
    var sorted: seq<PartInfo> := [];
    var i := 0;
    while i < |parts|
      invariant 0 <= i <= |parts|
      invariant SortAll(parts, []) == SortAll(parts[i..], sorted)
    {
      var place := SortedPlace(sorted, parts[i].offset);
      if place.None? {
        return None;
      }
      sorted := InsertAt(sorted, place.value, parts[i]);
      i := i + 1;
    }
    return Some(sorted);
  }

  predicate SoundIds(ids: seq<MtdId>) {
    forall i :: 0 <= i < |ids| ==> ids[i].chip.NorBank? ==> |ids[i].chip.starts| > 0
  }

  // The first step of device_parse: where its offsets start.
  method StartOf(devices: seq<MtdDevice>, id: MtdId) returns (offset: u32)
    ensures offset == StartOffset(devices, id)
  {
    hide FindDevice;
    offset := 0;
    var known := DeviceFind(devices, id.devType, id.num);
    if known.Some? {
      var parts := devices[known.value].parts;
      if parts != [] {
        offset := Wrap(parts[|parts| - 1].offset + parts[|parts| - 1].size);
      }
    }
  }

  lemma CutAt(s: string, start: nat, at: nat)
    requires start <= at < |s|
    ensures s[start..][..at - start] == s[start..at] && s[start..][at - start + 1..] == s[at + 1..]
  {
  }

  // device_parse
  method DeviceParse(ids: seq<MtdId>, devices: seq<MtdDevice>, s: string, start: nat)
      returns (dev: Option<MtdDevice>, next: nat, linked: bool)
    requires start <= |s| && SoundIds(ids)
    ensures next <= |s| && (dev.Some? ==> start < next)
    ensures ScanDevice(ids, devices, s[start..]) == if dev.Some? then Scanned(dev.value, s[next..]) else Rejected
    ensures linked <==> Links(ids, devices, s[start..])
  {
    hide ScanParts, SortAll, Find, FindId, StartOffset;
    var colon := IndexOf(s, ':', start);
    if colon.None? {
      return None, start, false;
    }
    CutAt(s, start, colon.value);
    var id := IdFindByMtdId(ids, s[start..colon.value]);
    if id.None? {
      return None, start, false;
    }
    var offset := StartOf(devices, id.value);
    var tmpList, p := PartsParse(id.value, s, colon.value + 1, offset);
    if tmpList.None? {
      return None, start, false;
    }
    var sorted := SortParts(tmpList.value);
    if sorted.None? {
      return None, start, true;
    }
    if p < |s| {
      assert s[p..][1..] == s[p + 1..];
      p := p + 1;
    }
    return Some(MtdDevice(id.value, sorted.value)), p, true;
  }

  // parse_mtdparts
  method ParseMtdparts(ids: seq<MtdId>, text: string) returns (table: Option<seq<MtdDevice>>)
    requires SoundIds(ids)
    ensures table == ParseTable(ids, text)
  {
    hide ScanDevice, FindDevice;
    if !(PREFIX <= text) {
      return None;
    }
    var p := |PREFIX|;
    var devices: seq<MtdDevice> := [];
    while p < |text|
      invariant |PREFIX| <= p <= |text|
      invariant ParseTable(ids, text) == ScanDevices(ids, text[p..], devices)
      decreases |text| - p
    {
      var dev, next, _ := DeviceParse(ids, devices, text, p);
      if dev.None? {
        return None;
      }
      var known := DeviceFind(devices, dev.value.id.devType, dev.value.id.num);
      if known.Some? {
        return None;
      }
      devices, p := devices + [dev.value], next;
    }
    if devices == [] {
      return None;
    }
    return Some(devices);
  }

  // ----- generate_mtdparts ----------------------------------------------------------------

  // The text of one partition, as long as the space lasts.
  method GeneratePart(prev: Option<PartInfo>, part: PartInfo, room: nat) returns (text: Option<string>)
    ensures text == if |PartText(prev, part)| <= room then Some(PartText(prev, part)) else None
  {
    hide SizeText;
    var maxlen := room;
    var p := MemsizeFormat(part.size);
    if |p| > maxlen {
      return None;
    }
    maxlen := maxlen - |p|;
    if (prev.None? && part.offset != 0) || (prev.Some? && Wrap(prev.value.offset + prev.value.size) != part.offset) {
      var tmpbuf := MemsizeFormat(part.offset);
      if |tmpbuf| + 1 > maxlen {
        return None;
      }
      p := p + ("@" + tmpbuf);
      maxlen := maxlen - (|tmpbuf| + 1);
    }
    assert p == SizeText(part.size) + OffsetText(prev, part);
    if part.name.Some? {
      if |part.name.value| + 2 > maxlen {
        return None;
      }
      p := p + ("(" + part.name.value + ")");
      maxlen := maxlen - (|part.name.value| + 2);
    }
    assert p == SizeText(part.size) + OffsetText(prev, part) + NameText(part.name);
    if part.maskFlags != 0 {
      if 2 > maxlen {
        return None;
      }
      p := p + "ro";
    }
    assert p == PartText(prev, part);
    return Some(p);
  }

  method GenerateParts(parts: seq<PartInfo>, room: nat) returns (text: Option<string>)
    ensures text == if |PartsText(None, parts)| <= room then Some(PartsText(None, parts)) else None
  {
    hide PartText;
    var p := "";
    var maxlen: nat := room;
    var prev: Option<PartInfo> := None;
    for i := 0 to |parts|
      invariant |p| + maxlen == room
      invariant PartsText(None, parts) == p + PartsText(prev, parts[i..])
    {
      ghost var before, rest := p, PartsText(Some(parts[i]), parts[i..][1..]);
      var part := GeneratePart(prev, parts[i], maxlen);
      if part.None? {
        return None;
      }
      p := p + part.value;
      maxlen := maxlen - |part.value|;
      assert PartsText(None, parts) == p + ((if |parts| > i + 1 then "," else "") + rest) by {
        Reassociate(part.value, if |parts| > i + 1 then "," else "", rest);
        Reassociate(before, part.value, (if |parts| > i + 1 then "," else "") + rest);
      }
      if |parts| > i + 1 {
        if 1 > maxlen {
          return None;
        }
        Reassociate(p, ",", rest);
        p := p + ",";
        maxlen := maxlen - 1;
      }
      assert parts[i..][1..] == parts[i + 1..];
      prev := Some(parts[i]);
    }
    assert PartsText(None, parts) == p;
    return Some(p);
  }

  // generate_mtdparts: the text, if it fits; the prefix is not charged to the buffer.
  method GenerateMtdparts(devices: seq<MtdDevice>, buflen: nat) returns (text: Option<string>)
    requires buflen > 0
    ensures text == if devices == [] || |DevicesText(devices)| <= buflen - 1 then Some(TableText(devices)) else None
  {
    hide PartsText;
    var maxlen: nat := buflen - 1;
    if devices == [] {
      return Some("");
    }
    var p := "";
    for i := 0 to |devices|
      invariant |p| + maxlen == buflen - 1
      invariant DevicesText(devices) == p + DevicesText(devices[i..])
    {
      ghost var before, rest := p, DevicesText(devices[i..][1..]);
      var head := devices[i].id.mtdId + ":";
      if |head| > maxlen {
        return None;
      }
      maxlen := maxlen - |head|;
      var parts := GenerateParts(devices[i].parts, maxlen);
      if parts.None? {
        return None;
      }
      maxlen := maxlen - |parts.value|;
      p := p + (head + parts.value);
      assert DevicesText(devices) == p + ((if |devices| > i + 1 then ";" else "") + rest) by {
        Reassociate(head + parts.value, if |devices| > i + 1 then ";" else "", rest);
        Reassociate(before, head + parts.value, (if |devices| > i + 1 then ";" else "") + rest);
      }
      if i + 1 < |devices| {
        if 1 > maxlen {
          return None;
        }
        Reassociate(p, ";", rest);
        p := p + ";";
        maxlen := maxlen - 1;
      }
      assert devices[i..][1..] == devices[i + 1..];
    }
    assert DevicesText(devices) == p;
    return Some(PREFIX + p);
  }
}
