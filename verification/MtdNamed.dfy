// What the texts of the mtdparts commands name (common/cmd_jffs2.c): chips, partitions, and the
// partition to add.

module MtdNamed {
  import opened Words
  import opened CText
  import opened MtdTypes
  import opened MtdText
  import opened MtdTable
  import opened MtdSpelled
  import opened MtdGlobals
  import opened MtdRuns
  import opened MtdAllRuns

  // ----- devices ------------------------------------------------------------------------------

  // Text behind which a number ends.
  predicate EndsDigits(rest: string) {
    rest == "" || (!IsDigit(rest[0]) && rest[0] != 'x')
  }

  lemma NumberScans(devType: DevType, num: byte, rest: string)
    requires EndsDigits(rest)
    ensures ScanNumber(devType, Decimal(num) + rest) == Scanned(DevNum(devType, num), rest)
  {
    StrtoulReadsDecimal(num, rest);
    hide Strtoul;
    assert (Decimal(num) + rest)[0] == Decimal(num)[0];
  }

  // "nor", "nand" and "onenand" with a number name a device.
  lemma DeviceScans(num: byte, rest: string)
    requires EndsDigits(rest)
    ensures ScanDevNum("nor" + (Decimal(num) + rest)) == Scanned(DevNum(NorType, num), rest)
    ensures ScanDevNum("nand" + (Decimal(num) + rest)) == Scanned(DevNum(NandType, num), rest)
    ensures ScanDevNum("onenand" + (Decimal(num) + rest)) == Scanned(DevNum(OneNandType, num), rest)
  {
    NumberScans(NorType, num, rest);
    NumberScans(NandType, num, rest);
    NumberScans(OneNandType, num, rest);
    var s := Decimal(num) + rest;
    hide ScanNumber, Decimal;
    assert ("nor" + s)[3..] == s && ("nand" + s)[4..] == s && ("onenand" + s)[7..] == s;
    assert ("nor" + s)[1] == 'o' && ("onenand" + s)[0] == 'o';
  }

  function Printed(dev: DevNum): string {
    DevName(dev.devType) + Decimal(dev.num)
  }

  lemma PrintedScans(dev: DevNum, rest: string)
    requires EndsDigits(rest)
    ensures ScanDevNum(Printed(dev) + rest) == Scanned(dev, rest)
  {
    hide ScanDevNum, Decimal;
    DeviceScans(dev.num, rest);
    Reassociate(DevName(dev.devType), Decimal(dev.num), rest);
  }

  // ----- mtdids -----------------------------------------------------------------------------------

  datatype Entry = Entry(dev: DevNum, mtdId: string)

  function EntryText(entry: Entry): string {
    Printed(entry.dev) + ("=" + entry.mtdId)
  }

  function EntriesText(entries: seq<Entry>): string
    decreases |entries|
  {
    if entries == [] then ""
    else EntryText(entries[0]) + ((if |entries| > 1 then "," else "") + EntriesText(entries[1..]))
  }

  predicate Exists(hw: Hardware, dev: DevNum) {
    match dev.devType
    case NorType => dev.num < |hw.nor|
    case NandType => dev.num < |hw.nand|
    case OneNandType => true
  }

  // The id carries the name given and the data of the chip with this type and number.
  predicate Describes(hw: Hardware, entry: Entry, id: MtdId) {
    && id.mtdId == entry.mtdId && id.devType == entry.dev.devType && id.num == entry.dev.num
    && match entry.dev.devType
       case NorType =>
         entry.dev.num < |hw.nor|
         && var chip := hw.nor[entry.dev.num];
            id.size == chip.size && id.chip == NorBank(chip.starts, chip.size)
       case NandType =>
         entry.dev.num < |hw.nand|
         && var chip := hw.nand[entry.dev.num];
            id.size == chip.size && id.chip == NandChip(chip.eraseSize)
       case OneNandType =>
         id.size == hw.oneNand.size && id.chip == NandChip(hw.oneNand.eraseSize)
  }

  predicate DescribesAll(hw: Hardware, entries: seq<Entry>, ids: seq<MtdId>) {
    |ids| == |entries| && forall i :: 0 <= i < |ids| ==> Describes(hw, entries[i], ids[i])
  }

  lemma MakesDescribed(hw: Hardware, entry: Entry)
    ensures MakeId(hw, entry.dev, entry.mtdId).Some? <==> Exists(hw, entry.dev)
    ensures Exists(hw, entry.dev) ==> Describes(hw, entry, MakeId(hw, entry.dev, entry.mtdId).value)
  {
  }

  lemma EntryScans(entry: Entry, more: string, last: bool)
    requires ',' !in entry.mtdId && (last ==> more == "")
    ensures ScanEntry(EntryText(entry) + (if last then "" else "," + more)) == Scanned((entry.dev, entry.mtdId), more)
  {
    hide ScanDevNum, Printed, Find, ScanEntry;
    var tail := if last then "" else "," + more;
    var name := entry.mtdId + tail;
    Reassociate(Printed(entry.dev), "=" + entry.mtdId, tail);
    Reassociate("=", entry.mtdId, tail);
    PrintedScans(entry.dev, "=" + name);
    NameCut(entry.mtdId, more, last);
    NamedEntry(Printed(entry.dev) + ("=" + name), entry.dev, name);
  }

  lemma NamedEntry(s: string, dev: DevNum, name: string)
    requires ScanDevNum(s) == Scanned(dev, "=" + name)
    ensures ScanEntry(s) == match Find(name, ',')
                            case None => Scanned((dev, name), "")
                            case Some(k) => Scanned((dev, name[..k]), name[k + 1..])
  {
    hide ScanDevNum, Find;
    assert ("=" + name)[1..] == name;
  }

  lemma NameCut(mtdId: string, more: string, last: bool)
    requires ',' !in mtdId
    ensures var name := mtdId + if last then "" else "," + more;
            if last then name == mtdId && Find(name, ',') == None
            else Find(name, ',') == Some(|mtdId|) && name[..|mtdId|] == mtdId && name[|mtdId| + 1..] == more
  {
    if last {
      assert mtdId + "" == mtdId;
      NotFound(mtdId, ',');
    } else {
      Reassociate(mtdId, ",", more);
      FindBehind(mtdId, ',', more);
    }
  }

  lemma NotFound(s: string, c: char)
    requires c !in s
    ensures Find(s, c) == None
  {
  }

  // No device is named twice, and every one exists.
  predicate ProperEntries(hw: Hardware, entries: seq<Entry>) {
    && (forall i :: 0 <= i < |entries| ==> Exists(hw, entries[i].dev))
    && (forall i, j :: 0 <= i < j < |entries| ==> entries[i].dev != entries[j].dev)
  }

  lemma {:induction false} FoundNum(ids: seq<MtdId>, dev: DevNum)
    ensures FindNum(ids, dev).Some? <==> exists i :: 0 <= i < |ids| && ids[i].devType == dev.devType && ids[i].num == dev.num
  {
    if ids != [] {
      FoundNum(ids[1..], dev);
      var more := ids[1..];
      assert forall i :: 0 <= i < |more| ==> more[i] == ids[i + 1];
      assert forall i :: 0 < i < |ids| ==> ids[i] == more[i - 1];
    }
  }

  lemma NewIsProper(hw: Hardware, done: seq<Entry>, entry: Entry, ids: seq<MtdId>)
    requires ProperEntries(hw, done) && DescribesAll(hw, done, ids)
    ensures ProperEntries(hw, done + [entry]) <==> Exists(hw, entry.dev) && FindNum(ids, entry.dev).None?
  {
    FoundNum(ids, entry.dev);
    hide FindNum, Exists;
    var all := done + [entry];
    assert forall i :: 0 <= i < |done| ==> all[i] == done[i];
    assert all[|done|] == entry;
    if FindNum(ids, entry.dev).Some? {
      var i :| 0 <= i < |ids| && ids[i].devType == entry.dev.devType && ids[i].num == entry.dev.num;
      assert Describes(hw, done[i], ids[i]);
      assert all[i].dev == all[|done|].dev;
    } else {
      forall i | 0 <= i < |done|
        ensures done[i].dev != entry.dev
      {
        assert Describes(hw, done[i], ids[i]);
      }
    }
  }

  lemma ProperPrefix(hw: Hardware, a: seq<Entry>, b: seq<Entry>)
    requires ProperEntries(hw, a + b)
    ensures ProperEntries(hw, a)
  {
    hide Exists;
    assert forall i :: 0 <= i < |a| ==> a[i] == (a + b)[i];
  }

  lemma EntriesCut(entries: seq<Entry>)
    requires entries != []
    ensures EntriesText(entries) != ""
    ensures EntriesText(entries)
         == EntryText(entries[0]) + (if |entries| == 1 then "" else "," + EntriesText(entries[1..]))
    ensures |entries| == 1 ==> EntriesText(entries[1..]) == ""
  {
    assert EntryText(entries[0]) != "";
    hide EntryText;
  }

  lemma {:induction false} EntriesScan(hw: Hardware, entries: seq<Entry>, done: seq<Entry>, ids: seq<MtdId>)
    requires ProperEntries(hw, done) && DescribesAll(hw, done, ids) && done + entries != []
    requires forall i :: 0 <= i < |entries| ==> ',' !in entries[i].mtdId
    ensures var r := ScanIds(hw, EntriesText(entries), ids);
            && (r.IdsOk? <==> ProperEntries(hw, done + entries))
            && (r.IdsOk? ==> DescribesAll(hw, done + entries, r.ids))
    decreases |entries|
  {
    hide ScanEntry, MakeId, FindNum, EntryText, ProperEntries, Describes, Exists;
    if entries == [] {
      assert done + entries == done;
    } else {
      var first, more := entries[0], entries[1..];
      assert done + entries == done + [first] + more;
      EntriesCut(entries);
      EntryScans(first, EntriesText(more), |entries| == 1);
      MakesDescribed(hw, first);
      NewIsProper(hw, done, first, ids);
      var id := MakeId(hw, first.dev, first.mtdId);
      if id.Some? && FindNum(ids, first.dev).None? {
        assert forall i :: 0 <= i < |more| ==> more[i] == entries[i + 1];
        EntriesScan(hw, more, done + [first], ids + [id.value]);
      } else if ProperEntries(hw, done + [first] + more) {
        ProperPrefix(hw, done + [first], more);
      }
    }
  }

  // Main result: an mtdids text is accepted exactly if it names every chip once and only chips
  // that exist, and then gives each the name and the data of its own chip.
  lemma IdsSpelled(hw: Hardware, entries: seq<Entry>)
    requires entries != [] && forall i :: 0 <= i < |entries| ==> ',' !in entries[i].mtdId
    ensures var r := ParseIds(hw, EntriesText(entries));
            && (r.IdsOk? <==> ProperEntries(hw, entries))
            && (r.IdsOk? ==> DescribesAll(hw, entries, r.ids))
  {
    hide ScanIds, EntriesText, ProperEntries;
    assert ProperEntries(hw, []) by {
      NoEntries(hw);
    }
    EntriesScan(hw, entries, [], []);
    assert [] + entries == entries;
  }

  lemma NoEntries(hw: Hardware)
    ensures ProperEntries(hw, [])
  {
  }

  // ----- partitions ---------------------------------------------------------------------------------

  predicate Earlier(i: nat, j: nat, p: Place) {
    i < p.dev || (i == p.dev && j < p.part)
  }

  // The first partition of the table with a name a user has given.
  lemma {:induction false} NameFinds(devices: seq<MtdDevice>, name: string)
    ensures match FindNamed(devices, name)
            case None =>
              forall i, j :: 0 <= i < |devices| && 0 <= j < |devices[i].parts| ==> devices[i].parts[j].name != Some(name)
            case Some(p) =>
              && devices[p.dev].parts[p.part].name == Some(name)
              && forall i, j :: 0 <= i < |devices| && 0 <= j < |devices[i].parts| && Earlier(i, j, p) ==>
                   devices[i].parts[j].name != Some(name)
  {
    hide FindName;
    if devices != [] {
      var more := devices[1..];
      NameFinds(more, name);
      assert forall i :: 0 < i < |devices| ==> devices[i] == more[i - 1];
    }
  }

  lemma DeviceFound(devices: seq<MtdDevice>, k: nat)
    requires DistinctDevices(devices) && k < |devices|
    ensures FindDevice(devices, devices[k].id.devType, devices[k].id.num) == Some(k)
  {
  }

  // "<type><num>,<partnum>" names that partition of that device; the number is cut down to eight
  // bits, and nothing may follow it.
  lemma NumberFinds(devices: seq<MtdDevice>, k: nat, n: u32, junk: string, text: string)
    requires DistinctDevices(devices) && k < |devices| && EndsDigits(junk)
    requires text == Printed(DevNum(devices[k].id.devType, devices[k].id.num)) + ("," + (Decimal(n) + junk))
    ensures FindNumbered(devices, text)
         == if junk == "" && n % 0x100 < |devices[k].parts| then Some(Place(k, n % 0x100)) else None
  {
    hide ScanDevNum, FindDevice, Printed, Decimal, Strtoul, DistinctDevices;
    var dev, after := DevNum(devices[k].id.devType, devices[k].id.num), "," + (Decimal(n) + junk);
    PrintedScans(dev, after);
    assert after[1..] == Decimal(n) + junk;
    StrtoulReadsDecimal(n, junk);
    DeviceFound(devices, k);
  }

  // A device that is not in the table.
  lemma NoDeviceNamed(devices: seq<MtdDevice>, dev: DevNum, rest: string)
    requires FindDevice(devices, dev.devType, dev.num).None?
    ensures FindNumbered(devices, Printed(dev) + ("," + rest)) == None
  {
    hide ScanDevNum, FindDevice, Printed, Strtoul;
    PrintedScans(dev, "," + rest);
  }

  // A name a user has given comes before every number.
  lemma NameWins(devices: seq<MtdDevice>, text: string, i: nat, j: nat)
    requires i < |devices| && j < |devices[i].parts| && devices[i].parts[j].name == Some(text)
    ensures FindDevAndPart(devices, text) == FindNamed(devices, text) != None
  {
    NameFinds(devices, text);
  }

  // The name current_save gives a partition finds it.
  lemma PartitionIdFinds(devices: seq<MtdDevice>, k: nat, i: byte)
    requires DistinctDevices(devices) && k < |devices| && i < |devices[k].parts|
    requires FindNamed(devices, PartitionId(devices[k], i)).None?
    ensures FindDevAndPart(devices, PartitionId(devices[k], i)) == Some(Place(k, i))
  {
    hide FindNumbered, FindNamed, Decimal, DistinctDevices;
    var dev := devices[k].id;
    Reassociate(DevName(dev.devType) + Decimal(dev.num), ",", Decimal(i));
    assert Decimal(i) + "" == Decimal(i);
    NumberFinds(devices, k, i, "", PartitionId(devices[k], i));
  }

  // The three kinds of names, letter by letter.
  lemma LiteralFinds(devices: seq<MtdDevice>, k: nat, i: byte)
    requires DistinctDevices(devices) && k < |devices| && i < |devices[k].parts|
    ensures var id := devices[k].id;
            var tail := Decimal(id.num) + ("," + Decimal(i));
            && (id.devType.NorType? ==> FindNumbered(devices, "nor" + tail) == Some(Place(k, i)))
            && (id.devType.NandType? ==> FindNumbered(devices, "nand" + tail) == Some(Place(k, i)))
            && (id.devType.OneNandType? ==> FindNumbered(devices, "onenand" + tail) == Some(Place(k, i)))
  {
    hide FindNumbered, Decimal;
    var id := devices[k].id;
    var text := Printed(DevNum(id.devType, id.num)) + ("," + Decimal(i));
    assert Decimal(i) + "" == Decimal(i);
    NumberFinds(devices, k, i, "", text);
    Reassociate(DevName(id.devType), Decimal(id.num), "," + Decimal(i));
  }

  // ----- chpart and del -------------------------------------------------------------------------------

  // chpart makes exactly the partition named current.
  lemma ChangeSelects(hw: Hardware, d: Defaults, g: Globals, text: string, p: Place)
    requires CurrentInRange(g) && Init(hw, d, g).rc == 0
    requires FindDevAndPart(Init(hw, d, g).g.devices, text) == Some(p) && p.part < 0x100
    ensures var o, r := Init(hw, d, g), ChangeCommand(hw, d, g, text);
            && r.rc == 0 && r.g.devices == o.g.devices
            && r.g.current == Some(p.dev) && r.g.partnum == p.part && Exact(r.g)
            && r.g.env.partition == Some(PartitionId(o.g.devices[p.dev], p.part))
  {
    hide Init, FindDevAndPart, Exact, PartitionId;
    var g1 := Init(hw, d, g).g;
    SaveIndexes(g1.(current := Some(p.dev), partnum := p.part));
  }

  // del leaves the table without exactly the partition named; the last one of a device takes the
  // device along.
  lemma DelRemoves(hw: Hardware, d: Defaults, g: Globals, text: string, p: Place)
    requires CurrentInRange(g) && Init(hw, d, g).rc == 0
    requires NoEmptyDevice(Init(hw, d, g).g.devices)
    requires FindDevAndPart(Init(hw, d, g).g.devices, text) == Some(p) && Deletable(Init(hw, d, g).g, p)
    ensures var o, r := Init(hw, d, g), DelCommand(hw, d, g, text);
            && r.Some?
            && var was, now := o.g.devices, r.value.g.devices;
               if |was[p.dev].parts| == 1 then now == was[..p.dev] + was[p.dev + 1..]
               else
                 && |now| == |was| && now[p.dev].id == was[p.dev].id
                 && now[p.dev].parts == was[p.dev].parts[..p.part] + was[p.dev].parts[p.part + 1..]
                 && forall k :: 0 <= k < |was| && k != p.dev ==> now[k] == was[k]
  {
    hide Init, FindDevAndPart, Exact, Indexed, LosesCurrent, PartnumWithout;
    var g1 := Init(hw, d, g).g;
    if |g1.devices[p.dev].parts| == 1 {
      DeviceDelEffect(g1, p.dev);
    } else {
      PartDelEffect(g1, p.dev, p.part);
    }
    hide CurrentSave, IndexPartitions, DeviceDel;
    SaveKeepsTable(PartDel(g1, p.dev, p.part));
  }

  lemma SaveKeepsTable(g: Globals)
    ensures GenerateSave(g).g.devices == g.devices
  {
    hide TableText, DevicesText;
  }

  // On a coherent state, the text current_save would write for a partition selects exactly that
  // partition with chpart, and deletes exactly that one with del.
  lemma NumberCommands(hw: Hardware, d: Defaults, g: Globals, k: nat, i: byte)
    requires Coherent(hw, g) && Init(hw, d, g).rc == 0
    requires k < |Init(hw, d, g).g.devices| && i < |Init(hw, d, g).g.devices[k].parts|
    requires FindNamed(Init(hw, d, g).g.devices, PartitionId(Init(hw, d, g).g.devices[k], i)).None?
    ensures var o := Init(hw, d, g).g;
            var text, p := PartitionId(o.devices[k], i), Place(k, i);
            && FindDevAndPart(o.devices, text) == Some(p)
            && Chosen(ChangeCommand(hw, d, g, text).g, k, i)
            && (Deletable(o, p) ==> DelCommand(hw, d, g, text).Some?)
  {
    hide Init, FindDevAndPart, GoodDevice, ParseIds, ParseTable, PartitionId, DevNumber, Deletable, PartDel;
    InitMirrors(hw, d, g);
    var o := Init(hw, d, g).g;
    CoherentGood(hw, o);
    TableHasParts(o.ids, o.devices);
    PartitionIdFinds(o.devices, k, i);
    ChangeSelects(hw, d, g, PartitionId(o.devices[k], i), Place(k, i));
  }

  // A partition of the table is the current one.
  predicate Chosen(g: Globals, dev: nat, part: nat) {
    g.current == Some(dev) && g.partnum == part
  }

  // ----- the current partition behind mtdparts_init ------------------------------------------------------

  // `partition` names another partition than the one remembered.
  function Wanted(devices: seq<MtdDevice>, wanted: string, remembered: string): Option<Place> {
    if wanted != "" && wanted != remembered then FindDevAndPart(devices, wanted) else None
  }

  lemma FollowChooses(g: Globals, wanted: string)
    requires CurrentInRange(g)
    ensures var r := FollowPartition(g, wanted);
            && r.devices == g.devices
            && match Wanted(g.devices, wanted, g.lastPartition)
               case Some(p) => Chosen(r, p.dev, p.part % 0x100)
               case None => r.current == g.current && r.partnum == g.partnum
  {
    hide FindDevAndPart, DevNumber, PartitionId;
  }

  lemma RefreshChooses(g: Globals, text: string)
    requires ParseTable(g.ids, text).Some?
    ensures var devices, o := ParseTable(g.ids, text).value, RefreshTable(g, text);
            && devices != [] && devices[0].parts != []
            && o.rc == 0 && o.g.devices == devices && Chosen(o.g, 0, 0) && o.g.lastPartition == PartitionId(devices[0], 0)
  {
    ParseTableGood(g.ids, text);
    FirstHasParts(g.ids, ParseTable(g.ids, text).value);
    hide ParseTable, GoodTable, PartitionId, DevNumber;
  }

  // What is current behind a successful mtdparts_init: the partition `partition` names, if that
  // is not the one remembered; else the first one of a table just read, or the one before.
  lemma InitChooses(hw: Hardware, d: Defaults, g: Globals)
    requires CurrentInRange(g) && Init(hw, d, g).rc == 0 && Init(hw, d, g).g.env.mtdparts.Some?
    ensures Starts(d, g) && g.env.mtdparts.Some?
    ensures var r := Init(hw, d, g).g;
            var wanted := if g.env.partition.Some? then Truncate(g.env.partition.value, PARTITION_MAXLEN) else "";
            if Rereads(d, g) then
              && r.devices != [] && r.devices[0].parts != []
              && match Wanted(r.devices, wanted, PartitionId(r.devices[0], 0))
                 case Some(p) => Chosen(r, p.dev, p.part % 0x100)
                 case None => Chosen(r, 0, 0)
            else
              match Wanted(g.devices, wanted, g.lastPartition)
              case Some(p) => Chosen(r, p.dev, p.part % 0x100)
              case None => r.current == g.current && r.partnum == g.partnum
  {
    hide ParseIds, ParseTable, RefreshTable, FollowPartition, FindDevAndPart, PartitionId, Wanted, DevicesInit;
    if !(Starts(d, g) && g.env.mtdparts.Some?) {
      InitRefuses(hw, d, g);
    }
    var wanted := if g.env.partition.Some? then Truncate(g.env.partition.value, PARTITION_MAXLEN) else "";
    var g1 := WithDefaultIds(d, g);
    var text := g1.env.mtdids.value;
    IdsKeepTable(hw, g1, text);
    var g2 := if NewIds(d, g) then RefreshIds(hw, g1, text).g else g1;
    var parts := g.env.mtdparts.value;
    if Rereads(d, g) {
      RefreshFails(g2, parts);
      RefreshChooses(g2, parts);
      FollowChooses(RefreshTable(g2, parts).g, wanted);
    } else {
      FollowChooses(g1, wanted);
    }
  }

  // The variable `partition` and the copy remembered of it name the current partition.
  predicate Named(g: Globals)
    requires CurrentInRange(g)
  {
    match g.current
    case None => g.env.partition == None && g.lastPartition == ""
    case Some(c) =>
      g.env.partition == Some(PartitionId(g.devices[c], g.partnum)) && g.lastPartition == PartitionId(g.devices[c], g.partnum)
  }

  lemma FollowNames(g: Globals, wanted: string)
    requires CurrentInRange(g)
    ensures var r := FollowPartition(g, wanted);
            if Wanted(g.devices, wanted, g.lastPartition).Some? || (g.env.partition == None && (wanted == "" || wanted == g.lastPartition))
            then Named(r)
            else r.env.partition == g.env.partition && r.lastPartition == g.lastPartition
    ensures Named(g) ==> Named(FollowPartition(g, wanted))
  {
    hide FindDevAndPart, DevNumber, PartitionId;
  }

  lemma RefreshNames(g: Globals, text: string)
    requires ParseTable(g.ids, text).Some?
    ensures Named(RefreshTable(g, text).g)
  {
    ParseTableGood(g.ids, text);
    FirstHasParts(g.ids, ParseTable(g.ids, text).value);
    hide ParseTable, GoodTable, PartitionId, DevNumber;
  }

  // Behind a successful mtdparts_init the variable `partition` names the current partition if the
  // table has been read again, if it was not set, or if it named a partition to change to; else
  // it is as it was.
  lemma InitNames(hw: Hardware, d: Defaults, g: Globals)
    requires CurrentInRange(g) && Init(hw, d, g).rc == 0 && Init(hw, d, g).g.env.mtdparts.Some?
    ensures Starts(d, g) && g.env.mtdparts.Some?
    ensures var r := Init(hw, d, g).g;
            var wanted := if g.env.partition.Some? then Truncate(g.env.partition.value, PARTITION_MAXLEN) else "";
            if Rereads(d, g) || g.env.partition == None || Wanted(g.devices, wanted, g.lastPartition).Some?
            then Named(r)
            else r.env.partition == g.env.partition && r.lastPartition == g.lastPartition
  {
    hide ParseIds, ParseTable, RefreshTable, FollowPartition, FindDevAndPart, PartitionId, Wanted, DevicesInit;
    if !(Starts(d, g) && g.env.mtdparts.Some?) {
      InitRefuses(hw, d, g);
    }
    var wanted := if g.env.partition.Some? then Truncate(g.env.partition.value, PARTITION_MAXLEN) else "";
    var g1 := WithDefaultIds(d, g);
    var text := g1.env.mtdids.value;
    IdsKeepTable(hw, g1, text);
    var g2 := if NewIds(d, g) then RefreshIds(hw, g1, text).g else g1;
    var parts := g.env.mtdparts.value;
    if Rereads(d, g) {
      RefreshFails(g2, parts);
      RefreshNames(g2, parts);
      FollowNames(RefreshTable(g2, parts).g, wanted);
    } else {
      FollowNames(g1, wanted);
    }
  }

  // A command whose mtdparts_init fails, or that names no partition, returns 1 and does no more.
  lemma CommandsRefuse(hw: Hardware, d: Defaults, g: Globals, text: string)
    requires CurrentInRange(g)
    requires Init(hw, d, g).rc != 0 || FindDevAndPart(Init(hw, d, g).g.devices, text).None?
    ensures ChangeCommand(hw, d, g, text) == Outcome(Init(hw, d, g).g, 1)
    ensures Init(hw, d, g).rc != 0 || NoEmptyDevice(Init(hw, d, g).g.devices) ==>
              DelCommand(hw, d, g, text) == Some(Outcome(Init(hw, d, g).g, 1))
  {
  }

  lemma RefreshFails(g: Globals, text: string)
    ensures ParseTable(g.ids, text).None? <==> RefreshTable(g, text).rc != 0
  {
    hide ParseTable, DevicesInit;
  }

  // mtdparts_init goes by the variable mtdids, and sets it from the default if it is missing.
  lemma InitSetsIds(hw: Hardware, d: Defaults, g: Globals)
    requires CurrentInRange(g)
    ensures Init(hw, d, g).g.env.mtdids == if g.env.mtdids.Some? then g.env.mtdids else d.mtdids
    ensures Init(hw, d, g).g.env.mtdparts == g.env.mtdparts
  {
    hide ParseIds, SyncTable, DevicesInit;
    var g1 := WithDefaultIds(d, g);
    if Starts(d, g) {
      var text := g1.env.mtdids.value;
      IdsKeepTable(hw, g1, text);
      match ParseIds(hw, text) {
        case IdsBad(left) => DevicesInitKeepsTexts(g1.(ids := left, lastIds := ""));
        case IdsOk(ids) =>
      }
      var o := if NewIds(d, g) then RefreshIds(hw, g1, text) else Outcome(g1, 0);
      if o.rc == 0 {
        SyncKeepsTexts(o.g, NewIds(d, g), if g.env.partition.Some? then Truncate(g.env.partition.value, PARTITION_MAXLEN) else "");
      }
    }
  }

  predicate SameTexts(g: Globals, h: Globals) {
    h.env.mtdids == g.env.mtdids && h.env.mtdparts == g.env.mtdparts
  }

  lemma DevicesInitKeepsTexts(g: Globals)
    ensures SameTexts(g, DevicesInit(g))
  {
    SaveIndexes(g.(lastParts := "", current := None, devices := []));
  }

  lemma SyncKeepsTexts(g: Globals, idsChanged: bool, wanted: string)
    requires CurrentInRange(g)
    ensures SameTexts(g, SyncTable(g, idsChanged, wanted).g)
  {
    hide ParseTable, FollowPartition, DevicesInit;
    DevicesInitKeepsTexts(g);
    if g.env.mtdparts.Some? {
      var text := g.env.mtdparts.value;
      if ParseTable(g.ids, text).Some? {
        ParseTableGood(g.ids, text);
        SaveIndexes(DevicesInit(g).(devices := ParseTable(g.ids, text).value, lastParts := text, current := Some(0), partnum := 0));
      }
      hide GoodTable, CurrentSave;
      var o := if g.lastParts == "" || g.lastParts != text || idsChanged then RefreshTable(g, text) else Outcome(g, 0);
      FollowKeepsTable(o.g, wanted);
    }
  }

  // It succeeds exactly if there are ids, nothing is too long, the ids can be parsed, and a table
  // that has to be read can be.
  lemma InitSucceedsIff(hw: Hardware, d: Defaults, g: Globals)
    requires Remembers(hw, g)
    ensures Init(hw, d, g).rc == 0 <==>
              && Starts(d, g)
              && match ParseIds(hw, IdsText(d, g).value)
                 case IdsBad(_) => false
                 case IdsOk(ids) =>
                   g.env.mtdparts.Some? && Rereads(d, g) ==> ParseTable(ids, g.env.mtdparts.value).Some?
  {
    assert CurrentInRange(g);
    hide ParseIds, ParseTable, RefreshTable, FollowPartition, DevicesInit, GoodTable, TableText, Indexed;
    var g1 := WithDefaultIds(d, g);
    if Starts(d, g) {
      var text := g1.env.mtdids.value;
      IdsKeepTable(hw, g1, text);
      ParsedIdsText(hw, text);
      var g2 := if NewIds(d, g) then RefreshIds(hw, g1, text).g else g1;
      if g.env.mtdparts.Some? {
        RefreshFails(g2, g.env.mtdparts.value);
      }
    }
  }

  // Deleting the current partition makes the first one of its device current, or the first of all
  // if the device goes with it.
  lemma DeletedCurrent(g: Globals, k: nat, i: nat)
    requires CurrentInRange(g) && NoEmptyDevice(g.devices) && Chosen(g, k, i) && k < |g.devices|
    ensures !LosesCurrent(g.devices[k].parts, g.partnum, i)
    ensures var r := PartDel(g, k, i);
            if |g.devices[k].parts| > 1 then Chosen(r, k, 0)
            else if |g.devices| > 1 then Chosen(r, 0, 0) else r.current == None
  {
    if |g.devices[k].parts| == 1 {
      DeviceDelEffect(g, k);
      hide DeviceDel;
    } else {
      PartDelEffect(g, k, i);
    }
  }

  // ----- mtdparts add ---------------------------------------------------------------------------------------

  predicate UniqueIds(ids: seq<MtdId>) {
    forall i, j :: 0 <= i < j < |ids| ==> !Names(ids[i], ids[j].devType, ids[j].num)
  }

  lemma {:induction false} ScannedUnique(hw: Hardware, s: string, ids: seq<MtdId>)
    requires UniqueIds(ids)
    ensures ScanIds(hw, s, ids).IdsOk? ==> UniqueIds(ScanIds(hw, s, ids).ids)
    decreases |s|
  {
    hide ScanEntry, UniqueIds;
    if s != "" && ScanEntry(s).Scanned? {
      var dev := ScanEntry(s).value.0;
      var id := MakeId(hw, dev, ScanEntry(s).value.1);
      if id.Some? && FindNum(ids, dev).None? {
        UniqueSnoc(hw, ids, dev, ScanEntry(s).value.1);
        ScannedUnique(hw, ScanEntry(s).rest, ids + [id.value]);
      }
    }
  }

  lemma UniqueSnoc(hw: Hardware, ids: seq<MtdId>, dev: DevNum, name: string)
    requires UniqueIds(ids) && FindNum(ids, dev).None? && MakeId(hw, dev, name).Some?
    ensures UniqueIds(ids + [MakeId(hw, dev, name).value])
  {
    FoundNum(ids, dev);
    hide FindNum;
  }

  lemma ParsedUnique(hw: Hardware, text: string)
    ensures ParseIds(hw, text).IdsOk? ==> UniqueIds(ParseIds(hw, text).ids)
  {
    hide ScanIds;
    ScannedUnique(hw, text, []);
  }

  // Where a partition without an offset goes: behind the last one of the device.
  function Behind(devices: seq<MtdDevice>, id: MtdId): int {
    match FindDevice(devices, id.devType, id.num)
    case None => 0
    case Some(k) => if devices[k].parts == [] then 0 else devices[k].parts[|devices[k].parts| - 1].End()
  }

  lemma StartsBehind(ids: seq<MtdId>, devices: seq<MtdDevice>, id: MtdId)
    requires GoodTable(ids, devices)
    ensures StartOffset(devices, id) == Behind(devices, id)
  {
    hide FindDevice, Ascending, SingleZero, FindId;
    var k := FindDevice(devices, id.devType, id.num);
    if k.Some? {
      assert GoodDevice(ids, devices[k.value]);
      var parts := devices[k.value].parts;
      assert GoodPart(devices[k.value].id, parts[|parts| - 1]);
    }
  }

  lemma AddTextSpells(id: MtdId, def: Def)
    requires def.name.Some?
    ensures AddText(id, SizeSpelled(def) + OffsetSpelled(def), def.name.value, RoSpelled(def))
         == SpecText(Spec(id.mtdId, [def]))
  {
    hide SizeSpelled, OffsetSpelled, RoSpelled;
    var a, b, n, r := SizeSpelled(def), OffsetSpelled(def), def.name.value, RoSpelled(def);
    assert DefsText([def]) == DefText(def) + ("" + "");
    assert id.mtdId + ":" + (a + b) + "(" + n + ")" + r == id.mtdId + ":" + (a + (b + ("(" + n + ")" + r)) + ("" + ""));
  }

  lemma OneMeant(id: MtdId, start: u32, def: Def)
    ensures MeantDevice(id, start, [def])
         == match Meant(id, start, def) case None => None case Some(part) => Some(MtdDevice(id, [part]))
  {
    hide Meant;
    var none: seq<Def> := [];
    assert [def][1..] == none;
    if Meant(id, start, def).Some? {
      var part := Meant(id, start, def).value;
      assert MeantAll(id, part.offset + part.size, none) == Some([]);
      var nil: seq<PartInfo> := [];
      assert [part] + nil == [part];
      assert MeantAll(id, start, [def]) == Some([part] + nil);
      assert [part][1..] == [] && InsertAt([], 0, part) == [part];
      assert SortAll([part], []) == SortAll([], [part]);
    }
  }

  lemma SameId(ids: seq<MtdId>, devices: seq<MtdDevice>, id: MtdId, k: nat)
    requires GoodTable(ids, devices) && UniqueIds(ids) && id in ids
    requires FindDevice(devices, id.devType, id.num) == Some(k)
    ensures devices[k].id == id
  {
    hide GoodParts, Ascending, SingleZero;
    assert GoodDevice(ids, devices[k]);
    var i :| 0 <= i < |ids| && ids[i] == id;
    var j :| 0 <= j < |ids| && ids[j] == devices[k].id;
  }

  // What a merge leaves of the table.
  predicate Merges(was: seq<MtdDevice>, now: seq<MtdDevice>, id: MtdId, part: PartInfo) {
    match FindDevice(was, id.devType, id.num)
    case None => now == was + [MtdDevice(id, [part])]
    case Some(k) =>
      && |now| == |was| && (forall i :: 0 <= i < |was| && i != k ==> now[i] == was[i])
      && now[k].id == was[k].id && Ascending(now[k].parts)
      && multiset(now[k].parts) == multiset(was[k].parts) + multiset{part}
  }

  // A partition at offset 0 for a device that has one there already.
  predicate SecondZero(devices: seq<MtdDevice>, id: MtdId, part: PartInfo) {
    match FindDevice(devices, id.devType, id.num)
    case None => false
    case Some(k) => part.offset == 0 && devices[k].parts != [] && devices[k].parts[0].offset == 0
  }

  lemma MergeAppends(g: Globals, id: MtdId, part: PartInfo)
    requires CurrentInRange(g) && FindDevice(g.devices, id.devType, id.num).None?
    ensures MergeDevice(g, MtdDevice(id, [part])).g.devices == g.devices + [MtdDevice(id, [part])]
  {
    hide FindDevice;
    DeviceAddEffect(g, MtdDevice(id, [part]));
    hide DeviceAdd, Exact, Indexed, GenerateSave;
    SaveKeepsTable(DeviceAdd(g, MtdDevice(id, [part])));
  }

  lemma MergeInserts(g: Globals, id: MtdId, part: PartInfo, k: nat)
    requires CurrentInRange(g) && FindDevice(g.devices, id.devType, id.num) == Some(k) && g.devices[k].id == id
    requires Fits(id, part)
    ensures var r, at := MergeDevice(g, MtdDevice(id, [part])), SortPosition(g.devices[k].parts, part.offset);
            if at.None? then r.rc == 1 && r.g == g
            else r.g.devices == g.devices[k := MtdDevice(id, InsertAt(g.devices[k].parts, at.value, part))]
  {
    hide Fits, FindDevice, PartValidate;
    ValidateExact(id, part);
    if PartSortAdd(g, k, part).Some? {
      PartSortAddEffect(g, k, part);
      hide PartSortAdd, Exact, Indexed, SortPosition, InsertAt, GenerateSave;
      SaveKeepsTable(PartSortAdd(g, k, part).value);
    }
  }

  lemma MergeMerges(g: Globals, id: MtdId, part: PartInfo)
    requires CurrentInRange(g) && GoodTable(g.ids, g.devices) && UniqueIds(g.ids) && id in g.ids && Fits(id, part)
    ensures var r := MergeDevice(g, MtdDevice(id, [part]));
            if SecondZero(g.devices, id, part) then r.rc == 1 && r.g == g
            else Merges(g.devices, r.g.devices, id, part)
  {
    hide Fits, FindDevice, UniqueIds, MergeDevice, FindId, GoodParts, CurrentInRange;
    match FindDevice(g.devices, id.devType, id.num) {
      case None =>
        MergeAppends(g, id, part);
      case Some(k) =>
        SameId(g.ids, g.devices, id, k);
        assert GoodDevice(g.ids, g.devices[k]);
        MergeInserts(g, id, part, k);
        var parts := g.devices[k].parts;
        SortPositionSplits(parts, part.offset);
        hide GoodTable, GoodDevice;
        if SortPosition(parts, part.offset).Some? {
          SortInsertKeepsOrder(parts, part);
          InsertAdds(parts, SortPosition(parts, part.offset).value, part);
          hide InsertAt, SortPosition, Ascending, SingleZero;
        }
    }
  }

  // The length it checks against its buffer is that of the description, cut down to eight bits.
  lemma AddLengthIs(id: MtdId, spec: string, name: string, flag: string)
    requires |flag| == 0 || |flag| == 2
    ensures AddLength(id, spec, name, flag) == |AddText(id, spec, name, flag)| % 0x100
  {
  }

  // Main result: `mtdparts add` adds exactly the partition it is told to, with its size, name and
  // flag, at its offset or behind the last partition of the device; or it refuses, because the
  // chip cannot carry it or already has one at offset 0, and leaves the table alone.
  lemma AddAdds(g: Globals, dev: DevNum, id: MtdId, def: Def)
    requires CurrentInRange(g) && GoodTable(g.ids, g.devices) && UniqueIds(g.ids)
    requires FindNum(g.ids, dev) == Some(id) && FindId(g.ids, id.mtdId) == Some(id) && ':' !in id.mtdId
    requires ValidDef(def) && def.name.Some?
    requires AddLength(id, SizeSpelled(def) + OffsetSpelled(def), def.name.value, RoSpelled(def)) < PART_ADD_DESC_MAXLEN
    ensures 0 <= Behind(g.devices, id) <= MAX_U32
    ensures var r := AddPartition(g, Printed(dev), SizeSpelled(def) + OffsetSpelled(def), def.name.value, RoSpelled(def));
            match Meant(id, Behind(g.devices, id), def)
            case None => r.rc == 1 && r.g.devices == g.devices
            case Some(part) =>
              if SecondZero(g.devices, id, part) then r.rc == 1 && r.g.devices == g.devices
              else Merges(g.devices, r.g.devices, id, part)
  {
    hide Meant, ScanDevice, MergeDevice, AddText, AddLength, GoodTable, UniqueIds, Links, ScanDevNum, SecondZero, Merges, ValidDef, Printed, MeantDevice, StartOffset, Behind, SpecText, FindDevice, DevNumber;
    assert Printed(dev) + "" == Printed(dev);
    PrintedScans(dev, "");
    AddTextSpells(id, def);
    StartsBehind(g.ids, g.devices, id);
    var spec := Spec(id.mtdId, [def]);
    assert SpecText(spec) + "" == SpecText(spec);
    SpecScans(g.ids, g.devices, spec, "");
    OneMeant(id, StartOffset(g.devices, id), def);
    var meant := Meant(id, StartOffset(g.devices, id), def);
    var g1 := if Links(g.ids, g.devices, SpecText(spec)) then IndexPartitions(g) else g;
    if meant.Some? {
      MergeMerges(g1, id, meant.value);
    }
  }
}
