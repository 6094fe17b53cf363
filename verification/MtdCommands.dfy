// The routines of common/cmd_jffs2.c that work on its global variables, each proved to do
// to them what the function of the same name in MtdGlobals says.

module MtdCommands {
  import opened Words
  import opened CText
  import opened MtdTypes
  import opened MtdText
  import opened MtdTable
  import opened MtdScanner
  import M = MtdGlobals
  import MtdRuns

  // id_parse
  method IdParse(s: string, start: nat) returns (dev: Option<M.DevNum>, next: nat)
    requires start <= |s|
    ensures next <= |s| && (dev.Some? ==> start < next)
    ensures M.ScanDevNum(s[start..]) == if dev.Some? then Scanned(dev.value, s[next..]) else Rejected
  {
    hide Strtoul;
    var p, devType := start, NorType;
    if "nand" <= s[p..] {
      assert s[p..][4..] == s[p + 4..];
      p, devType := p + 4, NandType;
    } else if "nor" <= s[p..] {
      assert s[p..][3..] == s[p + 3..];
      p, devType := p + 3, NorType;
    } else if "onenand" <= s[p..] {
      assert s[p..][7..] == s[p + 7..];
      p, devType := p + 7, OneNandType;
    } else {
      return None, start;
    }
    if p == |s| || !IsDigit(s[p]) {
      return None, start;
    }
    var value, after := SimpleStrtoul(s, p, 0);
    return Some(M.DevNum(devType, value % 0x100)), after;
  }

  lemma MakeIdSound(hw: M.Hardware, dev: M.DevNum, mtdId: string)
    requires hw.Sound()
    ensures M.MakeId(hw, dev, mtdId).Some? ==> SoundIds([M.MakeId(hw, dev, mtdId).value])
  {
  }

  method EntryParse(s: string, start: nat) returns (entry: Option<(M.DevNum, string)>, next: nat)
    requires start <= |s|
    ensures next <= |s| && (entry.Some? ==> start < next)
    ensures M.ScanEntry(s[start..]) == if entry.Some? then Scanned(entry.value, s[next..]) else Rejected
  {
    hide M.ScanDevNum, Find;
    var dev, q := IdParse(s, start);
    if dev.None? {
      return None, start;
    }
    if q == |s| || s[q] != '=' {
      return None, start;
    }
    assert s[q..][1..] == s[q + 1..];
    q := q + 1;
    var comma := IndexOf(s, ',', q);
    if comma.None? {
      return Some((dev.value, s[q..])), |s|;
    }
    assert s[q..][..comma.value - q] == s[q..comma.value];
    assert s[q..][comma.value - q + 1..] == s[comma.value + 1..];
    return Some((dev.value, s[q..comma.value])), comma.value + 1;
  }

  // parse_mtdids
  method ParseMtdids(hw: M.Hardware, text: string) returns (r: M.IdsResult)
    requires hw.Sound()
    ensures r == M.ParseIds(hw, text)
    ensures SoundIds(if r.IdsOk? then r.ids else r.left)
  {
    hide M.ScanEntry, M.MakeId, M.FindNum;
    var p := 0;
    var ids: seq<MtdId> := [];
    assert text[0..] == text;
    while p < |text|
      invariant p <= |text| && SoundIds(ids)
      invariant M.ParseIds(hw, text) == M.ScanIds(hw, text[p..], ids)
      decreases |text| - p
    {
      var entry, next := EntryParse(text, p);
      if entry.None? {
        return M.IdsBad([]);
      }
      var id := M.MakeId(hw, entry.value.0, entry.value.1);
      MakeIdSound(hw, entry.value.0, entry.value.1);
      if id.None? {
        return M.IdsBad(ids);
      }
      if M.FindNum(ids, entry.value.0).Some? {
        return M.IdsBad([]);
      }
      ids, p := ids + [id.value], next;
    }
    if ids == [] {
      return M.IdsBad([]);
    }
    return M.IdsOk(ids);
  }

  // find_dev_and_part
  method FindDevAndPart(devices: seq<MtdDevice>, id: string) returns (r: Option<M.Place>)
    ensures r == M.FindDevAndPart(devices, id)
  {
    hide M.ScanDevNum, M.FindName, Strtoul, FindDevice;
    for d := 0 to |devices|
      invariant M.FindNamed(devices, id)
             == match M.FindNamed(devices[d..], id) case None => None case Some(p) => Some(M.Place(p.dev + d, p.part))
    {
      var i := M.FindName(devices[d].parts, id);
      if i.Some? {
        return Some(M.Place(d, i.value));
      }
      assert devices[d..][1..] == devices[d + 1..];
    }
    assert id[0..] == id;
    var dev, p := IdParse(id, 0);
    if dev.None? {
      return None;
    }
    if |id| < p + 2 || id[p] != ',' {
      return None;
    }
    assert id[p..][1..] == id[p + 1..];
    var value, end := SimpleStrtoul(id, p + 1, 0);
    if end != |id| {
      return None;
    }
    var k := DeviceFind(devices, dev.value.devType, dev.value.num);
    if k.None? {
      return None;
    }
    if value % 0x100 >= |devices[k.value].parts| {
      return None;
    }
    return Some(M.Place(k.value, value % 0x100));
  }

  // The u8 arithmetic of do_jffs2_mtdparts.
  method DescriptionLength(id: MtdId, spec: string, name: string, flag: string) returns (len: byte)
    ensures len == M.AddLength(id, spec, name, flag)
  {
    ghost var sum := |id.mtdId| + 1;
    len := (|id.mtdId| + 1) % 0x100;
    AddMod(sum, |spec|, 0x100);
    len := (len + |spec|) % 0x100;
    sum := sum + |spec|;
    AddMod(sum, |name| + 2, 0x100);
    len := (len + |name| + 2) % 0x100;
    sum := sum + |name| + 2;
    if |flag| == 2 {
      AddMod(sum, 2, 0x100);
      len := (len + 2) % 0x100;
    }
  }

  class Mtdparts {
    const hw: M.Hardware
    const defaults: M.Defaults

    var ids: seq<MtdId>
    var devices: seq<MtdDevice>
    var current: Option<nat>
    var partnum: byte
    var lastIds: string
    var lastParts: string
    var lastPartition: string
    var env: M.Env

    function G(): M.Globals
      reads this
    {
      M.Globals(ids, devices, current, partnum, lastIds, lastParts, lastPartition, env)
    }

    predicate Valid()
      reads this
    {
      hw.Sound() && SoundIds(ids) && MtdRuns.Coherent(hw, G())
    }

    constructor (hw: M.Hardware, defaults: M.Defaults, env: M.Env)
      requires hw.Sound()
      ensures Valid() && MtdRuns.Fresh(G()) && this.env == env && this.hw == hw && this.defaults == defaults
    {
      this.hw, this.defaults := hw, defaults;
      ids, devices, current, partnum := [], [], None, 0;
      lastIds, lastParts, lastPartition := "", "", "";
      this.env := env;
    }

    // index_partitions
    method IndexPartitions()
      requires M.CurrentInRange(G())
      modifies this`env
      ensures G() == M.IndexPartitions(old(G()))
      ensures MtdRuns.Exact(G())
    {
      if current.Some? {
        var mtddevnum := 0;
        for d := 0 to current.value
          invariant mtddevnum == M.PartsBefore(devices, d) % 0x1_0000
          invariant env == old(env)
        {
          AddMod(M.PartsBefore(devices, d), |devices[d].parts|, 0x1_0000);
          mtddevnum := (mtddevnum + |devices[d].parts|) % 0x1_0000;
        }
        AddMod(M.PartsBefore(devices, current.value), partnum, 0x1_0000);
        env := env.(mtddevnum := Some((mtddevnum + partnum) % 0x1_0000));
      } else {
        env := env.(mtddevnum := None);
      }
    }

    // current_save
    method CurrentSave()
      requires M.CurrentInRange(G())
      modifies this`env, this`lastPartition
      ensures G() == M.CurrentSave(old(G()))
      ensures MtdRuns.Exact(G())
    {
      if current.Some? {
        var buf := M.PartitionId(devices[current.value], partnum);
        env := env.(partition := Some(buf));
        lastPartition := buf;
      } else {
        env := env.(partition := None);
        lastPartition := "";
      }
      IndexPartitions();
    }

    // jffs2_devices_init
    method DevicesInit()
      modifies this
      ensures G() == M.DevicesInit(old(G())) && ids == old(ids)
    {
      lastParts := "";
      current := None;
      devices := [];
      CurrentSave();
    }

    // part_sort_add on a device of the list
    method PartSortAdd(k: nat, part: PartInfo) returns (rc: int)
      requires k < |devices| && M.CurrentInRange(G())
      modifies this
      ensures match M.PartSortAdd(old(G()), k, part)
              case None => rc != 0 && G() == old(G())
              case Some(g) => rc == 0 && G() == g
      ensures M.CurrentInRange(G()) && ids == old(ids)
      ensures old(Ascending(devices[k].parts) && SingleZero(devices[k].parts) && |devices[k].parts| < 0x100) ==>
                k < |devices| && Ascending(devices[k].parts) && MtdRuns.CurrentKept(old(G()), G())
    {
      hide M.CurrentSave, M.IndexPartitions, SortPosition, InsertAt, MtdRuns.Exact, MtdRuns.CurrentKept, Ascending, SingleZero;
      if Ascending(devices[k].parts) && SingleZero(devices[k].parts) && |devices[k].parts| < 0x100 && M.PartSortAdd(G(), k, part).Some? {
        MtdRuns.SortAddKeepsCurrent(G(), k, part);
      }
      MtdRuns.CurrentKeptSelf(G());
      var parts := devices[k].parts;
      var place := SortedPlace(parts, part.offset);
      if place.None? {
        return 1;
      }
      var j := place.value;
      var before := j < |parts| && current == Some(k) && parts[j].offset <= parts[partnum].offset;
      devices := devices[k := devices[k].(parts := InsertAt(parts, j, part))];
      if before {
        partnum := (partnum + 1) % 0x100;
        CurrentSave();
      } else {
        IndexPartitions();
      }
      return 0;
    }

    // device_del
    method DeviceDel(k: nat)
      requires k < |devices| && M.CurrentInRange(G())
      requires M.NoEmptyDevice(devices)
      modifies this
      ensures G() == M.DeviceDel(old(G()), k) && ids == old(ids)
      ensures MtdRuns.Exact(G()) && devices == RemoveAt(old(devices), k)
      ensures old(current) != Some(k) ==> MtdRuns.CurrentKept(old(G()), G())
    {
      hide MtdRuns.Exact, MtdRuns.CurrentKept;
      MtdRuns.DeviceDelKeepsCurrent(G(), k);
      devices := RemoveAt(devices, k);
      if current == Some(k) {
        if devices == [] {
          current := None;
        } else {
          current := Some(0);
          partnum := 0;
        }
        CurrentSave();
        return;
      }
      current := M.CurrentWithout(current, k);
      IndexPartitions();
    }

    // part_del
    method PartDel(k: nat, i: nat)
      requires k < |devices| && i < |devices[k].parts| && M.CurrentInRange(G())
      requires M.NoEmptyDevice(devices)
      requires current == Some(k) ==> !M.LosesCurrent(devices[k].parts, partnum, i)
      modifies this
      ensures G() == M.PartDel(old(G()), k, i) && ids == old(ids)
      ensures MtdRuns.Exact(G())
      ensures old(StrictlyAscending(devices[k].parts) && (current != Some(k) || partnum != i)) ==> MtdRuns.CurrentKept(old(G()), G())
    {
      hide M.CurrentSave, M.IndexPartitions, M.DeviceDel, MtdRuns.Exact, MtdRuns.CurrentKept, StrictlyAscending;
      MtdRuns.PartDelExact(G(), k, i);
      if StrictlyAscending(devices[k].parts) {
        MtdRuns.PartDelKeepsCurrent(G(), k, i);
      }
      var parts := devices[k].parts;
      if |parts| == 1 {
        DeviceDel(k);
        return;
      }
      var currentSaveNeeded := false;
      if current == Some(k) {
        if partnum == i {
          partnum := 0;
        } else if parts[i].offset <= parts[partnum].offset {
          partnum := (partnum - 1) % 0x100;
        }
        currentSaveNeeded := true;
      }
      devices := devices[k := devices[k].(parts := RemoveAt(parts, i))];
      if currentSaveNeeded {
        CurrentSave();
      } else {
        IndexPartitions();
      }
    }

    // device_add
    method DeviceAdd(dev: MtdDevice)
      requires M.CurrentInRange(G()) && dev.parts != []
      modifies this
      ensures G() == M.DeviceAdd(old(G()), dev) && ids == old(ids)
      ensures MtdRuns.Exact(G()) && devices == old(devices) + [dev] && MtdRuns.CurrentKept(old(G()), G())
    {
      MtdRuns.DeviceAddKeepsCurrent(G(), dev);
      hide MtdRuns.Exact, MtdRuns.CurrentKept;
      var currentSaveNeeded := false;
      if devices == [] {
        current := Some(0);
        partnum := 0;
        currentSaveNeeded := true;
      }
      devices := devices + [dev];
      if currentSaveNeeded {
        CurrentSave();
      } else {
        IndexPartitions();
      }
    }

    // generate_mtdparts_save(last_parts, MTDPARTS_MAXLEN)
    method GenerateSave() returns (rc: int)
      modifies this`lastParts, this`env
      ensures M.Outcome(G(), rc) == M.GenerateSave(old(G()))
      ensures old(MtdRuns.Edited(hw, G())) ==> (MtdRuns.Coherent(hw, G()) <==> MtdRuns.Printable(devices))
    {
      if MtdRuns.Edited(hw, G()) {
        MtdRuns.SavedCoherentIff(hw, G());
      }
      hide MtdRuns.Edited, MtdRuns.Coherent, MtdRuns.Printable;
      hide TableText, DevicesText;
      var text := GenerateMtdparts(devices, M.MTDPARTS_MAXLEN);
      lastParts := if text.Some? then text.value else "";
      rc := if text.Some? then 0 else 1;
      if lastParts != "" && rc == 0 {
        env := env.(mtdparts := Some(lastParts));
      } else {
        env := env.(mtdparts := None);
      }
      assert devices != [] ==> TableText(devices) != "" by {
        NonEmptyText(devices);
      }
      assert devices == [] ==> TableText(devices) == "" by {
        NonEmptyText(devices);
      }
    }

    // mtdparts_init
    method Init() returns (rc: int)
      requires Valid()
      modifies this
      ensures M.Outcome(G(), rc) == M.Init(hw, defaults, old(G()))
      ensures Valid()
      ensures rc == 0 ==> lastIds != ""
      ensures rc == 0 && env.mtdparts.Some? ==> MtdRuns.Mirrors(hw, G()) && current.Some?
      ensures MtdRuns.NamesCurrent(G())
    {
      hide M.SyncTable, M.ParseIds, ParseTable, M.DevNumber, M.PartitionId;
      hide MtdRuns.IdsInForce, MtdRuns.NamesCurrent, MtdRuns.Coherent, MtdRuns.Mirrors;
      MtdRuns.CoherentIndexed(hw, G());
      MtdRuns.InitNames(hw, defaults, G());
      hide MtdRuns.Indexed;
      var tmpEp := "";
      if env.partition.Some? {
        tmpEp := M.Truncate(env.partition.value, M.PARTITION_MAXLEN);
      }
      if env.mtdids.None? {
        env := env.(mtdids := defaults.mtdids);
      }
      if env.mtdids.None? {
        return 1;
      }
      if |env.mtdids.value| > M.MTDIDS_MAXLEN - 1 {
        return 1;
      }
      if env.mtdparts.Some? && |env.mtdparts.value| > M.MTDPARTS_MAXLEN - 1 {
        return 1;
      }
      var idsChanged := lastIds == "" || lastIds != env.mtdids.value;
      if idsChanged {
        rc := RefreshIds(env.mtdids.value);
        if rc != 0 {
          return 1;
        }
      }
      rc := SyncTable(idsChanged, tmpEp);
    }

    // The first half of mtdparts_init: parse an mtdids text that is new.
    method RefreshIds(text: string) returns (rc: int)
      requires hw.Sound() && M.CurrentInRange(G())
      modifies this
      ensures M.Outcome(G(), rc) == M.RefreshIds(hw, old(G()), text)
      ensures SoundIds(ids)
    {
      hide M.ParseIds;
      var parsed := ParseMtdids(hw, text);
      match parsed {
        case IdsBad(left) =>
          ids, lastIds := left, "";
          DevicesInit();
          return 1;
        case IdsOk(found) =>
          ids, lastIds := found, text;
          return 0;
      }
    }

    // The second half of mtdparts_init.
    method SyncTable(idsChanged: bool, tmpEp: string) returns (rc: int)
      requires hw.Sound() && SoundIds(ids) && M.CurrentInRange(G())
      modifies this
      ensures M.Outcome(G(), rc) == M.SyncTable(old(G()), idsChanged, tmpEp)
      ensures ids == old(ids)
      ensures old(MtdRuns.IdsInForce(hw, G(), idsChanged)) ==>
                && MtdRuns.Coherent(hw, G())
                && (rc == 0 && env.mtdparts.Some? ==> MtdRuns.Mirrors(hw, G()))
    {
      hide ParseTable, M.FindDevAndPart, M.DevNumber, M.PartitionId, MtdRuns.IdsInForce, MtdRuns.Coherent, MtdRuns.Mirrors, MtdRuns.Exact, M.FollowPartition, GoodTable;
      if MtdRuns.IdsInForce(hw, G(), idsChanged) {
        MtdRuns.SyncTableCoherent(hw, G(), idsChanged, tmpEp);
      }
      if env.mtdparts.Some? && (lastParts == "" || lastParts != env.mtdparts.value || idsChanged) {
        var text := env.mtdparts.value;
        var table := ParseMtdparts(ids, text);
        DevicesInit();
        if table.None? {
          return 1;
        }
        ParseTableGood(ids, text);
        MtdRuns.FirstHasParts(ids, table.value);
        devices := table.value;
        lastParts := text;
        current := Some(0);
        partnum := 0;
        CurrentSave();
      }
      if env.mtdparts.None? && lastParts != "" {
        DevicesInit();
        return 0;
      }
      if env.mtdparts.None? {
        return 0;
      }
      FollowPartition(tmpEp);
      return 0;
    }

    // The end of mtdparts_init: the `partition` variable chooses the current partition.
    method FollowPartition(tmpEp: string)
      requires M.CurrentInRange(G())
      modifies this
      ensures G() == M.FollowPartition(old(G()), tmpEp)
      ensures ids == old(ids)
    {
      hide M.DevNumber, M.PartitionId;
      if tmpEp != "" && tmpEp != lastPartition {
        var found := FindDevAndPart(devices, tmpEp);
        if found.Some? {
          current := Some(found.value.dev);
          partnum := found.value.part % 0x100;
          CurrentSave();
        }
      } else if env.partition.None? {
        CurrentSave();
      }
    }

    // `mtdparts add <mtd-dev> <size>[@<offset>] <name> [ro]`; no flag is an empty one.
    method Add(devId: string, spec: string, name: string, flag: string) returns (rc: int)
      requires Valid()
      modifies this
      ensures M.Outcome(G(), rc) == M.AddCommand(hw, defaults, old(G()), devId, spec, name, flag)
      ensures devices == M.Init(hw, defaults, old(G())).g.devices || MtdRuns.Printable(devices) ==> Valid()
    {
      hide MtdRuns.Coherent, M.Init, M.AddPartition, MtdRuns.Printable, GoodTable;
      rc := Init();
      if rc != 0 {
        return 1;
      }
      MtdRuns.CoherentGood(hw, G());
      MtdRuns.CoherentIndexed(hw, G());
      MtdRuns.AddCoherent(hw, G(), devId, spec, name, flag);
      rc := AddPart(devId, spec, name, flag);
    }

    // `mtdparts del <part-id>`
    method Del(id: string) returns (rc: int)
      requires Valid()
      requires M.DelCommand(hw, defaults, G(), id).Some?
      modifies this
      ensures M.Outcome(G(), rc) == M.DelCommand(hw, defaults, old(G()), id).value
      ensures devices == M.Init(hw, defaults, old(G())).g.devices || MtdRuns.Printable(devices) ==> Valid()
    {
      hide MtdRuns.Coherent, M.Init, M.PartDel, MtdRuns.Printable, M.FindDevAndPart, M.GenerateSave;
      rc := Init();
      if rc != 0 {
        return 1;
      }
      MtdRuns.DelCoherent(hw, G(), id);
      var found := FindDevAndPart(devices, id);
      if found.None? {
        return 1;
      }
      PartDel(found.value.dev, found.value.part);
      rc := GenerateSave();
    }

    method AddPart(devId: string, spec: string, name: string, flag: string) returns (rc: int)
      requires SoundIds(ids) && GoodTable(ids, devices) && M.CurrentInRange(G())
      modifies this
      ensures M.Outcome(G(), rc) == M.AddPartition(old(G()), devId, spec, name, flag)
      ensures ids == old(ids)
    {
      hide M.ScanDevNum, ScanDevice, Links, M.MergeDevice, M.FindNum, GoodTable, M.AddLength, M.AddText;
      assert devId[0..] == devId;
      var dev, _ := IdParse(devId, 0);
      if dev.None? {
        return 1;
      }
      var id := M.FindNum(ids, dev.value);
      if id.None? {
        return 1;
      }
      var len := DescriptionLength(id.value, spec, name, flag);
      if len >= M.PART_ADD_DESC_MAXLEN {
        return 1;
      }
      var tmpbuf := M.AddText(id.value, spec, name, flag);
      assert tmpbuf[0..] == tmpbuf;
      ScanDeviceGood(ids, devices, tmpbuf);
      var found, _, linked := DeviceParse(ids, devices, tmpbuf, 0);
      if linked {
        IndexPartitions();
      }
      if found.None? {
        return 1;
      }
      rc := Merge(found.value);
    }

    // The merge of a parsed device into the list.
    method Merge(dev: MtdDevice) returns (rc: int)
      requires M.CurrentInRange(G()) && dev.parts != []
      requires SoundIds(ids) && GoodTable(ids, devices)
      modifies this
      ensures M.Outcome(G(), rc) == M.MergeDevice(old(G()), dev)
      ensures ids == old(ids)
    {
      hide M.GenerateSave, M.PartSortAdd, M.DeviceAdd, PartValidate;
      var k := DeviceFind(devices, dev.id.devType, dev.id.num);
      if k.None? {
        DeviceAdd(dev);
      } else {
        assert GoodDevice(ids, devices[k.value]);
        var part := Validate(devices[k.value].id, dev.parts[0]);
        if part.None? {
          return 1;
        }
        rc := PartSortAdd(k.value, part.value);
        if rc != 0 {
          return 1;
        }
      }
      rc := GenerateSave();
    }
  }

  lemma NonEmptyText(devices: seq<MtdDevice>)
    ensures TableText(devices) == "" <==> devices == []
  {
  }
}
