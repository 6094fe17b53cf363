// What holds on every run of the mtdparts commands (common/cmd_jffs2.c).

module MtdRuns {
  import opened Words
  import opened MtdTypes
  import opened MtdTable
  import opened MtdGlobals
  import opened MtdExamples

  // ----- invariant ---------------------------------------------------------------------

  // What index_partitions leaves in the index variable.
  predicate Exact(g: Globals) {
    CurrentInRange(g) && g.env.mtddevnum == DevNumber(g)
  }

  // The same where there is a current partition.  Without one the variable may still hold
  // what the saved environment came with.
  predicate Indexed(g: Globals) {
    CurrentInRange(g) && (g.current.Some? ==> g.env.mtddevnum == DevNumber(g))
  }

  // The caches describe the lists: a remembered text is one whose parse is in memory.
  predicate Coherent(hw: Hardware, g: Globals) {
    && Indexed(g)
    && (g.lastIds != "" ==> ParseIds(hw, g.lastIds) == IdsOk(g.ids))
    && (g.devices == [] <==> g.lastParts == "")
    && (g.lastParts != "" ==> g.lastIds != "" && ParseTable(g.ids, g.lastParts) == Some(g.devices))
    && |g.lastParts| < MTDPARTS_MAXLEN + |PREFIX|
  }

  // The table in memory is the one the two variables describe, parsed afresh.
  predicate Mirrors(hw: Hardware, g: Globals) {
    && g.env.mtdids.Some? && g.env.mtdparts.Some?
    && match ParseIds(hw, g.env.mtdids.value)
       case IdsBad(_) => false
       case IdsOk(ids) => ParseTable(ids, g.env.mtdparts.value) == Some(g.devices)
  }

  lemma CoherentIndexed(hw: Hardware, g: Globals)
    requires Coherent(hw, g)
    ensures Indexed(g)
  {
  }

  lemma CoherentGood(hw: Hardware, g: Globals)
    requires Coherent(hw, g)
    ensures GoodTable(g.ids, g.devices)
  {
    hide GoodDevice;
    if g.devices != [] {
      ParseTableGood(g.ids, g.lastParts);
    }
  }

  // ----- mtdparts_init ------------------------------------------------------------------

  lemma SaveIndexes(g: Globals)
    requires CurrentInRange(g)
    ensures forall r :: r in {CurrentSave(g), IndexPartitions(g)} ==>
              && Exact(r) && Indexed(r)
              && r.ids == g.ids && r.devices == g.devices && r.lastIds == g.lastIds && r.lastParts == g.lastParts
              && r.env.mtdids == g.env.mtdids && r.env.mtdparts == g.env.mtdparts
              && r.current == g.current && r.partnum == g.partnum
  {
    hide PartsBefore, PartitionId;
  }

  lemma DevicesInitCoherent(hw: Hardware, g: Globals)
    requires g.lastIds != "" ==> ParseIds(hw, g.lastIds) == IdsOk(g.ids)
    ensures Coherent(hw, DevicesInit(g))
  {
    hide ParseIds, ParseTable;
    SaveIndexes(g.(lastParts := "", current := None, devices := []));
  }

  lemma RefreshIdsCoherent(hw: Hardware, g: Globals, text: string)
    requires CurrentInRange(g)
    ensures var o := RefreshIds(hw, g, text);
            && o.g.env.mtdids == g.env.mtdids && o.g.env.mtdparts == g.env.mtdparts
            && (o.rc == 0 ==> o.g.lastIds == text && ParseIds(hw, text) == IdsOk(o.g.ids))
            && (o.rc != 0 ==> Coherent(hw, o.g))
  {
    hide ParseTable;
    match ParseIds(hw, text) {
      case IdsBad(left) =>
        DevicesInitCoherent(hw, g.(ids := left, lastIds := ""));
        SaveIndexes(g.(ids := left, lastIds := "", lastParts := "", current := None, devices := []));
      case IdsOk(ids) =>
    }
  }

  lemma RefreshTableCoherent(hw: Hardware, g: Globals, text: string)
    requires g.lastIds != "" && ParseIds(hw, g.lastIds) == IdsOk(g.ids) && |text| < MTDPARTS_MAXLEN
    ensures var o := RefreshTable(g, text);
            && Coherent(hw, o.g) && (o.rc == 0 ==> o.g.lastParts == text != "")
            && o.g.env.mtdids == g.env.mtdids && o.g.env.mtdparts == g.env.mtdparts
            && o.g.lastIds == g.lastIds
  {
    hide GoodTable, ParseIds;
    DevicesInitCoherent(hw, g);
    SaveIndexes(g.(lastParts := "", current := None, devices := []));
    if ParseTable(g.ids, text).Some? {
      ParseTableGood(g.ids, text);
      assert text != "";
      var devices := ParseTable(g.ids, text).value;
      assert devices[0].parts != [] by {
        FirstHasParts(g.ids, devices);
      }
      SaveIndexes(DevicesInit(g).(devices := devices, lastParts := text, current := Some(0), partnum := 0));
    }
  }

  lemma FirstHasParts(ids: seq<MtdId>, devices: seq<MtdDevice>)
    requires devices != [] && GoodTable(ids, devices)
    ensures devices[0].parts != []
  {
  }

  lemma FollowCoherent(hw: Hardware, g: Globals, wanted: string)
    requires Coherent(hw, g)
    ensures var r := FollowPartition(g, wanted);
            && Coherent(hw, r)
            && r.ids == g.ids && r.devices == g.devices && r.lastIds == g.lastIds && r.lastParts == g.lastParts
            && r.env.mtdids == g.env.mtdids && r.env.mtdparts == g.env.mtdparts
  {
    hide ParseIds, ParseTable, FollowPartition;
    FollowKeepsTable(g, wanted);
  }

  // What mtdparts_init knows once the list of ids is that of the variable.
  predicate IdsInForce(hw: Hardware, g: Globals, idsChanged: bool) {
    && g.lastIds != "" && ParseIds(hw, g.lastIds) == IdsOk(g.ids) && g.env.mtdids == Some(g.lastIds)
    && CurrentInRange(g) && (if idsChanged then g.devices == [] <==> g.lastParts == "" else Coherent(hw, g))
    && !TooLong(g.env.mtdparts, MTDPARTS_MAXLEN)
  }

  lemma SyncTableCoherent(hw: Hardware, g: Globals, idsChanged: bool, wanted: string)
    requires IdsInForce(hw, g, idsChanged)
    ensures var o := SyncTable(g, idsChanged, wanted);
            && Coherent(hw, o.g) && (o.rc == 0 ==> o.g.lastIds != "")
            && (o.rc == 0 && o.g.env.mtdparts.Some? ==> Mirrors(hw, o.g))
  {
    assert g.devices == [] ==> Indexed(g);
    hide ParseIds, ParseTable, FollowPartition, RefreshTable, Indexed;
    match g.env.mtdparts {
      case None =>
        DevicesInitCoherent(hw, g);
        SaveIndexes(g.(lastParts := "", current := None, devices := []));
      case Some(text) =>
        RefreshTableCoherent(hw, g, text);
        var stale := g.lastParts == "" || g.lastParts != text || idsChanged;
        var o := if stale then RefreshTable(g, text) else Outcome(g, 0);
        if o.rc == 0 {
          FollowCoherent(hw, o.g, wanted);
        }
    }
  }

  // mtdparts_init keeps the caches coherent, and when it returns 0 with `mtdparts` set the
  // table in memory is a fresh parse of the variable -- also when it did not parse anything.
  lemma InitMirrors(hw: Hardware, d: Defaults, g: Globals)
    requires Coherent(hw, g)
    ensures var o := Init(hw, d, g);
            && Coherent(hw, o.g) && (o.rc == 0 ==> o.g.lastIds != "")
            && (o.rc == 0 && o.g.env.mtdparts.Some? ==> Mirrors(hw, o.g))
  {
    hide ParseIds, ParseTable, SyncTable, RefreshIds;
    var wanted := if g.env.partition.Some? then Truncate(g.env.partition.value, PARTITION_MAXLEN) else "";
    var g1 := WithDefaultIds(d, g);
    assert Coherent(hw, g1);
    if g1.env.mtdids.Some? && !TooLong(g1.env.mtdids, MTDIDS_MAXLEN) && !TooLong(g1.env.mtdparts, MTDPARTS_MAXLEN) {
      var text := g1.env.mtdids.value;
      var idsChanged := g1.lastIds == "" || g1.lastIds != text;
      RefreshIdsCoherent(hw, g1, text);
      var o := if idsChanged then RefreshIds(hw, g1, text) else Outcome(g1, 0);
      if o.rc == 0 {
        ParsedIdsText(hw, text);
        IdsKeepTable(hw, g1, text);
        SyncTableCoherent(hw, o.g, idsChanged, wanted);
      }
    }
  }

  lemma ParsedIdsText(hw: Hardware, text: string)
    ensures ParseIds(hw, text).IdsOk? ==> text != ""
  {
  }

  lemma IdsKeepTable(hw: Hardware, g: Globals, text: string)
    requires CurrentInRange(g)
    ensures var o := RefreshIds(hw, g, text);
            o.rc == 0 ==> o.g == g.(ids := o.g.ids, lastIds := text)
  {
    hide ParseIds;
  }

  // ----- edits keep the table well formed ---------------------------------------------------

  lemma InsertedGood(id: MtdId, parts: seq<PartInfo>, part: PartInfo)
    requires GoodParts(id, parts) && GoodPart(id, part)
    requires Ascending(parts) && SingleZero(parts) && SortPosition(parts, part.offset).Some?
    ensures var r := InsertAt(parts, SortPosition(parts, part.offset).value, part);
            GoodParts(id, r) && Ascending(r) && SingleZero(r)
  {
    hide GoodPart, Ascending, SingleZero;
    SortInsertKeepsOrder(parts, part);
    InsertAtIndex(parts, SortPosition(parts, part.offset).value, part);
  }

  lemma RemovedGood(id: MtdId, parts: seq<PartInfo>, i: nat)
    requires i < |parts| && GoodParts(id, parts) && Ascending(parts) && SingleZero(parts)
    ensures var r := RemoveAt(parts, i); GoodParts(id, r) && Ascending(r) && SingleZero(r)
  {
    hide GoodPart;
    var r := RemoveAt(parts, i);
    assert forall j :: 0 <= j < |r| ==> r[j] == parts[if j < i then j else j + 1];
  }

  lemma ReplacedGood(ids: seq<MtdId>, devices: seq<MtdDevice>, k: nat, dev: MtdDevice)
    requires GoodTable(ids, devices) && k < |devices|
    requires dev.id == devices[k].id && GoodDevice(ids, dev)
    ensures GoodTable(ids, devices[k := dev])
  {
    hide GoodDevice;
  }

  lemma RemovedDeviceGood(ids: seq<MtdId>, devices: seq<MtdDevice>, k: nat)
    requires GoodTable(ids, devices) && k < |devices|
    ensures GoodTable(ids, RemoveAt(devices, k))
  {
    hide GoodDevice;
    var r := RemoveAt(devices, k);
    assert forall j :: 0 <= j < |r| ==> r[j] == devices[if j < k then j else j + 1];
  }

  // ----- the current partition ------------------------------------------------------------------

  function CurrentPart(g: Globals): PartInfo
    requires CurrentInRange(g) && g.current.Some?
  {
    g.devices[g.current.value].parts[g.partnum]
  }

  // There is still a current partition, and it is the one it was before.
  predicate CurrentKept(was: Globals, now: Globals)
    requires CurrentInRange(was)
  {
    was.current.Some? ==> CurrentInRange(now) && now.current.Some? && CurrentPart(now) == CurrentPart(was)
  }

  lemma CurrentKeptSelf(g: Globals)
    requires CurrentInRange(g)
    ensures CurrentKept(g, g)
  {
  }

  // part_sort_add counts the current partition up exactly when the new one goes in front of it.
  lemma InsertMovesNumber(parts: seq<PartInfo>, part: PartInfo, n: nat)
    requires Ascending(parts) && n < |parts| && SortPosition(parts, part.offset).Some?
    ensures var j := SortPosition(parts, part.offset).value;
            && (j <= n <==> j < |parts| && parts[j].offset <= parts[n].offset)
            && InsertAt(parts, j, part)[if j <= n then n + 1 else n] == parts[n]
  {
    SortPositionSplits(parts, part.offset);
    InsertAtIndex(parts, SortPosition(parts, part.offset).value, part);
    hide SortPosition, InsertAt;
  }

  // What part_sort_add does to the device list and the current number.
  lemma PartSortAddEffect(g: Globals, k: nat, part: PartInfo)
    requires CurrentInRange(g) && k < |g.devices| && PartSortAdd(g, k, part).Some?
    ensures SortPosition(g.devices[k].parts, part.offset).Some?
    ensures var r, parts := PartSortAdd(g, k, part).value, g.devices[k].parts;
            var j := SortPosition(parts, part.offset).value;
            && Exact(r) && Indexed(r) && r.current == g.current && r.ids == g.ids && r.lastIds == g.lastIds
            && r.devices == g.devices[k := MtdDevice(g.devices[k].id, InsertAt(parts, j, part))]
            && r.partnum == (if g.current == Some(k) && j < |parts| && parts[j].offset <= parts[g.partnum].offset
                             then (g.partnum + 1) % 0x100 else g.partnum)
  {
    hide CurrentSave, IndexPartitions, SortPosition, Exact, Indexed;
    var parts := g.devices[k].parts;
    var j := SortPosition(parts, part.offset).value;
    var g1 := g.(devices := g.devices[k := g.devices[k].(parts := InsertAt(parts, j, part))]);
    if g.current == Some(k) && j < |parts| && parts[j].offset <= parts[g.partnum].offset {
      SaveIndexes(g1.(partnum := (g.partnum + 1) % 0x100));
    } else {
      SaveIndexes(g1);
    }
  }

  // Adding a partition keeps the list sorted and the current partition the same one.
  lemma SortAddKeepsCurrent(g: Globals, k: nat, part: PartInfo)
    requires CurrentInRange(g) && k < |g.devices| && |g.devices[k].parts| < 0x100
    requires Ascending(g.devices[k].parts) && SingleZero(g.devices[k].parts)
    requires PartSortAdd(g, k, part).Some?
    ensures var r := PartSortAdd(g, k, part).value;
            && Indexed(r) && |r.devices| == |g.devices| && Ascending(r.devices[k].parts)
            && r.current == g.current && CurrentKept(g, r)
  {
    hide PartSortAdd, DevNumber, SortPosition, InsertAt, Ascending, SingleZero;
    PartSortAddEffect(g, k, part);
    SortInsertKeepsOrder(g.devices[k].parts, part);
    if g.current == Some(k) {
      InsertMovesNumber(g.devices[k].parts, part, g.partnum);
    }
  }

  // On a coherent state the current number cannot wrap, so `mtdparts add` to a device never
  // changes which partition is the current one.
  lemma AddKeepsCurrent(hw: Hardware, g: Globals, k: nat, part: PartInfo)
    requires Coherent(hw, g) && k < |g.devices| && PartSortAdd(g, k, part).Some?
    ensures var r := PartSortAdd(g, k, part).value;
            Indexed(r) && r.current == g.current && CurrentKept(g, r)
  {
    hide ParseTable, ParseIds, PartSortAdd, Indexed, FindId, GoodParts;
    CoherentGood(hw, g);
    CoherentIndexed(hw, g);
    ParseTableCount(g.ids, g.lastParts);
    assert GoodDevice(g.ids, g.devices[k]);
    PartsOfOne(g.devices, k);
    SortAddKeepsCurrent(g, k, part);
    PartSortAddEffect(g, k, part);
  }

  // The number a partition has after partition i of its device is gone.
  function NumberWithout(n: nat, i: nat): nat
    requires n != i
  {
    if i < n then n - 1 else n
  }

  // Deleting another partition of the current device keeps the current one if and only if
  // the deleted one does not follow it at the same offset.
  lemma DeleteKeepsCurrentIff(parts: seq<PartInfo>, partnum: byte, i: nat)
    requires Ascending(parts) && partnum < |parts| && i < |parts| && i != partnum
    ensures PartnumWithout(parts, partnum, i) == NumberWithout(partnum, i)
       <==> !(partnum < i && parts[i].offset == parts[partnum].offset)
  {
  }

  // Both ways to fail, in lists a chip with 4 KiB blocks carries: the number runs below 0, so
  // that it names no partition, or comes to name another one.
  lemma DeletionMoves(id: MtdId)
    requires id.chip == NandChip(0x1000) && id.size >= 0x5000
    ensures var parts := Pair(0x1000, 0x2000);
            && GoodParts(id, parts) && Ascending(parts) && SingleZero(parts)
            && PartnumWithout(parts, 0, 1) == 0xFF && LosesCurrent(parts, 0, 1)
    ensures var parts := Pair(0x1000, 0x2000) + Pair(0x3000, 0x4000);
            && GoodParts(id, parts) && Ascending(parts) && SingleZero(parts)
            && PartnumWithout(parts, 1, 2) == 0 && !LosesCurrent(parts, 1, 2) && RemoveAt(parts, 2)[0] != parts[1]
  {
  }

  // What part_del does to a device that keeps other partitions.
  lemma PartDelEffect(g: Globals, k: nat, i: nat)
    requires CurrentInRange(g) && k < |g.devices| && i < |g.devices[k].parts| && |g.devices[k].parts| > 1
    requires NoEmptyDevice(g.devices)
    requires g.current == Some(k) ==> !LosesCurrent(g.devices[k].parts, g.partnum, i)
    ensures var r, parts := PartDel(g, k, i), g.devices[k].parts;
            && Exact(r) && Indexed(r) && r.current == g.current && r.ids == g.ids && r.lastIds == g.lastIds
            && r.devices == g.devices[k := MtdDevice(g.devices[k].id, RemoveAt(parts, i))]
            && r.partnum == (if g.current == Some(k) then PartnumWithout(parts, g.partnum, i) else g.partnum)
  {
    hide CurrentSave, IndexPartitions, Exact, Indexed, PartnumWithout, RemoveAt;
    var parts := g.devices[k].parts;
    var g1 := g.(devices := g.devices[k := g.devices[k].(parts := RemoveAt(parts, i))]);
    if g.current == Some(k) {
      SaveIndexes(g1.(partnum := PartnumWithout(parts, g.partnum, i)));
    } else {
      SaveIndexes(g1);
    }
  }

  // What device_del does: the current device stays, unless it is the one deleted.
  lemma DeviceDelEffect(g: Globals, k: nat)
    requires k < |g.devices| && CurrentInRange(g)
    requires NoEmptyDevice(g.devices)
    ensures var r := DeviceDel(g, k);
            && Exact(r) && Indexed(r) && r.devices == RemoveAt(g.devices, k) && r.ids == g.ids && r.lastIds == g.lastIds
            && (g.current.Some? && g.current.value != k ==>
                 r.current == Some(NumberWithout(g.current.value, k)) && r.partnum == g.partnum)
            && (g.current == Some(k) ==>
                 if |g.devices| == 1 then r.current == None else r.current == Some(0) && r.partnum == 0)
  {
    hide CurrentSave, IndexPartitions, Exact, Indexed;
    var left := RemoveAt(g.devices, k);
    if g.current == Some(k) {
      SaveIndexes(g.(devices := left, current := if left == [] then None else Some(0), partnum := if left == [] then g.partnum else 0));
    } else {
      if g.current.Some? {
        assert left[NumberWithout(g.current.value, k)] == g.devices[g.current.value];
      }
      SaveIndexes(g.(devices := left, current := CurrentWithout(g.current, k)));
    }
  }

  lemma RemoveAtIndex<T>(xs: seq<T>, i: nat, n: nat)
    requires i < |xs| && n < |xs| && n != i
    ensures NumberWithout(n, i) < |xs| - 1 && RemoveAt(xs, i)[NumberWithout(n, i)] == xs[n]
  {
  }

  // Deleting another device keeps the current partition.
  lemma DeviceDelKeepsCurrent(g: Globals, k: nat)
    requires k < |g.devices| && CurrentInRange(g)
    requires NoEmptyDevice(g.devices)
    ensures var r := DeviceDel(g, k);
            && Exact(r) && r.devices == RemoveAt(g.devices, k)
            && (g.current != Some(k) ==> CurrentKept(g, r))
  {
    DeviceDelEffect(g, k);
    hide DeviceDel, DevNumber, RemoveAt;
    if g.current.Some? && g.current.value != k {
      RemoveAtIndex(g.devices, k, g.current.value);
    }
  }

  lemma PartDelExact(g: Globals, k: nat, i: nat)
    requires CurrentInRange(g) && k < |g.devices| && i < |g.devices[k].parts|
    requires NoEmptyDevice(g.devices)
    requires g.current == Some(k) ==> !LosesCurrent(g.devices[k].parts, g.partnum, i)
    ensures Exact(PartDel(g, k, i))
  {
    if |g.devices[k].parts| == 1 {
      DeviceDelEffect(g, k);
    } else {
      PartDelEffect(g, k, i);
    }
    hide Exact;
  }

  // Deleting any partition but the current one keeps the current one.
  lemma PartDelKeepsCurrent(g: Globals, k: nat, i: nat)
    requires CurrentInRange(g) && k < |g.devices| && i < |g.devices[k].parts|
    requires NoEmptyDevice(g.devices)
    requires StrictlyAscending(g.devices[k].parts)
    ensures g.current == Some(k) ==> !LosesCurrent(g.devices[k].parts, g.partnum, i)
    ensures var r := PartDel(g, k, i);
            && Exact(r)
            && (g.current != Some(k) || g.partnum != i ==> CurrentKept(g, r))
  {
    var parts := g.devices[k].parts;
    if |parts| == 1 {
      DeviceDelKeepsCurrent(g, k);
      hide DeviceDel, DevNumber;
    } else {
      if g.current == Some(k) && g.partnum != i {
        DeleteKeepsCurrentIff(parts, g.partnum, i);
        RemoveAtIndex(parts, i, g.partnum);
      }
      PartDelEffect(g, k, i);
      hide PartDel, DevNumber, RemoveAt;
    }
  }

  // `mtddevnum` is the position of the current partition among all partitions.
  lemma {:induction false} AllPartsAt(devices: seq<MtdDevice>, k: nat, i: nat)
    requires k < |devices| && i < |devices[k].parts|
    ensures PartsBefore(devices, k) + i < |AllParts(devices)|
    ensures AllParts(devices)[PartsBefore(devices, k) + i] == devices[k].parts[i]
    decreases |devices|
  {
    if k > 0 {
      AllPartsAt(devices[1..], k - 1, i);
      PartsBeforeTail(devices, k);
    }
  }

  lemma {:induction false} PartsBeforeTail(devices: seq<MtdDevice>, k: nat)
    requires 0 < k <= |devices|
    ensures PartsBefore(devices, k) == |devices[0].parts| + PartsBefore(devices[1..], k - 1)
  {
    if k > 1 {
      PartsBeforeTail(devices, k - 1);
    }
  }

  // `mtddevnum` is the position of the current partition in the whole table.
  predicate NamesCurrent(g: Globals)
    requires CurrentInRange(g)
  {
    g.current.Some? ==>
      && g.env.mtddevnum.Some? && g.env.mtddevnum.value < |AllParts(g.devices)|
      && AllParts(g.devices)[g.env.mtddevnum.value] == CurrentPart(g)
  }

  // The text the table was read from is too short for the sixteen bits to wrap.
  lemma IndexNamesCurrent(hw: Hardware, g: Globals)
    requires Coherent(hw, g)
    ensures NamesCurrent(g)
  {
    hide ParseIds, ParseTable;
    if g.current.Some? {
      ParseTableCount(g.ids, g.lastParts);
      AllPartsAt(g.devices, g.current.value, g.partnum);
    }
  }

  // ----- add and del keep the caches coherent -------------------------------------------------

  // What an edit hands to generate_mtdparts_save.
  predicate Edited(hw: Hardware, g: Globals) {
    && Indexed(g) && GoodTable(g.ids, g.devices)
    && g.lastIds != "" && ParseIds(hw, g.lastIds) == IdsOk(g.ids)
  }

  // A table whose text fits its buffer and reads back as itself.
  predicate Printable(devices: seq<MtdDevice>) {
    devices != [] ==> FitsBuffer(devices) && ReadableTable(devices) && MirroredTable(devices)
  }

  lemma SavedCoherent(hw: Hardware, g: Globals)
    requires Edited(hw, g) && Printable(g.devices)
    ensures GenerateSave(g).rc == 0 && Coherent(hw, GenerateSave(g).g)
    ensures g.devices != [] ==> GenerateSave(g).g.lastParts == TableText(g.devices)
  {
    hide GoodTable, ReadableTable, MirroredTable, ParseIds, ParseTable, DevicesText, PartsBefore;
    if g.devices != [] {
      PrintedTableReads(g.ids, g.devices);
    }
  }

  lemma SavedCoherentIff(hw: Hardware, g: Globals)
    requires Edited(hw, g)
    ensures Coherent(hw, GenerateSave(g).g) <==> Printable(g.devices)
  {
    hide GoodTable, FitsBuffer, ReadableTable, MirroredTable, ParseIds, ParseTable, DevicesText, PartsBefore;
    if Printable(g.devices) {
      SavedCoherent(hw, g);
    } else {
      TableSurvivesIff(g.ids, g.devices);
      assert TableText(g.devices) != "";
    }
  }

  // ----- when mtdparts_init does not read anything -------------------------------------------------

  // The text of mtdids that mtdparts_init goes by.
  function IdsText(d: Defaults, g: Globals): Option<string> {
    WithDefaultIds(d, g).env.mtdids
  }

  // Nothing is too long or missing.
  predicate Starts(d: Defaults, g: Globals) {
    IdsText(d, g).Some? && !TooLong(IdsText(d, g), MTDIDS_MAXLEN) && !TooLong(g.env.mtdparts, MTDPARTS_MAXLEN)
  }

  predicate NewIds(d: Defaults, g: Globals)
    requires Starts(d, g)
  {
    g.lastIds == "" || g.lastIds != IdsText(d, g).value
  }

  // mtdparts_init reads the mtdparts variable.
  predicate Rereads(d: Defaults, g: Globals)
    requires Starts(d, g) && g.env.mtdparts.Some?
  {
    NewIds(d, g) || g.lastParts == "" || g.lastParts != g.env.mtdparts.value
  }

  lemma FollowKeepsTable(g: Globals, wanted: string)
    requires CurrentInRange(g)
    ensures var r := FollowPartition(g, wanted);
            && r.ids == g.ids && r.devices == g.devices && r.lastIds == g.lastIds && r.lastParts == g.lastParts
            && r.env.mtdids == g.env.mtdids && r.env.mtdparts == g.env.mtdparts
            && (Exact(r) || r == g)
  {
    hide FindDevAndPart, Exact, Indexed;
    SaveIndexes(g);
    var found := FindDevAndPart(g.devices, wanted);
    if found.Some? {
      SaveIndexes(g.(current := Some(found.value.dev), partnum := found.value.part % 0x100));
    }
  }

  // Without a reread the table, the ids and what is remembered stay.
  lemma SyncKeeps(g: Globals, wanted: string)
    requires CurrentInRange(g) && g.env.mtdparts.Some? && g.lastParts != "" && g.lastParts == g.env.mtdparts.value
    ensures var o := SyncTable(g, false, wanted);
            && o.rc == 0 && o.g.ids == g.ids && o.g.devices == g.devices && o.g.lastIds == g.lastIds
            && o.g.env.mtdids == g.env.mtdids && o.g.env.mtdparts == g.env.mtdparts
  {
    hide FollowPartition;
    FollowKeepsTable(g, wanted);
  }

  // Without a reread everything that matters stays.
  lemma NoRereadKeeps(hw: Hardware, d: Defaults, g: Globals)
    requires CurrentInRange(g) && Starts(d, g) && g.env.mtdparts.Some? && !Rereads(d, g)
    ensures var o := Init(hw, d, g);
            && o.rc == 0 && o.g.ids == g.ids && o.g.devices == g.devices
            && o.g.env.mtdids == Some(g.lastIds) && o.g.env.mtdparts == Some(g.lastParts)
  {
    hide SyncTable, RefreshIds;
    var wanted := if g.env.partition.Some? then Truncate(g.env.partition.value, PARTITION_MAXLEN) else "";
    SyncKeeps(WithDefaultIds(d, g), wanted);
  }

  // Nor does it touch a table that is in memory without a text.
  lemma NoTextKeeps(hw: Hardware, d: Defaults, g: Globals)
    requires CurrentInRange(g) && Starts(d, g) && !NewIds(d, g) && g.env.mtdparts == None && g.lastParts == ""
    ensures Init(hw, d, g) == Outcome(WithDefaultIds(d, g), 0)
  {
    hide RefreshIds;
  }

  // Without a change of the ids it gives up on a text that is too long.
  lemma LongTextRefused(hw: Hardware, d: Defaults, g: Globals)
    requires CurrentInRange(g) && TooLong(g.env.mtdparts, MTDPARTS_MAXLEN) && g.env.mtdids.Some?
    ensures Init(hw, d, g) == Outcome(g, 1)
  {
    hide RefreshIds, SyncTable;
  }

  // It mirrors what it does not read exactly if that reads back as itself.
  lemma UnreadMirrorsIff(hw: Hardware, d: Defaults, g: Globals)
    requires Edited(hw, g) && g.devices != []
    requires Starts(d, g) && g.env.mtdparts == Some(TableText(g.devices)) && !Rereads(d, g)
    ensures var o := Init(hw, d, g);
            && o.rc == 0 && o.g.devices == g.devices && o.g.env.mtdparts == g.env.mtdparts
            && (Mirrors(hw, o.g) <==> ReadableTable(g.devices) && MirroredTable(g.devices))
  {
    assert g.lastParts == TableText(g.devices);
    hide GoodTable, ReadableTable, MirroredTable, ParseIds, ParseTable, TableText, DevNumber, Init, Rereads, Starts;
    TableSurvivesIff(g.ids, g.devices);
    NoRereadKeeps(hw, d, g);
  }

  lemma SavedStarts(hw: Hardware, d: Defaults, g: Globals)
    requires Edited(hw, g) && g.devices != []
    requires g.env.mtdids == Some(g.lastIds) && |g.lastIds| < MTDIDS_MAXLEN
    ensures var text := TableText(g.devices);
            && text != "" && (|text| < MTDPARTS_MAXLEN ==> FitsBuffer(g.devices))
            && (if FitsBuffer(g.devices) then
                  var s := g.(lastParts := text, env := g.env.(mtdparts := Some(text)));
                  GenerateSave(g) == Outcome(s, 0) && (|text| < MTDPARTS_MAXLEN ==> Edited(hw, s) && Starts(d, s) && !Rereads(d, s))
                else
                  var s := g.(lastParts := "", env := g.env.(mtdparts := None));
                  GenerateSave(g) == Outcome(s, 1) && Starts(d, s) && !NewIds(d, s) && CurrentInRange(s))
  {
    hide GoodTable, ParseIds, DevicesText, PartsBefore;
    var text := TableText(g.devices);
    assert |text| == |PREFIX| + |DevicesText(g.devices)| && |PREFIX| == 9;
    var s := g.(lastParts := text, env := g.env.(mtdparts := Some(text)));
    hide DevNumber;
    SameNumber(g, s);
    assert Edited(hw, s);
    assert |text| < MTDPARTS_MAXLEN ==> Starts(d, s);
  }

  // What the next mtdparts_init makes of a table an edit has left behind.  It never reads
  // anything again, so the table in memory is the one the variables describe exactly if the
  // text fits both limits and reads back as itself.
  lemma SavedMirrorsIff(hw: Hardware, d: Defaults, g: Globals)
    requires Edited(hw, g) && g.devices != []
    requires g.env.mtdids == Some(g.lastIds) && |g.lastIds| < MTDIDS_MAXLEN
    ensures var saved, text := GenerateSave(g), TableText(g.devices);
            var o := Init(hw, d, saved.g);
            && o.g.devices == g.devices
            && o.g.env.mtdparts == (if FitsBuffer(g.devices) then Some(text) else None)
            && saved.rc == (if FitsBuffer(g.devices) then 0 else 1)
            && o.rc == (if FitsBuffer(g.devices) && |text| >= MTDPARTS_MAXLEN then 1 else 0)
            && (Mirrors(hw, o.g) <==> FitsBuffer(g.devices) && ReadableTable(g.devices) && MirroredTable(g.devices))
  {
    var saved, text := GenerateSave(g), TableText(g.devices);
    SavedStarts(hw, d, g);
    if !FitsBuffer(g.devices) {
      hide FitsBuffer, Init, GenerateSave;
      NoTextKeeps(hw, d, saved.g);
    } else if |text| < MTDPARTS_MAXLEN {
      hide FitsBuffer, Init, GenerateSave, Edited, Starts, Rereads, Mirrors, TableText;
      UnreadMirrorsIff(hw, d, saved.g);
    } else {
      hide FitsBuffer, Init, GenerateSave, Starts, TableText, ParseTable;
      LongTextRefused(hw, d, saved.g);
      TableSurvivesIff(g.ids, g.devices);
    }
  }

  // So two partitions at one offset are enough to part the table from its variable.
  lemma EqualOffsetsPart(hw: Hardware, d: Defaults, g: Globals, id: MtdId)
    requires Edited(hw, g) && g.devices == [MtdDevice(id, Pair(0x1000, 0x2000))]
    requires id.chip == NandChip(0x1000) && id.size >= 0x3000
    requires g.env.mtdids == Some(g.lastIds) && |g.lastIds| < MTDIDS_MAXLEN
    ensures !Mirrors(hw, Init(hw, d, GenerateSave(g).g).g)
  {
    hide Init, GenerateSave, ParseIds, ParseTable, Mirrors, MirroredTable, Indexed;
    assert GoodDevice(g.ids, g.devices[0]);
    EqualOffsetsSwap(g.ids, id);
    SavedMirrorsIff(hw, d, g);
  }

  lemma AppendedGood(ids: seq<MtdId>, devices: seq<MtdDevice>, dev: MtdDevice)
    requires GoodTable(ids, devices) && GoodDevice(ids, dev)
    requires FindDevice(devices, dev.id.devType, dev.id.num).None?
    ensures GoodTable(ids, devices + [dev])
  {
    hide GoodDevice;
  }

  // The globals MergeDevice passes to generate_mtdparts_save, if it gets there.
  function Merged(g: Globals, found: MtdDevice): (r: Option<Globals>)
    requires CurrentInRange(g) && found.parts != []
    ensures MergeDevice(g, found) == if r.Some? then GenerateSave(r.value) else Outcome(g, 1)
  {
    match FindDevice(g.devices, found.id.devType, found.id.num)
    case None => Some(DeviceAdd(g, found))
    case Some(k) =>
      match PartValidate(g.devices[k].id, found.parts[0])
      case None => None
      case Some(part) => PartSortAdd(g, k, part)
  }

  lemma MergedEdited(hw: Hardware, g: Globals, found: MtdDevice)
    requires Edited(hw, g) && GoodDevice(g.ids, found)
    ensures Merged(g, found).Some? ==> Edited(hw, Merged(g, found).value)
  {
    hide ParseIds, FindId, SingleZero, Ascending, DevNumber;
    match FindDevice(g.devices, found.id.devType, found.id.num) {
      case None =>
        AppendedGood(g.ids, g.devices, found);
        DeviceAddEffect(g, found);
      case Some(k) =>
        var id := g.devices[k].id;
        ValidateExact(id, found.parts[0]);
        if PartValidate(id, found.parts[0]).Some? {
          ValidateKeepsName(id, found.parts[0]);
          var part := PartValidate(id, found.parts[0]).value;
          if PartSortAdd(g, k, part).Some? {
            PartSortAddEffect(g, k, part);
            InsertedGood(id, g.devices[k].parts, part);
            MergedTableGood(g, k, part);
          }
        }
    }
  }

  lemma MergedTableGood(g: Globals, k: nat, part: PartInfo)
    requires GoodTable(g.ids, g.devices) && k < |g.devices|
    requires GoodPart(g.devices[k].id, part) && SortPosition(g.devices[k].parts, part.offset).Some?
    ensures var parts := InsertAt(g.devices[k].parts, SortPosition(g.devices[k].parts, part.offset).value, part);
            GoodTable(g.ids, g.devices[k := MtdDevice(g.devices[k].id, parts)])
  {
    hide GoodPart, FindId, Ascending, SingleZero;
    assert GoodDevice(g.ids, g.devices[k]);
    InsertedGood(g.devices[k].id, g.devices[k].parts, part);
    var parts := InsertAt(g.devices[k].parts, SortPosition(g.devices[k].parts, part.offset).value, part);
    ReplacedGood(g.ids, g.devices, k, MtdDevice(g.devices[k].id, parts));
  }

  lemma DeviceAddEffect(g: Globals, dev: MtdDevice)
    requires CurrentInRange(g) && dev.parts != []
    ensures var r := DeviceAdd(g, dev);
            && Exact(r) && Indexed(r) && r.devices == g.devices + [dev] && r.ids == g.ids && r.lastIds == g.lastIds
            && (if g.current.Some? then r.current == g.current && r.partnum == g.partnum
                else r.current == Some(0) && r.partnum == 0)
  {
    hide CurrentSave, IndexPartitions, Exact, Indexed;
    var g1 := g.(devices := g.devices + [dev]);
    if g.devices == [] {
      SaveIndexes(g1.(current := Some(0), partnum := 0));
    } else {
      SaveIndexes(g1);
    }
  }

  lemma DeviceAddKeepsCurrent(g: Globals, dev: MtdDevice)
    requires CurrentInRange(g) && dev.parts != []
    ensures var r := DeviceAdd(g, dev);
            Exact(r) && r.devices == g.devices + [dev] && CurrentKept(g, r)
  {
    DeviceAddEffect(g, dev);
    hide DeviceAdd, DevNumber;
  }

  lemma PartDelEdited(hw: Hardware, g: Globals, p: Place)
    requires Edited(hw, g) && p.dev < |g.devices| && p.part < |g.devices[p.dev].parts|
    requires NoEmptyDevice(g.devices)
    requires Deletable(g, p)
    ensures Edited(hw, PartDel(g, p.dev, p.part))
  {
    var k, parts := p.dev, g.devices[p.dev].parts;
    assert GoodDevice(g.ids, g.devices[k]);
    hide ParseIds, FindId, GoodPart, SingleZero, Ascending, DevNumber, LosesCurrent;
    if |parts| == 1 {
      DeviceDelEffect(g, k);
      RemovedDeviceGood(g.ids, g.devices, k);
    } else {
      PartDelEffect(g, k, p.part);
      RemovedGood(g.devices[k].id, parts, p.part);
      ReplacedGood(g.ids, g.devices, k, MtdDevice(g.devices[k].id, RemoveAt(parts, p.part)));
    }
  }

  // ----- runs -----------------------------------------------------------------------------------

  // The commands, and changes of the variables by others.
  datatype Command =
    | SetIds(text: Option<string>)
    | SetParts(text: Option<string>)
    | SetPartition(text: Option<string>)
    | Sync
    | Add(devId: string, spec: string, name: string, flag: string)
    | Del(partId: string)
    | DelAll
    | Change(partId: string)

  // One step of a run.  A `del` that follows a null pointer has no next state.
  ghost predicate Step(hw: Hardware, d: Defaults, g: Globals, c: Command, h: Globals) {
    match c
    case SetIds(text) => h == g.(env := g.env.(mtdids := text))
    case SetParts(text) => h == g.(env := g.env.(mtdparts := text))
    case SetPartition(text) => h == g.(env := g.env.(partition := text))
    case Sync => CurrentInRange(g) && h == Init(hw, d, g).g
    case Add(devId, spec, name, flag) => CurrentInRange(g) && h == AddCommand(hw, d, g, devId, spec, name, flag).g
    case Del(partId) => CurrentInRange(g) && DelCommand(hw, d, g, partId).Some? && h == DelCommand(hw, d, g, partId).value.g
    case DelAll => CurrentInRange(g) && h == DelAllCommand(hw, d, g)
    case Change(partId) => CurrentInRange(g) && h == ChangeCommand(hw, d, g, partId).g
  }

  // An edit may only leave a printable table behind.
  ghost predicate Admissible(hw: Hardware, d: Defaults, g: Globals, c: Command, h: Globals) {
    Step(hw, d, g, c, h) && ((c.Add? || c.Del?) && h.devices != Init(hw, d, g).g.devices ==> Printable(h.devices))
  }

  lemma IndexCoherent(hw: Hardware, g: Globals)
    requires Coherent(hw, g)
    ensures Coherent(hw, IndexPartitions(g))
  {
    hide ParseIds, ParseTable;
    SaveIndexes(g);
  }

  lemma AddCoherent(hw: Hardware, g: Globals, devId: string, spec: string, name: string, flag: string)
    requires Coherent(hw, g) && g.lastIds != ""
    ensures var h := AddPartition(g, devId, spec, name, flag).g;
            h.devices == g.devices || Printable(h.devices) ==> Coherent(hw, h)
  {
    var dev := ScanDevNum(devId);
    hide ParseIds, ParseTable, GoodDevice, ScanDevNum, FitsBuffer, ReadableTable, MirroredTable, DevNumber;
    CoherentGood(hw, g);
    IndexCoherent(hw, g);
    if dev.Scanned? && FindNum(g.ids, dev.value).Some? {
      var text := AddText(FindNum(g.ids, dev.value).value, spec, name, flag);
      var found := ScanDevice(g.ids, g.devices, text);
      ScanDeviceGood(g.ids, g.devices, text);
      if found.Scanned? {
        MergeCoherent(hw, if Links(g.ids, g.devices, text) then IndexPartitions(g) else g, found.value);
      }
    }
  }

  lemma MergeCoherent(hw: Hardware, g: Globals, found: MtdDevice)
    requires Coherent(hw, g) && g.lastIds != "" && GoodTable(g.ids, g.devices) && GoodDevice(g.ids, found)
    ensures var h := MergeDevice(g, found).g;
            h.devices == g.devices || Printable(h.devices) ==> Coherent(hw, h)
  {
    hide ParseIds, ParseTable, GoodTable, DevNumber, GoodPart, Ascending, SingleZero, FindId;
    var merged := Merged(g, found);
    if merged.Some? {
      MergedEdited(hw, g, found);
      MergedGrows(g, found);
      hide Merged, MergeDevice, GoodDevice;
      if Printable(merged.value.devices) {
        SavedCoherent(hw, merged.value);
      }
    }
  }

  lemma MergedGrows(g: Globals, found: MtdDevice)
    requires CurrentInRange(g) && found.parts != []
    ensures Merged(g, found).Some? ==> Merged(g, found).value.devices != g.devices
  {
    hide DevNumber, PartValidate, SortPosition, Indexed;
    match FindDevice(g.devices, found.id.devType, found.id.num) {
      case None => DeviceAddEffect(g, found);
      case Some(k) =>
        var part := PartValidate(g.devices[k].id, found.parts[0]);
        if part.Some? && PartSortAdd(g, k, part.value).Some? {
          PartSortAddEffect(g, k, part.value);
        }
    }
  }

  lemma DelCoherent(hw: Hardware, g: Globals, id: string)
    requires Coherent(hw, g) && g.lastIds != ""
    ensures NoEmptyDevice(g.devices)
    ensures DeletePartition(g, id).Some? ==>
              var h := DeletePartition(g, id).value.g;
              h.devices == g.devices || Printable(h.devices) ==> Coherent(hw, h)
  {
    hide ParseIds, ParseTable, FindDevAndPart, GoodParts, FindId, Ascending, SingleZero, DevNumber, LosesCurrent;
    CoherentGood(hw, g);
    var p := FindDevAndPart(g.devices, id);
    if p.Some? && Deletable(g, p.value) {
      PartDelEdited(hw, g, p.value);
      PartDelShrinks(g, p.value);
      var g1 := PartDel(g, p.value.dev, p.value.part);
      hide PartDel, GoodTable;
      if Printable(g1.devices) {
        SavedCoherent(hw, g1);
      }
    }
  }

  lemma PartDelShrinks(g: Globals, p: Place)
    requires CurrentInRange(g) && p.dev < |g.devices| && p.part < |g.devices[p.dev].parts|
    requires NoEmptyDevice(g.devices)
    requires Deletable(g, p)
    ensures PartDel(g, p.dev, p.part).devices != g.devices
  {
    hide Indexed, LosesCurrent, PartnumWithout;
    if |g.devices[p.dev].parts| == 1 {
      DeviceDelEffect(g, p.dev);
    } else {
      PartDelEffect(g, p.dev, p.part);
    }
  }

  lemma ChangeCoherent(hw: Hardware, g: Globals, id: string)
    requires Coherent(hw, g)
    ensures Coherent(hw, ChangePart(g, id).g)
  {
    hide ParseIds, ParseTable, FindDevAndPart;
    var found := FindDevAndPart(g.devices, id);
    if found.Some? {
      SaveIndexes(g.(current := Some(found.value.dev), partnum := found.value.part % 0x100));
    }
  }

  lemma DelAllCoherent(hw: Hardware, d: Defaults, g: Globals)
    requires Coherent(hw, g)
    ensures Coherent(hw, DelAllCommand(hw, d, g))
  {
    hide ParseIds, ParseTable, Init;
    InitMirrors(hw, d, g);
    var o := Init(hw, d, g);
    DevicesInitCoherent(hw, o.g.(env := o.g.env.(mtdparts := None)));
  }

  lemma EnvCoherent(hw: Hardware, g: Globals, env: Env)
    requires Coherent(hw, g) && env.mtddevnum == g.env.mtddevnum
    ensures Coherent(hw, g.(env := env))
  {
    hide ParseIds, ParseTable;
  }

  lemma StepCoherent(hw: Hardware, d: Defaults, g: Globals, c: Command, h: Globals)
    requires Coherent(hw, g) && Admissible(hw, d, g, c, h)
    ensures Coherent(hw, h)
  {
    hide Coherent, Init;
    if c.SetIds? || c.SetParts? || c.SetPartition? {
      EnvCoherent(hw, g, h.env);
    } else {
      hide DeletePartition, AddPartition, ChangePart, DelAllCommand, Printable;
      InitMirrors(hw, d, g);
      var o := Init(hw, d, g);
      match c {
        case DelAll => DelAllCoherent(hw, d, g);
        case Add(devId, spec, name, flag) => if o.rc == 0 { AddCoherent(hw, o.g, devId, spec, name, flag); }
        case Del(partId) => if o.rc == 0 { DelCoherent(hw, o.g, partId); }
        case Change(partId) => if o.rc == 0 { ChangeCoherent(hw, o.g, partId); }
        case _ =>
      }
    }
  }

  // Nothing parsed yet: the state mtdparts_init sets up on its first call, in any environment.
  predicate Fresh(g: Globals) {
    && g.ids == [] && g.devices == [] && g.current == None
    && g.lastIds == "" && g.lastParts == "" && g.lastPartition == ""
  }

  ghost predicate IsRun(hw: Hardware, d: Defaults, states: seq<Globals>, commands: seq<Command>) {
    && |states| == |commands| + 1 && Fresh(states[0])
    && forall i :: 0 <= i < |commands| ==> Admissible(hw, d, states[i], commands[i], states[i + 1])
  }

  lemma {:induction false} RunCoherent(hw: Hardware, d: Defaults, states: seq<Globals>, commands: seq<Command>, n: nat)
    requires IsRun(hw, d, states, commands) && n < |states|
    ensures Coherent(hw, states[n])
  {
    hide Coherent, Admissible;
    if n == 0 {
      FreshCoherent(hw, states[0]);
    } else {
      RunCoherent(hw, d, states, commands, n - 1);
      StepCoherent(hw, d, states[n - 1], commands[n - 1], states[n]);
    }
  }

  lemma FreshCoherent(hw: Hardware, g: Globals)
    requires Fresh(g)
    ensures Coherent(hw, g)
  {
  }

  lemma MirrorsCurrent(hw: Hardware, g: Globals)
    requires Mirrors(hw, g) && CurrentInRange(g)
    ensures g.current.Some?
  {
    hide ParseIds, ParseTable;
    ParseTableGood(ParseIds(hw, g.env.mtdids.value).ids, g.env.mtdparts.value);
  }

  // All that a mtdparts_init in a coherent state promises.
  lemma InitNames(hw: Hardware, d: Defaults, g: Globals)
    requires Coherent(hw, g)
    ensures var o := Init(hw, d, g);
            && Coherent(hw, o.g) && NamesCurrent(o.g) && (o.rc == 0 ==> o.g.lastIds != "")
            && (o.rc == 0 && o.g.env.mtdparts.Some? ==> Mirrors(hw, o.g) && o.g.current.Some?)
  {
    hide Init, Mirrors, ParseIds, ParseTable, NamesCurrent;
    InitMirrors(hw, d, g);
    var o := Init(hw, d, g);
    IndexNamesCurrent(hw, o.g);
    if Mirrors(hw, o.g) {
      MirrorsCurrent(hw, o.g);
    }
  }

  // Main result: at every point of every run the current partition is in range and the index
  // variable is its position in the table, and so they are behind a further mtdparts_init,
  // which if successful leaves exactly the table the variables describe.
  lemma RunMirrors(hw: Hardware, d: Defaults, states: seq<Globals>, commands: seq<Command>, n: nat)
    requires IsRun(hw, d, states, commands) && n < |states|
    ensures CurrentInRange(states[n]) && NamesCurrent(states[n])
    ensures var o := Init(hw, d, states[n]);
            NamesCurrent(o.g) && (o.rc == 0 && o.g.env.mtdparts.Some? ==> Mirrors(hw, o.g) && o.g.current.Some?)
  {
    hide Init, Mirrors, IsRun, ParseIds, ParseTable, NamesCurrent;
    RunCoherent(hw, d, states, commands, n);
    IndexNamesCurrent(hw, states[n]);
    InitNames(hw, d, states[n]);
  }

  // ----- the index variable, whatever the edits leave behind -------------------------------------

  // The index is exact behind a routine, or the routine left table, current partition and
  // index alone.
  predicate Follows(g: Globals, h: Globals) {
    Exact(h) || (h.devices == g.devices && h.current == g.current && h.partnum == g.partnum && h.env.mtddevnum == g.env.mtddevnum)
  }

  lemma FollowsOn(f: Globals, g: Globals, h: Globals)
    requires Follows(f, g) && Follows(g, h)
    ensures Follows(f, h)
  {
    hide PartsBefore;
  }

  lemma InitFollows(hw: Hardware, d: Defaults, g: Globals)
    requires CurrentInRange(g)
    ensures Follows(g, Init(hw, d, g).g)
  {
    hide ParseIds, SyncTable, DevicesInit, Exact;
    var wanted := if g.env.partition.Some? then Truncate(g.env.partition.value, PARTITION_MAXLEN) else "";
    var g1 := WithDefaultIds(d, g);
    if g1.env.mtdids.Some? && !TooLong(g1.env.mtdids, MTDIDS_MAXLEN) && !TooLong(g1.env.mtdparts, MTDPARTS_MAXLEN) {
      var text := g1.env.mtdids.value;
      var idsChanged := g1.lastIds == "" || g1.lastIds != text;
      IdsKeepTable(hw, g1, text);
      match ParseIds(hw, text) {
        case IdsBad(left) => DevicesInitExact(g1.(ids := left, lastIds := ""));
        case IdsOk(_) =>
      }
      var o := if idsChanged then RefreshIds(hw, g1, text) else Outcome(g1, 0);
      if o.rc == 0 {
        SyncFollows(o.g, idsChanged, wanted);
      }
    }
  }

  lemma DevicesInitExact(g: Globals)
    ensures Exact(DevicesInit(g))
  {
    SaveIndexes(g.(lastParts := "", current := None, devices := []));
  }

  lemma RefreshExact(g: Globals, text: string)
    ensures Exact(RefreshTable(g, text).g)
  {
    hide ParseTable, DevicesInit, Exact;
    DevicesInitExact(g);
    if ParseTable(g.ids, text).Some? {
      ParseTableGood(g.ids, text);
      SaveIndexes(DevicesInit(g).(devices := ParseTable(g.ids, text).value, lastParts := text, current := Some(0), partnum := 0));
    }
  }

  lemma SyncFollows(g: Globals, idsChanged: bool, wanted: string)
    requires CurrentInRange(g)
    ensures Follows(g, SyncTable(g, idsChanged, wanted).g)
  {
    hide RefreshTable, FollowPartition, DevicesInit, Exact;
    DevicesInitExact(g);
    if g.env.mtdparts.Some? {
      var text := g.env.mtdparts.value;
      RefreshExact(g, text);
      var stale := g.lastParts == "" || g.lastParts != text || idsChanged;
      var o := if stale then RefreshTable(g, text) else Outcome(g, 0);
      FollowKeepsTable(o.g, wanted);
    }
  }

  lemma SameNumber(g: Globals, h: Globals)
    requires CurrentInRange(g) && h.devices == g.devices && h.current == g.current && h.partnum == g.partnum
    ensures CurrentInRange(h) && DevNumber(h) == DevNumber(g)
  {
    hide PartsBefore;
  }

  lemma SaveFollows(g: Globals)
    ensures Exact(g) ==> Exact(GenerateSave(g).g)
  {
    hide DevNumber, DevicesText, TableText;
    if Exact(g) {
      SameNumber(g, GenerateSave(g).g);
    }
  }

  lemma AddFollows(g: Globals, devId: string, spec: string, name: string, flag: string)
    requires CurrentInRange(g)
    ensures Follows(g, AddPartition(g, devId, spec, name, flag).g)
  {
    hide Exact, MergeDevice, ScanDevice, Links;
    SaveIndexes(g);
    var dev := ScanDevNum(devId);
    if dev.Scanned? && FindNum(g.ids, dev.value).Some? {
      var text := AddText(FindNum(g.ids, dev.value).value, spec, name, flag);
      var g1 := if Links(g.ids, g.devices, text) then IndexPartitions(g) else g;
      var found := ScanDevice(g.ids, g.devices, text);
      if found.Scanned? {
        ScanDeviceGood(g.ids, g.devices, text);
        MergeFollows(g1, found.value);
        FollowsOn(g, g1, MergeDevice(g1, found.value).g);
      }
    }
  }

  lemma MergeFollows(g: Globals, found: MtdDevice)
    requires CurrentInRange(g) && found.parts != []
    ensures Follows(g, MergeDevice(g, found).g)
  {
    hide Exact, GenerateSave, Merged;
    MergedExact(g, found);
    if Merged(g, found).Some? {
      SaveFollows(Merged(g, found).value);
    }
  }

  lemma MergedExact(g: Globals, found: MtdDevice)
    requires CurrentInRange(g) && found.parts != []
    ensures Merged(g, found).Some? ==> Exact(Merged(g, found).value)
  {
    hide Exact, PartValidate, PartSortAdd;
    match FindDevice(g.devices, found.id.devType, found.id.num) {
      case None => DeviceAddEffect(g, found);
      case Some(k) =>
        var part := PartValidate(g.devices[k].id, found.parts[0]);
        if part.Some? && PartSortAdd(g, k, part.value).Some? {
          PartSortAddEffect(g, k, part.value);
        }
    }
  }

  lemma DelFollows(g: Globals, id: string)
    requires CurrentInRange(g) && NoEmptyDevice(g.devices)
    ensures DeletePartition(g, id).Some? ==> Follows(g, DeletePartition(g, id).value.g)
  {
    hide Exact, GenerateSave, FindDevAndPart, LosesCurrent;
    var p := FindDevAndPart(g.devices, id);
    if p.Some? && Deletable(g, p.value) {
      if |g.devices[p.value.dev].parts| == 1 {
        DeviceDelEffect(g, p.value.dev);
      } else {
        PartDelEffect(g, p.value.dev, p.value.part);
      }
      SaveFollows(PartDel(g, p.value.dev, p.value.part));
    }
  }

  lemma ChangeFollows(g: Globals, id: string)
    requires CurrentInRange(g)
    ensures Follows(g, ChangePart(g, id).g)
  {
    hide FindDevAndPart, Exact;
    var found := FindDevAndPart(g.devices, id);
    if found.Some? {
      SaveIndexes(g.(current := Some(found.value.dev), partnum := found.value.part % 0x100));
    }
  }

  lemma StepFollows(hw: Hardware, d: Defaults, g: Globals, c: Command, h: Globals)
    requires CurrentInRange(g) && Step(hw, d, g, c, h)
    ensures CurrentInRange(h) && Follows(g, h)
  {
    hide Init, DeletePartition, AddPartition, ChangePart, DevicesInit, DevNumber;
    InitFollows(hw, d, g);
    var o := Init(hw, d, g);
    match c {
      case Add(devId, spec, name, flag) => AddFollows(o.g, devId, spec, name, flag);
      case Del(partId) => if o.rc == 0 && NoEmptyDevice(o.g.devices) { DelFollows(o.g, partId); }
      case Change(partId) => ChangeFollows(o.g, partId);
      case DelAll => DevicesInitExact(o.g.(env := o.g.env.(mtdparts := None)));
      case _ =>
    }
    if Follows(o.g, h) {
      FollowsOn(g, o.g, h);
    }
  }

  // On every run, also behind edits that leave a table that cannot be printed: until a table
  // or its removal sets the index for the first time there is none in memory, and from then on
  // the index is what index_partitions computes.
  lemma {:induction false} RunFollows(hw: Hardware, d: Defaults, states: seq<Globals>, commands: seq<Command>, m: nat, n: nat)
    requires |states| == |commands| + 1 && Fresh(states[0]) && m <= n < |states|
    requires forall i :: 0 <= i < |commands| ==> Step(hw, d, states[i], commands[i], states[i + 1])
    ensures CurrentInRange(states[n])
    ensures Exact(states[n]) || (states[n].devices == [] && states[n].env.mtddevnum == states[0].env.mtddevnum)
    ensures Exact(states[m]) ==> Exact(states[n])
    decreases n
  {
    hide Step;
    if n > 0 {
      RunFollows(hw, d, states, commands, if m == n then n - 1 else m, n - 1);
      StepFollows(hw, d, states[n - 1], commands[n - 1], states[n]);
    }
  }
}
