// Runs of the mtdparts commands (common/cmd_jffs2.c) whose edits may leave any table behind,
// also one that cannot be printed and read back.

module MtdAllRuns {
  import opened Words
  import opened MtdTypes
  import opened MtdTable
  import opened MtdGlobals
  import opened MtdRuns

  // ----- invariant ---------------------------------------------------------------------------

  // A remembered text is one whose parse is in memory, or the printout of what is in memory.
  predicate Remembers(hw: Hardware, g: Globals) {
    && Indexed(g) && GoodTable(g.ids, g.devices)
    && (g.lastIds != "" ==> ParseIds(hw, g.lastIds) == IdsOk(g.ids))
    && (g.devices != [] ==> g.lastIds != "")
    && (g.lastParts != "" ==>
         g.devices != [] && (ParseTable(g.ids, g.lastParts) == Some(g.devices) || g.lastParts == TableText(g.devices)))
  }

  lemma CoherentRemembers(hw: Hardware, g: Globals)
    requires Coherent(hw, g)
    ensures Remembers(hw, g)
  {
    hide ParseIds, ParseTable, GoodTable, TableText;
    CoherentGood(hw, g);
  }

  // mtdparts_init replaces the ids, but keeps a table that could not be saved; its devices
  // then point to ids that have been freed.
  predicate Dangles(hw: Hardware, d: Defaults, g: Globals) {
    && Starts(d, g) && NewIds(d, g) && ParseIds(hw, IdsText(d, g).value).IdsOk?
    && g.env.mtdparts == None && g.lastParts == "" && g.devices != []
  }

  // It does not read it, because it is the printout of the table in memory, but the printout
  // does not describe that table.
  predicate Misled(d: Defaults, g: Globals) {
    && Starts(d, g) && g.env.mtdparts.Some? && !Rereads(d, g)
    && g.env.mtdparts.value == TableText(g.devices)
    && !(ReadableTable(g.devices) && MirroredTable(g.devices))
  }

  // ----- mtdparts_init -------------------------------------------------------------------------

  lemma FollowRemembers(hw: Hardware, g: Globals, wanted: string)
    requires Remembers(hw, g)
    ensures Remembers(hw, FollowPartition(g, wanted))
  {
    hide ParseIds, ParseTable, GoodTable, TableText, FollowPartition;
    FollowKeepsTable(g, wanted);
  }

  // What mtdparts_init does once it is sure of the ids.
  lemma SyncRemembers(hw: Hardware, g: Globals, idsChanged: bool, wanted: string)
    requires g.lastIds != "" && ParseIds(hw, g.lastIds) == IdsOk(g.ids) && CurrentInRange(g)
    requires !TooLong(g.env.mtdparts, MTDPARTS_MAXLEN)
    requires !idsChanged ==> Remembers(hw, g)
    requires idsChanged && g.env.mtdparts == None && g.lastParts == "" ==> g.devices == []
    ensures var o := SyncTable(g, idsChanged, wanted);
            && Remembers(hw, o.g) && o.g.lastIds == g.lastIds
            && o.g.env.mtdids == g.env.mtdids && o.g.env.mtdparts == g.env.mtdparts
            && (o.g.env.mtdparts.Some? && (idsChanged || g.lastParts == "" || g.lastParts != o.g.env.mtdparts.value) && o.rc == 0 ==>
                 ParseTable(o.g.ids, o.g.env.mtdparts.value) == Some(o.g.devices) && ParseIds(hw, o.g.lastIds) == IdsOk(o.g.ids))
  {
    hide ParseIds, ParseTable, GoodTable, TableText, FollowPartition, RefreshTable;
    match g.env.mtdparts {
      case None =>
        DevicesInitCoherent(hw, g);
        CoherentRemembers(hw, DevicesInit(g));
        SaveIndexes(g.(lastParts := "", current := None, devices := []));
        NoTableGood(g.ids);
      case Some(text) =>
        RefreshTableCoherent(hw, g, text);
        CoherentRemembers(hw, RefreshTable(g, text).g);
        var stale := g.lastParts == "" || g.lastParts != text || idsChanged;
        var o := if stale then RefreshTable(g, text) else Outcome(g, 0);
        if o.rc == 0 {
          FollowRemembers(hw, o.g, wanted);
          FollowKeepsTable(o.g, wanted);
        }
    }
  }

  lemma NoTableGood(ids: seq<MtdId>)
    ensures GoodTable(ids, [])
  {
  }

  lemma InitRemembers(hw: Hardware, d: Defaults, g: Globals)
    requires Remembers(hw, g) && !Dangles(hw, d, g)
    ensures var o := Init(hw, d, g);
            Remembers(hw, o.g) && (o.rc == 0 ==> o.g.lastIds != "")
  {
    hide ParseIds, ParseTable, GoodTable, TableText, SyncTable, RefreshIds, DevicesInit;
    var wanted := if g.env.partition.Some? then Truncate(g.env.partition.value, PARTITION_MAXLEN) else "";
    var g1 := WithDefaultIds(d, g);
    assert Remembers(hw, g1);
    if Starts(d, g) {
      var text := g1.env.mtdids.value;
      var o := if NewIds(d, g) then RefreshIds(hw, g1, text) else Outcome(g1, 0);
      RefreshIdsCoherent(hw, g1, text);
      ParsedIdsText(hw, text);
      IdsKeepTable(hw, g1, text);
      if o.rc != 0 {
        CoherentRemembers(hw, o.g);
      } else {
        SyncRemembers(hw, o.g, NewIds(d, g), wanted);
      }
    }
  }

  // ----- commands ------------------------------------------------------------------------------

  lemma RemembersEdited(hw: Hardware, g: Globals)
    requires Remembers(hw, g) && g.lastIds != ""
    ensures Edited(hw, g)
  {
  }

  lemma SavedRemembers(hw: Hardware, g: Globals)
    requires Edited(hw, g)
    ensures Remembers(hw, GenerateSave(g).g)
  {
    hide ParseIds, ParseTable, GoodTable, FitsBuffer, DevicesText, PartsBefore;
    assert g.devices != [] ==> TableText(g.devices) != "";
  }

  lemma IndexRemembers(hw: Hardware, g: Globals)
    requires Remembers(hw, g)
    ensures Remembers(hw, IndexPartitions(g))
  {
    hide ParseIds, ParseTable, GoodTable, TableText;
    SaveIndexes(g);
  }

  lemma TextRemembers(hw: Hardware, g: Globals, text: string)
    requires Remembers(hw, g) && g.lastIds != ""
    ensures var g1 := if Links(g.ids, g.devices, text) then IndexPartitions(g) else g;
            match ScanDevice(g.ids, g.devices, text)
            case Rejected => Remembers(hw, g1)
            case Scanned(found, _) => found.parts != [] && Remembers(hw, MergeDevice(g1, found).g)
  {
    assert CurrentInRange(g);
    hide ScanDevice, Links, MergeDevice, GoodTable, GoodDevice, Remembers;
    var g1 := if Links(g.ids, g.devices, text) then IndexPartitions(g) else g;
    IndexRemembers(hw, g);
    RemembersEdited(hw, g);
    ScanDeviceGood(g.ids, g.devices, text);
    match ScanDevice(g.ids, g.devices, text) {
      case Rejected =>
      case Scanned(found, _) =>
        DeviceHasParts(g.ids, found);
        MergeRemembers(hw, g1, found);
    }
  }

  lemma AddRemembers(hw: Hardware, g: Globals, devId: string, spec: string, name: string, flag: string)
    requires Remembers(hw, g) && g.lastIds != ""
    ensures Remembers(hw, AddPartition(g, devId, spec, name, flag).g)
  {
    assert CurrentInRange(g);
    hide ScanDevNum, ScanDevice, Links, MergeDevice, Remembers, AddText, AddLength, FindNum, IndexPartitions;
    var dev := ScanDevNum(devId);
    if dev.Scanned? && FindNum(g.ids, dev.value).Some? {
      TextRemembers(hw, g, AddText(FindNum(g.ids, dev.value).value, spec, name, flag));
    }
  }

  lemma MergeRemembers(hw: Hardware, g: Globals, found: MtdDevice)
    requires Remembers(hw, g) && g.lastIds != "" && GoodDevice(g.ids, found)
    ensures found.parts != [] && Remembers(hw, MergeDevice(g, found).g)
  {
    RemembersEdited(hw, g);
    var merged := Merged(g, found);
    MergedEdited(hw, g, found);
    hide Merged, MergeDevice, GoodDevice, GenerateSave, Edited;
    if merged.Some? {
      SavedRemembers(hw, merged.value);
    }
  }

  lemma DelRemembers(hw: Hardware, g: Globals, id: string)
    requires Remembers(hw, g) && g.lastIds != ""
    ensures NoEmptyDevice(g.devices)
    ensures DeletePartition(g, id).Some? ==> Remembers(hw, DeletePartition(g, id).value.g)
  {
    RemembersEdited(hw, g);
    TableHasParts(g.ids, g.devices);
    var p := FindDevAndPart(g.devices, id);
    hide Edited, GoodTable, GenerateSave, PartDel, LosesCurrent, FindDevAndPart, ParseIds, ParseTable, TableText;
    if p.Some? && Deletable(g, p.value) {
      PartDelEdited(hw, g, p.value);
      SavedRemembers(hw, PartDel(g, p.value.dev, p.value.part));
    }
  }

  lemma DeviceHasParts(ids: seq<MtdId>, dev: MtdDevice)
    requires GoodDevice(ids, dev)
    ensures dev.parts != []
  {
  }

  lemma TableHasParts(ids: seq<MtdId>, devices: seq<MtdDevice>)
    requires GoodTable(ids, devices)
    ensures NoEmptyDevice(devices)
  {
  }

  lemma ChangeRemembers(hw: Hardware, g: Globals, id: string)
    requires Remembers(hw, g)
    ensures Remembers(hw, ChangePart(g, id).g)
  {
    hide ParseIds, ParseTable, FindDevAndPart, GoodTable, TableText;
    var found := FindDevAndPart(g.devices, id);
    if found.Some? {
      SaveIndexes(g.(current := Some(found.value.dev), partnum := found.value.part % 0x100));
    }
  }

  lemma DelAllRemembers(hw: Hardware, d: Defaults, g: Globals)
    requires Remembers(hw, g) && !Dangles(hw, d, g)
    ensures Remembers(hw, DelAllCommand(hw, d, g))
  {
    hide ParseIds, ParseTable, Init, GoodTable, TableText, Dangles;
    InitRemembers(hw, d, g);
    var o := Init(hw, d, g);
    var g1 := o.g.(env := o.g.env.(mtdparts := None));
    DevicesInitCoherent(hw, g1);
    CoherentRemembers(hw, DevicesInit(g1));
  }

  // ----- runs ------------------------------------------------------------------------------------

  predicate CallsInit(c: Command) {
    !c.SetIds? && !c.SetParts? && !c.SetPartition?
  }

  ghost predicate SafeStep(hw: Hardware, d: Defaults, g: Globals, c: Command, h: Globals) {
    Step(hw, d, g, c, h) && (CallsInit(c) ==> !Dangles(hw, d, g))
  }

  lemma SafeStepRemembers(hw: Hardware, d: Defaults, g: Globals, c: Command, h: Globals)
    requires Remembers(hw, g) && SafeStep(hw, d, g, c, h)
    ensures Remembers(hw, h)
  {
    if CallsInit(c) {
      hide Remembers, Dangles, Init, DeletePartition, AddPartition, ChangePart, DelAllCommand;
      InitRemembers(hw, d, g);
      var o := Init(hw, d, g);
      match c {
        case DelAll => DelAllRemembers(hw, d, g);
        case Add(devId, spec, name, flag) => if o.rc == 0 { AddRemembers(hw, o.g, devId, spec, name, flag); }
        case Del(partId) => if o.rc == 0 { DelRemembers(hw, o.g, partId); }
        case Change(partId) => if o.rc == 0 { ChangeRemembers(hw, o.g, partId); }
        case _ =>
      }
    } else {
      hide ParseIds, ParseTable, GoodTable, TableText, Dangles;
      EnvRemembers(hw, g, h.env);
    }
  }

  lemma EnvRemembers(hw: Hardware, g: Globals, env: Env)
    requires Remembers(hw, g) && env.mtddevnum == g.env.mtddevnum
    ensures Remembers(hw, g.(env := env))
  {
    hide ParseIds, ParseTable, GoodTable, TableText;
  }

  // Runs in which no mtdparts_init leaves devices whose ids have been freed.
  ghost predicate IsSafeRun(hw: Hardware, d: Defaults, states: seq<Globals>, commands: seq<Command>) {
    && |states| == |commands| + 1 && Fresh(states[0])
    && forall i :: 0 <= i < |commands| ==> SafeStep(hw, d, states[i], commands[i], states[i + 1])
  }

  lemma {:induction false} SafeRunRemembers(hw: Hardware, d: Defaults, states: seq<Globals>, commands: seq<Command>, n: nat)
    requires IsSafeRun(hw, d, states, commands) && n < |states|
    ensures Remembers(hw, states[n])
  {
    hide Remembers, SafeStep;
    if n == 0 {
      FreshCoherent(hw, states[0]);
      CoherentRemembers(hw, states[0]);
    } else {
      SafeRunRemembers(hw, d, states, commands, n - 1);
      SafeStepRemembers(hw, d, states[n - 1], commands[n - 1], states[n]);
    }
  }

  // ----- when memory and variables agree ------------------------------------------------------------

  lemma RereadMirrors(hw: Hardware, d: Defaults, g: Globals)
    requires Remembers(hw, g) && Starts(d, g) && g.env.mtdparts.Some? && Rereads(d, g)
    ensures var o := Init(hw, d, g);
            o.rc == 0 && o.g.env.mtdparts.Some? ==> Mirrors(hw, o.g)
  {
    hide ParseIds, ParseTable, GoodTable, TableText, SyncTable, RefreshIds, DevicesInit;
    var wanted := if g.env.partition.Some? then Truncate(g.env.partition.value, PARTITION_MAXLEN) else "";
    var g1 := WithDefaultIds(d, g);
    var text := g1.env.mtdids.value;
    assert Remembers(hw, g1);
    IdsKeepTable(hw, g1, text);
    RefreshIdsCoherent(hw, g1, text);
    ParsedIdsText(hw, text);
    var o := if NewIds(d, g) then RefreshIds(hw, g1, text) else Outcome(g1, 0);
    if o.rc == 0 {
      SyncRemembers(hw, o.g, NewIds(d, g), wanted);
    }
  }

  lemma InitMirrorsIff(hw: Hardware, d: Defaults, g: Globals)
    requires Remembers(hw, g)
    ensures var o := Init(hw, d, g);
            o.rc == 0 && o.g.env.mtdparts.Some? ==> (Mirrors(hw, o.g) <==> !Misled(d, g))
  {
    if Starts(d, g) && g.env.mtdparts.Some? {
      hide Init, ParseIds, ParseTable, GoodTable, TableText, ReadableTable, MirroredTable;
      if Rereads(d, g) {
        RereadMirrors(hw, d, g);
      } else {
        NoRereadKeeps(hw, d, g);
        if g.lastParts == TableText(g.devices) {
          TableSurvivesIff(g.ids, g.devices);
        }
      }
    } else {
      InitRefuses(hw, d, g);
    }
  }

  lemma InitRefuses(hw: Hardware, d: Defaults, g: Globals)
    requires CurrentInRange(g) && !(Starts(d, g) && g.env.mtdparts.Some?)
    ensures var o := Init(hw, d, g); o.rc != 0 || o.g.env.mtdparts == None
  {
    hide ParseIds, DevNumber, PartitionId;
  }

  // Main result, for all runs, whatever tables the edits leave behind: a successful
  // mtdparts_init with `mtdparts` set leaves the table the variables describe if and only if it
  // is not misled by a printout it does not read.
  lemma SafeRunMirrorsIff(hw: Hardware, d: Defaults, states: seq<Globals>, commands: seq<Command>, n: nat)
    requires IsSafeRun(hw, d, states, commands) && n < |states|
    ensures CurrentInRange(states[n])
    ensures var o := Init(hw, d, states[n]);
            o.rc == 0 && o.g.env.mtdparts.Some? ==> (Mirrors(hw, o.g) <==> !Misled(d, states[n]))
  {
    SafeRunRemembers(hw, d, states, commands, n);
    InitMirrorsIff(hw, d, states[n]);
    hide Init, Mirrors, Misled, IsSafeRun, ParseIds, ParseTable, GoodTable, TableText;
  }
}
