// The global state of common/cmd_jffs2.c as a value, what its routines make of it, and
// what every run of them keeps.

module MtdGlobals {
  import opened Words
  import opened CText
  import opened MtdTypes
  import opened MtdText
  import opened MtdTable

  // ----- mtdids ------------------------------------------------------------------

  // The flash chips of the board: flash_info, nand_info and onenand_mtd.
  datatype NorInfo = NorInfo(size: u32, starts: seq<u32>)
  datatype NandInfo = NandInfo(size: u32, eraseSize: Positive)
  datatype Hardware = Hardware(nor: seq<NorInfo>, nand: seq<NandInfo>, oneNand: NandInfo) {
    predicate Sound() {
      forall i :: 0 <= i < |nor| ==> nor[i].starts != []
    }
  }

  datatype DevNum = DevNum(devType: DevType, num: byte)

  function DevName(devType: DevType): string {
    match devType
    case NorType => "nor"
    case NandType => "nand"
    case OneNandType => "onenand"
  }

  // id_parse; the device number is cut down to eight bits.
  function ScanDevNum(s: string): (r: Scan<DevNum>)
    ensures r.Scanned? ==> |r.rest| < |s|
  {
    if "nand" <= s then ScanNumber(NandType, s[4..])
    else if "nor" <= s then ScanNumber(NorType, s[3..])
    else if "onenand" <= s then ScanNumber(OneNandType, s[7..])
    else Rejected
  }

  function ScanNumber(devType: DevType, s: string): (r: Scan<DevNum>)
    ensures r.Scanned? ==> |r.rest| <= |s|
  {
    if s == "" || !IsDigit(s[0]) then Rejected
    else var n := Strtoul(s, 0); Scanned(DevNum(devType, n.value % 0x100), n.rest)
  }

  // device_validate and the chip the number stands for.
  function MakeId(hw: Hardware, dev: DevNum, mtdId: string): Option<MtdId> {
    match dev.devType
    case NorType =>
      if dev.num < |hw.nor| then
        Some(MtdId(NorType, dev.num, hw.nor[dev.num].size, mtdId, NorBank(hw.nor[dev.num].starts, hw.nor[dev.num].size)))
      else None
    case NandType =>
      if dev.num < |hw.nand| then
        Some(MtdId(NandType, dev.num, hw.nand[dev.num].size, mtdId, NandChip(hw.nand[dev.num].eraseSize)))
      else None
    case OneNandType =>
      Some(MtdId(OneNandType, dev.num, hw.oneNand.size, mtdId, NandChip(hw.oneNand.eraseSize)))
  }

  // id_find
  function FindNum(ids: seq<MtdId>, dev: DevNum): (r: Option<MtdId>)
    ensures r.Some? ==> r.value in ids && Names(r.value, dev.devType, dev.num)
  {
    if ids == [] then None
    else if Names(ids[0], dev.devType, dev.num) then Some(ids[0])
    else FindNum(ids[1..], dev)
  }

  // A parsed list, or what a failed parse leaves in the global list.
  datatype IdsResult = IdsOk(ids: seq<MtdId>) | IdsBad(left: seq<MtdId>)

  // <dev-id>=<mtd-id> and what follows its comma.
  function ScanEntry(s: string): (r: Scan<(DevNum, string)>)
    ensures r.Scanned? ==> |r.rest| < |s|
  {
    match ScanDevNum(s)
    case Rejected => Rejected
    case Scanned(dev, afterNum) =>
      if afterNum == "" || afterNum[0] != '=' then Rejected
      else
        var name := afterNum[1..];
        match Find(name, ',')
        case None => Scanned((dev, name), "")
        case Some(comma) => Scanned((dev, name[..comma]), name[comma + 1..])
  }

  // The loop of parse_mtdids.
  function ScanIds(hw: Hardware, s: string, ids: seq<MtdId>): IdsResult
    decreases |s|
  {
    if s == "" then
      if ids == [] then IdsBad([]) else IdsOk(ids)
    else
      match ScanEntry(s)
      case Rejected => IdsBad([])
      case Scanned((dev, mtdId), rest) =>
        match MakeId(hw, dev, mtdId)
        case None => IdsBad(ids)
        case Some(id) =>
          if FindNum(ids, dev).Some? then IdsBad([]) else ScanIds(hw, rest, ids + [id])
  }

  // parse_mtdids
  function ParseIds(hw: Hardware, text: string): IdsResult {
    ScanIds(hw, text, [])
  }

  // ----- the globals ---------------------------------------------------------------

  const MTDIDS_MAXLEN: nat := 128
  const MTDPARTS_MAXLEN: nat := 512
  const PARTITION_MAXLEN: nat := 16
  const PART_ADD_DESC_MAXLEN: nat := 64

  // The environment variables the routines read and write.
  datatype Env = Env(mtdids: Option<string>, mtdparts: Option<string>, partition: Option<string>, mtddevnum: Option<u16>)

  // `current` is the position of current_dev in the device list.
  datatype Globals = Globals(
    ids: seq<MtdId>, devices: seq<MtdDevice>, current: Option<nat>, partnum: byte,
    lastIds: string, lastParts: string, lastPartition: string, env: Env)

  // mtdids_default and mtdparts_default
  datatype Defaults = Defaults(mtdids: Option<string>, mtdparts: Option<string>)

  predicate CurrentInRange(g: Globals) {
    match g.current
    case None => g.devices == []
    case Some(c) => c < |g.devices| && g.partnum < |g.devices[c].parts|
  }

  function PartsBefore(devices: seq<MtdDevice>, k: nat): nat
    requires k <= |devices|
  {
    if k == 0 then 0 else PartsBefore(devices, k - 1) + |devices[k - 1].parts|
  }

  function DevNumber(g: Globals): Option<u16>
    requires CurrentInRange(g)
  {
    match g.current
    case None => None
    case Some(c) => Some((PartsBefore(g.devices, c) + g.partnum) % 0x1_0000)
  }

  function PartitionId(dev: MtdDevice, partnum: byte): string {
    DevName(dev.id.devType) + Decimal(dev.id.num) + "," + Decimal(partnum)
  }

  // index_partitions
  function IndexPartitions(g: Globals): (r: Globals)
    requires CurrentInRange(g)
    ensures CurrentInRange(r)
  {
    g.(env := g.env.(mtddevnum := DevNumber(g)))
  }

  // current_save
  function CurrentSave(g: Globals): (r: Globals)
    requires CurrentInRange(g)
    ensures CurrentInRange(r)
  {
    match g.current
    case None => IndexPartitions(g.(lastPartition := "", env := g.env.(partition := None)))
    case Some(c) =>
      var id := PartitionId(g.devices[c], g.partnum);
      IndexPartitions(g.(lastPartition := id, env := g.env.(partition := Some(id))))
  }

  // jffs2_devices_init
  function DevicesInit(g: Globals): (r: Globals)
    ensures CurrentInRange(r)
  {
    CurrentSave(g.(lastParts := "", current := None, devices := []))
  }

  // ----- editing the table -----------------------------------------------------------

  // part_sort_add to a device of the table.
  function PartSortAdd(g: Globals, k: nat, part: PartInfo): (r: Option<Globals>)
    requires k < |g.devices| && CurrentInRange(g)
  {
    var parts := g.devices[k].parts;
    match SortPosition(parts, part.offset)
    case None => None
    case Some(j) =>
      var g1 := g.(devices := g.devices[k := g.devices[k].(parts := InsertAt(parts, j, part))]);
      if g.current == Some(k) && j < |parts| && parts[j].offset <= parts[g.partnum].offset then
        Some(CurrentSave(g1.(partnum := (g.partnum + 1) % 0x100)))
      else
        Some(IndexPartitions(g1))
  }

  // The position of the current device after the k-th one has left the list.
  function CurrentWithout(current: Option<nat>, k: nat): Option<nat>
    requires current != Some(k)
  {
    match current
    case None => None
    case Some(c) => if k < c then Some(c - 1) else Some(c)
  }

  // device_del
  function DeviceDel(g: Globals, k: nat): Globals
    requires k < |g.devices| && CurrentInRange(g)
    requires NoEmptyDevice(g.devices)
  {
    var left := RemoveAt(g.devices, k);
    if g.current == Some(k) then
      if left == [] then CurrentSave(g.(devices := left, current := None))
      else CurrentSave(g.(devices := left, current := Some(0), partnum := 0))
    else
      IndexPartitions(g.(devices := left, current := CurrentWithout(g.current, k)))
  }

  // The new current number when partition i of the current device is deleted.
  function PartnumWithout(parts: seq<PartInfo>, partnum: byte, i: nat): byte
    requires i < |parts| && partnum < |parts|
  {
    if partnum == i then 0
    else if parts[i].offset <= parts[partnum].offset then (partnum - 1) % 0x100
    else partnum
  }

  // A deletion that leaves no current partition to index; index_partitions would follow a
  // null pointer.
  predicate LosesCurrent(parts: seq<PartInfo>, partnum: byte, i: nat)
    requires i < |parts| && partnum < |parts|
  {
    |parts| > 1 && PartnumWithout(parts, partnum, i) >= |parts| - 1
  }

  // part_del
  function PartDel(g: Globals, k: nat, i: nat): Globals
    requires k < |g.devices| && i < |g.devices[k].parts| && CurrentInRange(g)
    requires NoEmptyDevice(g.devices)
    requires g.current == Some(k) ==> !LosesCurrent(g.devices[k].parts, g.partnum, i)
  {
    var parts := g.devices[k].parts;
    if |parts| == 1 then DeviceDel(g, k)
    else
      var g1 := g.(devices := g.devices[k := g.devices[k].(parts := RemoveAt(parts, i))]);
      if g.current == Some(k) then CurrentSave(g1.(partnum := PartnumWithout(parts, g.partnum, i)))
      else IndexPartitions(g1)
  }

  // device_add
  function DeviceAdd(g: Globals, dev: MtdDevice): Globals
    requires CurrentInRange(g) && dev.parts != []
  {
    var g1 := g.(devices := g.devices + [dev]);
    if g.devices == [] then CurrentSave(g1.(current := Some(0), partnum := 0)) else IndexPartitions(g1)
  }

  // ----- naming a partition -------------------------------------------------------------

  datatype Place = Place(dev: nat, part: nat)

  function FindName(parts: seq<PartInfo>, name: string): (r: Option<nat>)
    ensures r.Some? ==> r.value < |parts| && parts[r.value].name == Some(name)
    ensures r.Some? ==> forall i :: 0 <= i < r.value ==> parts[i].name != Some(name)
    ensures r.None? ==> forall i :: 0 <= i < |parts| ==> parts[i].name != Some(name)
  {
    if parts == [] then None
    else if parts[0].name == Some(name) then Some(0)
    else match FindName(parts[1..], name)
      case None => None
      case Some(k) => Some(k + 1)
  }

  function FindNamed(devices: seq<MtdDevice>, name: string): (r: Option<Place>)
    ensures r.Some? ==> r.value.dev < |devices| && r.value.part < |devices[r.value.dev].parts|
  {
    if devices == [] then None
    else match FindName(devices[0].parts, name)
      case Some(i) => Some(Place(0, i))
      case None =>
        match FindNamed(devices[1..], name)
        case None => None
        case Some(p) => Some(Place(p.dev + 1, p.part))
  }

  function FindNumbered(devices: seq<MtdDevice>, s: string): (r: Option<Place>)
    ensures r.Some? ==> r.value.dev < |devices| && r.value.part < |devices[r.value.dev].parts|
  {
    match ScanDevNum(s)
    case Rejected => None
    case Scanned(dev, afterNum) =>
      if |afterNum| < 2 || afterNum[0] != ',' then None
      else
        var n := Strtoul(afterNum[1..], 0);
        var pnum := n.value % 0x100;
        if n.rest != "" then None
        else match FindDevice(devices, dev.devType, dev.num)
          case None => None
          case Some(k) => if pnum < |devices[k].parts| then Some(Place(k, pnum)) else None
  }

  // find_dev_and_part: a user-given name first, then <type><num>,<partnum>.
  function FindDevAndPart(devices: seq<MtdDevice>, s: string): (r: Option<Place>)
    ensures r.Some? ==> r.value.dev < |devices| && r.value.part < |devices[r.value.dev].parts|
  {
    match FindNamed(devices, s)
    case Some(p) => Some(p)
    case None => FindNumbered(devices, s)
  }

  // Make a partition the current one and save the choice.
  function Select(g: Globals, p: Place): (r: Globals)
    requires p.dev < |g.devices| && p.part < |g.devices[p.dev].parts|
    ensures CurrentInRange(r)
  {
    CurrentSave(g.(current := Some(p.dev), partnum := p.part % 0x100))
  }

  // ----- the commands ---------------------------------------------------------------------

  // New globals and the return code.
  datatype Outcome = Outcome(g: Globals, rc: int)

  // generate_mtdparts_save(last_parts, MTDPARTS_MAXLEN).  The prefix is not charged to the
  // buffer.
  predicate FitsBuffer(devices: seq<MtdDevice>) {
    |DevicesText(devices)| <= MTDPARTS_MAXLEN - 1
  }

  function GenerateSave(g: Globals): Outcome {
    if g.devices == [] then Outcome(g.(lastParts := "", env := g.env.(mtdparts := None)), 0)
    else if FitsBuffer(g.devices) then
      Outcome(g.(lastParts := TableText(g.devices), env := g.env.(mtdparts := Some(TableText(g.devices)))), 0)
    else Outcome(g.(lastParts := "", env := g.env.(mtdparts := None)), 1)
  }

  // parse_mtdids as mtdparts_init calls it, when `text` is not the text parsed last.
  function RefreshIds(hw: Hardware, g: Globals, text: string): (r: Outcome)
    requires CurrentInRange(g)
    ensures CurrentInRange(r.g)
  {
    match ParseIds(hw, text)
    case IdsBad(left) => Outcome(DevicesInit(g.(ids := left, lastIds := "")), 1)
    case IdsOk(ids) => Outcome(g.(ids := ids, lastIds := text), 0)
  }

  // parse_mtdparts and what mtdparts_init does behind it.
  function RefreshTable(g: Globals, text: string): (r: Outcome)
    ensures CurrentInRange(r.g)
  {
    match ParseTable(g.ids, text)
    case None => Outcome(DevicesInit(g), 1)
    case Some(devices) =>
      ParseTableGood(g.ids, text);
      Outcome(CurrentSave(DevicesInit(g).(devices := devices, lastParts := text, current := Some(0), partnum := 0)), 0)
  }

  // The last step of mtdparts_init: follow a changed `partition` variable.
  function FollowPartition(g: Globals, wanted: string): (r: Globals)
    requires CurrentInRange(g)
    ensures CurrentInRange(r)
  {
    if wanted != "" && wanted != g.lastPartition then
      match FindDevAndPart(g.devices, wanted)
      case None => g
      case Some(p) => Select(g, p)
    else if g.env.partition == None then CurrentSave(g)
    else g
  }

  function Truncate(s: string, n: nat): string {
    if |s| <= n then s else s[..n]
  }

  function WithDefaultIds(d: Defaults, g: Globals): Globals {
    if g.env.mtdids == None then g.(env := g.env.(mtdids := d.mtdids)) else g
  }

  // mtdparts_init once the mtdids list is up to date.
  function SyncTable(g: Globals, idsChanged: bool, wanted: string): (r: Outcome)
    requires CurrentInRange(g)
    ensures CurrentInRange(r.g)
  {
    match g.env.mtdparts
    case None => Outcome(if g.lastParts != "" then DevicesInit(g) else g, 0)
    case Some(text) =>
      var o := if g.lastParts == "" || g.lastParts != text || idsChanged then RefreshTable(g, text) else Outcome(g, 0);
      if o.rc != 0 then o else Outcome(FollowPartition(o.g, wanted), 0)
  }

  predicate TooLong(text: Option<string>, bound: nat) {
    text.Some? && |text.value| > bound - 1
  }

  // mtdparts_init
  function Init(hw: Hardware, d: Defaults, g0: Globals): (r: Outcome)
    requires CurrentInRange(g0)
    ensures CurrentInRange(r.g)
  {
    var wanted := if g0.env.partition.Some? then Truncate(g0.env.partition.value, PARTITION_MAXLEN) else "";
    var g := WithDefaultIds(d, g0);
    if g.env.mtdids == None || TooLong(g.env.mtdids, MTDIDS_MAXLEN) || TooLong(g.env.mtdparts, MTDPARTS_MAXLEN) then
      Outcome(g, 1)
    else
      var idsChanged := g.lastIds == "" || g.lastIds != g.env.mtdids.value;
      var o := if idsChanged then RefreshIds(hw, g, g.env.mtdids.value) else Outcome(g, 0);
      if o.rc != 0 then o else SyncTable(o.g, idsChanged, wanted)
  }

  // mtdparts add <mtd-dev> <size>[@<offset>] <name> [ro], behind its call of mtdparts_init
  function AddPartition(g: Globals, devId: string, spec: string, name: string, flag: string): (r: Outcome)
    requires CurrentInRange(g)
  {
    match ScanDevNum(devId)
    case Rejected => Outcome(g, 1)
    case Scanned(dev, _) =>
      match FindNum(g.ids, dev)
      case None => Outcome(g, 1)
      case Some(id) =>
        if AddLength(id, spec, name, flag) >= PART_ADD_DESC_MAXLEN then
          Outcome(g, 1)
        else
          var text := AddText(id, spec, name, flag);
          var g1 := if Links(g.ids, g.devices, text) then IndexPartitions(g) else g;
          match ScanDevice(g.ids, g.devices, text)
          case Rejected => Outcome(g1, 1)
          case Scanned(found, _) =>
            ScanDeviceGood(g.ids, g.devices, text);
            MergeDevice(g1, found)
  }

  // The length of the description, counted in eight bits.
  function AddLength(id: MtdId, spec: string, name: string, flag: string): nat {
    (|id.mtdId| + 1 + |spec| + |name| + 2 + (if |flag| == 2 then 2 else 0)) % 0x100
  }

  function AddText(id: MtdId, spec: string, name: string, flag: string): string {
    id.mtdId + ":" + spec + "(" + name + ")" + flag
  }

  // A new device is appended; of a known one only the first new partition is merged in.
  function MergeDevice(g: Globals, found: MtdDevice): (r: Outcome)
    requires CurrentInRange(g) && found.parts != []
  {
    match FindDevice(g.devices, found.id.devType, found.id.num)
    case None => GenerateSave(DeviceAdd(g, found))
    case Some(k) =>
      match PartValidate(g.devices[k].id, found.parts[0])
      case None => Outcome(g, 1)
      case Some(part) =>
        match PartSortAdd(g, k, part)
        case None => Outcome(g, 1)
        case Some(g1) => GenerateSave(g1)
  }

  // What part_del needs of its partition.
  predicate Deletable(g: Globals, p: Place)
    requires CurrentInRange(g) && p.dev < |g.devices| && p.part < |g.devices[p.dev].parts|
  {
    g.current == Some(p.dev) ==> !LosesCurrent(g.devices[p.dev].parts, g.partnum, p.part)
  }

  // delete_partition, behind the call of mtdparts_init; None if it follows a null pointer.
  function DeletePartition(g: Globals, id: string): (r: Option<Outcome>)
    requires CurrentInRange(g)
    requires NoEmptyDevice(g.devices)
  {
    match FindDevAndPart(g.devices, id)
    case None => Some(Outcome(g, 1))
    case Some(p) => if Deletable(g, p) then Some(GenerateSave(PartDel(g, p.dev, p.part))) else None
  }

  // chpart <part-id>, behind its call of mtdparts_init
  function ChangePart(g: Globals, id: string): (r: Outcome)
    requires CurrentInRange(g)
  {
    match FindDevAndPart(g.devices, id)
    case None => Outcome(g, 1)
    case Some(p) => Outcome(Select(g, p), 0)
  }

  // A command behind mtdparts_init: not reached when that fails.
  function AddCommand(hw: Hardware, d: Defaults, g: Globals, devId: string, spec: string, name: string, flag: string): Outcome
    requires CurrentInRange(g)
  {
    var o := Init(hw, d, g);
    if o.rc != 0 then Outcome(o.g, 1) else AddPartition(o.g, devId, spec, name, flag)
  }

  function ChangeCommand(hw: Hardware, d: Defaults, g: Globals, id: string): Outcome
    requires CurrentInRange(g)
  {
    var o := Init(hw, d, g);
    if o.rc != 0 then Outcome(o.g, 1) else ChangePart(o.g, id)
  }

  predicate NoEmptyDevice(devices: seq<MtdDevice>) {
    forall i :: 0 <= i < |devices| ==> devices[i].parts != []
  }

  // None if it follows a null pointer.
  function DelCommand(hw: Hardware, d: Defaults, g: Globals, id: string): Option<Outcome>
    requires CurrentInRange(g)
  {
    var o := Init(hw, d, g);
    if o.rc != 0 then Some(Outcome(o.g, 1))
    else if NoEmptyDevice(o.g.devices) then DeletePartition(o.g, id)
    else None
  }

  // mtdparts delall ignores what mtdparts_init returns.
  function DelAllCommand(hw: Hardware, d: Defaults, g: Globals): Globals
    requires CurrentInRange(g)
  {
    var o := Init(hw, d, g);
    DevicesInit(o.g.(env := o.g.env.(mtdparts := None)))
  }
}
