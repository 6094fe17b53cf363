// What a user writes into `mtdparts`, and the table that becomes of it (common/cmd_jffs2.c).

module MtdSpelled {
  import opened Words
  import opened CText
  import opened MtdTypes
  import opened MtdText
  import opened MtdTable

  // ----- amounts ---------------------------------------------------------------------------

  // A text of a size or an offset, and what it stands for.
  datatype Amount = Amount(text: string, value: u32)

  ghost predicate Reads(a: Amount) {
    forall rest | EndsSize(rest) :: ScanSize(a.text + rest) == Number(a.value, rest)
  }

  // What the suffixes multiply by.
  function Factor(suffix: string): (f: Option<nat>)
  {
    if suffix == "" then Some(1)
    else if suffix == "k" || suffix == "K" then Some(1024)
    else if suffix == "m" || suffix == "M" then Some(1024 * 1024)
    else if suffix == "g" || suffix == "G" then Some(1024 * 1024 * 1024)
    else None
  }

  // Some digits that are read as a number in front of everything that can follow a size.
  ghost predicate Numeral(digits: string, n: u32) {
    forall rest | rest == "" || rest[0] in {'@', '(', 'r', ',', ';', 'k', 'K', 'm', 'M', 'g', 'G'} ::
      Strtoul(digits + rest, 0) == Number(n, rest)
  }

  lemma NumeralDecimal(n: u32)
    ensures Numeral(Decimal(n), n)
  {
    forall rest | rest == "" || rest[0] in {'@', '(', 'r', ',', ';', 'k', 'K', 'm', 'M', 'g', 'G'}
      ensures Strtoul(Decimal(n) + rest, 0) == Number(n, rest)
    {
      StrtoulReadsDecimal(n, rest);
    }
  }

  lemma NumeralHex(n: u32, upper: bool)
    ensures Numeral("0x" + Spell(n, 16, upper), n)
  {
    forall rest | rest == "" || rest[0] in {'@', '(', 'r', ',', ';', 'k', 'K', 'm', 'M', 'g', 'G'}
      ensures Strtoul("0x" + Spell(n, 16, upper) + rest, 0) == Number(n, rest)
    {
      StrtoulReadsHex(n, upper, rest, 0);
      Reassociate("0x", Spell(n, 16, upper), rest);
    }
  }

  lemma SuffixScans(s: string, n: u32, suffix: string, rest: string)
    requires Factor(suffix).Some? && EndsSize(rest) && Strtoul(s, 0) == Number(n, suffix + rest)
    ensures ScanSize(s) == Number(Wrap(n * Factor(suffix).value), rest)
  {
    hide Strtoul, Wrap;
    if suffix == "" {
      WrapKeeps(n);
      assert suffix + rest == rest;
    } else {
      assert (suffix + rest)[0] == suffix[0] && (suffix + rest)[1..] == rest;
    }
  }

  lemma WrapKeeps(n: u32)
    ensures Wrap(n) == n
  {
  }

  // A number with a suffix in either case reads as its multiple, in 32 bits.
  lemma SuffixReads(digits: string, n: u32, suffix: string)
    requires Numeral(digits, n) && Factor(suffix).Some?
    ensures Reads(Amount(digits + suffix, Wrap(n * Factor(suffix).value)))
  {
    hide Strtoul, ScanSize, Wrap;
    var a := Amount(digits + suffix, Wrap(n * Factor(suffix).value));
    forall rest | EndsSize(rest)
      ensures ScanSize(a.text + rest) == Number(a.value, rest)
    {
      Reassociate(digits, suffix, rest);
      SuffixFollows(suffix, rest);
      SuffixScans(a.text + rest, n, suffix, rest);
    }
  }

  lemma SuffixFollows(suffix: string, rest: string)
    requires Factor(suffix).Some? && EndsSize(rest)
    ensures suffix + rest == "" || (suffix + rest)[0] in {'@', '(', 'r', ',', ';', 'k', 'K', 'm', 'M', 'g', 'G'}
  {
    assert suffix == "" ==> suffix + rest == rest;
  }

  // ----- definitions -----------------------------------------------------------------------

  // A partition as the user spells it; no size is "-".
  datatype Def = Def(size: Option<Amount>, offset: Option<Amount>, name: Option<string>, ro: bool)

  function SizeSpelled(def: Def): string {
    if def.size.None? then "-" else def.size.value.text
  }

  function OffsetSpelled(def: Def): string {
    if def.offset.None? then "" else "@" + def.offset.value.text
  }

  function RoSpelled(def: Def): string {
    if def.ro then "ro" else ""
  }

  function DefText(def: Def): string {
    SizeSpelled(def) + (OffsetSpelled(def) + (NameText(def.name) + RoSpelled(def)))
  }

  // Sizes are big enough, no amount is one of the two that stand for something else, and names
  // can be told from what follows.
  ghost predicate ValidDef(def: Def) {
    && (def.size.Some? ==> Reads(def.size.value) && MIN_PART_SIZE <= def.size.value.value != SIZE_REMAINING)
    && (def.offset.Some? ==> Reads(def.offset.value) && def.offset.value.value != OFFSET_NOT_SPECIFIED)
    && (def.name.Some? ==> def.name.value != "" && ')' !in def.name.value)
  }

  // What a definition means behind the address `next`: the size and offset it names, "-" being
  // everything up to the end of the chip; nothing if the chip cannot carry that.
  function Meant(id: MtdId, next: u32, def: Def): (r: Option<PartInfo>)
    ensures r.Some? ==> Fits(id, r.value)
  {
    var offset := if def.offset.Some? then def.offset.value.value else next;
    var size: int := if def.size.Some? then def.size.value.value else id.size - offset;
    if 0 < size && offset + size <= id.size && Aligned(id.chip, offset, size) then
      Some(PartInfo(size, offset, def.name, if def.ro then MTD_WRITEABLE_CMD else 0))
    else None
  }

  // One definition after the other; one without an offset goes behind the one before it, and
  // "-" must be the last.
  function MeantAll(id: MtdId, next: u32, defs: seq<Def>): (r: Option<seq<PartInfo>>)
    ensures r.Some? ==> |r.value| == |defs|
    decreases |defs|
  {
    if defs == [] then Some([])
    else if defs[0].size.None? && |defs| > 1 then None
    else match Meant(id, next, defs[0])
      case None => None
      case Some(part) =>
        match MeantAll(id, part.offset + part.size, defs[1..])
        case None => None
        case Some(parts) => Some([part] + parts)
  }

  function DefsText(defs: seq<Def>): string
    decreases |defs|
  {
    if defs == [] then ""
    else DefText(defs[0]) + ((if |defs| > 1 then "," else "") + DefsText(defs[1..]))
  }

  ghost predicate ValidDefs(defs: seq<Def>) {
    forall i :: 0 <= i < |defs| ==> ValidDef(defs[i])
  }

  // ----- reading them --------------------------------------------------------------------------

  lemma NumberStarts(s: string)
    ensures ScanSize(s).value > 0 ==> s != "" && IsDigit(s[0])
  {
    assert s == "" || !IsDigit(s[0]) ==> Strtoul(s, 0).value == 0;
  }

  lemma SizeScans(def: Def, rest: string)
    requires ValidDef(def) && EndsSize(rest)
    ensures var s := SizeSpelled(def) + rest;
            && s != "" && s[0] != ';'
            && ScanPartSize(s) == Scanned(if def.size.None? then SIZE_REMAINING else def.size.value.value, rest)
  {
    hide ScanSize;
    var s := SizeSpelled(def) + rest;
    if def.size.None? {
      assert s[1..] == rest;
    } else {
      assert ScanSize(s) == Number(def.size.value.value, rest);
      NumberStarts(s);
    }
  }

  lemma OffsetScans(def: Def, rest: string)
    requires ValidDef(def) && EndsSize(rest) && (rest == "" || rest[0] != '@')
    ensures ScanOffset(OffsetSpelled(def) + rest)
         == Number(if def.offset.None? then OFFSET_NOT_SPECIFIED else def.offset.value.value, rest)
  {
    hide ScanSize;
    var s := OffsetSpelled(def) + rest;
    if def.offset.Some? {
      assert s[1..] == def.offset.value.text + rest;
    } else {
      assert s == rest;
    }
  }

  // The definition before its offset and "-" are resolved.
  function Raw(def: Def): PartInfo {
    PartInfo(
      if def.size.None? then SIZE_REMAINING else def.size.value.value,
      if def.offset.None? then OFFSET_NOT_SPECIFIED else def.offset.value.value,
      def.name, if def.ro then MTD_WRITEABLE_CMD else 0)
  }

  lemma PiecesFollow(def: Def, rest: string)
    requires EndsPart(rest)
    ensures var flagged := RoSpelled(def) + rest;
            var named := NameText(def.name) + flagged;
            && (flagged == "" || flagged[0] != '(')
            && EndsSize(named) && (named == "" || named[0] != '@')
            && EndsSize(OffsetSpelled(def) + named)
  {
    var flagged := RoSpelled(def) + rest;
    var named := NameText(def.name) + flagged;
    assert flagged == "" || flagged[0] in {'r', ',', ';'};
    assert named == "" || named[0] in {'(', 'r', ',', ';'};
    assert OffsetSpelled(def) == "" || OffsetSpelled(def)[0] == '@';
    hide OffsetSpelled, NameText, RoSpelled;
    assert OffsetSpelled(def) == "" ==> OffsetSpelled(def) + named == named;
  }

  lemma RoScans(def: Def, rest: string)
    requires EndsPart(rest)
    ensures ScanFlags(RoSpelled(def) + rest) == Number(if def.ro then MTD_WRITEABLE_CMD else 0, rest)
  {
    FlagsRoundTrip(if def.ro then MTD_WRITEABLE_CMD else 0, rest);
  }

  // Reading one definition.
  lemma DefScans(def: Def, rest: string)
    requires ValidDef(def) && EndsPart(rest)
    ensures var s := DefText(def) + rest;
            && s != "" && s[0] != ';'
            && ScanPart(s) == match ScanSeparator(Raw(def).size, rest)
                              case Rejected => Rejected
                              case Scanned(_, tail) => Scanned(Raw(def), tail)
  {
    var flagged := RoSpelled(def) + rest;
    var named := NameText(def.name) + flagged;
    var placed := OffsetSpelled(def) + named;
    PiecesFollow(def, rest);
    SizeScans(def, placed);
    OffsetScans(def, named);
    NameRoundTrip(def.name, flagged);
    RoScans(def, rest);
    hide SizeSpelled, OffsetSpelled, RoSpelled, NameText, ScanPartSize, ScanOffset, ScanName, ScanFlags, ScanSeparator, EndsSize, EndsPart, ValidDef;
    FourPieces(SizeSpelled(def), OffsetSpelled(def), NameText(def.name), RoSpelled(def), rest);
    hide DefText;
  }

  lemma FourPieces(a: string, b: string, c: string, d: string, e: string)
    ensures a + (b + (c + d)) + e == a + (b + (c + (d + e)))
  {
    Reassociate(a, b + (c + d), e);
    Reassociate(b, c + d, e);
    Reassociate(c, d, e);
  }

  // Placing and validating a definition gives what it means.
  lemma ValidatedIsMeant(id: MtdId, next: u32, def: Def)
    requires ValidDef(def)
    ensures PartValidate(id, Place(Raw(def), next)) == Meant(id, next, def)
  {
    var part := Place(Raw(def), next);
    hide Aligned;
    ValidateExact(id, part);
    if def.size.None? {
      RestExact(id, part);
    }
  }

  // The text of some definitions and what follows them, cut behind the first.
  lemma DefsCut(defs: seq<Def>, rest: string)
    requires defs != []
    ensures var more := DefsText(defs[1..]) + rest;
            DefsText(defs) + rest == DefText(defs[0]) + (if |defs| > 1 then "," + more else more)
  {
    hide DefText;
    var comma, more := if |defs| > 1 then "," else "", DefsText(defs[1..]);
    Reassociate(DefText(defs[0]), comma + more, rest);
    Reassociate(comma, more, rest);
    assert "" + (more + rest) == more + rest;
  }

  lemma SeparatorAt(def: Def, last: bool, more: string)
    requires ValidDef(def) && (last ==> more == "" || more[0] == ';')
    ensures ScanSeparator(Raw(def).size, if last then more else "," + more)
         == if last || def.size.Some? then Scanned((), more) else Rejected
  {
    if !last {
      assert ("," + more)[1..] == more;
    }
  }

  lemma OneDefScans(id: MtdId, next: u32, s: string, part: PartInfo, more: string, found: seq<PartInfo>)
    requires s != "" && s[0] != ';' && ScanPart(s) == Scanned(part, more)
    ensures ScanParts(id, s, next, found)
         == match PartValidate(id, Place(part, next))
            case None => Rejected
            case Some(p) => ScanParts(id, more, Wrap(p.offset + p.size), found + [p])
  {
    hide ScanPart, PartValidate, Place;
  }

  // The loop over the definitions of a device builds what they mean, or refuses.
  lemma {:induction false} DefsScan(id: MtdId, next: u32, defs: seq<Def>, rest: string, found: seq<PartInfo>)
    requires ValidDefs(defs) && (found != [] || defs != [])
    requires rest == "" || rest[0] == ';'
    ensures ScanParts(id, DefsText(defs) + rest, next, found)
         == match MeantAll(id, next, defs)
            case None => Rejected
            case Some(parts) => Scanned(found + parts, rest)
    decreases |defs|
  {
    hide ScanPart, PartValidate, Place, DefText, Meant, Raw, ValidDef, ScanSeparator;
    if defs == [] {
      assert DefsText(defs) + rest == rest && found + [] == found;
    } else {
      var first, last := defs[0], |defs| == 1;
      var more := DefsText(defs[1..]) + rest;
      assert last ==> more == rest;
      DefsCut(defs, rest);
      SeparatorAt(first, last, more);
      DefScans(first, if last then more else "," + more);
      if last || first.size.Some? {
        ValidatedIsMeant(id, next, first);
        OneDefScans(id, next, DefsText(defs) + rest, Raw(first), more, found);
        if Meant(id, next, first).Some? {
          var part := Meant(id, next, first).value;
          MeantEnd(id, next, first);
          DefsScan(id, part.offset + part.size, defs[1..], rest, found + [part]);
          FoundFirst(id, found, part, defs[1..]);
        }
      }
    }
  }

  lemma MeantEnd(id: MtdId, next: u32, def: Def)
    ensures Meant(id, next, def).Some? ==>
              var p := Meant(id, next, def).value; p.offset + p.size <= MAX_U32 && Wrap(p.offset + p.size) == p.offset + p.size
  {
    hide Aligned;
  }

  lemma FoundFirst(id: MtdId, found: seq<PartInfo>, part: PartInfo, defs: seq<Def>)
    ensures forall parts: seq<PartInfo> :: found + [part] + parts == found + ([part] + parts)
  {
  }

  // "-" reaches to the end of the chip.
  lemma {:induction false} RestIsLast(id: MtdId, next: u32, defs: seq<Def>)
    requires defs != [] && defs[|defs| - 1].size.None? && MeantAll(id, next, defs).Some?
    ensures var p := MeantAll(id, next, defs).value[|defs| - 1];
            p.End() == id.size && p.name == defs[|defs| - 1].name
    decreases |defs|
  {
    hide Aligned;
    if |defs| > 1 {
      var part := Meant(id, next, defs[0]).value;
      RestIsLast(id, part.offset + part.size, defs[1..]);
    }
  }

  // ----- sorting ---------------------------------------------------------------------------------

  lemma InsertAdds(parts: seq<PartInfo>, k: nat, part: PartInfo)
    requires k <= |parts|
    ensures multiset(InsertAt(parts, k, part)) == multiset(parts) + multiset{part}
  {
    assert parts == parts[..k] + parts[k..];
  }

  // Linking keeps every partition, in order of the offsets.
  lemma {:induction false} SortAllSorts(parts: seq<PartInfo>, sorted: seq<PartInfo>)
    requires Ascending(sorted) && SingleZero(sorted)
    ensures SortAll(parts, sorted).Some? ==>
              var r := SortAll(parts, sorted).value;
              Ascending(r) && SingleZero(r) && multiset(r) == multiset(sorted) + multiset(parts)
    decreases |parts|
  {
    hide Ascending, SingleZero, SortPosition, InsertAt;
    if parts != [] {
      var k := SortPosition(sorted, parts[0].offset);
      if k.Some? {
        SortInsertKeepsOrder(sorted, parts[0]);
        InsertAdds(sorted, k.value, parts[0]);
        SortAllSorts(parts[1..], InsertAt(sorted, k.value, parts[0]));
        assert parts == [parts[0]] + parts[1..];
      }
    }
  }

  // How many partitions lie at offset 0.
  function Zeros(parts: seq<PartInfo>): nat {
    if parts == [] then 0 else (if parts[0].offset == 0 then 1 else 0) + Zeros(parts[1..])
  }

  function FirstAtZero(sorted: seq<PartInfo>): nat {
    if sorted != [] && sorted[0].offset == 0 then 1 else 0
  }

  lemma InsertCountsZero(sorted: seq<PartInfo>, part: PartInfo)
    requires Ascending(sorted) && SortPosition(sorted, part.offset).Some?
    ensures FirstAtZero(InsertAt(sorted, SortPosition(sorted, part.offset).value, part))
         == FirstAtZero(sorted) + if part.offset == 0 then 1 else 0
  {
    SortPositionSplits(sorted, part.offset);
    InsertAtIndex(sorted, SortPosition(sorted, part.offset).value, part);
  }

  // The only reason not to link is a second partition at offset 0.
  lemma {:induction false} SortAllRefuses(parts: seq<PartInfo>, sorted: seq<PartInfo>)
    requires Ascending(sorted) && SingleZero(sorted)
    ensures SortAll(parts, sorted).None? <==> Zeros(parts) + FirstAtZero(sorted) > 1
    decreases |parts|
  {
    hide Ascending, SingleZero, SortPosition, InsertAt;
    if parts != [] {
      SortPositionSplits(sorted, parts[0].offset);
      var k := SortPosition(sorted, parts[0].offset);
      if k.Some? {
        SortInsertKeepsOrder(sorted, parts[0]);
        InsertCountsZero(sorted, parts[0]);
        SortAllRefuses(parts[1..], InsertAt(sorted, k.value, parts[0]));
      }
    }
  }

  // ----- devices and tables -------------------------------------------------------------------------

  // The definitions for one chip.
  datatype Spec = Spec(mtdId: string, defs: seq<Def>)

  function SpecText(spec: Spec): string {
    spec.mtdId + ":" + DefsText(spec.defs)
  }

  ghost predicate ValidSpec(ids: seq<MtdId>, spec: Spec) {
    && ':' !in spec.mtdId && FindId(ids, spec.mtdId).Some?
    && spec.defs != [] && ValidDefs(spec.defs)
  }

  // The device a specification means when offsets start at `start`.
  function MeantDevice(id: MtdId, start: u32, defs: seq<Def>): Option<MtdDevice> {
    match MeantAll(id, start, defs)
    case None => None
    case Some(parts) =>
      match SortAll(parts, [])
      case None => None
      case Some(sorted) => Some(MtdDevice(id, sorted))
  }

  lemma SpecScans(ids: seq<MtdId>, devices: seq<MtdDevice>, spec: Spec, rest: string)
    requires ValidSpec(ids, spec) && (rest == "" || rest[0] == ';')
    ensures var id := FindId(ids, spec.mtdId).value;
            ScanDevice(ids, devices, SpecText(spec) + rest) ==
              match MeantDevice(id, StartOffset(devices, id), spec.defs)
              case None => Rejected
              case Some(dev) => Scanned(dev, if rest == "" then rest else rest[1..])
  {
    hide ScanParts, SortAll, FindId, DefsText, StartOffset, MeantAll, ValidDefs;
    var id, text := FindId(ids, spec.mtdId).value, DefsText(spec.defs) + rest;
    var s := spec.mtdId + ":" + text;
    Reassociate(spec.mtdId + ":", DefsText(spec.defs), rest);
    FindBehind(spec.mtdId, ':', text);
    assert s[..|spec.mtdId|] == spec.mtdId && s[|spec.mtdId| + 1..] == text;
    DefsScan(id, StartOffset(devices, id), spec.defs, rest, []);
    if MeantAll(id, StartOffset(devices, id), spec.defs).Some? {
      var parts := MeantAll(id, StartOffset(devices, id), spec.defs).value;
      assert [] + parts == parts;
    }
  }

  function SpecsText(specs: seq<Spec>): string
    decreases |specs|
  {
    if specs == [] then ""
    else SpecText(specs[0]) + ((if |specs| > 1 then ";" else "") + SpecsText(specs[1..]))
  }

  // Every chip is named once.
  predicate DistinctSpecs(ids: seq<MtdId>, specs: seq<Spec>)
    requires forall i :: 0 <= i < |specs| ==> FindId(ids, specs[i].mtdId).Some?
  {
    forall i, j :: 0 <= i < j < |specs| ==>
      var a, b := FindId(ids, specs[i].mtdId).value, FindId(ids, specs[j].mtdId).value;
      !Names(a, b.devType, b.num)
  }

  function SpecDevice(ids: seq<MtdId>, spec: Spec): Option<MtdDevice>
    requires FindId(ids, spec.mtdId).Some?
  {
    MeantDevice(FindId(ids, spec.mtdId).value, 0, spec.defs)
  }

  // The table some specifications mean: a device for each, or nothing if one cannot be carried.
  function MeantTable(ids: seq<MtdId>, specs: seq<Spec>): (r: Option<seq<MtdDevice>>)
    requires forall i :: 0 <= i < |specs| ==> FindId(ids, specs[i].mtdId).Some?
    ensures r.Some? <==> forall i :: 0 <= i < |specs| ==> SpecDevice(ids, specs[i]).Some?
    ensures r.Some? ==> |r.value| == |specs| && forall i :: 0 <= i < |specs| ==> SpecDevice(ids, specs[i]) == Some(r.value[i])
  {
    if forall i :: 0 <= i < |specs| ==> SpecDevice(ids, specs[i]).Some? then
      Some(seq(|specs|, i requires 0 <= i < |specs| => SpecDevice(ids, specs[i]).value))
    else None
  }

  lemma SpecsCut(specs: seq<Spec>)
    requires specs != []
    ensures var rest := (if |specs| > 1 then ";" else "") + SpecsText(specs[1..]);
            && SpecsText(specs) == SpecText(specs[0]) + rest
            && SpecsText(specs) != "" && (rest == "" || rest[0] == ';')
            && (if rest == "" then rest else rest[1..]) == SpecsText(specs[1..])
  {
    hide DefsText;
    var more := SpecsText(specs[1..]);
    if |specs| == 1 {
      assert more == "" && "" + more == more;
    } else {
      assert (";" + more)[1..] == more;
    }
  }

  lemma NewDevice(done: seq<MtdDevice>, id: MtdId)
    requires NoneNamed(done, id)
    ensures FindDevice(done, id.devType, id.num).None? && StartOffset(done, id) == 0
  {
  }

  lemma MeantDeviceId(id: MtdId, start: u32, defs: seq<Def>)
    ensures MeantDevice(id, start, defs).Some? ==> MeantDevice(id, start, defs).value.id == id
  {
    hide MeantAll, SortAll;
  }

  ghost predicate ValidSpecs(ids: seq<MtdId>, specs: seq<Spec>) {
    && (forall i :: 0 <= i < |specs| ==> ValidSpec(ids, specs[i]))
    && (forall i :: 0 <= i < |specs| ==> FindId(ids, specs[i].mtdId).Some?)
  }

  lemma ValidTail(ids: seq<MtdId>, specs: seq<Spec>)
    requires specs != [] && ValidSpecs(ids, specs)
    ensures ValidSpecs(ids, specs[1..])
  {
    hide ValidSpec, FindId;
    var more := specs[1..];
    assert forall i :: 0 <= i < |more| ==> more[i] == specs[i + 1];
  }

  // Behind the devices done already none of the chips still to come is named.
  ghost predicate Ahead(ids: seq<MtdId>, done: seq<MtdDevice>, specs: seq<Spec>)
    requires forall i :: 0 <= i < |specs| ==> FindId(ids, specs[i].mtdId).Some?
  {
    forall i :: 0 <= i < |specs| ==> NoneNamed(done, FindId(ids, specs[i].mtdId).value)
  }

  // No chip is named twice, nor again.
  ghost predicate Fresh(ids: seq<MtdId>, done: seq<MtdDevice>, specs: seq<Spec>)
    requires forall i :: 0 <= i < |specs| ==> FindId(ids, specs[i].mtdId).Some?
  {
    Ahead(ids, done, specs) && DistinctSpecs(ids, specs)
  }

  lemma NamesBack(a: MtdId, b: MtdId)
    ensures Names(a, b.devType, b.num) <==> Names(b, a.devType, a.num)
  {
  }

  lemma FreshFirst(ids: seq<MtdId>, done: seq<MtdDevice>, specs: seq<Spec>, dev: MtdDevice)
    requires specs != [] && ValidSpecs(ids, specs) && ValidSpecs(ids, specs[1..])
    requires dev.id == FindId(ids, specs[0].mtdId).value
    ensures Fresh(ids, done, specs) <==> NoneNamed(done, dev.id) && Fresh(ids, done + [dev], specs[1..])
  {
    hide ValidSpec, FindId;
    var more := specs[1..];
    assert forall i :: 0 <= i < |more| ==> more[i] == specs[i + 1];
    assert forall i :: 0 < i < |specs| ==> specs[i] == more[i - 1];
    if Fresh(ids, done, specs) {
      forall i | 0 <= i < |more|
        ensures NoneNamed(done + [dev], FindId(ids, more[i].mtdId).value)
      {
        assert NoneNamed(done, FindId(ids, specs[i + 1].mtdId).value);
      }
    }
    if NoneNamed(done, dev.id) && Fresh(ids, done + [dev], more) {
      FreshBack(ids, done, specs, dev);
    }
  }

  lemma FreshBack(ids: seq<MtdId>, done: seq<MtdDevice>, specs: seq<Spec>, dev: MtdDevice)
    requires specs != [] && ValidSpecs(ids, specs) && ValidSpecs(ids, specs[1..])
    requires dev.id == FindId(ids, specs[0].mtdId).value
    requires NoneNamed(done, dev.id) && Fresh(ids, done + [dev], specs[1..])
    ensures Fresh(ids, done, specs)
  {
    hide ValidSpec, FindId;
    var more, all := specs[1..], done + [dev];
    assert forall k :: 0 <= k < |done| ==> all[k] == done[k];
    assert all[|done|] == dev;
    forall i | 0 <= i < |specs|
      ensures NoneNamed(done, FindId(ids, specs[i].mtdId).value)
    {
      if i > 0 {
        assert specs[i] == more[i - 1];
        assert NoneNamed(all, FindId(ids, more[i - 1].mtdId).value);
      }
    }
    forall i, j | 0 <= i < j < |specs|
      ensures !Names(FindId(ids, specs[i].mtdId).value, FindId(ids, specs[j].mtdId).value.devType, FindId(ids, specs[j].mtdId).value.num)
    {
      assert specs[j] == more[j - 1];
      if i == 0 {
        assert NoneNamed(all, FindId(ids, more[j - 1].mtdId).value);
      } else {
        assert specs[i] == more[i - 1];
      }
    }
  }

  lemma MeantFirst(ids: seq<MtdId>, specs: seq<Spec>)
    requires specs != [] && ValidSpecs(ids, specs) && ValidSpecs(ids, specs[1..])
    ensures MeantTable(ids, specs) ==
              if SpecDevice(ids, specs[0]).Some? && MeantTable(ids, specs[1..]).Some?
              then Some([SpecDevice(ids, specs[0]).value] + MeantTable(ids, specs[1..]).value) else None
  {
    hide SpecDevice, ValidSpec, FindId;
    var first, more, table := SpecDevice(ids, specs[0]), specs[1..], MeantTable(ids, specs);
    var tail := MeantTable(ids, more);
    assert forall i :: 0 <= i < |more| ==> more[i] == specs[i + 1];
    if first.Some? && tail.Some? {
      forall i | 0 <= i < |specs|
        ensures SpecDevice(ids, specs[i]) == Some(([first.value] + tail.value)[i])
      {
        assert i > 0 ==> specs[i] == more[i - 1];
      }
      assert table.Some? && table.value == [first.value] + tail.value;
    } else if first.Some? {
      var j :| 0 <= j < |more| && SpecDevice(ids, more[j]).None?;
      assert SpecDevice(ids, specs[j + 1]).None?;
    }
  }

  lemma NamedDevice(done: seq<MtdDevice>, id: MtdId)
    ensures FindDevice(done, id.devType, id.num).None? <==> NoneNamed(done, id)
  {
  }

  // What scanning the devices of a table gives.
  ghost function Result(ids: seq<MtdId>, done: seq<MtdDevice>, specs: seq<Spec>): Option<seq<MtdDevice>>
    requires ValidSpecs(ids, specs)
  {
    if Fresh(ids, done, specs) && MeantTable(ids, specs).Some? then Some(done + MeantTable(ids, specs).value) else None
  }

  lemma ResultFirst(ids: seq<MtdId>, done: seq<MtdDevice>, specs: seq<Spec>)
    requires specs != [] && ValidSpecs(ids, specs) && ValidSpecs(ids, specs[1..])
    ensures Result(ids, done, specs)
         == if SpecDevice(ids, specs[0]).Some? && NoneNamed(done, FindId(ids, specs[0].mtdId).value)
            then Result(ids, done + [SpecDevice(ids, specs[0]).value], specs[1..]) else None
  {
    MeantFirst(ids, specs);
    MeantDeviceId(FindId(ids, specs[0].mtdId).value, 0, specs[0].defs);
    var first := SpecDevice(ids, specs[0]);
    hide FindId, MeantTable, ValidSpecs, Fresh, MeantDevice, NoneNamed;
    if first.Some? {
      FreshFirst(ids, done, specs, first.value);
      DoneFirst(done, first.value, MeantTable(ids, specs[1..]));
    }
  }

  lemma DoneFirst(done: seq<MtdDevice>, dev: MtdDevice, more: Option<seq<MtdDevice>>)
    ensures more.Some? ==> done + [dev] + more.value == done + ([dev] + more.value)
  {
  }

  lemma NothingLeft(ids: seq<MtdId>, done: seq<MtdDevice>)
    ensures Result(ids, done, []) == Some(done)
  {
    assert MeantTable(ids, []).value == [] && done + [] == done;
  }

  lemma {:induction false} SpecsScan(ids: seq<MtdId>, specs: seq<Spec>, done: seq<MtdDevice>)
    requires ValidSpecs(ids, specs) && (done != [] || specs != [])
    ensures ScanDevices(ids, SpecsText(specs), done) == Result(ids, done, specs)
    decreases |specs|
  {
    hide ScanDevice, SpecText, MeantDevice, FindId, StartOffset, FindDevice, DistinctSpecs, Result, NoneNamed;
    if specs == [] {
      NothingLeft(ids, done);
    } else {
      var id, more := FindId(ids, specs[0].mtdId).value, specs[1..];
      var rest := (if |specs| > 1 then ";" else "") + SpecsText(more);
      SpecsCut(specs);
      NamedDevice(done, id);
      SpecScans(ids, done, specs[0], rest);
      MeantDeviceId(id, StartOffset(done, id), specs[0].defs);
      ValidTail(ids, specs);
      ResultFirst(ids, done, specs);
      hide SpecsText, MeantTable, ValidSpec;
      if NoneNamed(done, id) {
        NewDevice(done, id);
        if SpecDevice(ids, specs[0]).Some? {
          hide ValidSpecs;
          SpecsScan(ids, more, done + [SpecDevice(ids, specs[0]).value]);
        }
      }
    }
  }

  lemma FreshAlone(ids: seq<MtdId>, specs: seq<Spec>)
    requires ValidSpecs(ids, specs)
    ensures Fresh(ids, [], specs) <==> DistinctSpecs(ids, specs)
  {
    hide ValidSpec, FindId;
  }

  // Main result: what a user writes becomes the table it means, and is refused exactly if a chip
  // cannot carry what is meant for it or is named twice.
  lemma TableSpelled(ids: seq<MtdId>, specs: seq<Spec>)
    requires specs != [] && ValidSpecs(ids, specs)
    ensures ParseTable(ids, "mtdparts=" + SpecsText(specs))
         == if DistinctSpecs(ids, specs) then MeantTable(ids, specs) else None
  {
    hide ScanDevices, SpecsText, MeantTable, ValidSpec, FindId, DistinctSpecs, Fresh;
    SpecsScan(ids, specs, []);
    FreshAlone(ids, specs);
    assert ("mtdparts=" + SpecsText(specs))[9..] == SpecsText(specs);
    if MeantTable(ids, specs).Some? {
      assert [] + MeantTable(ids, specs).value == MeantTable(ids, specs).value;
    }
  }

  // A definition of "-" at the end of a device becomes a partition of it that reaches to the end
  // of its chip.
  lemma RestReachesEnd(ids: seq<MtdId>, specs: seq<Spec>, i: nat)
    requires ValidSpecs(ids, specs) && i < |specs| && specs[i].defs[|specs[i].defs| - 1].size.None?
    ensures var table := ParseTable(ids, "mtdparts=" + SpecsText(specs));
            table.Some? ==>
              && i < |table.value| && table.value[i].id.mtdId == specs[i].mtdId
              && exists p :: p in table.value[i].parts && p.End() == table.value[i].id.size
                   && p.name == specs[i].defs[|specs[i].defs| - 1].name
  {
    TableSpelled(ids, specs);
    var table := ParseTable(ids, "mtdparts=" + SpecsText(specs));
    if table.Some? {
      var id, defs := FindId(ids, specs[i].mtdId).value, specs[i].defs;
      hide ParseTable, SpecsText, FindId, MeantAll, SortAll, DistinctSpecs;
      assert SpecDevice(ids, specs[i]) == Some(table.value[i]);
      var parts := MeantAll(id, 0, defs).value;
      RestIsLast(id, 0, defs);
      SortAllSorts(parts, []);
      assert parts[|defs| - 1] in multiset(parts);
      assert parts[|defs| - 1] in multiset(table.value[i].parts);
    }
  }

  // ----- what is refused --------------------------------------------------------------------------------

  // Text without the prefix, a device without ':', and a chip that is not known.
  lemma Unprefixed(ids: seq<MtdId>, text: string)
    requires !("mtdparts=" <= text)
    ensures ParseTable(ids, text) == None
  {
  }

  lemma UnknownChip(ids: seq<MtdId>, devices: seq<MtdDevice>, mtdId: string, rest: string)
    requires ':' !in mtdId && FindId(ids, mtdId).None?
    ensures ScanDevice(ids, devices, mtdId + ":" + rest) == Rejected
    ensures ScanDevice(ids, devices, mtdId) == Rejected
  {
    hide ScanParts, FindId;
    var s := mtdId + ":" + rest;
    FindBehind(mtdId, ':', rest);
    assert s[..|mtdId|] == mtdId;
  }

  // A size below 4096 bytes.
  lemma SmallRefused(a: Amount, rest: string)
    requires Reads(a) && a.value < 4096 && EndsSize(rest) && a.text != "" && a.text[0] != '-'
    ensures ScanPart(a.text + rest) == Rejected
  {
    hide ScanSize;
    assert ScanSize(a.text + rest).value == a.value;
    assert (a.text + rest)[0] == a.text[0];
  }

  // A name that is empty or not closed.
  lemma NameRefused(def: Def, s: string)
    requires ValidDef(def) && def.name.None? && (s == "" || s[0] == ')' || ')' !in s)
    ensures ScanPart(SizeSpelled(def) + (OffsetSpelled(def) + ("(" + s))) == Rejected
  {
    var named := "(" + s;
    SizeScans(def, OffsetSpelled(def) + named);
    OffsetScans(def, named);
    assert named[1..] == s;
    hide SizeSpelled, OffsetSpelled, ScanPartSize, ScanOffset;
  }

  lemma NamedStarts(def: Def, flagged: string)
    requires def.name.Some?
    ensures var named := NameText(def.name) + flagged;
            named != "" && named[0] == '(' && EndsSize(OffsetSpelled(def) + named)
  {
    var named := NameText(def.name) + flagged;
    assert named[0] == '(';
    assert OffsetSpelled(def) == "" ==> OffsetSpelled(def) + named == named;
  }

  // Anything but ',' or ';' behind a definition with a name.
  lemma JunkRefused(def: Def, rest: string)
    requires ValidDef(def) && def.name.Some? && rest != "" && rest[0] != ',' && rest[0] != ';'
    requires def.ro || !("ro" <= rest)
    ensures ScanPart(DefText(def) + rest) == Rejected
  {
    var flagged := RoSpelled(def) + rest;
    var named := NameText(def.name) + flagged;
    var placed := OffsetSpelled(def) + named;
    NamedStarts(def, flagged);
    SizeScans(def, placed);
    OffsetScans(def, named);
    ParenthesisedName(def.name.value, flagged);
    Reassociate("(", def.name.value + ")", flagged);
    Reassociate("(", def.name.value, ")");
    assert def.ro ==> flagged[2..] == rest;
    assert !def.ro ==> flagged == rest;
    FourPieces(SizeSpelled(def), OffsetSpelled(def), NameText(def.name), RoSpelled(def), rest);
    hide SizeSpelled, OffsetSpelled, NameText, RoSpelled, ScanPartSize, ScanOffset, ScanName, DefText, EndsSize, ValidDef;
  }
}
