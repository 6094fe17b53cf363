// Entities of the MTD partition table (include/jffs2/load_kernel.h) and the checks that
// decide which partitions a flash chip can carry (common/cmd_jffs2.c).

module MtdTypes {
  import opened Words

  // A partition size that stands for "all the space that is left".
  const SIZE_REMAINING: u32 := 0xFFFF_FFFF
  // An offset the definition left out, before it is resolved.
  const OFFSET_NOT_SPECIFIED: u32 := 0xFFFF_FFFF
  const MIN_PART_SIZE: u32 := 4096
  const MTD_WRITEABLE_CMD: u32 := 1

  datatype DevType = NorType | NandType | OneNandType

  type Positive = x: int | 0 < x witness 1

  // What part_validate looks up about the chip a device number names: the sector start
  // addresses and size of a NOR bank, or the erase size of a NAND or OneNAND chip.
  datatype Chip =
    | NorBank(starts: seq<u32>, flashSize: u32)
    | NandChip(eraseSize: Positive)

  // struct mtdids
  datatype MtdId = MtdId(devType: DevType, num: byte, size: u32, mtdId: string, chip: Chip)

  // struct part_info; an automatically generated name is kept as None.
  datatype PartInfo = PartInfo(size: u32, offset: u32, name: Option<string>, maskFlags: u32) {
    // First offset behind the partition.
    function End(): int {
      offset + size
    }
  }

  // struct mtd_device; num_parts is the length of `parts`.
  datatype MtdDevice = MtdDevice(id: MtdId, parts: seq<PartInfo>)

  predicate SectorBoundary(starts: seq<u32>, offset: u32) {
    exists i :: 0 <= i < |starts| && Minus(starts[i], starts[0]) == offset
  }

  // The alignment rules of part_validate_nor, part_validate_nand and part_validate_onenand.
  predicate Aligned(chip: Chip, offset: u32, size: u32) {
    match chip
    case NorBank(starts, flashSize) =>
      && SectorBoundary(starts, offset)
      && (SectorBoundary(starts, Wrap(offset + size)) || flashSize == Wrap(offset + size))
    case NandChip(eraseSize) =>
      offset % eraseSize == 0 && size % eraseSize == 0
  }

  // part_validate: resolves "all the rest" and rejects what does not fit the chip.
  function PartValidate(id: MtdId, part: PartInfo): Option<PartInfo> {
    var size := if part.size == SIZE_REMAINING then Minus(id.size, part.offset) else part.size;
    if part.offset > id.size then None
    else if Wrap(part.offset + size) <= part.offset then None
    else if Wrap(part.offset + size) > id.size then None
    else if !Aligned(id.chip, part.offset, size) then None
    else Some(part.(size := size))
  }

  // A partition the chip carries: it lies on the chip, is not empty, and is aligned.
  predicate Fits(id: MtdId, part: PartInfo) {
    part.offset < part.End() <= id.size && Aligned(id.chip, part.offset, part.size)
  }

  // Acceptance means fitting the chip, and a partition that fits is accepted unchanged.
  lemma ValidateExact(id: MtdId, part: PartInfo)
    ensures PartValidate(id, part).Some? ==> Fits(id, PartValidate(id, part).value)
    ensures Fits(id, part) <==> PartValidate(id, part) == Some(part)
    ensures part.size != SIZE_REMAINING ==> (PartValidate(id, part).Some? <==> Fits(id, part))
  {
    hide Aligned;
    if part.size != SIZE_REMAINING && PartValidate(id, part).Some? {
      assert part.offset + part.size < 0x1_0000_0000;
    }
  }

  // "The rest" is everything from the offset to the end of the chip; it is accepted exactly
  // if there is any and it is aligned.
  lemma RestExact(id: MtdId, part: PartInfo)
    requires part.size == SIZE_REMAINING
    ensures PartValidate(id, part).Some? <==>
              part.offset < id.size && Aligned(id.chip, part.offset, id.size - part.offset)
    ensures PartValidate(id, part).Some? ==>
              var r := PartValidate(id, part).value;
              r.End() == id.size && r.offset == part.offset && r.name == part.name && r.maskFlags == part.maskFlags
  {
    hide Aligned;
    if part.offset <= id.size {
      assert Minus(id.size, part.offset) == id.size - part.offset;
      assert Wrap(id.size) == id.size;
    }
  }

  // part_validate_nor walks the sector table twice, the first time up to the first hit.
  method NorAligned(starts: seq<u32>, flashSize: u32, offset: u32, size: u32) returns (ok: bool)
    requires |starts| > 0
    ensures ok <==> Aligned(NorBank(starts, flashSize), offset, size)
  {
    var offsetAligned := false;
    for i := 0 to |starts|
      invariant !offsetAligned
      invariant forall k :: 0 <= k < i ==> Minus(starts[k], starts[0]) != offset
    {
      if Minus(starts[i], starts[0]) == offset {
        offsetAligned := true;
        break;
      }
    }
    if !offsetAligned {
      return false;
    }
    var endOffset := Wrap(offset + size);
    offsetAligned := false;
    for j := 0 to |starts|
      invariant offsetAligned <==> exists k :: 0 <= k < j && Minus(starts[k], starts[0]) == endOffset
    {
      if Minus(starts[j], starts[0]) == endOffset {
        offsetAligned := true;
      }
    }
    return offsetAligned || flashSize == endOffset;
  }

  method Validate(id: MtdId, part: PartInfo) returns (r: Option<PartInfo>)
    requires id.chip.NorBank? ==> |id.chip.starts| > 0
    ensures r == PartValidate(id, part)
  {
    var size := part.size;
    if size == SIZE_REMAINING {
      size := Minus(id.size, part.offset);
    }
    if part.offset > id.size {
      return None;
    }
    if Wrap(part.offset + size) <= part.offset {
      return None;
    }
    if Wrap(part.offset + size) > id.size {
      return None;
    }
    match id.chip {
      case NorBank(starts, flashSize) =>
        var ok := NorAligned(starts, flashSize, part.offset, size);
        if !ok {
          return None;
        }
      case NandChip(eraseSize) =>
        if part.offset % eraseSize != 0 {
          return None;
        }
        if size % eraseSize != 0 {
          return None;
        }
    }
    return Some(part.(size := size));
  }
}
