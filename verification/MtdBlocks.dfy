// What the alignment rules of part_validate_nor, part_validate_nand and part_validate_onenand are
// for (common/cmd_jffs2.c): no erase block is shared between a partition and its surroundings.

module MtdBlocks {
  import opened Words
  import opened MtdTypes

  // The block [from, to) lies wholly inside a partition or wholly outside.
  predicate Whole(part: PartInfo, from: int, to: int) {
    (part.offset <= from && to <= part.End()) || to <= part.offset || part.End() <= from
  }

  // ----- NAND and OneNAND -----------------------------------------------------------------------

  predicate WholeBlock(part: PartInfo, eraseSize: Positive, b: nat) {
    Whole(part, b * eraseSize, (b + 1) * eraseSize)
  }

  lemma BlockAround(x: nat, eraseSize: Positive)
    ensures var b := x / eraseSize; b >= 0 && b * eraseSize <= x < (b + 1) * eraseSize
  {
    assert x == eraseSize * (x / eraseSize) + x % eraseSize;
  }

  lemma Multiple(b: int, eraseSize: Positive)
    ensures (b * eraseSize) % eraseSize == 0
  {
    ModUnique(b * eraseSize, eraseSize, b, 0);
  }

  lemma AlignedWhole(part: PartInfo, eraseSize: Positive, b: nat)
    requires part.offset % eraseSize == 0 && part.size % eraseSize == 0
    ensures WholeBlock(part, eraseSize, b)
  {
    var e, q, n := eraseSize, part.offset / eraseSize, part.size / eraseSize;
    assert part.offset == e * q && part.size == e * n;
    assert part.End() == e * (q + n);
    assert b * e == e * b && (b + 1) * e == e * (b + 1);
    if b < q {
      Scaled(e, b + 1, q);
    } else if b < q + n {
      Scaled(e, q, b);
      Scaled(e, b + 1, q + n);
    } else {
      Scaled(e, q + n, b);
    }
  }

  lemma BorderStart(part: PartInfo, from: int, to: int)
    requires Whole(part, from, to) && from <= part.offset < to && part.size > 0
    ensures part.offset == from
  {
  }

  lemma BorderEnd(part: PartInfo, from: int, to: int)
    requires Whole(part, from, to) && from < part.End() <= to && part.size > 0
    ensures part.End() == to
  {
  }

  lemma Difference(b: int, c: int, eraseSize: Positive)
    ensures (c * eraseSize - b * eraseSize) % eraseSize == 0
  {
    assert c * eraseSize - b * eraseSize == (c - b) * eraseSize;
    Multiple(c - b, eraseSize);
  }

  lemma StartsBlock(part: PartInfo, eraseSize: Positive)
    requires part.size > 0 && WholeBlock(part, eraseSize, part.offset / eraseSize)
    ensures part.offset == (part.offset / eraseSize) * eraseSize
  {
    var b := part.offset / eraseSize;
    BlockAround(part.offset, eraseSize);
    BorderStart(part, b * eraseSize, (b + 1) * eraseSize);
  }

  lemma EndsBlock(part: PartInfo, eraseSize: Positive)
    requires part.size > 0 && WholeBlock(part, eraseSize, (part.End() - 1) / eraseSize)
    ensures part.End() == ((part.End() - 1) / eraseSize + 1) * eraseSize
  {
    var c := (part.End() - 1) / eraseSize;
    BlockAround(part.End() - 1, eraseSize);
    BorderEnd(part, c * eraseSize, (c + 1) * eraseSize);
  }

  lemma WholeAligned(part: PartInfo, eraseSize: Positive)
    requires part.size > 0 && forall b: nat :: WholeBlock(part, eraseSize, b)
    ensures part.offset % eraseSize == 0 && part.size % eraseSize == 0
  {
    hide WholeBlock;
    BlockAround(part.offset, eraseSize);
    BlockAround(part.End() - 1, eraseSize);
    var b, c := part.offset / eraseSize, (part.End() - 1) / eraseSize;
    StartsBlock(part, eraseSize);
    EndsBlock(part, eraseSize);
    Multiple(b, eraseSize);
    Difference(b, c + 1, eraseSize);
    assert part.size == (c + 1) * eraseSize - b * eraseSize;
  }

  // A partition that is not empty is aligned exactly if it consists of whole erase blocks.
  lemma NandAlignedIff(part: PartInfo, eraseSize: Positive)
    requires part.size > 0
    ensures Aligned(NandChip(eraseSize), part.offset, part.size) <==> forall b: nat :: WholeBlock(part, eraseSize, b)
  {
    hide WholeBlock;
    if Aligned(NandChip(eraseSize), part.offset, part.size) {
      forall b: nat
        ensures WholeBlock(part, eraseSize, b)
      {
        AlignedWhole(part, eraseSize, b);
      }
    }
    if forall b: nat :: WholeBlock(part, eraseSize, b) {
      WholeAligned(part, eraseSize);
    }
  }

  // ----- NOR --------------------------------------------------------------------------------------

  // A bank as its driver describes it: ascending sectors that end with the bank.
  predicate Tiles(starts: seq<u32>, size: u32) {
    && starts != []
    && (forall i, j :: 0 <= i < j < |starts| ==> starts[i] < starts[j])
    && starts[|starts| - 1] as int - starts[0] < size
  }

  // Where sector s starts and ends, counted from the start of the bank.
  function From(starts: seq<u32>, s: nat): int
    requires s < |starts|
  {
    starts[s] as int - starts[0]
  }

  function To(starts: seq<u32>, size: u32, s: nat): int
    requires s < |starts|
  {
    if s + 1 < |starts| then From(starts, s + 1) else size
  }

  predicate WholeSector(part: PartInfo, starts: seq<u32>, size: u32, s: nat)
    requires s < |starts|
  {
    Whole(part, From(starts, s), To(starts, size, s))
  }

  lemma BoundaryIs(starts: seq<u32>, size: u32, offset: u32)
    requires Tiles(starts, size)
    ensures SectorBoundary(starts, offset) <==> exists s :: 0 <= s < |starts| && From(starts, s) == offset
  {
    forall s | 0 <= s < |starts|
      ensures Minus(starts[s], starts[0]) == From(starts, s)
    {
      assert s > 0 ==> starts[0] < starts[s];
    }
  }

  // The sector that holds an offset.
  lemma {:induction false} SectorAround(starts: seq<u32>, size: u32, x: nat, n: nat) returns (s: nat)
    requires Tiles(starts, size) && 0 < n <= |starts| && x < (if n < |starts| then From(starts, n) else size)
    ensures s < n && From(starts, s) <= x < To(starts, size, s)
    decreases n
  {
    if From(starts, n - 1) <= x {
      s := n - 1;
    } else {
      s := SectorAround(starts, size, x, n - 1);
    }
  }

  lemma Order(starts: seq<u32>, size: u32, i: nat, j: nat)
    requires Tiles(starts, size) && i < j < |starts|
    ensures To(starts, size, i) <= From(starts, j) && From(starts, i) < From(starts, j) < size
  {
    assert i + 1 < j ==> starts[i + 1] < starts[j];
    assert j < |starts| - 1 ==> starts[j] < starts[|starts| - 1];
  }

  // The same for the sectors of a NOR bank.
  lemma NorAlignedIff(part: PartInfo, starts: seq<u32>, size: u32)
    requires Tiles(starts, size) && part.size > 0 && part.End() <= size
    ensures Aligned(NorBank(starts, size), part.offset, part.size) <==>
              forall s :: 0 <= s < |starts| ==> WholeSector(part, starts, size, s)
  {
    hide SectorBoundary, From, WholeSector, Tiles;
    BoundaryIs(starts, size, part.offset);
    BoundaryIs(starts, size, part.End());
    assert Wrap(part.offset + part.size) == part.End();
    hide Wrap;
    if Aligned(NorBank(starts, size), part.offset, part.size) {
      forall s | 0 <= s < |starts|
        ensures WholeSector(part, starts, size, s)
      {
        BoundsWhole(part, starts, size, s);
      }
    }
    if forall s :: 0 <= s < |starts| ==> WholeSector(part, starts, size, s) {
      WholeBounds(part, starts, size);
    }
  }

  lemma BoundsWhole(part: PartInfo, starts: seq<u32>, size: u32, s: nat)
    requires Tiles(starts, size) && part.size > 0 && part.End() <= size && s < |starts|
    requires exists i :: 0 <= i < |starts| && From(starts, i) == part.offset
    requires part.End() == size || exists j :: 0 <= j < |starts| && From(starts, j) == part.End()
    ensures WholeSector(part, starts, size, s)
  {
    var i :| 0 <= i < |starts| && From(starts, i) == part.offset;
    hide Tiles;
    if s < i {
      Order(starts, size, s, i);
    } else {
      if i < s {
        Order(starts, size, i, s);
      }
      if part.End() == size {
        if s + 1 < |starts| {
          Order(starts, size, s, s + 1);
        }
      } else {
        var j :| 0 <= j < |starts| && From(starts, j) == part.End();
        if s < j {
          Order(starts, size, s, j);
        } else if j < s {
          Order(starts, size, j, s);
        }
      }
    }
  }

  lemma WholeBounds(part: PartInfo, starts: seq<u32>, size: u32)
    requires Tiles(starts, size) && part.size > 0 && part.End() <= size
    requires forall s :: 0 <= s < |starts| ==> WholeSector(part, starts, size, s)
    ensures exists i :: 0 <= i < |starts| && From(starts, i) == part.offset
    ensures part.End() == size || exists j :: 0 <= j < |starts| && From(starts, j) == part.End()
  {
    var i := SectorAround(starts, size, part.offset, |starts|);
    var j := SectorAround(starts, size, part.End() - 1, |starts|);
    assert WholeSector(part, starts, size, i) && WholeSector(part, starts, size, j);
    assert From(starts, i) == part.offset && To(starts, size, j) == part.End();
    if j + 1 < |starts| {
      assert From(starts, j + 1) == part.End();
    }
  }
}
