// Chunked transfers to and from an EEPROM on the I2C bus (common/cmd_eeprom.c), for the
// plain configuration: no FRAM, no SPI, no X40430.

module Eeprom {
  import opened Words

  // include/i2c.h
  const I2C_RXTX_LEN := 128

  // 1 << CONFIG_SYS_EEPROM_PAGE_WRITE_BITS
  type Page = p: int | p >= 1 && PowerOfTwo(p) witness 1

  // A chip whose memory is a whole number of write pages.
  predicate ChipMemory(mem: seq<byte>, page: Page) {
    0 < |mem| <= 0x1_0000_0000 && |mem| % page == 0
  }

  // Lengths of the next transfers.
  function WriteChunk(page: Page, offset: nat, left: nat): (n: int)
    ensures n <= left && n <= I2C_RXTX_LEN && (left > 0 ==> n > 0)
  {
    Least(left, Least(page - offset % 0x100 % page, I2C_RXTX_LEN))
  }

  function ReadChunk(offset: nat, left: nat): (n: int)
    ensures n <= left && n <= I2C_RXTX_LEN && (left > 0 ==> n > 0)
  {
    Least(left, Least(0x100 - offset % 0x100, I2C_RXTX_LEN))
  }

  // ----- page arithmetic --------------------------------------------------------------------

  lemma SmallPage(page: Page, offset: nat)
    requires page <= 0x100
    ensures offset % 0x100 % page == offset % page
  {
    var k := 0x100 / page;
    assert page * k == 0x100 by {
      SmallPowers(page);
    }
    hide PowerOfTwo;
    var q, r := offset / 0x100, offset % 0x100;
    var p, s := r / page, r % page;
    assert page * (k * q + p) == page * k * q + page * p;
    ModUnique(offset, page, k * q + p, s);
  }

  lemma Halves(p: int)
    requires PowerOfTwo(p) && p > 1
    ensures PowerOfTwo(p / 2) && p == 2 * (p / 2)
  {
  }

  lemma {:induction false} SmallPowers(p: int)
    requires PowerOfTwo(p) && p <= 0x100
    ensures p == 1 || p == 2 || p == 4 || p == 8 || p == 16 || p == 32 || p == 64 || p == 128 || p == 256
  {
    if p > 1 {
      SmallPowers(p / 2);
    }
  }

  lemma {:induction false} LargePage(p: int)
    requires PowerOfTwo(p) && p > 0x100
    ensures p % 0x200 == 0
  {
    hide PowerOfTwo;
    Halves(p);
    if p / 2 > 0x100 {
      LargePage(p / 2);
      var k := p / 2 / 0x200;
      assert p / 2 == 0x200 * k;
      ModUnique(p, 0x200, 2 * k, 0);
    } else {
      SmallPowers(p / 2);
    }
  }

  // Position of an address in its page.
  function PosIn(offset: nat, page: int): (p: nat)
    requires page >= 1
    ensures p < page && p <= offset
  {
    offset % page
  }

  // The page that holds an address lies on the chip.
  lemma PageOnChip(size: nat, page: int, offset: nat)
    requires page >= 1 && offset < size && size % page == 0
    ensures offset - PosIn(offset, page) + page <= size
  {
    var q, n := offset / page, size / page;
    assert size == page * n && offset - PosIn(offset, page) == page * q;
    if q < n {
      Scaled(page, q + 1, n);
    } else {
      Scaled(page, n, q);
    }
  }

  // ----- the chip ---------------------------------------------------------------------------

  // One write transfer: the address counter of the chip runs round inside the page.
  function PageWrite(mem: seq<byte>, page: int, base: nat, pos: nat, data: seq<byte>): (r: seq<byte>)
    requires pos < page && base + page <= |mem|
    ensures |r| == |mem|
    decreases |data|
  {
    if data == [] then mem
    else PageWrite(mem[base + pos := data[0]], page, base, if pos + 1 == page then 0 else pos + 1, data[1..])
  }

  // The bytes put at their place.
  function Flat(mem: seq<byte>, offset: nat, data: seq<byte>): (r: seq<byte>)
    requires offset + |data| <= |mem|
    ensures |r| == |mem|
  {
    mem[..offset] + data + mem[offset + |data|..]
  }

  lemma FlatNothing(mem: seq<byte>, offset: nat)
    requires offset <= |mem|
    ensures Flat(mem, offset, []) == mem
  {
  }

  lemma FlatInPieces(mem: seq<byte>, offset: nat, a: seq<byte>, b: seq<byte>)
    requires offset + |a + b| <= |mem|
    ensures Flat(Flat(mem, offset, a), offset + |a|, b) == Flat(mem, offset, a + b)
  {
  }

  lemma {:induction false} PageWriteFlat(mem: seq<byte>, page: int, base: nat, pos: nat, data: seq<byte>)
    requires pos < page && base + page <= |mem| && pos + |data| <= page
    ensures PageWrite(mem, page, base, pos, data) == Flat(mem, base + pos, data)
    decreases |data|
  {
    if data == [] {
      assert Flat(mem, base + pos, data) == mem;
    } else {
      var m := mem[base + pos := data[0]];
      assert m == Flat(mem, base + pos, [data[0]]);
      FlatInPieces(mem, base + pos, [data[0]], data[1..]);
      assert [data[0]] + data[1..] == data;
      if |data| > 1 {
        PageWriteFlat(m, page, base, pos + 1, data[1..]);
      } else {
        assert Flat(m, base + pos + 1, data[1..]) == m;
      }
    }
  }

  function Transfer(mem: seq<byte>, page: Page, offset: nat, data: seq<byte>): (r: seq<byte>)
    requires ChipMemory(mem, page) && offset < |mem|
    ensures |r| == |mem|
  {
    PageOnChip(|mem|, page, offset);
    PageWrite(mem, page, offset - PosIn(offset, page), PosIn(offset, page), data)
  }

  // ----- the write loop -----------------------------------------------------------------------

  // The effect of the chunks of a request on the chip, when no transfer fails.
  function WriteRun(mem: seq<byte>, page: Page, offset: nat, data: seq<byte>): (r: seq<byte>)
    requires ChipMemory(mem, page) && offset + |data| <= |mem|
    ensures |r| == |mem|
    decreases |data|
  {
    if data == [] then mem
    else
      var len := WriteChunk(page, offset, |data|);
      WriteRun(Transfer(mem, page, offset, data[..len]), page, offset + len, data[len..])
  }

  // No transfer leaves its page, because pages are small or there is only one.
  predicate KeepsToPages(page: int, size: int) {
    page <= 0x100 || size == page
  }

  lemma ChunkInPage(page: Page, size: nat, offset: nat, left: nat)
    requires KeepsToPages(page, size) && left > 0 && offset + left <= size
    ensures 0 < WriteChunk(page, offset, left) <= left
    ensures PosIn(offset, page) + WriteChunk(page, offset, left) <= page
  {
    if page <= 0x100 {
      SmallPage(page, offset);
    }
  }

  lemma TransferFlat(mem: seq<byte>, page: Page, offset: nat, data: seq<byte>)
    requires ChipMemory(mem, page) && offset < |mem| && PosIn(offset, page) + |data| <= page
    ensures offset + |data| <= |mem| && Transfer(mem, page, offset, data) == Flat(mem, offset, data)
  {
    hide PageWrite, Flat, PosIn, PowerOfTwo;
    PageOnChip(|mem|, page, offset);
    PageWriteFlat(mem, page, offset - PosIn(offset, page), PosIn(offset, page), data);
  }

  lemma {:induction false} WriteRunFlat(mem: seq<byte>, page: Page, offset: nat, data: seq<byte>)
    requires ChipMemory(mem, page) && offset + |data| <= |mem| && KeepsToPages(page, |mem|)
    ensures WriteRun(mem, page, offset, data) == Flat(mem, offset, data)
    decreases |data|
  {
    hide Flat, Transfer, PowerOfTwo, WriteChunk, KeepsToPages, PosIn;
    if data == [] {
      FlatNothing(mem, offset);
    } else {
      var len := WriteChunk(page, offset, |data|);
      var head, tail := data[..len], data[len..];
      ChunkInPage(page, |mem|, offset, |data|);
      TransferFlat(mem, page, offset, head);
      assert WriteRun(mem, page, offset, data) == WriteRun(Flat(mem, offset, head), page, offset + len, tail);
      WriteRunFlat(Flat(mem, offset, head), page, offset + len, tail);
      hide WriteRun;
      assert head + tail == data;
      FlatInPieces(mem, offset, head, tail);
    }
  }

  // A request that starts on the last byte of the first page.
  function Blank(size: nat): (mem: seq<byte>)
    ensures |mem| == size && forall a :: 0 <= a < size ==> mem[a] == 0
  {
    seq(size, _ => 0)
  }

  // One chunk for the last byte of a large page and the byte behind it.
  lemma LastOfPiece(page: int)
    requires page > 0x100 && page % 0x200 == 0
    ensures (page - 1) % 0x100 % page == 0xFF
  {
    var m := page / 0x200;
    assert page == 0x200 * m;
    ModUnique(page - 1, 0x100, 2 * m - 1, 0xFF);
    ModUnique(0xFF, page, 0, 0xFF);
  }

  lemma LargePageChunk(page: Page)
    requires page > 0x100
    ensures WriteChunk(page, page - 1, 2) == 2
  {
    hide PowerOfTwo;
    LargePage(page);
    LastOfPiece(page);
    assert page >= 0x200;
  }

  lemma TransferRunsRound(mem: seq<byte>, page: Page)
    requires ChipMemory(mem, page) && page > 1
    ensures page <= |mem| && Transfer(mem, page, page - 1, [1, 1]) == mem[page - 1 := 1][0 := 1]
  {
    PageOnChip(|mem|, page, 0);
    ModUnique(page - 1, page, 0, page - 1);
    ModUnique(0, page, 0, 0);
    hide PowerOfTwo;
    var m := mem[page - 1 := 1];
    assert [1, 1][1..] == [1] && [1][1..] == [];
    assert PageWrite(m[0 := 1], page, 0, 1, []) == m[0 := 1];
    assert PageWrite(m, page, 0, 0, [1]) == m[0 := 1];
  }

  lemma LargePageMisplaces(page: Page, size: nat)
    requires page > 0x100 && page < size <= 0x1_0000_0000 && size % page == 0
    ensures WriteRun(Blank(size), page, page - 1, [1, 1]) != Flat(Blank(size), page - 1, [1, 1])
  {
    hide PowerOfTwo, Transfer, WriteChunk, Blank;
    var mem, offset := Blank(size), page - 1;
    LargePageChunk(page);
    TransferRunsRound(mem, page);
    var m := mem[offset := 1][0 := 1];
    assert [1, 1][..2] == [1, 1] && [1, 1][2..] == [];
    assert WriteRun(m, page, offset + 2, []) == m;
    assert WriteRun(mem, page, offset, [1, 1])[0] == 1;
    assert Flat(mem, offset, [1, 1])[0] == 0;
  }

  // Chunked writing is flat writing for every request, exactly when pages have at most 256
  // bytes or the chip is a single page.
  lemma WritesFlatIff(page: Page, size: nat)
    requires 0 < size <= 0x1_0000_0000 && size % page == 0
    ensures KeepsToPages(page, size) <==>
            forall mem: seq<byte>, offset: nat, data: seq<byte> :: |mem| == size && offset + |data| <= size ==>
              WriteRun(mem, page, offset, data) == Flat(mem, offset, data)
  {
    hide WriteRun, Flat;
    if KeepsToPages(page, size) {
      forall mem: seq<byte>, offset: nat, data: seq<byte> | |mem| == size && offset + |data| <= size
        ensures WriteRun(mem, page, offset, data) == Flat(mem, offset, data)
      {
        WriteRunFlat(mem, page, offset, data);
      }
    } else {
      assert page < size;
      LargePageMisplaces(page, size);
    }
  }

  // ----- failing transfers ----------------------------------------------------------------------

  // Memory, result code and number of transfers after a request; `answers` tells which
  // transfers the bus acknowledges.
  datatype Outcome = Outcome(mem: seq<byte>, failed: bool, calls: nat)

  function WriteScript(mem: seq<byte>, page: Page, offset: nat, data: seq<byte>, answers: nat -> bool, k: nat): (r: Outcome)
    requires ChipMemory(mem, page) && offset + |data| <= |mem|
    ensures |r.mem| == |mem| && r.calls >= k
    decreases |data|
  {
    if data == [] then Outcome(mem, false, k)
    else
      var len := WriteChunk(page, offset, |data|);
      var m := if answers(k) then Transfer(mem, page, offset, data[..len]) else mem;
      var r := WriteScript(m, page, offset + len, data[len..], answers, k + 1);
      r.(failed := !answers(k) || r.failed)
  }

  lemma ScriptStep(mem: seq<byte>, page: Page, offset: nat, data: seq<byte>, answers: nat -> bool, k: nat)
    requires ChipMemory(mem, page) && offset + |data| <= |mem| && data != []
    ensures var len := WriteChunk(page, offset, |data|);
            var m := if answers(k) then Transfer(mem, page, offset, data[..len]) else mem;
            var rest := WriteScript(m, page, offset + len, data[len..], answers, k + 1);
            WriteScript(mem, page, offset, data, answers, k) == rest.(failed := !answers(k) || rest.failed)
  {
    hide Transfer, PowerOfTwo, WriteChunk;
  }

  lemma ScriptEnds(mem: seq<byte>, page: Page, offset: nat, answers: nat -> bool, k: nat)
    requires ChipMemory(mem, page) && offset <= |mem|
    ensures WriteScript(mem, page, offset, [], answers, k) == Outcome(mem, false, k)
  {
  }

  lemma {:induction false} ScriptReports(mem: seq<byte>, page: Page, offset: nat, data: seq<byte>, answers: nat -> bool, k: nat)
    requires ChipMemory(mem, page) && offset + |data| <= |mem|
    ensures var r := WriteScript(mem, page, offset, data, answers, k);
            && (r.failed <==> exists i :: k <= i < r.calls && !answers(i))
            && (!r.failed ==> r.mem == WriteRun(mem, page, offset, data))
    decreases |data|
  {
    hide Transfer, PowerOfTwo, WriteChunk;
    if data != [] {
      var len := WriteChunk(page, offset, |data|);
      var m := if answers(k) then Transfer(mem, page, offset, data[..len]) else mem;
      assert ChipMemory(m, page);
      ScriptReports(m, page, offset + len, data[len..], answers, k + 1);
    }
  }

  // Nothing outside the request changes, and inside it each byte is the new or the old one.
  predicate Partial(was: seq<byte>, now: seq<byte>, offset: nat, data: seq<byte>)
    requires |was| == |now|
  {
    forall a :: 0 <= a < |now| ==>
      now[a] == was[a] || (offset <= a < offset + |data| && now[a] == data[a - offset])
  }

  lemma {:induction false} ScriptPartial(mem: seq<byte>, page: Page, offset: nat, data: seq<byte>, answers: nat -> bool, k: nat)
    requires ChipMemory(mem, page) && offset + |data| <= |mem| && KeepsToPages(page, |mem|)
    ensures Partial(mem, WriteScript(mem, page, offset, data, answers, k).mem, offset, data)
    decreases |data|
  {
    if data != [] {
      hide Transfer, PowerOfTwo, WriteChunk, WriteScript, Flat, Partial, PosIn, KeepsToPages;
      var len := WriteChunk(page, offset, |data|);
      var m := if answers(k) then Transfer(mem, page, offset, data[..len]) else mem;
      ScriptStep(mem, page, offset, data, answers, k);
      ChunkInPage(page, |mem|, offset, |data|);
      TransferFlat(mem, page, offset, data[..len]);
      ScriptPartial(m, page, offset + len, data[len..], answers, k + 1);
      PartialThen(mem, m, WriteScript(m, page, offset + len, data[len..], answers, k + 1).mem, offset, data, len);
    }
  }

  lemma PartialThen(was: seq<byte>, m: seq<byte>, now: seq<byte>, offset: nat, data: seq<byte>, len: nat)
    requires |was| == |m| == |now| && len <= |data| && offset + |data| <= |was|
    requires m == was || m == Flat(was, offset, data[..len])
    requires Partial(m, now, offset + len, data[len..])
    ensures Partial(was, now, offset, data)
  {
  }

  // ----- reading --------------------------------------------------------------------------------

  // A chip answers reads with a counter that runs round in a block; blocks hold a whole
  // number of the 256-byte pieces a read is cut into.
  predicate ReadBlock(mem: seq<byte>, block: int) {
    block > 0 && block % 0x100 == 0 && |mem| % block == 0
  }

  function RingRead(mem: seq<byte>, block: int, base: nat, pos: nat, n: nat): (r: seq<byte>)
    requires pos < block && base + block <= |mem|
    ensures |r| == n
    decreases n
  {
    if n == 0 then []
    else [mem[base + pos]] + RingRead(mem, block, base, if pos + 1 == block then 0 else pos + 1, n - 1)
  }

  lemma RingReadStep(mem: seq<byte>, block: int, base: nat, pos: nat, n: nat)
    requires pos < block && base + block <= |mem| && n > 0
    ensures var s := RingRead(mem, block, base, pos, n);
            s[0] == mem[base + pos] && s[1..] == RingRead(mem, block, base, if pos + 1 == block then 0 else pos + 1, n - 1)
  {
  }

  lemma RingReadTail(mem: seq<byte>, block: int, base: nat, pos: nat, all: seq<byte>, i: nat)
    requires pos < block && base + block <= |mem| && i < |all| && RingRead(mem, block, base, pos, |all| - i) == all[i..]
    ensures all[i] == mem[base + pos]
    ensures RingRead(mem, block, base, if pos + 1 == block then 0 else pos + 1, |all| - i - 1) == all[i + 1..]
  {
    RingReadStep(mem, block, base, pos, |all| - i);
    hide RingRead;
    assert all[i..][1..] == all[i + 1..];
  }

  lemma {:induction false} RingReadFlat(mem: seq<byte>, block: int, base: nat, pos: nat, n: nat)
    requires pos < block && base + block <= |mem| && pos + n <= block
    ensures RingRead(mem, block, base, pos, n) == mem[base + pos..base + pos + n]
    decreases n
  {
    if n == 1 {
      assert RingRead(mem, block, base, pos, 1) == [mem[base + pos]];
    } else if n > 1 {
      RingReadFlat(mem, block, base, pos + 1, n - 1);
    }
  }

  // A piece of a read stays in its block.
  lemma ChunkInBlock(block: int, offset: nat, left: nat)
    requires block > 0 && block % 0x100 == 0 && left > 0
    ensures PosIn(offset, block) + ReadChunk(offset, left) <= block
  {
    SameInBlock(block, offset);
    PageOnChip(block, 0x100, offset % block);
  }

  // A block is made of whole 256-byte pieces.
  lemma SameInBlock(block: int, offset: nat)
    requires block > 0 && block % 0x100 == 0
    ensures offset % 0x100 == offset % block % 0x100
  {
    var q, o, m := offset / block, offset % block, block / 0x100;
    assert offset == block * q + o;
    assert block * q == 0x100 * (m * q) by {
      assert block == 0x100 * m;
    }
    ModUnique(offset, 0x100, m * q + o / 0x100, o % 0x100);
  }

  function BusRead(mem: seq<byte>, block: int, offset: nat, n: nat): (r: seq<byte>)
    requires ReadBlock(mem, block) && offset < |mem|
    ensures |r| == n
  {
    PageOnChip(|mem|, block, offset);
    RingRead(mem, block, offset - PosIn(offset, block), PosIn(offset, block), n)
  }

  lemma BusReadStarts(mem: seq<byte>, block: int, offset: nat, n: nat)
    requires ReadBlock(mem, block) && offset < |mem|
    ensures var pos := PosIn(offset, block);
            block >= 1 && offset - pos + block <= |mem| && BusRead(mem, block, offset, n) == RingRead(mem, block, offset - pos, pos, n)
  {
    hide PosIn, RingRead;
    PageOnChip(|mem|, block, offset);
  }

  lemma BusReadFlat(mem: seq<byte>, block: int, offset: nat, left: nat)
    requires ReadBlock(mem, block) && offset + left <= |mem| && left > 0
    ensures BusRead(mem, block, offset, ReadChunk(offset, left)) == mem[offset..offset + ReadChunk(offset, left)]
  {
    hide ReadChunk, PosIn, RingRead;
    PageOnChip(|mem|, block, offset);
    ChunkInBlock(block, offset, left);
    RingReadFlat(mem, block, offset - PosIn(offset, block), PosIn(offset, block), ReadChunk(offset, left));
  }

  // A request whose end wraps ends at or before its start.
  lemma EndOfRequest(start: u32, cnt: u32)
    ensures start + cnt <= MAX_U32 ==> Wrap(start + cnt) == start + cnt
    ensures start + cnt > MAX_U32 ==> Wrap(start + cnt) <= start
  {
  }

  // ----- the driver -----------------------------------------------------------------------------

  class Bus {
    const page: Page
    const block: int
    const memory: array<byte>
    const answers: nat -> bool
    var calls: nat

    constructor (page: Page, block: int, memory: array<byte>, answers: nat -> bool)
      requires ChipMemory(memory[..], page) && ReadBlock(memory[..], block)
      ensures Valid() && calls == 0
      ensures this.page == page && this.block == block && this.memory == memory && this.answers == answers
    {
      this.page, this.block, this.memory, this.answers, calls := page, block, memory, answers, 0;
    }

    ghost predicate Valid()
      reads memory
    {
      ChipMemory(memory[..], page) && ReadBlock(memory[..], block)
    }

    // i2c_write: a transfer that is not acknowledged changes nothing.
    method I2cWrite(offset: nat, data: seq<byte>) returns (rc: int)
      requires Valid() && offset < memory.Length
      modifies this`calls, memory
      ensures Valid() && calls == old(calls) + 1 && (rc == 0 <==> answers(old(calls)))
      ensures memory[..] == if rc == 0 then Transfer(old(memory[..]), page, offset, data) else old(memory[..])
    {
      calls := calls + 1;
      if !answers(calls - 1) {
        return 1;
      }
      PageOnChip(memory.Length, page, offset);
      ghost var before := memory[..];
      hide ChipMemory, ReadBlock;
      var base, pos: nat := offset - PosIn(offset, page), PosIn(offset, page);
      var i := 0;
      while i < |data|
        modifies memory
        invariant 0 <= i <= |data| && pos < page
        invariant PageWrite(memory[..], page, base, pos, data[i..]) == Transfer(before, page, offset, data)
      {
        assert data[i..][1..] == data[i + 1..];
        ghost var m := memory[..][base + pos := data[i]];
        memory[base + pos] := data[i];
        assert memory[..] == m;
        pos := if pos + 1 == page then 0 else pos + 1;
        i := i + 1;
      }
      rc := 0;
    }

    // eeprom_write; a request that ends at or behind the top of the 32-bit offsets is
    // dropped without an error.
    method EepromWrite(start: u32, buffer: seq<byte>, cnt: u32) returns (rcode: int)
      requires Valid() && cnt <= |buffer|
      requires start + cnt <= MAX_U32 ==> start + cnt <= memory.Length
      modifies this`calls, memory
      ensures Valid() && (rcode == 0 || rcode == 1)
      ensures if start + cnt <= MAX_U32 then
                Outcome(memory[..], rcode == 1, calls) ==
                WriteScript(old(memory[..]), page, start, buffer[..cnt], answers, old(calls))
              else rcode == 0 && memory[..] == old(memory[..]) && calls == old(calls)
    {
      hide PowerOfTwo, ChipMemory, ReadBlock, Transfer, WriteScript, WriteChunk, Wrap;
      EndOfRequest(start, cnt);
      var end := Wrap(start + cnt);
      var offset: u32, at: nat := start, 0;
      rcode := 0;
      ghost var fits := start + cnt <= MAX_U32;
      ghost var script := if fits then WriteScript(memory[..], page, start, buffer[..cnt], answers, calls)
                          else Outcome(memory[..], false, calls);
      while offset < end
        invariant Valid() && (rcode == 0 || rcode == 1) && offset == start + at
        invariant at <= if fits then cnt else 0
        invariant if fits then
                    var r := WriteScript(memory[..], page, offset, buffer[at..cnt], answers, calls);
                    r.mem == script.mem && r.calls == script.calls && (script.failed <==> rcode == 1 || r.failed)
                  else script == Outcome(memory[..], rcode == 1, calls)
        decreases end - offset
      {
        ghost var data := buffer[at..cnt];
        var len := WriteLength(offset, end - offset);
        ScriptStep(memory[..], page, offset, data, answers, calls);
        assert data[..len] == buffer[at..at + len] && data[len..] == buffer[at + len..cnt];
        var failed := I2cWrite(offset, buffer[at..at + len]);
        if failed != 0 {
          rcode := 1;
        }
        at := at + len;
        offset := offset + len;
      }
      if fits {
        assert buffer[at..cnt] == [];
        ScriptEnds(memory[..], page, offset, answers, calls);
      }
    }

    method WriteLength(offset: u32, left: nat) returns (len: nat)
      ensures len == WriteChunk(page, offset, left)
    {
      hide PowerOfTwo;
      var blkOff := offset % 0x100;
      len := left;
      var maxlen := page - blkOff % page;
      if maxlen > I2C_RXTX_LEN {
        maxlen := I2C_RXTX_LEN;
      }
      if len > maxlen {
        len := maxlen;
      }
    }

    // i2c_read
    method I2cRead(offset: nat, dest: array<byte>, at: nat, len: nat) returns (rc: int)
      requires Valid() && offset < memory.Length && dest != memory && at + len <= dest.Length
      modifies this`calls, dest
      ensures calls == old(calls) + 1 && (rc == 0 <==> answers(old(calls)))
      ensures forall a :: 0 <= a < dest.Length && !(at <= a < at + len && rc == 0) ==> dest[a] == old(dest[a])
      ensures rc == 0 ==> forall a :: at <= a < at + len ==> dest[a] == BusRead(memory[..], block, offset, len)[a - at]
    {
      calls := calls + 1;
      if !answers(calls - 1) {
        return 1;
      }
      hide ChipMemory, ReadBlock, PowerOfTwo, BusRead, PosIn, RingRead;
      ghost var mem := memory[..];
      ghost var all := BusRead(mem, block, offset, len);
      BusReadStarts(mem, block, offset, len);
      var base, pos: nat := offset - PosIn(offset, block), PosIn(offset, block);
      assert all[0..] == all;
      var i := 0;
      while i < len
        modifies dest
        invariant 0 <= i <= len && pos < block
        invariant forall a :: 0 <= a < dest.Length && !(at <= a < at + i) ==> dest[a] == old(dest[a])
        invariant forall a :: at <= a < at + i ==> dest[a] == all[a - at]
        invariant memory[..] == mem && RingRead(mem, block, base, pos, len - i) == all[i..]
      {
        RingReadTail(mem, block, base, pos, all, i);
        dest[at + i] := memory[base + pos];
        pos := if pos + 1 == block then 0 else pos + 1;
        i := i + 1;
      }
      rc := 0;
    }

    // eeprom_read
    method EepromRead(start: u32, buffer: array<byte>, cnt: u32) returns (rcode: int)
      requires Valid() && buffer != memory && cnt <= buffer.Length
      requires start + cnt <= MAX_U32 ==> start + cnt <= memory.Length
      modifies this`calls, buffer
      ensures calls >= old(calls) && (rcode == 0 || rcode == 1)
      ensures rcode == 1 <==> exists i :: old(calls) <= i < calls && !answers(i)
      ensures start + cnt > MAX_U32 ==> calls == old(calls) && buffer[..] == old(buffer[..])
      ensures start + cnt <= MAX_U32 && rcode == 0 ==> buffer[..cnt] == memory[start..start + cnt]
      ensures buffer[cnt..] == old(buffer[cnt..])
    {
      hide PowerOfTwo, ChipMemory, ReadBlock, BusRead, ReadChunk, Wrap;
      EndOfRequest(start, cnt);
      var end := Wrap(start + cnt);
      var offset: u32, at: nat := start, 0;
      rcode := 0;
      ghost var fits := start + cnt <= MAX_U32;
      ghost var first := calls;
      while offset < end
        invariant offset == start + at && at <= (if fits then cnt else 0) && calls >= first
        invariant rcode == 0 || rcode == 1
        invariant rcode == 1 <==> exists i :: first <= i < calls && !answers(i)
        invariant forall a :: (if fits then cnt else 0) <= a < buffer.Length ==> buffer[a] == old(buffer[a])
        invariant !fits ==> calls == first
        invariant fits && rcode == 0 ==> forall a :: 0 <= a < at ==> buffer[a] == memory[start + a]
        decreases end - offset
      {
        var len := ReadLength(offset, end - offset);
        ghost var k := calls;
        BusReadFlat(memory[..], block, offset, end - offset);
        var failed := I2cRead(offset, buffer, at, len);
        if failed != 0 {
          rcode := 1;
        }
        assert fits && rcode == 0 ==> forall a :: at <= a < at + len ==> buffer[a] == memory[start + a];
        at := at + len;
        offset := offset + len;
      }
    }

    method ReadLength(offset: u32, left: nat) returns (len: nat)
      ensures len == ReadChunk(offset, left)
    {
      var blkOff := offset % 0x100;
      len := left;
      var maxlen := 0x100 - blkOff;
      if maxlen > I2C_RXTX_LEN {
        maxlen := I2C_RXTX_LEN;
      }
      if len > maxlen {
        len := maxlen;
      }
    }

    // What has been written without an error is read back.
    method WriteThenRead(start: u32, data: seq<byte>, cnt: u32, back: array<byte>) returns (wrote: int, read: int)
      requires Valid() && KeepsToPages(page, memory.Length)
      requires cnt <= |data| && start + cnt <= memory.Length && start + cnt <= MAX_U32
      requires back != memory && cnt <= back.Length
      modifies this`calls, memory, back
      ensures Valid()
      ensures wrote == 0 ==> memory[..] == Flat(old(memory[..]), start, data[..cnt])
      ensures wrote == 0 && read == 0 ==> back[..cnt] == data[..cnt]
    {
      hide PowerOfTwo, ChipMemory, ReadBlock, WriteRun, WriteScript;
      ghost var before, k := memory[..], calls;
      wrote := EepromWrite(start, data, cnt);
      ScriptReports(before, page, start, data[..cnt], answers, k);
      WriteRunFlat(before, page, start, data[..cnt]);
      read := EepromRead(start, back, cnt);
    }
  }
}
