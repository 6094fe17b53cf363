// The alternate RAM test of `mtest` on a memory with faults (common/cmd_mem.c).
//
// An offset reaches a storage cell through the address wiring, which may send several
// offsets to one cell; a cell may have bits stuck at a value.

module MemTest {
  import opened Words

  // ----- stuck bits --------------------------------------------------------------------------

  // The bits of a cell, lowest first: None works, Some(b) is stuck at b.
  type Cell = seq<Option<bool>>

  function BitOf(x: int): bool {
    x % 2 == 1
  }

  // What a cell returns after x has been written to it.
  function Sense(cell: Cell, x: nat): nat {
    if cell == [] then 0
    else (if cell[0].UnwrapOr(BitOf(x)) then 1 else 0) + 2 * Sense(cell[1..], x / 2)
  }

  // The stuck bits have the values of x.
  predicate Agrees(cell: Cell, x: nat) {
    cell == [] || (cell[0].UnwrapOr(BitOf(x)) == BitOf(x) && Agrees(cell[1..], x / 2))
  }

  predicate Healthy(cell: Cell) {
    cell == [] || (cell[0].None? && Healthy(cell[1..]))
  }

  predicate AllStuck(cell: Cell) {
    cell == [] || (cell[0].Some? && AllStuck(cell[1..]))
  }

  // All n bits set; Ones(n) - x has the bits of x inverted.
  function Ones(n: nat): nat {
    if n == 0 then 0 else 2 * Ones(n - 1) + 1
  }

  lemma {:induction false} SenseIff(cell: Cell, x: nat, p: nat)
    requires p <= Ones(|cell|)
    ensures Sense(cell, x) == p ==> Agrees(cell, p)
    ensures x == p && Agrees(cell, p) ==> Sense(cell, x) == p
    ensures x == p && Healthy(cell) ==> Sense(cell, x) == p
    ensures AllStuck(cell) && Agrees(cell, p) ==> Sense(cell, x) == p
  {
    if cell != [] {
      SenseIff(cell[1..], x / 2, p / 2);
    }
  }

  lemma {:induction false} Inverted(cell: Cell, p: nat)
    requires p <= Ones(|cell|)
    ensures Agrees(cell, p) && Agrees(cell, Ones(|cell|) - p) ==> Healthy(cell)
    ensures Sense(cell, Ones(|cell|) - p) == p ==> AllStuck(cell)
  {
    if cell != [] {
      assert (Ones(|cell|) - p) / 2 == Ones(|cell| - 1) - p / 2;
      assert BitOf(Ones(|cell|) - p) == !BitOf(p);
      Inverted(cell[1..], p / 2);
    }
  }

  lemma Ones32()
    ensures Ones(32) == MAX_U32
  {
    assert Ones(8) == 0xFF;
    assert Ones(16) == 0xFFFF;
    assert Ones(24) == 0xFF_FFFF;
  }

  // ----- the memory ----------------------------------------------------------------------------

  const PATTERN: u32 := 0xAAAA_AAAA
  const ANTI_PATTERN: u32 := 0x5555_5555

  // More words than a region of 32-bit addresses has.
  const REGION := 0x4000_0001

  function Invert(x: u32): u32 {
    MAX_U32 - x
  }

  // The memory as it is wired and built.
  datatype Board = Board(wiring: seq<nat>, faults: seq<Cell>)

  ghost predicate ValidBoard(b: Board) {
    && (forall k :: 0 <= k < |b.wiring| ==> b.wiring[k] < |b.faults|)
    && (forall c :: 0 <= c < |b.faults| ==> |b.faults[c]| == 32)
  }

  predicate Shared(b: Board, k: nat, l: nat)
    requires k < |b.wiring| && l < |b.wiring|
  {
    b.wiring[k] == b.wiring[l]
  }

  function CellOf(b: Board, k: nat): Cell
    requires ValidBoard(b) && k < |b.wiring|
  {
    b.faults[b.wiring[k]]
  }

  lemma SenseWord(cell: Cell, x: u32, p: u32)
    requires |cell| == 32
    ensures Sense(cell, x) == p ==> Agrees(cell, p)
    ensures x == p && Agrees(cell, p) ==> Sense(cell, x) == p
    ensures x == p && Healthy(cell) ==> Sense(cell, x) == p
    ensures AllStuck(cell) && Agrees(cell, p) ==> Sense(cell, x) == p
    ensures Agrees(cell, p) && Agrees(cell, Invert(p)) ==> Healthy(cell)
    ensures x == Invert(p) && Sense(cell, x) == p ==> AllStuck(cell)
  {
    Ones32();
    SenseIff(cell, x, p);
    Inverted(cell, p);
  }

  // No stuck bit in a cell of the region, and no cell reached twice.
  ghost predicate Faultless(b: Board, n: nat)
    requires ValidBoard(b) && n <= |b.wiring|
  {
    && (forall k :: 0 <= k < n ==> Healthy(CellOf(b, k)))
    && (forall k, l :: 0 <= k < n && 0 <= l < n && k != l ==> !Shared(b, k, l))
  }

  // Between a power of two and the next one there is no other.
  lemma {:induction false} NoPowerBetween(p: int, o: int)
    requires PowerOfTwo(p) && PowerOfTwo(o) && p <= o < 2 * p
    ensures o == p
  {
    if p > 1 {
      NoPowerBetween(p / 2, o / 2);
    }
  }

  lemma PowerNext(p: nat)
    requires PowerOfTwo(p)
    ensures p > 0 && PowerOfTwo(p * 2)
    ensures forall o :: PowerOfTwo(o) && o < p * 2 ==> o < p || o == p
  {
    forall o | PowerOfTwo(o) && p <= o < p * 2
      ensures o == p
    {
      NoPowerBetween(p, o);
    }
  }

  // A write of the anti-pattern at t leaves the pattern at o: another cell that can hold it,
  // or a cell that holds nothing else.
  predicate Undisturbed(b: Board, t: nat, o: nat)
    requires t < |b.wiring| && o < |b.wiring|
    requires b.wiring[o] < |b.faults|
  {
    var cell := b.faults[b.wiring[o]];
    Agrees(cell, PATTERN) && (Shared(b, t, o) ==> AllStuck(cell))
  }

  // Offset 0 and the power-of-two offsets do not disturb one another.
  ghost predicate AddressesApart(b: Board, len: nat)
    requires ValidBoard(b) && len <= |b.wiring|
  {
    forall t, o :: (t == 0 || PowerOfTwo(t)) && t < len && PowerOfTwo(o) && o < len && o != t ==> Undisturbed(b, t, o)
  }

  // With working cells: offset 0 and all power-of-two offsets reach different cells.
  ghost predicate PowersApart(b: Board, len: nat)
    requires ValidBoard(b) && len <= |b.wiring|
  {
    forall t, o :: (t == 0 || PowerOfTwo(t)) && t < len && PowerOfTwo(o) && o < len && o != t ==> !Shared(b, t, o)
  }

  lemma {:induction false} HealthyHolds(cell: Cell, x: nat)
    requires Healthy(cell)
    ensures Agrees(cell, x) && (cell != [] ==> !AllStuck(cell))
  {
    if cell != [] {
      HealthyHolds(cell[1..], x / 2);
    }
  }

  // On working cells the address test looks for aliasing alone.
  lemma AliasingAlone(b: Board, len: nat)
    requires ValidBoard(b) && len <= |b.wiring|
    requires forall o :: PowerOfTwo(o) && o < len ==> Healthy(CellOf(b, o))
    ensures AddressesApart(b, len) <==> PowersApart(b, len)
  {
    hide Agrees, AllStuck, Healthy;
    forall t, o | (t == 0 || PowerOfTwo(t)) && t < len && PowerOfTwo(o) && o < len && o != t
      ensures Undisturbed(b, t, o) <==> !Shared(b, t, o)
    {
      HealthyHolds(CellOf(b, o), PATTERN);
    }
  }

  // The second test covers what the first one looks for.
  lemma FaultlessApart(b: Board, len: nat)
    requires ValidBoard(b) && len < |b.wiring| && Faultless(b, len + 1)
    ensures AddressesApart(b, len)
  {
    hide Agrees, AllStuck, Healthy;
    AliasingAlone(b, len);
  }

  class Ram {
    const board: Board
    const cells: array<u32>

    constructor (board: Board, cells: array<u32>)
      requires ValidBoard(board) && cells.Length == |board.faults|
      ensures Valid() && this.board == board && this.cells == cells
    {
      this.board, this.cells := board, cells;
    }

    ghost predicate Valid() {
      ValidBoard(board) && cells.Length == |board.faults|
    }

    function Stored(k: nat): u32
      requires Valid() && k < |board.wiring|
      reads cells
    {
      cells[board.wiring[k]]
    }

    // start[k] = x
    method Write(k: nat, x: u32)
      requires Valid() && k < |board.wiring|
      modifies cells
      ensures forall l :: 0 <= l < |board.wiring| ==>
        Stored(l) == if Shared(board, k, l) then x else old(Stored(l))
    {
      cells[board.wiring[k]] := x;
    }

    // The value of start[k].
    method Read(k: nat) returns (x: nat)
      requires Valid() && k < |board.wiring|
      ensures x == Sense(CellOf(board, k), Stored(k))
    {
      x := Sense(CellOf(board, k), cells[board.wiring[k]]);
    }

    // ----- the increment/invert test -----------------------------------------------------------

    // Every word gets its own pattern; a word that shares its cell with a later one loses it.
    method FillPatterns(numWords: nat)
      requires Valid() && numWords <= |board.wiring| && numWords < REGION
      modifies cells
      ensures Faultless(board, numWords) ==> forall k :: 0 <= k < numWords ==> Stored(k) == k + 1
      ensures forall k, l :: 0 <= k < l < numWords && Shared(board, k, l) ==> Stored(k) != k + 1
    {
      var pattern: u32, offset: nat := 1, 0;
      while offset < numWords
        invariant offset <= numWords && pattern == offset + 1
        invariant Faultless(board, numWords) ==> forall k :: 0 <= k < offset ==> Stored(k) == k + 1
        invariant forall k, l :: 0 <= k < l < offset && Shared(board, k, l) ==> Stored(k) != k + 1
      {
        Write(offset, pattern);
        pattern, offset := pattern + 1, offset + 1;
      }
    }

    // Checks each word and inverts it.
    method CheckAndInvert(numWords: nat) returns (ok: bool)
      requires Valid() && numWords <= |board.wiring| && numWords < REGION
      requires Faultless(board, numWords) ==> forall k :: 0 <= k < numWords ==> Stored(k) == k + 1
      requires forall k, l :: 0 <= k < l < numWords && Shared(board, k, l) ==> Stored(k) != k + 1
      modifies cells
      ensures Faultless(board, numWords) ==> ok && forall k :: 0 <= k < numWords ==> Stored(k) == Invert(k + 1)
      ensures ok ==> forall k :: 0 <= k < numWords ==> Agrees(CellOf(board, k), k + 1)
      ensures ok ==> forall k, l :: 0 <= k < l < numWords && Shared(board, k, l) ==> !Healthy(CellOf(board, k))
    {
      hide Sense, Agrees, Healthy;
      var pattern: u32, offset: nat := 1, 0;
      while offset < numWords
        invariant offset <= numWords && pattern == offset + 1
        invariant Faultless(board, numWords) ==> forall k :: 0 <= k < offset ==> Stored(k) == Invert(k + 1)
        invariant Faultless(board, numWords) ==> forall k :: offset <= k < numWords ==> Stored(k) == k + 1
        invariant forall k, l :: offset <= k < l < numWords && Shared(board, k, l) ==> Stored(k) != k + 1
        invariant forall k :: 0 <= k < offset ==> Agrees(CellOf(board, k), k + 1)
        invariant forall k, l :: 0 <= k < offset && k < l < numWords && Shared(board, k, l) ==> !Healthy(CellOf(board, k))
      {
        var temp := Read(offset);
        SenseWord(CellOf(board, offset), Stored(offset), pattern);
        SenseWord(CellOf(board, offset), Stored(offset), Stored(offset));
        if temp != pattern {
          return false;
        }
        var antiPattern := Invert(pattern);
        Write(offset, antiPattern);
        pattern, offset := pattern + 1, offset + 1;
      }
      ok := true;
    }

    // Checks each word for the inverted pattern and clears it.
    method CheckAndClear(numWords: nat) returns (ok: bool)
      requires Valid() && numWords <= |board.wiring| && numWords < REGION
      requires Faultless(board, numWords) ==> forall k :: 0 <= k < numWords ==> Stored(k) == Invert(k + 1)
      modifies cells
      ensures Faultless(board, numWords) ==> ok
      ensures ok ==> forall k :: 0 <= k < numWords ==> Agrees(CellOf(board, k), Invert(k + 1)) && Stored(k) == 0
    {
      hide Sense, Agrees, Healthy;
      var pattern: u32, offset: nat := 1, 0;
      while offset < numWords
        invariant offset <= numWords && pattern == offset + 1
        invariant Faultless(board, numWords) ==> forall k :: offset <= k < numWords ==> Stored(k) == Invert(k + 1)
        invariant forall k :: 0 <= k < offset ==> Agrees(CellOf(board, k), Invert(k + 1)) && Stored(k) == 0
      {
        var antiPattern := Invert(pattern);
        var temp := Read(offset);
        SenseWord(CellOf(board, offset), Stored(offset), antiPattern);
        if temp != antiPattern {
          return false;
        }
        Write(offset, 0);
        pattern, offset := pattern + 1, offset + 1;
      }
      ok := true;
    }

    // The test finds every fault of the model and nothing else, and leaves the region zero.
    method IncrementInvertTest(numWords: nat) returns (ok: bool)
      requires Valid() && numWords <= |board.wiring| && numWords < REGION
      modifies cells
      ensures ok <==> Faultless(board, numWords)
      ensures ok ==> forall k :: 0 <= k < numWords ==> Stored(k) == 0
    {
      hide Sense, Agrees, Healthy;
      FillPatterns(numWords);
      ok := CheckAndInvert(numWords);
      if ok {
        ok := CheckAndClear(numWords);
        forall k | 0 <= k < numWords && ok
          ensures Healthy(CellOf(board, k))
        {
          SenseWord(CellOf(board, k), k + 1, k + 1);
        }
        forall k, l | 0 <= k < numWords && 0 <= l < numWords && k != l && ok
          ensures !Shared(board, k, l)
        {
          assert Shared(board, k, l) == Shared(board, l, k);
          assert Healthy(CellOf(board, k)) && Healthy(CellOf(board, l));
        }
      }
    }

    // ----- the address line test ------------------------------------------------------------------

    // Writes the pattern to every power-of-two offset.
    method WritePowers(len: nat)
      requires Valid() && len <= |board.wiring|
      modifies cells
      ensures forall o :: PowerOfTwo(o) && o < len ==> Stored(o) == PATTERN
    {
      var offset := 1;
      while offset < len
        invariant PowerOfTwo(offset)
        invariant forall o :: PowerOfTwo(o) && o < offset && o < len ==> Stored(o) == PATTERN
      {
        Write(offset, PATTERN);
        PowerNext(offset);
        offset := offset * 2;
      }
    }

    // Do all power-of-two offsets other than `except` read back the pattern?
    method ReadPowers(len: nat, except: nat) returns (ok: bool)
      requires Valid() && len <= |board.wiring|
      ensures ok <==> forall o :: PowerOfTwo(o) && o < len && o != except ==> ReadsPattern(o)
    {
      hide Sense;
      var offset := 1;
      while offset < len
        invariant PowerOfTwo(offset)
        invariant forall o :: PowerOfTwo(o) && o < offset && o < len && o != except ==> ReadsPattern(o)
      {
        var temp := Read(offset);
        if temp != PATTERN && offset != except {
          assert !ReadsPattern(offset);
          return false;
        }
        PowerNext(offset);
        offset := offset * 2;
      }
      ok := true;
    }

    ghost predicate ReadsPattern(o: nat)
      requires Valid() && o < |board.wiring|
      reads cells
    {
      Sense(CellOf(board, o), Stored(o)) == PATTERN
    }

    // One anti-pattern among the patterns: which words show it?
    method Disturb(len: nat, at: nat) returns (ok: bool)
      requires Valid() && len <= |board.wiring| && at < |board.wiring| && (at == 0 || PowerOfTwo(at))
      requires forall o :: PowerOfTwo(o) && o < len ==> Stored(o) == PATTERN
      modifies cells
      ensures ok <==> forall o :: PowerOfTwo(o) && o < len && o != at ==> Undisturbed(board, at, o)
      ensures ok ==> forall o :: PowerOfTwo(o) && o < len ==> Stored(o) == PATTERN
    {
      hide Sense, Agrees, AllStuck;
      Write(at, ANTI_PATTERN);
      forall o | PowerOfTwo(o) && o < len && o != at
        ensures ReadsPattern(o) <==> Undisturbed(board, at, o)
      {
        SenseWord(CellOf(board, o), Stored(o), PATTERN);
        assert Invert(PATTERN) == ANTI_PATTERN;
      }
      ok := ReadPowers(len, at);
      Write(at, PATTERN);
    }

    method AddressTest(len: nat) returns (ok: bool)
      requires Valid() && len <= |board.wiring| && board.wiring != []
      modifies cells
      ensures ok <==> AddressesApart(board, len)
    {
      hide Undisturbed;
      WritePowers(len);
      ok := Disturb(len, 0);
      if !ok {
        return;
      }
      var testOffset := 1;
      while testOffset < len
        invariant PowerOfTwo(testOffset)
        invariant forall o :: PowerOfTwo(o) && o < len ==> Stored(o) == PATTERN
        invariant forall t, o :: (t == 0 || (PowerOfTwo(t) && t < testOffset)) && t < len && PowerOfTwo(o) && o < len && o != t ==>
          Undisturbed(board, t, o)
      {
        ok := Disturb(len, testOffset);
        if !ok {
          return;
        }
        PowerNext(testOffset);
        testOffset := testOffset * 2;
      }
    }

    // The address line test and the increment/invert test of one iteration.
    method TestPass(start: u32, end: u32) returns (ok: bool)
      requires Valid() && Minus(end, start) / 4 < |board.wiring|
      modifies cells
      ensures ok <==> Faultless(board, Minus(end, start) / 4 + 1)
    {
      var len := Minus(end, start) / 4;
      ok := AddressTest(len);
      if ok {
        ok := IncrementInvertTest(len + 1);
      }
      if Faultless(board, len + 1) {
        FaultlessApart(board, len);
      }
    }
  }
}
