// Reading blocks from a floppy disk with retries (common/cmd_fdc.c).
//
// The controller answers every byte of a read with data or with an error; which command
// times out, which read fails where, and which seek ends badly is up to the device.

module Fdc {
  import opened Words

  const FDC_RW_RETRIES := 3
  const FDC_CAL_RETRIES := 3

  // The part of FD_GEO_STRUCT that says where a block lies.
  datatype Geometry = Geometry(sect: int, head: int, track: int)

  predicate ValidGeometry(g: Geometry) {
    0 < g.sect < 0x100 && 0 < g.head <= 2 && 0 < g.track <= 0x100
  }

  function Blocks(g: Geometry): int {
    g.sect * g.head * g.track
  }

  // ----- track, head and sector of a block ------------------------------------------------------

  datatype Place = Place(track: int, head: int, sector: int)

  predicate OnDisk(g: Geometry, p: Place) {
    0 <= p.track < g.track && 0 <= p.head < g.head && 1 <= p.sector <= g.sect
  }

  // fdc_issue_cmd
  function Split(g: Geometry, blnr: int): Place
    requires ValidGeometry(g)
  {
    var rest := blnr % (g.sect * g.head);
    Place(blnr / (g.sect * g.head), rest / g.sect, rest % g.sect + 1)
  }

  // Blocks are numbered through the sectors of a side, the sides of a track, the tracks.
  function Join(g: Geometry, p: Place): int {
    (p.track * g.head + p.head) * g.sect + p.sector - 1
  }

  lemma DivModUnique(x: int, m: int, q: int, r: int)
    requires 0 <= r < m && x == m * q + r
    ensures x % m == r && x / m == q
  {
    ModUnique(x, m, q, r);
    var d := x / m - q;
    assert m * d == 0;
    assert d >= 1 ==> m * d >= m;
    assert d <= -1 ==> m * d <= -m;
  }

  lemma DivBound(x: int, m: int, n: int)
    requires 0 <= x < m * n && m > 0
    ensures 0 <= x / m < n && 0 <= x % m < m && x == m * (x / m) + x % m
  {
    var q := x / m;
    if q >= n {
      Scaled(m, n, q);
    }
    if q < 0 {
      Scaled(m, q, -1);
    }
  }

  // The number of a place is a sum of whole tracks, whole sides and sectors.
  lemma JoinSums(g: Geometry, p: Place)
    ensures Join(g, p) == g.sect * g.head * p.track + (g.sect * p.head + p.sector - 1)
    ensures Join(g, p) == g.sect * (p.track * g.head + p.head) + (p.sector - 1)
  {
    assert p.track * g.head * g.sect == g.sect * g.head * p.track;
    assert (p.track * g.head + p.head) * g.sect == p.track * g.head * g.sect + p.head * g.sect;
  }

  // The split puts every block on the disk at its own place, and every place holds a block.
  lemma SplitOnDisk(g: Geometry, blnr: int)
    requires ValidGeometry(g) && 0 <= blnr < Blocks(g)
    ensures OnDisk(g, Split(g, blnr)) && Join(g, Split(g, blnr)) == blnr
    ensures Split(g, blnr).sector - 1 == blnr % g.sect
  {
    var c, p := g.sect * g.head, Split(g, blnr);
    Scaled(g.sect, 1, g.head);
    hide Join;
    DivBound(blnr, c, g.track);
    DivBound(blnr % c, g.sect, g.head);
    JoinSums(g, p);
    ModUnique(blnr, g.sect, p.track * g.head + p.head, p.sector - 1);
  }

  lemma JoinOnDisk(g: Geometry, p: Place)
    requires ValidGeometry(g) && OnDisk(g, p)
    ensures 0 <= Join(g, p) < Blocks(g) && Split(g, Join(g, p)) == p
  {
    var c := g.sect * g.head;
    var rest := g.sect * p.head + p.sector - 1;
    hide Join;
    JoinSums(g, p);
    SumBound(g.sect, g.head, p.head, p.sector - 1);
    SumBound(c, g.track, p.track, rest);
    DivModUnique(Join(g, p), c, p.track, rest);
    DivModUnique(rest, g.sect, p.head, p.sector - 1);
  }

  // The place behind a place: the next sector, or the first of the next side, or of the next
  // track.
  function Next(g: Geometry, p: Place): Place {
    if p.sector < g.sect then Place(p.track, p.head, p.sector + 1)
    else if p.head + 1 < g.head then Place(p.track, p.head + 1, 1)
    else Place(p.track + 1, 0, 1)
  }

  lemma NextJoins(g: Geometry, p: Place)
    requires ValidGeometry(g) && OnDisk(g, p)
    ensures Join(g, Next(g, p)) == Join(g, p) + 1
  {
    if p.sector == g.sect && p.head + 1 < g.head {
      assert (p.track * g.head + (p.head + 1)) * g.sect == (p.track * g.head + p.head) * g.sect + g.sect;
    } else if p.sector == g.sect {
      assert (p.track + 1) * g.head == p.track * g.head + p.head + 1;
      assert (p.track * g.head + p.head + 1) * g.sect == (p.track * g.head + p.head) * g.sect + g.sect;
    }
  }

  // The blocks lie on the disk one behind the other, from the first sector on.
  lemma SplitFollows(g: Geometry, blnr: int)
    requires ValidGeometry(g) && 0 <= blnr && blnr + 1 < Blocks(g)
    ensures Split(g, 0) == Place(0, 0, 1)
    ensures Split(g, blnr + 1) == Next(g, Split(g, blnr))
  {
    FirstPlace(g);
    var p := Split(g, blnr);
    SplitOnDisk(g, blnr);
    NextJoins(g, p);
    hide Split;
    if p.sector == g.sect && p.head + 1 == g.head && p.track + 1 == g.track {
      LastPlace(g, p);
    }
    hide Join, Blocks;
    JoinOnDisk(g, Next(g, p));
  }

  lemma FirstPlace(g: Geometry)
    requires ValidGeometry(g)
    ensures Split(g, 0) == Place(0, 0, 1)
  {
    assert OnDisk(g, Place(0, 0, 1)) && Join(g, Place(0, 0, 1)) == 0;
    JoinOnDisk(g, Place(0, 0, 1));
  }

  lemma LastPlace(g: Geometry, p: Place)
    requires ValidGeometry(g) && p == Place(g.track - 1, g.head - 1, g.sect)
    ensures Join(g, p) == Blocks(g) - 1
  {
    assert (g.track - 1) * g.head + (g.head - 1) == g.track * g.head - 1;
    assert (g.track * g.head - 1) * g.sect == g.track * g.head * g.sect - g.sect;
    assert g.track * g.head * g.sect == g.sect * g.head * g.track;
  }

  lemma SumBound(m: int, n: int, q: int, r: int)
    requires 0 <= q < n && 0 <= r < m
    ensures 0 <= m * q + r < m * n
  {
    Scaled(m, q + 1, n);
    Scaled(m, 0, q);
  }

  // ----- the transfer -----------------------------------------------------------------------------

  // What the driver and the controller do during a request.
  datatype Event =
    | CommandTimeout
    | SeekError
    | Read(place: Place, blocks: int, failed: bool)

  predicate Trouble(log: seq<Event>) {
    exists i :: 0 <= i < |log| && !log[i].Read?
  }

  // Number of reads that broke off.
  function ReadErrors(log: seq<Event>): (n: nat)
    ensures n <= |log|
  {
    if log == [] then 0
    else
      var last := log[|log| - 1];
      ReadErrors(log[..|log| - 1]) + if last.Read? && last.failed then 1 else 0
  }

  // A read stays on one side of one track.
  predicate OnOneSide(g: Geometry, e: Event) {
    e.Read? ==> OnDisk(g, e.place) && e.place.sector - 1 + e.blocks <= g.sect
  }

  predicate AllOnOneSide(g: Geometry, log: seq<Event>) {
    forall i :: 0 <= i < |log| ==> OnOneSide(g, log[i])
  }

  lemma LogGrows(g: Geometry, log: seq<Event>, e: Event)
    ensures ReadErrors(log + [e]) == ReadErrors(log) + if e.Read? && e.failed then 1 else 0
    ensures Trouble(log + [e]) <==> Trouble(log) || !e.Read?
    ensures AllOnOneSide(g, log) && (e.Read? ==> OnOneSide(g, e)) ==> AllOnOneSide(g, log + [e])
  {
    assert !e.Read? ==> OnOneSide(g, e);
    hide OnOneSide;
    var all := log + [e];
    assert all[..|all| - 1] == log && all[|log|] == e;
    if Trouble(log) {
      var i :| 0 <= i < |log| && !log[i].Read?;
      assert !all[i].Read?;
    }
  }

  // Number of blocks up to the end of the side.
  function SideRest(blnr: int, sect: int): int
    requires sect > 0
  {
    sect - blnr % sect
  }

  // Behind the rest of a side the next side begins.
  lemma NextSide(blnr: int, sect: int)
    requires sect > 0
    ensures 0 < SideRest(blnr, sect) <= sect
    ensures SideRest(blnr + SideRest(blnr, sect), sect) == sect
  {
    ModUnique(blnr + SideRest(blnr, sect), sect, blnr / sect + 1, 0);
  }

  // Bytes in n blocks.
  function Span(sectSize: nat, n: int): (s: int)
    ensures n >= 0 ==> s >= 0
  {
    Scaled(sectSize, 0, if n >= 0 then n else 0);
    sectSize * n
  }

  lemma SpanSums(m: nat, a: int, b: int)
    ensures Span(m, a + b) == Span(m, a) + Span(m, b)
    ensures Span(m, 0) == 0
  {
  }

  // The bytes of the buffer from `offset` on are those of the disk from `start` on.
  predicate Delivered(buffer: seq<byte>, disk: seq<byte>, start: int, offset: nat, len: nat) {
    && 0 <= start && start + len <= |disk| && offset + len <= |buffer|
    && forall k :: offset <= k < offset + len ==> buffer[k] == disk[start - offset + k]
  }

  class Drive {
    const geo: Geometry
    const sectSize: nat
    const disk: seq<byte>
    const accepts: nat -> bool            // is the n-th command taken within the time limit?
    const breaks: nat -> Option<nat>      // where the n-th command, a read, breaks off
    const noise: (nat, nat) -> byte       // what a read that breaks off delivers before
    const arrives: nat -> bool            // does the seek sensed by the n-th command end well?
    var commands: nat
    var blnr: int
    var place: Place                      // the track, head and sector registers

    constructor (geo: Geometry, sectSize: nat, disk: seq<byte>, accepts: nat -> bool,
                 breaks: nat -> Option<nat>, noise: (nat, nat) -> byte, arrives: nat -> bool, blnr: int)
      requires ValidGeometry(geo) && |disk| == Span(sectSize, Blocks(geo)) && blnr >= 0
      ensures Valid() && this.blnr == blnr && this.disk == disk && this.geo == geo && this.sectSize == sectSize
    {
      this.geo, this.sectSize, this.disk := geo, sectSize, disk;
      this.accepts, this.breaks, this.noise, this.arrives := accepts, breaks, noise, arrives;
      this.commands, this.blnr, this.place := 0, blnr, Place(0, 0, 1);
    }

    ghost predicate Valid()
      reads this
    {
      ValidGeometry(geo) && |disk| == Span(sectSize, Blocks(geo)) && blnr >= 0
    }

    // fdc_issue_cmd: the registers are set from the block number for every command.
    method IssueCmd() returns (ok: bool)
      requires Valid()
      modifies this`commands, this`place
      ensures place == Split(geo, blnr) && commands == old(commands) + 1
      ensures ok == accepts(old(commands))
    {
      var track := blnr / (geo.sect * geo.head);
      var sect := blnr % (geo.sect * geo.head);
      var head := sect / geo.sect;
      sect := sect % geo.sect;
      sect := sect + 1;
      place := Place(track, head, sect);
      commands := commands + 1;
      ok := accepts(commands - 1);
    }

    // fdc_seek; fdc_recalibrate issues its two commands in the same way.
    method Seek() returns (ok: bool)
      requires Valid()
      modifies this`commands, this`place
      ensures ok ==> commands > old(commands)
    {
      ok := IssueCmd();
      if ok {
        ok := IssueCmd();
      }
    }

    // The loop over the bytes of one read, which the controller serves from its registers.
    method TransferBytes(buffer: array<byte>, offset: nat, len: nat) returns (complete: bool)
      requires Valid() && commands > 0 && OnDisk(geo, place)
      requires offset + len <= buffer.Length && Span(sectSize, Join(geo, place)) + len <= |disk|
      requires Span(sectSize, Join(geo, place)) >= 0
      modifies buffer
      ensures complete ==> forall k :: offset <= k < offset + len ==>
        buffer[k] == disk[Span(sectSize, Join(geo, place)) + k - offset]
      ensures forall k :: 0 <= k < buffer.Length && !(offset <= k < offset + len) ==> buffer[k] == old(buffer[k])
    {
      var n, from := commands - 1, Span(sectSize, Join(geo, place));
      var broken := breaks(n).Some? && breaks(n).value < len;
      var i := 0;
      while i < len
        modifies buffer
        invariant i <= len && (broken ==> i <= breaks(n).value)
        invariant !broken ==> forall k :: offset <= k < offset + i ==> buffer[k] == disk[from + k - offset]
        invariant forall k :: 0 <= k < buffer.Length && !(offset <= k < offset + len) ==> buffer[k] == old(buffer[k])
      {
        if breaks(n) == Some(i) {
          return false;
        }
        buffer[offset + i] := if broken then noise(n, i) else disk[from + i];
        i := i + 1;
      }
      complete := true;
    }

    // One read command of `readblk` blocks at the current block number.
    method ReadBlocks(buffer: array<byte>, offset: nat, readblk: nat) returns (event: Event)
      requires Valid() && blnr < Blocks(geo) && readblk <= SideRest(blnr, geo.sect)
      requires blnr + readblk <= Blocks(geo) && offset + Span(sectSize, readblk) <= buffer.Length
      modifies this`commands, this`place, buffer
      ensures event.SeekError? == false && OnOneSide(geo, event)
      ensures event.Read? ==> event.place == Split(geo, blnr) && event.blocks == readblk
      ensures event.Read? && !event.failed ==>
        Delivered(buffer[..], disk, Span(sectSize, blnr), offset, Span(sectSize, readblk))
      ensures forall k :: 0 <= k < buffer.Length && !(offset <= k < offset + Span(sectSize, readblk)) ==>
        buffer[k] == old(buffer[k])
    {
      var len := Span(sectSize, readblk);
      var issued := IssueCmd();
      if !issued {
        return CommandTimeout;
      }
      SplitOnDisk(geo, blnr);
      SpanSums(sectSize, blnr, readblk);
      SpanSums(sectSize, blnr + readblk, Blocks(geo) - blnr - readblk);
      SpanSums(sectSize, 0, blnr);
      hide Join, Split, Blocks, Span;
      var complete := TransferBytes(buffer, offset, len);
      event := Read(place, readblk, !complete);
    }

    // fdc_read_data.  `log` lists the reads and what went wrong.
    method ReadData(buffer: array<byte>, count: nat) returns (ok: bool, log: seq<Event>)
      requires Valid() && blnr < Blocks(geo) && blnr + count <= Blocks(geo) && Span(sectSize, count) <= buffer.Length
      modifies this, buffer
      ensures AllOnOneSide(geo, log)
      ensures ok <==> !Trouble(log) && ReadErrors(log) < 25
      ensures ok ==> blnr == old(blnr) + count
      ensures ok ==> Delivered(buffer[..], disk, Span(sectSize, old(blnr)), 0, Span(sectSize, count))
      ensures forall k :: Span(sectSize, count) <= k < buffer.Length ==> buffer[k] == old(buffer[k])
    {
      hide Trouble, ReadErrors, AllOnOneSide, OnOneSide, Split, Blocks, Delivered, Span, SideRest;
      ok, log := false, [];
      EmptyLog(geo);
      var retriesrw, retriescal, offset := 0, 0, 0;
      var failure := SeekTrack();
      if failure.Some? {
        LogGrows(geo, log, failure.value);
        log := log + [failure.value];
        return;
      }
      ghost var start := blnr;
      var blocks := count;
      var readblk := SideRest(blnr, geo.sect);
      NextSide(blnr, geo.sect);
      if readblk > blocks {
        readblk := blocks;
      }
      NothingDelivered(buffer[..], disk, sectSize, start, geo);
      SpanSums(sectSize, 0, 0);
      while true
        invariant Valid() && 0 <= blocks <= count && blnr == start + count - blocks && blnr < Blocks(geo)
        invariant readblk == Least(SideRest(blnr, geo.sect), blocks) && readblk >= 0 && (blocks > 0 ==> readblk > 0)
        invariant offset == Span(sectSize, count - blocks)
        invariant Delivered(buffer[..], disk, Span(sectSize, start), 0, offset)
        invariant forall k :: Span(sectSize, count) <= k < buffer.Length ==> buffer[k] == old(buffer[k])
        invariant AllOnOneSide(geo, log) && !Trouble(log)
        invariant 0 <= retriesrw <= FDC_RW_RETRIES + 1 && 0 <= retriescal <= FDC_CAL_RETRIES + 1
        invariant ReadErrors(log) == 5 * retriescal + retriesrw
        decreases blocks, FDC_CAL_RETRIES + 1 - retriescal, FDC_RW_RETRIES + 1 - retriesrw
      {
        SpanSums(sectSize, count - blocks, readblk);
        SpanSums(sectSize, count - blocks + readblk, blocks - readblk);
        ghost var before := buffer[..];
        var event := ReadBlocks(buffer, offset, readblk);
        LogGrows(geo, log, event);
        log := log + [event];
        if event.CommandTimeout? {
          return;
        }
        DeliveredKept(before, buffer[..], disk, Span(sectSize, start), offset);
        if event.failed {
          retriesrw := retriesrw + 1;
          if retriesrw - 1 > FDC_RW_RETRIES {
            retriescal := retriescal + 1;
            if retriescal - 1 > FDC_CAL_RETRIES {
              return;
            }
            var calibrated := Seek();
            if !calibrated {
              LogGrows(geo, log, CommandTimeout);
              log := log + [CommandTimeout];
              return;
            }
            retriesrw := 0;
          } else {
            continue;
          }
        } else {
          SpanSums(sectSize, start, count - blocks);
          DeliveredMore(buffer[..], disk, Span(sectSize, start), offset, Span(sectSize, readblk));
          NextSide(blnr, geo.sect);
          offset := offset + Span(sectSize, readblk);
          blnr := blnr + readblk;
          blocks := blocks - readblk;
          if blocks == 0 {
            break;
          }
          readblk := geo.sect;
          if readblk > blocks {
            readblk := blocks;
          }
          NextSide(blnr, geo.sect);
        }
        failure := SeekTrack();
        if failure.Some? {
          LogGrows(geo, log, failure.value);
          log := log + [failure.value];
          return;
        }
      }
      ok := true;
    }

    // A seek and the check of its status.
    method SeekTrack() returns (failure: Option<Event>)
      requires Valid()
      modifies this`commands, this`place
      ensures failure.Some? ==> failure.value == CommandTimeout || failure.value == SeekError
    {
      var sought := Seek();
      if !sought {
        return Some(CommandTimeout);
      }
      failure := if arrives(commands - 1) then None else Some(SeekError);
    }
  }

  lemma NothingDelivered(buffer: seq<byte>, disk: seq<byte>, sectSize: nat, blnr: int, g: Geometry)
    requires |disk| == Span(sectSize, Blocks(g)) && 0 <= blnr <= Blocks(g)
    ensures Delivered(buffer, disk, Span(sectSize, blnr), 0, 0)
  {
    SpanSums(sectSize, blnr, Blocks(g) - blnr);
    SpanSums(sectSize, 0, blnr);
  }

  lemma DeliveredKept(before: seq<byte>, buffer: seq<byte>, disk: seq<byte>, start: int, len: nat)
    requires Delivered(before, disk, start, 0, len) && |before| == |buffer|
    requires forall k :: 0 <= k < len ==> buffer[k] == before[k]
    ensures Delivered(buffer, disk, start, 0, len)
  {
  }

  lemma DeliveredMore(buffer: seq<byte>, disk: seq<byte>, start: int, offset: nat, len: nat)
    requires Delivered(buffer, disk, start, 0, offset) && Delivered(buffer, disk, start + offset, offset, len)
    ensures Delivered(buffer, disk, start, 0, offset + len)
  {
  }

  lemma EmptyLog(g: Geometry)
    ensures AllOnOneSide(g, []) && !Trouble([]) && ReadErrors([]) == 0
  {
  }
}
