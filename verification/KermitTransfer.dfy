// A whole transfer to k_recv (common/cmd_load.c): from the characters on the line to the file
// in memory.

module KermitTransfer {
  import opened Words
  import opened KermitCode
  import opened KermitPacket
  import opened KermitReceiver
  import opened KermitEarly

  // ----- the line -----------------------------------------------------------------------------

  // Noise, a START_CHAR, the characters of a packet, and what k_recv makes of them.
  datatype Item = Item(noise: seq<byte>, chars: seq<byte>, attempt: Attempt)

  // Whatever follows, k_recv reads these characters as this attempt and takes no others.
  ghost predicate Delivers(item: Item) {
    && IsFiller(item.noise) && !item.attempt.Cut?
    && forall rest :: ReadPacket(item.chars + rest) == Reading(item.attempt, rest)
  }

  function Wire(items: seq<Item>, rest: seq<byte>): seq<byte> {
    if items == [] then rest
    else items[0].noise + [START_CHAR] + (items[0].chars + Wire(items[1..], rest))
  }

  function Attempts(items: seq<Item>): (r: seq<Attempt>)
    ensures |r| == |items| && forall k :: 0 <= k < |r| ==> r[k] == items[k].attempt
  {
    if items == [] then [] else [items[0].attempt] + Attempts(items[1..])
  }

  lemma ShortDelivers(noise: seq<byte>, n: byte, typ: byte, data: seq<byte>)
    requires IsFiller(noise) && |data| <= 91 && AllGraphic(data) && IsGraphic(typ) && n < 0xE0
    ensures Delivers(Item(noise, ShortPacket(n, typ, data, END_CHAR), Frame(n, Some(typ), data, true)))
  {
    hide ShortPacket, ReadPacket, AllGraphic;
    forall rest: seq<byte>
      ensures ReadPacket(ShortPacket(n, typ, data, END_CHAR) + rest) == Reading(Frame(n, Some(typ), data, true), rest)
    {
      ShortAccepted(n, typ, data, END_CHAR, rest);
    }
  }

  lemma LongDelivers(noise: seq<byte>, n: byte, typ: byte, data: seq<byte>)
    requires IsFiller(noise) && |data| + 1 < 95 * 95 && AllGraphic(data) && IsGraphic(typ) && n < 0xE0
    ensures Delivers(Item(noise, LongPacket(n, typ, data, END_CHAR), Frame(n, Some(typ), data, true)))
  {
    hide LongPacket, ReadPacket, AllGraphic;
    forall rest: seq<byte>
      ensures ReadPacket(LongPacket(n, typ, data, END_CHAR) + rest) == Reading(Frame(n, Some(typ), data, true), rest)
    {
      LongAccepted(n, typ, data, END_CHAR, rest);
    }
  }

  lemma ReadDamaged(c0: byte, c1: byte, typ: byte, data: seq<byte>, check: byte, rest: seq<byte>)
    requires IsGraphic(c0) && IsGraphic(c1) && IsGraphic(typ) && AllGraphic(data) && UnChar(c0) == |data| + 3
    requires IsGraphic(check) && check != ToChar(BlockCheck(c0 as int + c1 + typ + Sum(data)))
    ensures ReadPacket([c0, c1, typ] + (data + ([check] + rest))) == Reading(Frame(UnChar(c1), Some(typ), data, false), rest)
  {
    hide ToChar, UnChar, Sum, BlockCheck, ReadPacket, ReadExtended, ReadBody, AllGraphic;
    var head, tail := [c0, c1, typ], data + ([check] + rest);
    ReadFirst(head, tail);
    assert head[3..] + tail == tail;
    ReadBodyWhole(data, [check] + rest);
    GetHead(check, rest);
    hide GetGraphic;
  }

  // A short packet with a wrong block check; its end of line is left for the noise behind it.
  lemma DamagedDelivers(noise: seq<byte>, n: byte, typ: byte, data: seq<byte>, check: byte)
    requires IsFiller(noise) && |data| <= 91 && AllGraphic(data) && IsGraphic(typ) && n < 0xE0
    requires IsGraphic(check) && check != ToChar(BlockCheck(Sum(ShortHead(n, typ, data))))
    ensures Delivers(Item(noise, ShortHead(n, typ, data) + [check], Frame(n, Some(typ), data, false)))
  {
    hide ToChar, UnChar, Sum, BlockCheck, ReadPacket, AllGraphic;
    var c0, c1 := ToChar(|data| + 3), ToChar(n);
    CharRoundTrip(n);
    CharRoundTrip(|data| + 3);
    SumBehind(c0, c1, typ, data);
    forall rest: seq<byte>
      ensures ReadPacket(ShortHead(n, typ, data) + [check] + rest) == Reading(Frame(n, Some(typ), data, false), rest)
    {
      ReadDamaged(c0, c1, typ, data, check, rest);
      BehindHead([c0, c1, typ], data, [check], rest);
    }
  }

  lemma BehindHead(head: seq<byte>, data: seq<byte>, check: seq<byte>, rest: seq<byte>)
    ensures head + data + check + rest == head + (data + (check + rest))
  {
  }

  // A packet whose header is lost in a control character, in front of its sequence number.
  lemma HeaderLost(noise: seq<byte>, c0: byte, c: byte)
    requires IsFiller(noise) && IsGraphic(c0) && !IsGraphic(c)
    ensures Delivers(Item(noise, [c], Early)) && Delivers(Item(noise, [c0, c], Early))
  {
    forall rest: seq<byte>
      ensures ReadPacket([c] + rest) == Reading(Early, rest) && ReadPacket([c0, c] + rest) == Reading(Early, rest)
    {
      assert ([c0, c] + rest)[1..] == [c] + rest && ([c] + rest)[1..] == rest;
    }
  }

  // One that is lost at its type: the sequence number counts.
  lemma TypeLost(noise: seq<byte>, c0: byte, c1: byte, c: byte)
    requires IsFiller(noise) && IsGraphic(c0) && IsGraphic(c1) && !IsGraphic(c)
    ensures Delivers(Item(noise, [c0, c1, c], Frame(UnChar(c1), None, [], false)))
  {
    forall rest: seq<byte>
      ensures ReadPacket([c0, c1, c] + rest) == Reading(Frame(UnChar(c1), None, [], false), rest)
    {
      var s := [c0, c1, c] + rest;
      assert s[1..] == [c1, c] + rest && ([c1, c] + rest)[1..] == [c] + rest && ([c] + rest)[1..] == rest;
    }
  }

  lemma {:induction false} BodyBroken(data: seq<byte>, c: byte, rest: seq<byte>, count: nat)
    requires AllGraphic(data) && |data| < count && !IsGraphic(c)
    ensures ReadBody(data + ([c] + rest), count) == Broken(data, rest)
    decreases |data|
  {
    if data == [] {
      assert data + ([c] + rest) == [c] + rest && ([c] + rest)[1..] == rest;
    } else {
      var more := data[1..];
      GetHead(data[0], more + ([c] + rest));
      assert data + ([c] + rest) == [data[0]] + (more + ([c] + rest));
      BodyBroken(more, c, rest, count - 1);
      assert [data[0]] + more == data;
    }
  }

  // One that is lost in its data: what came in front of it has been taken.
  lemma DataLost(noise: seq<byte>, c0: byte, c1: byte, typ: byte, data: seq<byte>, c: byte)
    requires IsFiller(noise) && IsGraphic(c0) && IsGraphic(c1) && IsGraphic(typ) && AllGraphic(data) && !IsGraphic(c)
    requires |data| + 3 < UnChar(c0)
    ensures Delivers(Item(noise, [c0, c1, typ] + (data + [c]), Frame(UnChar(c1), Some(typ), data, false)))
  {
    hide UnChar, ReadPacket, ReadExtended, ReadBody, AllGraphic, GetGraphic;
    var head := [c0, c1, typ];
    forall rest: seq<byte>
      ensures ReadPacket(head + (data + [c]) + rest) == Reading(Frame(UnChar(c1), Some(typ), data, false), rest)
    {
      var tail := data + ([c] + rest);
      BehindHead(head, data, [c], rest);
      assert head + (data + [c]) + rest == head + data + [c] + rest;
      ReadFirst(head, tail);
      assert head[3..] + tail == tail;
      BodyBroken(data, c, rest, UnChar(c0) as int - 3);
    }
  }

  // One that is lost at its block check.
  lemma CheckLost(noise: seq<byte>, c0: byte, c1: byte, typ: byte, data: seq<byte>, c: byte)
    requires IsFiller(noise) && IsGraphic(c0) && IsGraphic(c1) && IsGraphic(typ) && AllGraphic(data) && !IsGraphic(c)
    requires |data| + 3 == UnChar(c0)
    ensures Delivers(Item(noise, [c0, c1, typ] + (data + [c]), Frame(UnChar(c1), Some(typ), data, false)))
  {
    hide UnChar, ReadPacket, ReadExtended, ReadBody, AllGraphic, Sum;
    var head := [c0, c1, typ];
    forall rest: seq<byte>
      ensures ReadPacket(head + (data + [c]) + rest) == Reading(Frame(UnChar(c1), Some(typ), data, false), rest)
    {
      var tail := data + ([c] + rest);
      BehindHead(head, data, [c], rest);
      assert head + (data + [c]) + rest == head + data + [c] + rest;
      ReadFirst(head, tail);
      assert head[3..] + tail == tail;
      ReadBodyWhole(data, [c] + rest);
      assert ([c] + rest)[1..] == rest;
    }
  }

  // An extended packet whose header check is wrong is rejected before its data.
  lemma LongHeadRefused(noise: seq<byte>, c1: byte, typ: byte, hi: byte, lo: byte, check: byte)
    requires IsFiller(noise) && IsGraphic(c1) && IsGraphic(typ) && IsGraphic(hi) && IsGraphic(lo) && IsGraphic(check)
    requires check != ToChar(BlockCheck(0x20 + c1 as int + typ + hi + lo))
    ensures Delivers(Item(noise, [0x20, c1, typ, hi, lo, check], Frame(UnChar(c1), Some(typ), [], false)))
  {
    hide ReadPacket, ReadRest, BlockCheck, ToChar, GetGraphic;
    var h := [0x20, c1, typ, hi, lo, check];
    forall rest: seq<byte>
      ensures ReadPacket(h + rest) == Reading(Frame(UnChar(c1), Some(typ), [], false), rest)
    {
      assert UnChar(0x20) == 0;
      ReadFirst(h, rest);
      GetsNext(h, rest);
      hide UnChar;
    }
  }

  // The stream up to a good break packet is read as the attempts of its items.
  lemma {:induction false} WireReads(items: seq<Item>, rest: seq<byte>)
    requires items != [] && IsBreak(items[|items| - 1].attempt)
    requires forall k :: 0 <= k < |items| ==> Delivers(items[k])
    requires forall k :: 0 <= k < |items| - 1 ==> !IsBreak(items[k].attempt)
    ensures ReadStream(Wire(items, rest)) == Stream(Attempts(items), Complete)
  {
    hide IsBreak, Await, ReadPacket, ReadStream, IsFiller;
    var first, more := items[0], items[1..];
    assert Delivers(first);
    AwaitSkips(first.noise, first.chars + Wire(more, rest));
    ReadStreamStep(Wire(items, rest), first.chars + Wire(more, rest), first.attempt, Wire(more, rest));
    if more == [] {
      assert Attempts(items) == [first.attempt] + Attempts(more);
      assert Attempts(items) == [first.attempt];
    } else {
      assert forall k :: 0 <= k < |more| ==> more[k] == items[k + 1];
      hide Delivers;
      WireReads(more, rest);
    }
  }

  // ----- the transfer ---------------------------------------------------------------------------

  predicate NoneOf(blocks: seq<Block>, typ: byte) {
    forall k :: 0 <= k < |blocks| ==> blocks[k].typ != typ
  }

  lemma {:induction false} HeadTaken(i: Ideal, blocks: seq<Block>)
    requires NoneOf(blocks, DATA_TYPE)
    ensures IdealRun(i, blocks) == Ideal(LineAfter(i.line, blocks), i.decoded)
  {
    hide Negotiate, Decode;
    if blocks != [] {
      HeadTaken(i, blocks[..|blocks| - 1]);
    }
  }

  lemma {:induction false} AllTriesEnd(lastN: int, blocks: seq<Block>)
    requires IsBlockRun(lastN, blocks)
    ensures forall k :: 0 <= k < |AllTries(blocks)| ==> !IsBreak(AllTries(blocks)[k])
  {
    hide IsBreak;
    if blocks != [] {
      var last := blocks[|blocks| - 1];
      InitIsRun(lastN, blocks);
      AllTriesEnd(lastN, blocks[..|blocks| - 1]);
      hide IsBlockRun;
      forall k | 0 <= k < |last.tries|
        ensures !IsBreak(last.tries[k])
      {
        assert IsTry(last, last.tries[k]);
        TryEndsNothing(last, last.tries[k]);
      }
    }
  }

  lemma TryEndsNothing(b: Block, a: Attempt)
    requires IsTry(b, a) && b.typ != BREAK_TYPE
    ensures !IsBreak(a)
  {
  }

  function LastNumber(lastN: int, blocks: seq<Block>): int {
    if blocks == [] then lastN else blocks[|blocks| - 1].n as int
  }

  // Rejected copies of the break packet.
  predicate RejectedEnds(ends: seq<Attempt>, n: byte) {
    forall k :: 0 <= k < |ends| ==> ends[k].Frame? && ends[k].n == n && !ends[k].good && ends[k].typ != Some(DATA_TYPE)
  }

  lemma {:induction false} EndsTaken(st: State, start: int, i: Ideal, n: byte, ends: seq<Attempt>)
    requires Agrees(st, start, i) && st.lastN != n as int && RejectedEnds(ends, n)
    ensures var r := ApplyAll(st, ends);
            && Agrees(r, start, i) && r.mem == st.mem
            && (r.lastN != n as int || r.saved == r.sink)
  {
    hide Apply, Agrees;
    if ends != [] {
      var init, a := ends[..|ends| - 1], ends[|ends| - 1];
      EndsTaken(st, start, i, n, init);
      BreakEnds(ApplyAll(st, init), start, i, n, a);
    }
  }

  // What a sender transfers: packets without data, among them the send-init packet, then the
  // quoted file in data packets, then the break, all with any copies and rejects.
  ghost predicate IsTransfer(run: seq<Attempt>, head: seq<Block>, body: seq<Block>, ends: seq<Attempt>, end: Attempt, file: seq<byte>) {
    var quote := LineAfter(DEFAULT_LINE, head).quote;
    && run == AllTries(head + body) + ends + [end]
    && IsBlockRun(-1, head + body) && NoneOf(head, DATA_TYPE) && NoneOf(body, SEND_TYPE)
    && LegalQuote(quote) && DataText(body) == Encode(quote, file)
    && IsBreak(end) && end.n as int != LastNumber(-1, head + body) && RejectedEnds(ends, end.n)
  }

  lemma TransferIdeal(head: seq<Block>, body: seq<Block>, file: seq<byte>)
    requires NoneOf(head, DATA_TYPE) && NoneOf(body, SEND_TYPE)
    requires LegalQuote(LineAfter(DEFAULT_LINE, head).quote)
    requires DataText(body) == Encode(LineAfter(DEFAULT_LINE, head).quote, file)
    ensures IdealRun(Ideal(DEFAULT_LINE, Decoded([], false)), head + body)
         == Ideal(LineAfter(DEFAULT_LINE, head), Decoded(file, false))
  {
    hide IdealRun, DataText, Encode, Decode, LineAfter;
    var i := Ideal(DEFAULT_LINE, Decoded([], false));
    IdealRunCut(i, head, body);
    HeadTaken(i, head);
    IdealDecodes(IdealRun(i, head), body);
    DecodeInvertsEncode(LineAfter(DEFAULT_LINE, head).quote, file);
  }

  // The attempts of a transfer leave the file in memory.
  lemma TransferTaken(run: seq<Attempt>, head: seq<Block>, body: seq<Block>, ends: seq<Attempt>, end: Attempt, file: seq<byte>,
                      start: int, mem: map<int, byte>, sent: seq<seq<byte>>)
    requires IsTransfer(run, head, body, ends, end, file)
    ensures var r := ApplyAll(Initial(start, mem, sent), run);
            r.done && Written(r.mem, start, file) && r.sink.addr - start == |file| && SameBelow(mem, r.mem, start)
  {
    hide AllTries, IdealRun, LineAfter, DataText, Encode, IsBlockRun, Apply, NoneOf, SameBelow, Written, LegalQuote;
    var st, i := Initial(start, mem, sent), Ideal(DEFAULT_LINE, Decoded([], false));
    InitialAgrees(start, mem, sent);
    hide Initial;
    BlocksTakenOnce(st, head + body, start, i);
    TransferIdeal(head, body, file);
    var tries := AllTries(head + body);
    var st1, ideal := ApplyAll(st, tries), IdealRun(i, head + body);
    EndsTaken(st1, start, ideal, end.n, ends);
    ApplyAllConcat(st, tries, ends);
    ApplyAllSnoc(st, tries + ends, end);
    hide ApplyAll;
    BreakEnds(ApplyAll(st1, ends), start, ideal, end.n, end);
  }

  lemma InitialAgrees(start: int, mem: map<int, byte>, sent: seq<seq<byte>>)
    ensures var st := Initial(start, mem, sent);
            && Agrees(st, start, Ideal(DEFAULT_LINE, Decoded([], false)))
            && st.lastN == -1 && st.mem == mem
  {
  }

  // Main result: when the line delivers a transfer, with any noise between the packets and any
  // rejected and repeated copies of them, k_recv ends by itself, the file is in memory at the
  // start address, its length is the size returned, and memory below is unchanged.
  lemma FileTransferred(items: seq<Item>, rest: seq<byte>, head: seq<Block>, body: seq<Block>, ends: seq<Attempt>, file: seq<byte>,
                        start: int, mem: map<int, byte>, sent: seq<seq<byte>>)
    requires items != [] && forall k :: 0 <= k < |items| ==> Delivers(items[k])
    requires IsTransfer(Attempts(items), head, body, ends, items[|items| - 1].attempt, file)
    ensures var s := ReadStream(Wire(items, rest));
            var r := ApplyAll(Initial(start, mem, sent), s.run);
            s.end == Complete && Written(r.mem, start, file) && r.sink.addr - start == |file| && SameBelow(mem, r.mem, start)
  {
    hide Delivers, ReadStream, Wire, ApplyAll, Initial, Written, SameBelow, IsBreak, LineAfter, IsBlockRun, NoneOf, DataText, Encode;
    var run, end := Attempts(items), items[|items| - 1].attempt;
    TransferTaken(run, head, body, ends, end, file, start, mem, sent);
    AllTriesEnd(-1, head + body);
    forall k | 0 <= k < |items| - 1
      ensures !IsBreak(items[k].attempt)
    {
      assert items[k].attempt == run[k];
      EndsNothing(run, AllTries(head + body), ends, end, k);
    }
    WireReads(items, rest);
  }

  lemma EndsNothing(run: seq<Attempt>, tries: seq<Attempt>, ends: seq<Attempt>, end: Attempt, k: nat)
    requires run == tries + ends + [end] && k < |run| - 1 && IsBreak(end) && RejectedEnds(ends, end.n)
    requires forall j :: 0 <= j < |tries| ==> !IsBreak(tries[j])
    ensures !IsBreak(run[k])
  {
    if k >= |tries| {
      assert run[k] == ends[k - |tries|];
    }
  }
}
