// What k_recv (common/cmd_load.c) makes of packets rejected before their sequence number was
// read: packet_error restores the checkpoint of the packet in front of them.

module KermitEarly {
  import opened Words
  import opened KermitCode
  import opened KermitPacket
  import opened KermitReceiver

  // ----- packets rejected in front of the next block --------------------------------------------

  // Packets rejected before their sequence number was read.
  function Earlies(count: nat): seq<Attempt> {
    seq(count, _ => Early)
  }

  // What a block counts for with `early` of them behind it: they take back a data packet.
  function TurnStep(i: Ideal, b: Block, early: nat): Ideal {
    if early > 0 && b.typ == DATA_TYPE then i else IdealStep(i, b.typ, b.data)
  }

  lemma EarlyInBlock(st: State, b: Block, start: int, i: Ideal)
    requires InBlock(st, b, start, i) && st.line == IdealStep(i, b.typ, b.data).line
    ensures var r := Apply(st, Early);
            && InBlock(r, b, start, i) && r.line == st.line && r.mem == st.mem
            && Agrees(r, start, TurnStep(i, b, 1))
  {
    hide Answer, Negotiate, Decode;
  }

  lemma {:induction false} EarliesInBlock(st: State, b: Block, start: int, i: Ideal, early: nat)
    requires InBlock(st, b, start, i) && Agrees(st, start, IdealStep(i, b.typ, b.data))
    ensures var r := ApplyAll(st, Earlies(early));
            && InBlock(r, b, start, i) && r.line == st.line && r.mem == st.mem
            && Agrees(r, start, TurnStep(i, b, early))
  {
    hide Apply, InBlock, IdealStep;
    if early > 0 {
      assert Earlies(early)[..early - 1] == Earlies(early - 1);
      EarliesInBlock(st, b, start, i, early - 1);
      EarlyInBlock(ApplyAll(st, Earlies(early - 1)), b, start, i);
    }
  }

  lemma BlockThenEarlies(st: State, b: Block, start: int, i: Ideal, early: nat)
    requires Agrees(st, start, i) && st.lastN != b.n as int && IsBlock(b)
    ensures var r := ApplyAll(st, b.tries + Earlies(early));
            && Agrees(r, start, TurnStep(i, b, early)) && r.lastN == b.n as int
            && SameBelow(st.mem, r.mem, start + |i.decoded.out|)
  {
    assert b.tries[..|b.tries|] == b.tries;
    TriesInBlock(st, b, start, i, |b.tries|);
    ApplyAllConcat(st, b.tries, Earlies(early));
    hide ApplyAll, IdealStep, TurnStep, SameBelow;
    EarliesInBlock(ApplyAll(st, b.tries), b, start, i, early);
  }

  // A block and the number of early rejects behind it.
  datatype Turn = Turn(block: Block, early: nat)

  function TurnBlocks(turns: seq<Turn>): (r: seq<Block>)
    ensures |r| == |turns| && forall k :: 0 <= k < |r| ==> r[k] == turns[k].block
  {
    seq(|turns|, k requires 0 <= k < |turns| => turns[k].block)
  }

  function TurnTries(turns: seq<Turn>): seq<Attempt> {
    if turns == [] then []
    else
      var last := turns[|turns| - 1];
      TurnTries(turns[..|turns| - 1]) + (last.block.tries + Earlies(last.early))
  }

  // The blocks that count: all but the data packets with an early reject behind them.
  function Kept(turns: seq<Turn>): seq<Block> {
    if turns == [] then []
    else
      var last := turns[|turns| - 1];
      Kept(turns[..|turns| - 1]) + (if last.early > 0 && last.block.typ == DATA_TYPE then [] else [last.block])
  }

  lemma KeptStep(i: Ideal, turns: seq<Turn>)
    requires turns != []
    ensures var last := turns[|turns| - 1];
            IdealRun(i, Kept(turns)) == TurnStep(IdealRun(i, Kept(turns[..|turns| - 1])), last.block, last.early)
  {
    hide IdealStep;
    var init, last := Kept(turns[..|turns| - 1]), turns[|turns| - 1];
    if last.early > 0 && last.block.typ == DATA_TYPE {
      assert init + [] == init;
    } else {
      assert (init + [last.block])[..|init|] == init;
    }
  }

  // Main result for the lines that lose headers: the receiver ends as on a perfect line that
  // never carried the data packets with an early reject behind them.
  lemma {:induction false} TurnsTaken(st: State, turns: seq<Turn>, start: int, i: Ideal)
    requires Agrees(st, start, i) && IsBlockRun(st.lastN, TurnBlocks(turns))
    ensures var r := ApplyAll(st, TurnTries(turns));
            && Agrees(r, start, IdealRun(i, Kept(turns)))
            && r.lastN == (if turns == [] then st.lastN else turns[|turns| - 1].block.n as int)
  {
    hide Agrees, IdealStep, IsBlock, IsBlockRun, Apply, SameBelow;
    if turns != [] {
      var init, last := turns[..|turns| - 1], turns[|turns| - 1];
      assert TurnBlocks(turns)[..|turns| - 1] == TurnBlocks(init);
      InitIsRun(st.lastN, TurnBlocks(turns));
      TurnsTaken(st, init, start, i);
      var mid := ApplyAll(st, TurnTries(init));
      ApplyAllConcat(st, TurnTries(init), last.block.tries + Earlies(last.early));
      BlockThenEarlies(mid, last.block, start, IdealRun(i, Kept(init)), last.early);
      KeptStep(i, turns);
    }
  }

  // ----- when an early reject does no harm ---------------------------------------------------------

  // A data character and the quote in force when it comes in.
  datatype Heard = Heard(c: byte, quote: byte)

  function With(quote: byte, data: seq<byte>): seq<Heard> {
    seq(|data|, k requires 0 <= k < |data| => Heard(data[k], quote))
  }

  function Listen(d: Decoded, text: seq<Heard>): Decoded
    decreases |text|
  {
    if text == [] then d else Listen(DecodeChar(text[0].quote, d, text[0].c), text[1..])
  }

  function LineAfter(line: Line, blocks: seq<Block>): Line {
    if blocks == [] then line
    else if blocks[|blocks| - 1].typ == SEND_TYPE then Negotiate(blocks[|blocks| - 1].data)
    else LineAfter(line, blocks[..|blocks| - 1])
  }

  // The data characters of some blocks.
  function HeardData(line: Line, blocks: seq<Block>): seq<Heard> {
    if blocks == [] then []
    else
      var init, last := blocks[..|blocks| - 1], blocks[|blocks| - 1];
      HeardData(line, init) + (if last.typ == DATA_TYPE then With(LineAfter(line, init).quote, last.data) else [])
  }

  lemma {:induction false} ListenCut(d: Decoded, a: seq<Heard>, b: seq<Heard>)
    ensures Listen(d, a + b) == Listen(Listen(d, a), b)
    decreases |a|
  {
    if a == [] {
      assert a + b == b;
    } else {
      assert (a + b)[1..] == a[1..] + b;
      ListenCut(DecodeChar(a[0].quote, d, a[0].c), a[1..], b);
    }
  }

  lemma {:induction false} ListenDecodes(quote: byte, d: Decoded, data: seq<byte>)
    ensures Listen(d, With(quote, data)) == Decode(quote, d, data)
  {
    if data != [] {
      var init, c := data[..|data| - 1], data[|data| - 1];
      ListenDecodes(quote, d, init);
      assert With(quote, data) == With(quote, init) + [Heard(c, quote)];
      ListenCut(d, With(quote, init), [Heard(c, quote)]);
      assert Listen(Decode(quote, d, init), [Heard(c, quote)]) == DecodeChar(quote, Decode(quote, d, init), c);
    }
  }

  // On a perfect line the blocks are heard character by character.
  lemma {:induction false} IdealListens(i: Ideal, blocks: seq<Block>)
    ensures IdealRun(i, blocks) == Ideal(LineAfter(i.line, blocks), Listen(i.decoded, HeardData(i.line, blocks)))
  {
    hide Negotiate, DecodeChar;
    if blocks != [] {
      var init, last := blocks[..|blocks| - 1], blocks[|blocks| - 1];
      IdealListens(i, init);
      if last.typ == DATA_TYPE {
        var quote := LineAfter(i.line, init).quote;
        ListenCut(i.decoded, HeardData(i.line, init), With(quote, last.data));
        ListenDecodes(quote, Listen(i.decoded, HeardData(i.line, init)), last.data);
      } else {
        assert HeardData(i.line, init) + [] == HeardData(i.line, init);
      }
    }
  }

  // The text goes on, behind pairs of quotes that ktrans makes the same, with a character that
  // is the same quoted and unquoted.
  predicate PlainNext(text: seq<Heard>)
    decreases |text|
  {
    && text != []
    && if text[0].c == text[0].quote then
         |text| > 1 && text[1].c == text[1].quote && Ktrans(text[1].c) == Ktrans(text[0].c) && PlainNext(text[2..])
       else
         Ktrans(text[0].c) == text[0].c
  }

  lemma {:induction false} SameEscape(x: seq<byte>, y: seq<byte>, escape: bool, text: seq<Heard>)
    ensures Listen(Decoded(x, escape), text) == Listen(Decoded(y, escape), text) <==> x == y
    decreases |text|
  {
    hide Ktrans;
    if text != [] {
      var d := DecodeChar(text[0].quote, Decoded(x, escape), text[0].c);
      var e := DecodeChar(text[0].quote, Decoded(y, escape), text[0].c);
      assert d.out == e.out ==> x == y by {
        if d.out == e.out && |d.out| > |x| {
          assert x == d.out[..|x|] && y == e.out[..|y|];
        }
      }
      SameEscape(d.out, e.out, d.escape, text[1..]);
    }
  }

  // Two receivers, one of them behind a quote, end up the same only if they were the same but
  // for that and the text hides it.
  lemma {:induction false} OtherEscape(x: seq<byte>, y: seq<byte>, text: seq<Heard>)
    requires |x| >= |y|
    ensures Listen(Decoded(x, true), text) == Listen(Decoded(y, false), text) <==> x == y && PlainNext(text)
    decreases |text|
  {
    hide Ktrans;
    if text != [] {
      var t, more := text[0], text[1..];
      var x1 := x + [Ktrans(t.c)];
      if t.c != t.quote {
        SameEscape(x1, y + [t.c], false, more);
        SameTail(x, Ktrans(t.c), y, t.c);
      } else if more != [] {
        var u := more[0];
        var y1 := y + [Ktrans(u.c)];
        assert more[1..] == text[2..];
        if u.c == u.quote {
          OtherEscape(x1, y1, text[2..]);
          SameTail(x, Ktrans(t.c), y, Ktrans(u.c));
        } else {
          SameEscape(x1 + [u.c], y1, false, text[2..]);
        }
      }
    }
  }

  lemma SameTail(x: seq<byte>, a: byte, y: seq<byte>, b: byte)
    ensures x + [a] == y + [b] <==> x == y && a == b
  {
    if x + [a] == y + [b] {
      assert x == (x + [a])[..|x|] && y == (y + [b])[..|y|];
      assert (x + [a])[|x|] == a && (y + [b])[|y|] == b;
    }
  }

  // A packet can be lost without harm if it is empty, or if it is one half of a pair of quotes
  // and what follows hides that.
  predicate Harmless(quote: byte, escape: bool, data: seq<byte>, text: seq<Heard>) {
    || data == []
    || (|data| == 1 &&
        if escape then
          text != [] && text[0].c == text[0].quote && Ktrans(data[0]) == Ktrans(text[0].c) && PlainNext(text[1..])
        else
          data[0] == quote && PlainNext(text))
  }

  // Twice the characters delivered, and one more behind a quote.
  function Progress(d: Decoded): nat {
    2 * |d.out| + if d.escape then 1 else 0
  }

  lemma {:induction false} DecodeProgress(quote: byte, d: Decoded, data: seq<byte>)
    ensures Progress(Decode(quote, d, data)) >= Progress(d) + |data|
    ensures |Decode(quote, d, data).out| >= |d.out|
  {
    if data != [] {
      DecodeProgress(quote, d, data[..|data| - 1]);
    }
  }

  lemma DecodeOne(quote: byte, d: Decoded, data: seq<byte>)
    requires |data| == 1
    ensures Decode(quote, d, data) == DecodeChar(quote, d, data[0])
  {
    assert data[..0] == [];
  }

  lemma HarmlessIff(quote: byte, d: Decoded, data: seq<byte>, text: seq<Heard>)
    ensures Listen(Decode(quote, d, data), text) == Listen(d, text) <==> Harmless(quote, d.escape, data, text)
  {
    hide Ktrans, PlainNext;
    var e := Decode(quote, d, data);
    DecodeProgress(quote, d, data);
    if |data| == 1 {
      DecodeOne(quote, d, data);
    }
    hide Decode;
    if e.escape == d.escape {
      SameEscape(e.out, d.out, d.escape, text);
    } else if e.escape {
      OtherEscape(e.out, d.out, text);
    } else if text != [] {
      var c := text[0].c;
      var out := d.out + [Ktrans(c)];
      if c == text[0].quote {
        OtherEscape(e.out, out, text[1..]);
        if |data| == 1 {
          SameTail(d.out, Ktrans(data[0]), d.out, Ktrans(c));
        }
      } else {
        SameEscape(e.out + [c], out, false, text[1..]);
      }
    }
  }

  lemma {:induction false} IdealRunCut(i: Ideal, a: seq<Block>, b: seq<Block>)
    ensures IdealRun(i, a + b) == IdealRun(IdealRun(i, a), b)
  {
    if b == [] {
      assert a + b == a;
    } else {
      assert (a + b)[..|a + b| - 1] == a + b[..|b| - 1];
      IdealRunCut(i, a, b[..|b| - 1]);
    }
  }

  lemma AgreesWithOne(st: State, start: int, i: Ideal, j: Ideal)
    requires Agrees(st, start, i)
    ensures Agrees(st, start, j) <==> i == j
  {
    if Agrees(st, start, j) {
      assert forall k :: 0 <= k < |i.decoded.out| ==> i.decoded.out[k] == st.mem[start + k] == j.decoded.out[k];
    }
  }

  // The perfect line with and without its last block, both followed by some more.
  lemma DroppedIff(i: Ideal, b: Block, early: nat, more: seq<Block>)
    requires early > 0
    ensures IdealRun(TurnStep(i, b, early), more) == IdealRun(IdealStep(i, b.typ, b.data), more)
       <==> b.typ != DATA_TYPE || Harmless(i.line.quote, i.decoded.escape, b.data, HeardData(i.line, more))
  {
    hide IdealRun, HeardData, Listen, Decode, Negotiate, Harmless;
    IdealListens(TurnStep(i, b, early), more);
    IdealListens(IdealStep(i, b.typ, b.data), more);
    if b.typ == DATA_TYPE {
      HarmlessIff(i.line.quote, i.decoded, b.data, HeardData(i.line, more));
    }
  }

  // Early rejects between two runs of blocks leave the receiver where a perfect line would if
  // and only if the packet in front of them was no data packet or a harmless one.
  lemma EarlyHarmlessIff(st: State, bs: seq<Block>, early: nat, cs: seq<Block>, start: int, i: Ideal)
    requires Agrees(st, start, i) && bs != [] && IsBlockRun(st.lastN, bs) && early > 0
    requires IsBlockRun(bs[|bs| - 1].n as int, cs)
    ensures var r := ApplyAll(st, AllTries(bs) + Earlies(early) + AllTries(cs));
            var before, last := IdealRun(i, bs[..|bs| - 1]), bs[|bs| - 1];
            (Agrees(r, start, IdealRun(i, bs + cs)) <==>
               last.typ != DATA_TYPE
               || Harmless(before.line.quote, before.decoded.escape, last.data, HeardData(before.line, cs)))
  {
    hide Agrees, IdealStep, IsBlock, IsBlockRun, Apply, SameBelow, Harmless, HeardData, TurnStep;
    var init, last := bs[..|bs| - 1], bs[|bs| - 1];
    var before := IdealRun(i, init);
    InitIsRun(st.lastN, bs);
    BlocksTakenOnce(st, init, start, i);
    var st1 := ApplyAll(st, AllTries(init));
    BlockThenEarlies(st1, last, start, before, early);
    var st2 := ApplyAll(st1, last.tries + Earlies(early));
    BlocksTakenOnce(st2, cs, start, TurnStep(before, last, early));
    var r := ApplyAll(st2, AllTries(cs));
    AgreesWithOne(r, start, IdealRun(TurnStep(before, last, early), cs), IdealRun(i, bs + cs));
    IdealRunCut(i, bs, cs);
    DroppedIff(before, last, early, cs);
    assert ApplyAll(st, AllTries(bs) + Earlies(early) + AllTries(cs)) == r by {
      ApplyThree(st, AllTries(init), last.tries, Earlies(early), AllTries(cs));
    }
  }

  // ----- several gaps --------------------------------------------------------------------------

  // No data packet ends between a quote and its character.
  predicate WholePairs(line: Line, blocks: seq<Block>) {
    blocks == [] ||
    (var init, last := blocks[..|blocks| - 1], blocks[|blocks| - 1];
     && WholePairs(line, init)
     && (last.typ == DATA_TYPE ==> !Decode(LineAfter(line, init).quote, Decoded([], false), last.data).escape))
  }

  // The data packets with an early reject behind them are empty.
  predicate LosesNothing(turns: seq<Turn>) {
    forall k :: 0 <= k < |turns| && turns[k].early > 0 && turns[k].block.typ == DATA_TYPE ==> turns[k].block.data == []
  }

  lemma LosesNothingSplit(turns: seq<Turn>)
    requires turns != []
    ensures var init, last := turns[..|turns| - 1], turns[|turns| - 1];
            LosesNothing(turns) <==>
              LosesNothing(init) && (last.early > 0 && last.block.typ == DATA_TYPE ==> last.block.data == [])
  {
    var init := turns[..|turns| - 1];
    assert forall k :: 0 <= k < |init| ==> init[k] == turns[k];
  }

  // What has arrived, and what should have.
  predicate Behind(kept: Ideal, all: Ideal, same: bool) {
    && kept.line == all.line && !kept.decoded.escape && !all.decoded.escape
    && (if same then kept == all else |kept.decoded.out| < |all.decoded.out|)
  }

  lemma TurnBehind(kept: Ideal, all: Ideal, same: bool, b: Block, early: nat)
    requires Behind(kept, all, same)
    requires b.typ == DATA_TYPE ==> !Decode(all.line.quote, Decoded([], false), b.data).escape
    ensures var lost := early > 0 && b.typ == DATA_TYPE && b.data != [];
            Behind(TurnStep(kept, b, early), IdealStep(all, b.typ, b.data), same && !lost)
  {
    hide Negotiate;
    var quote := all.line.quote;
    DecodeAppends(quote, kept.decoded, b.data);
    DecodeAppends(quote, all.decoded, b.data);
    DecodeProgress(quote, Decoded([], false), b.data);
    NothingDecodes(quote, all.decoded);
    hide Decode;
  }

  lemma NothingDecodes(quote: byte, d: Decoded)
    ensures Decode(quote, d, []) == d
  {
  }

  lemma {:induction false} TurnsBehind(i: Ideal, turns: seq<Turn>)
    requires !i.decoded.escape && WholePairs(i.line, TurnBlocks(turns))
    ensures Behind(IdealRun(i, Kept(turns)), IdealRun(i, TurnBlocks(turns)), LosesNothing(turns))
  {
    hide TurnStep, IdealStep, Decode, LosesNothing;
    if turns == [] {
      NothingLost();
    } else {
      var init, last := turns[..|turns| - 1], turns[|turns| - 1];
      assert TurnBlocks(turns)[..|turns| - 1] == TurnBlocks(init);
      TurnsBehind(i, init);
      KeptStep(i, turns);
      IdealListens(i, TurnBlocks(init));
      LosesNothingSplit(turns);
      hide Kept, Listen, HeardData, LineAfter, TurnBlocks, WholePairs, Behind;
      TurnBehind(IdealRun(i, Kept(init)), IdealRun(i, TurnBlocks(init)), LosesNothing(init), last.block, last.early);
    }
  }

  lemma NothingLost()
    ensures LosesNothing([])
  {
  }

  // For a sender that cuts no pair of a quote and its character: with early rejects anywhere in
  // the run the receiver ends where a perfect line would if and only if the data packets in
  // front of them are empty.
  lemma WholeTurnsIff(st: State, turns: seq<Turn>, start: int, i: Ideal)
    requires Agrees(st, start, i) && IsBlockRun(st.lastN, TurnBlocks(turns))
    requires !i.decoded.escape && WholePairs(i.line, TurnBlocks(turns))
    ensures Agrees(ApplyAll(st, TurnTries(turns)), start, IdealRun(i, TurnBlocks(turns))) <==> LosesNothing(turns)
  {
    hide Agrees, IsBlockRun, ApplyAll, IdealRun, Kept, TurnBlocks, TurnTries, WholePairs, LosesNothing;
    TurnsTaken(st, turns, start, i);
    TurnsBehind(i, turns);
    AgreesWithOne(ApplyAll(st, TurnTries(turns)), start, IdealRun(i, Kept(turns)), IdealRun(i, TurnBlocks(turns)));
  }

  lemma ApplyThree(st: State, a: seq<Attempt>, b: seq<Attempt>, c: seq<Attempt>, d: seq<Attempt>)
    ensures ApplyAll(st, a + b + c + d) == ApplyAll(ApplyAll(ApplyAll(st, a), b + c), d)
  {
    assert a + b + c == a + (b + c);
    ApplyAllConcat(st, a + b + c, d);
    ApplyAllConcat(st, a, b + c);
  }

  // The smallest transfer that goes wrong: "A" and "B", with an early reject between them,
  // arrive as "B".
  lemma EarlyLosesPacket(mem: map<int, byte>)
    ensures var a, b := Frame(1, Some(DATA_TYPE), [0x41], true), Frame(2, Some(DATA_TYPE), [0x42], true);
            var r := ApplyAll(Initial(0, mem, []), [a, Early, b]);
            r.sink == Sink(false, 1) && r.mem == mem[0 := 0x42]
  {
    hide Answer;
    var a, b := Frame(1, Some(DATA_TYPE), [0x41], true), Frame(2, Some(DATA_TYPE), [0x42], true);
    var st := Initial(0, mem, []);
    assert [a, Early, b][..2] == [a, Early] && [a, Early][..1] == [a] && [a][..0] == [];
    assert ApplyAll(st, [a]) == Apply(st, a);
    FeedOne(Begin(st, 1).(kState := DATA_TYPE), 0x41);
    var st1 := Apply(Apply(st, a), Early);
    FeedOne(Begin(st1, 2).(kState := DATA_TYPE), 0x42);
    assert mem[0 := 0x41][0 := 0x42] == mem[0 := 0x42];
  }

  lemma FeedOne(st: State, c: byte)
    ensures Feed(st, [c]) == FeedChar(st, c)
  {
    assert [c][..0] == [];
  }
}
