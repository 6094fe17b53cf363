// The Kermit receiver k_recv (common/cmd_load.c) as a state machine over packet attempts,
// and what it leaves in memory over runs with rejected and repeated packets.

module KermitReceiver {
  import opened Words
  import opened KermitCode
  import opened KermitPacket

  // What the sender asked for: his_eol, his_pad_count, his_pad_char, his_quote.
  datatype Line = Line(eol: byte, padCount: byte, padChar: byte, quote: byte)

  const DEFAULT_LINE := Line(END_CHAR, 0, 0, K_ESCAPE)

  // The part that is checkpointed: k_data_escape and os_data_addr.
  datatype Sink = Sink(escape: bool, addr: int)

  datatype State = State(
    line: Line, sink: Sink, saved: Sink, kState: byte, kStateSaved: byte, lastN: int, n: byte,
    mem: map<int, byte>, sent: seq<seq<byte>>, done: bool)

  // ----- writing data ------------------------------------------------------------

  // bin_data_char
  function Store(st: State, c: byte): State {
    st.(mem := st.mem[st.sink.addr := c], sink := Sink(false, st.sink.addr + 1))
  }

  // k_data_char
  function FeedChar(st: State, c: byte): State {
    if st.sink.escape then Store(st, Ktrans(c))
    else if c == st.line.quote then st.(sink := st.sink.(escape := true))
    else Store(st, c)
  }

  function Feed(st: State, data: seq<byte>): State {
    if data == [] then st else FeedChar(Feed(st, data[..|data| - 1]), data[|data| - 1])
  }

  // ----- answers -------------------------------------------------------------------

  function Repeat(c: byte, count: nat): (r: seq<byte>)
    ensures |r| == count
  {
    seq(count, _ => c)
  }

  // s1_sendpacket of an answer; a NUL end of line is not sent.
  function Answer(line: Line, typ: byte, n: byte, data: seq<byte>): seq<byte>
    requires |data| <= 91
  {
    var packet := [START_CHAR] + ShortPacket(n, typ, data, line.eol);
    Repeat(line.padChar, line.padCount) + (if line.eol == 0 then packet[..|packet| - 1] else packet)
  }

  // The answer to each field of a send-init packet; the tenth has four parts.
  const REPLY_FIELDS: seq<byte> := [0x7E, 0x21, 0x20, 0x40, 0x2D, 0x23, 0x4E, 0x31, 0x4E, 0x22, 0x20, 0x7E, 0x7E]

  const SEND_DATA_SIZE: nat := 20

  // How many parameter bytes handle_send_packet looks at.
  function ParmCount(data: seq<byte>): (bytes: nat)
    ensures bytes <= |data|
  {
    if |data| >= SEND_DATA_SIZE - 1 then SEND_DATA_SIZE - 2 else |data|
  }

  function Negotiate(data: seq<byte>): Line {
    var bytes := ParmCount(data);
    Line(
      if bytes > 4 then UnChar(data[4]) else END_CHAR,
      if bytes > 2 then UnChar(data[2]) else 0,
      if bytes > 3 then Ktrans(data[3]) else 0,
      if bytes > 5 then data[5] else K_ESCAPE)
  }

  function ReplyFields(bytes: nat): (r: seq<byte>)
    ensures |r| <= 13
  {
    if bytes < 10 then REPLY_FIELDS[..bytes] else REPLY_FIELDS
  }

  // ----- one attempt ------------------------------------------------------------------

  // A repeated sequence number restores the checkpoint, a new one takes it.
  function Begin(st: State, n: byte): State {
    if n == st.lastN then st.(n := n, kState := st.kStateSaved, sink := st.saved)
    else st.(n := n, lastN := n, kStateSaved := st.kState, saved := st.sink)
  }

  // packet_error
  function Reject(st: State): State {
    st.(kState := st.kStateSaved, sink := st.saved, sent := st.sent + [Answer(st.line, NACK_TYPE, st.n, [])])
  }

  function Accept(st: State, data: seq<byte>): State {
    if st.kState == SEND_TYPE then
      var line := Negotiate(data);
      st.(line := line, sent := st.sent + [Answer(line, ACK_TYPE, st.n, ReplyFields(ParmCount(data)))])
    else
      st.(sent := st.sent + [Answer(st.line, ACK_TYPE, st.n, [])], done := st.kState == BREAK_TYPE)
  }

  // Begin, and the characters of the packet as they come in.
  function Receive(st: State, n: byte, typ: Option<byte>, data: seq<byte>): State {
    var st1 := Begin(st, n);
    if typ.None? then st1
    else
      var st2 := st1.(kState := typ.value);
      if typ.value == DATA_TYPE then Feed(st2, data) else st2
  }

  function Apply(st: State, a: Attempt): State {
    match a
    case Cut => st
    case Early => Reject(st)
    case Frame(n, typ, data, good) =>
      var st1 := Receive(st, n, typ, data);
      if good then Accept(st1, data) else Reject(st1)
  }

  function ApplyAll(st: State, run: seq<Attempt>): State {
    if run == [] then st else Apply(ApplyAll(st, run[..|run| - 1]), run[|run| - 1])
  }

  lemma {:induction false} ApplyAllConcat(st: State, a: seq<Attempt>, b: seq<Attempt>)
    ensures ApplyAll(st, a + b) == ApplyAll(ApplyAll(st, a), b)
  {
    if b == [] {
      assert a + b == a;
    } else {
      assert (a + b)[..|a + b| - 1] == a + b[..|b| - 1];
      ApplyAllConcat(st, a, b[..|b| - 1]);
    }
  }

  // ----- memory -------------------------------------------------------------------------

  // The receiver has written `out` from `start` up to its pointer.
  predicate Holds(st: State, start: int, out: seq<byte>) {
    st.sink.addr == start + |out| && Written(st.mem, start, out)
  }

  predicate Written(mem: map<int, byte>, start: int, out: seq<byte>) {
    forall a :: start <= a < start + |out| ==> a in mem && mem[a] == out[a - start]
  }

  ghost predicate SameBelow(m: map<int, byte>, m': map<int, byte>, addr: int) {
    forall a :: a < addr ==> (a in m <==> a in m') && (a in m ==> m[a] == m'[a])
  }

  lemma SameBelowTrans(m: map<int, byte>, m': map<int, byte>, m'': map<int, byte>, a: int, b: int)
    requires SameBelow(m, m', a) && SameBelow(m', m'', b) && a <= b
    ensures SameBelow(m, m'', a)
  {
  }

  lemma WrittenStays(m: map<int, byte>, m': map<int, byte>, start: int, out: seq<byte>)
    requires Written(m, start, out) && SameBelow(m, m', start + |out|)
    ensures Written(m', start, out)
  {
  }

  // Feeding decodes, writes nothing below the pointer, and changes nothing else.
  lemma {:induction false} FeedDecodes(st: State, start: int, out: seq<byte>, data: seq<byte>)
    requires Holds(st, start, out)
    ensures var d, r := Decode(st.line.quote, Decoded(out, st.sink.escape), data), Feed(st, data);
            && Holds(r, start, d.out) && r.sink.escape == d.escape && |out| <= |d.out|
            && SameBelow(st.mem, r.mem, st.sink.addr)
            && r == st.(mem := r.mem, sink := r.sink)
  {
    if data != [] {
      FeedDecodes(st, start, out, data[..|data| - 1]);
    }
  }

  // Whatever is fed, memory below the pointer stays.
  lemma {:induction false} FeedKeepsBelow(st: State, data: seq<byte>)
    ensures var r := Feed(st, data);
            && st.sink.addr <= r.sink.addr && SameBelow(st.mem, r.mem, st.sink.addr)
            && r == st.(mem := r.mem, sink := r.sink)
  {
    if data != [] {
      FeedKeepsBelow(st, data[..|data| - 1]);
    }
  }

  // Memory below this address is written neither now nor after a restore.
  function SafeBound(st: State): int {
    if st.sink.addr < st.saved.addr then st.sink.addr else st.saved.addr
  }

  lemma ReceiveEffect(st: State, n: byte, typ: Option<byte>, data: seq<byte>)
    ensures var r := Receive(st, n, typ, data);
            r.done == st.done && r.lastN == n as int && r.n == n && r.line == st.line && (typ.Some? ==> r.kState == typ.value)
  {
    hide Feed;
    if typ.Some? {
      FeedKeepsBelow(Begin(st, n).(kState := typ.value), data);
    }
  }

  lemma ApplyDone(st: State, a: Attempt)
    requires !st.done && (IsGood(a) ==> a.typ.Some?)
    ensures Apply(st, a).done == IsBreak(a)
  {
    hide Answer, Negotiate, Receive;
    if a.Frame? {
      ReceiveEffect(st, a.n, a.typ, a.data);
    }
  }

  // No attempt changes memory below both the pointer and the checkpoint.
  lemma ApplyKeepsBelow(st: State, a: Attempt)
    ensures var r := Apply(st, a);
            var bound := SafeBound(st);
            SameBelow(st.mem, r.mem, bound) && bound <= r.sink.addr && bound <= r.saved.addr
  {
    hide Answer, Negotiate, Feed;
    if a.Frame? && a.typ.Some? {
      FeedKeepsBelow(Begin(st, a.n).(kState := a.typ.value), a.data);
    }
  }

  // ----- runs of blocks ---------------------------------------------------------------------

  // Copies of one packet: all with the same sequence number, the last one good, earlier ones
  // good copies or rejected; the first one has had its sequence number read.
  datatype Block = Block(n: byte, typ: byte, data: seq<byte>, tries: seq<Attempt>)

  function Good(b: Block): Attempt {
    Frame(b.n, Some(b.typ), b.data, true)
  }

  predicate IsTry(b: Block, a: Attempt) {
    a.Early? || (a.Frame? && a.n == b.n && (a.good ==> a == Good(b)))
  }

  predicate IsBlock(b: Block) {
    && b.typ != BREAK_TYPE
    && b.tries != [] && b.tries[0].Frame? && b.tries[|b.tries| - 1] == Good(b)
    && forall i :: 0 <= i < |b.tries| ==> IsTry(b, b.tries[i])
  }

  // What a receiver on a perfect line knows.
  datatype Ideal = Ideal(line: Line, decoded: Decoded)

  function IdealStep(i: Ideal, typ: byte, data: seq<byte>): Ideal {
    if typ == SEND_TYPE then i.(line := Negotiate(data))
    else if typ == DATA_TYPE then i.(decoded := Decode(i.line.quote, i.decoded, data))
    else i
  }

  // Each packet once.
  function IdealRun(i: Ideal, blocks: seq<Block>): Ideal {
    if blocks == [] then i
    else
      var last := blocks[|blocks| - 1];
      IdealStep(IdealRun(i, blocks[..|blocks| - 1]), last.typ, last.data)
  }

  function AllTries(blocks: seq<Block>): seq<Attempt> {
    if blocks == [] then [] else AllTries(blocks[..|blocks| - 1]) + blocks[|blocks| - 1].tries
  }

  // The i-th block has another sequence number than the one in front of it.
  predicate IsNext(lastN: int, blocks: seq<Block>, i: nat)
    requires i < |blocks|
  {
    IsBlock(blocks[i]) && blocks[i].n as int != (if i == 0 then lastN else blocks[i - 1].n as int)
  }

  predicate IsBlockRun(lastN: int, blocks: seq<Block>) {
    forall i :: 0 <= i < |blocks| ==> IsNext(lastN, blocks, i)
  }

  // The state agrees with the perfect line.
  predicate Agrees(st: State, start: int, i: Ideal) {
    !st.done && st.line == i.line && st.sink.escape == i.decoded.escape && Holds(st, start, i.decoded.out)
  }

  // Inside a block: the checkpoint is the state in front of the block.
  predicate InBlock(st: State, b: Block, start: int, i: Ideal) {
    && !st.done && st.lastN == b.n as int
    && st.saved == Sink(i.decoded.escape, start + |i.decoded.out|)
    && Holds(st.(sink := st.saved), start, i.decoded.out)
    && (st.line == i.line || (b.typ == SEND_TYPE && st.line == Negotiate(b.data)))
  }

  lemma BeginInBlock(st: State, b: Block, start: int, i: Ideal)
    requires (Agrees(st, start, i) && st.lastN != b.n as int) || InBlock(st, b, start, i)
    ensures var r := Begin(st, b.n);
            && InBlock(r, b, start, i) && Holds(r, start, i.decoded.out)
            && r.sink == r.saved && r.mem == st.mem && r.line == st.line
  {
  }

  predicate IsGood(a: Attempt) {
    a.Frame? && a.good
  }

  // One try of a block: the checkpoint holds, memory below it is untouched, and after a good
  // one the packet has been taken once.
  lemma TryInBlock(st: State, b: Block, start: int, i: Ideal, a: Attempt)
    requires (a.Frame? && Agrees(st, start, i) && st.lastN != b.n as int) || InBlock(st, b, start, i)
    requires IsTry(b, a) && b.typ != BREAK_TYPE
    ensures var r := Apply(st, a);
            && InBlock(r, b, start, i)
            && SameBelow(st.mem, r.mem, start + |i.decoded.out|)
            && (IsGood(a) ==> Agrees(r, start, IdealStep(i, b.typ, b.data)) && r.lastN == b.n as int)
  {
    hide Begin, Answer, Negotiate, ParmCount, ReplyFields, Feed, Decode;
    if a.Frame? {
      BeginInBlock(st, b, start, i);
      var st1 := Begin(st, b.n);
      if a.typ.Some? {
        var st2 := st1.(kState := a.typ.value);
        FeedKeepsBelow(st2, a.data);
        WrittenStays(st2.mem, Feed(st2, a.data).mem, start, i.decoded.out);
        if a.good && a.typ.value == DATA_TYPE {
          FeedDecodes(st2, start, i.decoded.out, a.data);
        }
      }
    }
  }

  lemma {:induction false} TriesInBlock(st: State, b: Block, start: int, i: Ideal, k: nat)
    requires Agrees(st, start, i) && st.lastN != b.n as int && IsBlock(b) && 0 < k <= |b.tries|
    ensures var r := ApplyAll(st, b.tries[..k]);
            && InBlock(r, b, start, i)
            && SameBelow(st.mem, r.mem, start + |i.decoded.out|)
            && (IsGood(b.tries[k - 1]) ==> Agrees(r, start, IdealStep(i, b.typ, b.data)))
  {
    assert b.tries[..k][..k - 1] == b.tries[..k - 1];
    hide Apply, InBlock, Agrees, IdealStep;
    if k > 1 {
      TriesInBlock(st, b, start, i, k - 1);
    }
    TryInBlock(ApplyAll(st, b.tries[..k - 1]), b, start, i, b.tries[k - 1]);
  }

  // After a whole block its packet has been taken exactly once.
  lemma BlockTakenOnce(st: State, b: Block, start: int, i: Ideal)
    requires Agrees(st, start, i) && st.lastN != b.n as int && IsBlock(b)
    ensures var r := ApplyAll(st, b.tries);
            && Agrees(r, start, IdealStep(i, b.typ, b.data)) && r.lastN == b.n as int
            && SameBelow(st.mem, r.mem, start + |i.decoded.out|)
  {
    assert b.tries[..|b.tries|] == b.tries;
    TriesInBlock(st, b, start, i, |b.tries|);
    hide Agrees, IdealStep, ApplyAll;
  }

  lemma InitIsRun(lastN: int, blocks: seq<Block>)
    requires blocks != [] && IsBlockRun(lastN, blocks)
    ensures var init, last := blocks[..|blocks| - 1], blocks[|blocks| - 1];
            && IsBlockRun(lastN, init) && IsBlock(last)
            && last.n as int != (if init == [] then lastN else init[|init| - 1].n as int)
  {
    var init := blocks[..|blocks| - 1];
    assert IsNext(lastN, blocks, |blocks| - 1);
    forall k | 0 <= k < |init|
      ensures IsNext(lastN, init, k)
    {
      assert IsNext(lastN, blocks, k);
    }
  }

  // Main result: over any run of blocks, memory from the start address to the pointer is the
  // decoding of every data packet exactly once, and memory below is unchanged.
  lemma {:induction false} BlocksTakenOnce(st: State, blocks: seq<Block>, start: int, i: Ideal)
    requires Agrees(st, start, i) && IsBlockRun(st.lastN, blocks)
    ensures var r := ApplyAll(st, AllTries(blocks));
            && Agrees(r, start, IdealRun(i, blocks))
            && |i.decoded.out| <= |IdealRun(i, blocks).decoded.out|
            && SameBelow(st.mem, r.mem, start + |i.decoded.out|)
            && r.lastN == (if blocks == [] then st.lastN else blocks[|blocks| - 1].n as int)
  {
    hide Agrees, IdealStep, IsBlock, IsBlockRun, Apply, SameBelow;
    if blocks == [] {
      SameBelowSelf(st.mem, start + |i.decoded.out|);
    } else {
      var init, last := blocks[..|blocks| - 1], blocks[|blocks| - 1];
      InitIsRun(st.lastN, blocks);
      BlocksTakenOnce(st, init, start, i);
      var mid, ideal := ApplyAll(st, AllTries(init)), IdealRun(i, init);
      var r := ApplyAll(mid, last.tries);
      assert ApplyAll(st, AllTries(blocks)) == r by {
        ApplyAllConcat(st, AllTries(init), last.tries);
      }
      assert IdealRun(i, blocks) == IdealStep(ideal, last.typ, last.data);
      hide ApplyAll, AllTries, IdealRun;
      BlockTakenOnce(mid, last, start, ideal);
      IdealGrows(ideal, last.typ, last.data);
      SameBelowTrans(st.mem, mid.mem, r.mem, start + |i.decoded.out|, start + |ideal.decoded.out|);
    }
  }

  lemma SameBelowSelf(m: map<int, byte>, a: int)
    ensures SameBelow(m, m, a)
  {
  }

  lemma IdealGrows(i: Ideal, typ: byte, data: seq<byte>)
    ensures |i.decoded.out| <= |IdealStep(i, typ, data).decoded.out|
  {
    DecodeAppends(i.line.quote, i.decoded, data);
  }

  // ----- a whole file ----------------------------------------------------------------------

  // The text of the data packets, one after the other.
  function DataText(blocks: seq<Block>): seq<byte> {
    if blocks == [] then []
    else
      var last := blocks[|blocks| - 1];
      DataText(blocks[..|blocks| - 1]) + (if last.typ == DATA_TYPE then last.data else [])
  }

  lemma {:induction false} IdealDecodes(i: Ideal, blocks: seq<Block>)
    requires forall k :: 0 <= k < |blocks| ==> blocks[k].typ != SEND_TYPE
    ensures IdealRun(i, blocks) == Ideal(i.line, Decode(i.line.quote, i.decoded, DataText(blocks)))
  {
    if blocks != [] {
      var init, last := blocks[..|blocks| - 1], blocks[|blocks| - 1];
      IdealDecodes(i, init);
      if last.typ == DATA_TYPE {
        DecodeCut(i.line.quote, i.decoded, DataText(init), last.data);
      } else {
        assert DataText(init) + [] == DataText(init);
      }
    }
  }

  // A file that is quoted, cut into data packets anywhere and sent with any rejected and
  // repeated packets arrives in memory as it is, and its size is what k_recv returns.
  lemma FileArrives(st: State, blocks: seq<Block>, start: int, file: seq<byte>)
    requires Agrees(st, start, Ideal(st.line, Decoded([], false))) && IsBlockRun(st.lastN, blocks)
    requires forall k :: 0 <= k < |blocks| ==> blocks[k].typ != SEND_TYPE
    requires LegalQuote(st.line.quote) && DataText(blocks) == Encode(st.line.quote, file)
    ensures var r := ApplyAll(st, AllTries(blocks));
            Holds(r, start, file) && r.sink.addr - start == |file| && SameBelow(st.mem, r.mem, start)
  {
    var i := Ideal(st.line, Decoded([], false));
    hide ApplyAll, AllTries, Encode, Decode, IdealRun, DataText;
    BlocksTakenOnce(st, blocks, start, i);
    IdealDecodes(i, blocks);
    DecodeInvertsEncode(st.line.quote, file);
  }

  // Any number of rejected copies of the last packet and one good one end the transfer and
  // leave the data alone.
  lemma BreakEnds(st: State, start: int, i: Ideal, n: byte, a: Attempt)
    requires Agrees(st, start, i)
    requires st.lastN != n as int || st.saved == st.sink
    requires a.Frame? && a.n == n && a.typ != Some(DATA_TYPE) && (a.good ==> a.typ == Some(BREAK_TYPE))
    ensures var r := Apply(st, a);
            && r.done == a.good && r.mem == st.mem && r.sink == st.sink && r.lastN == n as int && r.saved == r.sink
            && (!a.good ==> Agrees(r, start, i))
  {
    hide Answer, Negotiate;
  }

  // ----- the answers are themselves well formed --------------------------------------------------

  // Every answer, read by k_recv behind its START_CHAR, is a packet with the right length and
  // checks.  It is accepted exactly if the sender asked for this receiver's end of line, or
  // for none and the next character on the line is one.
  lemma AnswerReads(line: Line, typ: byte, n: byte, data: seq<byte>, rest: seq<byte>)
    requires n < 0xE0 && |data| <= 91 && AllGraphic(data) && IsGraphic(typ)
    ensures var a := Answer(line, typ, n, data);
            && |a| > line.padCount && a[..line.padCount] == Repeat(line.padChar, line.padCount)
            && a[line.padCount] == START_CHAR
            && var behind := a[line.padCount + 1..] + rest;
               && (line.eol != 0 ==> ReadPacket(behind) == Reading(Frame(n, Some(typ), data, line.eol == END_CHAR), rest))
               && (line.eol == 0 && rest != [] ==>
                    ReadPacket(behind) == Reading(Frame(n, Some(typ), data, rest[0] == END_CHAR), rest[1..]))
  {
    hide ShortHead, ReadPacket, AllGraphic, BlockCheck;
    var behind := Answer(line, typ, n, data)[line.padCount + 1..] + rest;
    if line.eol != 0 {
      ShortAccepted(n, typ, data, line.eol, rest);
      assert behind == ShortPacket(n, typ, data, line.eol) + rest;
    } else if rest != [] {
      ShortAccepted(n, typ, data, rest[0], rest[1..]);
      var packet := ShortPacket(n, typ, data, 0);
      assert ShortPacket(n, typ, data, rest[0]) == packet[..|packet| - 1] + [rest[0]];
      assert behind == ShortPacket(n, typ, data, rest[0]) + rest[1..];
    }
  }

  function AnswerType(a: Attempt): byte {
    if IsGood(a) then ACK_TYPE else NACK_TYPE
  }

  // The line as a good send-init packet leaves it.
  function LineStep(line: Line, a: Attempt): Line {
    if IsGood(a) && a.typ == Some(SEND_TYPE) then Negotiate(a.data) else line
  }

  function LineAt(line: Line, run: seq<Attempt>): Line {
    if run == [] then line else LineStep(LineAt(line, run[..|run| - 1]), run[|run| - 1])
  }

  // The answer to an attempt on a line: positive exactly if it was good, with its sequence
  // number, and framed as the sender of the last good send-init packet asked for.
  ghost predicate Answers(answer: seq<byte>, a: Attempt, line: Line) {
    exists n: byte, data: seq<byte> | |data| <= 13 ::
      && answer == Answer(line, AnswerType(a), n, data)
      && AllGraphic(data) && n < 0xE0 && (a.Frame? ==> n == a.n)
  }

  // What k_recv answers: a packet all of which has come in.
  predicate Answerable(a: Attempt) {
    !a.Cut? && (a.Frame? ==> a.n < 0xE0) && (IsGood(a) ==> a.typ.Some?)
  }

  predicate AllAnswerable(run: seq<Attempt>) {
    forall k :: 0 <= k < |run| ==> Answerable(run[k])
  }

  ghost predicate AllAnswered(line: Line, sent: seq<seq<byte>>, run: seq<Attempt>) {
    |sent| == |run| && forall k :: 0 <= k < |run| ==> Answers(sent[k], run[k], LineAt(line, run[..k + 1]))
  }

  lemma AcceptAnswers(st: State, data: seq<byte>, a: Attempt)
    requires st.n < 0xE0 && IsGood(a) && a.n == st.n
    ensures var r := Accept(st, data);
            && r.n == st.n && r.line == (if st.kState == SEND_TYPE then Negotiate(data) else st.line)
            && exists answer :: r.sent == st.sent + [answer] && Answers(answer, a, r.line)
  {
    hide Negotiate, AllGraphic, Answer, ParmCount, ReplyFields;
    var fields := if st.kState == SEND_TYPE then ReplyFields(ParmCount(data)) else [];
    ReplyFieldsGraphic(ParmCount(data));
    NothingGraphic();
    var r := Accept(st, data);
    var answer := Answer(r.line, AnswerType(a), st.n, fields);
    assert r.sent == st.sent + [answer] && Answers(answer, a, r.line);
  }

  lemma RejectAnswers(st: State, a: Attempt)
    requires st.n < 0xE0 && !IsGood(a) && (a.Frame? ==> a.n == st.n)
    ensures var r := Reject(st);
            && r.n == st.n && r.line == st.line
            && exists answer :: r.sent == st.sent + [answer] && Answers(answer, a, r.line)
  {
    hide AllGraphic, Answer;
    NothingGraphic();
    var answer := Answer(st.line, AnswerType(a), st.n, []);
    assert Reject(st).sent == st.sent + [answer] && Answers(answer, a, st.line);
  }

  lemma ApplyAnswers(st: State, a: Attempt)
    requires st.n < 0xE0 && Answerable(a)
    ensures var r := Apply(st, a);
            && r.n < 0xE0 && r.line == LineStep(st.line, a)
            && exists answer :: r.sent == st.sent + [answer] && Answers(answer, a, r.line)
  {
    hide Receive, Accept, Reject, Answers, Negotiate;
    if a.Frame? {
      ReceiveAnswersNothing(st, a.n, a.typ, a.data);
      ReceiveEffect(st, a.n, a.typ, a.data);
      var st1 := Receive(st, a.n, a.typ, a.data);
      if a.good {
        AcceptAnswers(st1, a.data, a);
      } else {
        RejectAnswers(st1, a);
      }
    } else {
      RejectAnswers(st, a);
    }
  }

  lemma NothingGraphic()
    ensures AllGraphic([])
  {
  }

  lemma ReceiveAnswersNothing(st: State, n: byte, typ: Option<byte>, data: seq<byte>)
    ensures Receive(st, n, typ, data).sent == st.sent && Receive(st, n, typ, data).n == n
  {
    hide Feed;
    if typ.Some? {
      FeedKeepsBelow(Begin(st, n).(kState := typ.value), data);
    }
  }

  lemma AnsweredSnoc(line: Line, sent: seq<seq<byte>>, run: seq<Attempt>, answer: seq<byte>)
    requires run != [] && AllAnswered(line, sent, run[..|run| - 1])
    requires Answers(answer, run[|run| - 1], LineAt(line, run))
    ensures AllAnswered(line, sent + [answer], run)
  {
    hide Answers, LineAt;
    var init := run[..|run| - 1];
    assert run[..|run|] == run;
    forall k | 0 <= k < |init|
      ensures Answers(sent[k], run[k], LineAt(line, run[..k + 1]))
    {
      assert init[..k + 1] == run[..k + 1];
    }
  }

  // Every attempt of a run is answered once, in order.
  lemma {:induction false} RunAnswered(st: State, run: seq<Attempt>)
    requires st.n < 0xE0 && st.sent == [] && AllAnswerable(run)
    ensures var r := ApplyAll(st, run);
            r.n < 0xE0 && r.line == LineAt(st.line, run) && AllAnswered(st.line, r.sent, run)
  {
    hide Answers, Apply, Answerable, LineStep;
    if run != [] {
      var init, a := run[..|run| - 1], run[|run| - 1];
      RunAnswered(st, init);
      var mid := ApplyAll(st, init);
      ApplyAnswers(mid, a);
      var answer :| Apply(mid, a).sent == mid.sent + [answer] && Answers(answer, a, Apply(mid, a).line);
      AnsweredSnoc(st.line, mid.sent, run, answer);
    }
  }

  lemma ReplyFieldsGraphic(bytes: nat)
    ensures AllGraphic(ReplyFields(bytes))
  {
  }

  // ----- the stream ----------------------------------------------------------------------------------

  datatype Wake = Silent | Quit(rest: seq<byte>) | Start(rest: seq<byte>)

  // Wait for a START_CHAR or a ^C.
  function Await(s: seq<byte>): (r: Wake)
    ensures !r.Silent? ==> |r.rest| < |s|
  {
    if s == [] then Silent
    else if s[0] == START_CHAR then Start(s[1..])
    else if s[0] == ETX_CHAR then Quit(s[1..])
    else Await(s[1..])
  }

  predicate IsBreak(a: Attempt) {
    a.Frame? && a.good && a.typ == Some(BREAK_TYPE)
  }

  // How a stream of characters ends for k_recv.
  datatype End = Waiting | Aborted | Complete

  datatype Stream = Stream(run: seq<Attempt>, end: End)

  // The attempts k_recv reads from a stream.
  function ReadStream(s: seq<byte>): Stream
    decreases |s|
  {
    match Await(s)
    case Silent => Stream([], Waiting)
    case Quit(_) => Stream([], Aborted)
    case Start(packet) =>
      var p := ReadPacket(packet);
      if p.attempt.Cut? then Stream([], Waiting)
      else if IsBreak(p.attempt) then Stream([p.attempt], Complete)
      else var more := ReadStream(p.rest); Stream([p.attempt] + more.run, more.end)
  }

  function Prepend(run: seq<Attempt>, s: Stream): Stream {
    Stream(run + s.run, s.end)
  }

  // The state k_recv sets up.
  function Initial(start: int, mem: map<int, byte>, sent: seq<seq<byte>>): State {
    State(DEFAULT_LINE, Sink(false, start), Sink(false, start), 0, 0, -1, 0, mem, sent, false)
  }

  // The stream goes on behind an attempt that does not end the transfer.
  lemma ReadStreamStep(s: seq<byte>, packet: seq<byte>, a: Attempt, rest: seq<byte>)
    requires Await(s) == Start(packet) && ReadPacket(packet) == Reading(a, rest) && !a.Cut?
    ensures ReadStream(s) == if IsBreak(a) then Stream([a], Complete) else Prepend([a], ReadStream(rest))
  {
    hide Await, ReadPacket, IsBreak;
  }

  lemma ReadStreamStops(s: seq<byte>)
    ensures Await(s).Silent? ==> ReadStream(s) == Stream([], Waiting)
    ensures Await(s).Quit? ==> ReadStream(s) == Stream([], Aborted)
    ensures Await(s).Start? && ReadPacket(Await(s).rest).attempt.Cut? ==> ReadStream(s) == Stream([], Waiting)
  {
    hide Await, ReadPacket, IsBreak;
  }

  lemma PrependTwice(run: seq<Attempt>, a: Attempt, s: Stream)
    ensures Prepend(run, Prepend([a], s)) == Prepend(run + [a], s)
    ensures Prepend(run, Stream([], s.end)) == Stream(run, s.end)
  {
    assert run + ([a] + s.run) == run + [a] + s.run;
    assert run + [] == run;
  }

  lemma PrependOne(run: seq<Attempt>, a: Attempt)
    ensures Prepend(run, Stream([a], Complete)) == Stream(run + [a], Complete)
  {
  }

  lemma ApplyAllSnoc(st: State, run: seq<Attempt>, a: Attempt)
    ensures ApplyAll(st, run + [a]) == Apply(ApplyAll(st, run), a)
  {
    assert (run + [a])[..|run|] == run;
  }

  lemma ReadAnswerable(s: seq<byte>)
    ensures var a := ReadPacket(s).attempt; a.Cut? || Answerable(a)
  {
    hide BlockCheck, Sum, ReadBody;
  }

  // Whatever comes in, each packet of the stream is answered once, in order, on the line
  // agreed upon so far.
  lemma StreamAnswered(s: seq<byte>, start: int, mem: map<int, byte>)
    ensures AllAnswered(DEFAULT_LINE, ApplyAll(Initial(start, mem, []), ReadStream(s).run).sent, ReadStream(s).run)
  {
    hide AllAnswered, AllAnswerable, ReadStream, Apply;
    StreamAnswerable(s);
    RunAnswered(Initial(start, mem, []), ReadStream(s).run);
  }

  lemma {:induction false} StreamAnswerable(s: seq<byte>)
    ensures AllAnswerable(ReadStream(s).run)
    decreases |s|
  {
    hide Answerable, ReadPacket, Await, IsBreak;
    if Await(s).Start? {
      ReadAnswerable(Await(s).rest);
      if !IsBreak(ReadPacket(Await(s).rest).attempt) {
        StreamAnswerable(ReadPacket(Await(s).rest).rest);
      }
    }
  }

  predicate IsFiller(s: seq<byte>) {
    forall i :: 0 <= i < |s| ==> s[i] != START_CHAR && s[i] != ETX_CHAR
  }

  lemma {:induction false} AwaitSkips(filler: seq<byte>, s: seq<byte>)
    requires IsFiller(filler)
    ensures Await(filler + [START_CHAR] + s) == Start(s)
  {
    var all := filler + [START_CHAR] + s;
    if filler == [] {
      assert all[1..] == s;
    } else {
      assert all[1..] == filler[1..] + [START_CHAR] + s;
      AwaitSkips(filler[1..], s);
    }
  }

  // A well-formed packet on the line, behind any noise, is one good attempt.
  lemma StreamReadsShort(filler: seq<byte>, n: byte, typ: byte, data: seq<byte>, rest: seq<byte>)
    requires IsFiller(filler) && |data| <= 91 && AllGraphic(data) && IsGraphic(typ) && n < 0xE0 && typ != BREAK_TYPE
    ensures var s := filler + [START_CHAR] + (ShortPacket(n, typ, data, END_CHAR) + rest);
            ReadStream(s) == Stream([Frame(n, Some(typ), data, true)] + ReadStream(rest).run, ReadStream(rest).end)
  {
    hide ShortPacket, ReadPacket, AllGraphic, Await;
    ShortAccepted(n, typ, data, END_CHAR, rest);
    AwaitSkips(filler, ShortPacket(n, typ, data, END_CHAR) + rest);
  }
}
