// The sender's side of a transfer to k_recv (common/cmd_load.c): what it announces in its
// send-init packet, and what it may then rely on.  Kermit Protocol Manual, section 5 (Initial
// Connection).

module KermitSender {
  import opened Words
  import opened KermitCode
  import opened KermitPacket
  import opened KermitReceiver
  import opened KermitEarly
  import opened KermitTransfer

  // ----- the announcement -----------------------------------------------------------------------

  // Longest packet and timeout, padding, end of line and quote the sender wants to use.
  datatype Announcement = Announcement(maxl: byte, time: byte, npad: byte, padc: byte, eol: byte, qctl: byte)

  predicate IsControl(c: byte) {
    c < 0x20 || c == 0x7F
  }

  predicate Sendable(a: Announcement) {
    a.maxl < 0xE0 && a.time < 0xE0 && a.npad < 0xE0 && a.eol < 0xE0 && IsControl(a.padc) && IsGraphic(a.qctl)
  }

  // ctl: control characters are sent with bit 6 inverted.
  function Ctl(c: byte): byte
    requires IsControl(c)
  {
    if c == 0x7F then 0x3F else c + 0x40
  }

  function AnnounceText(a: Announcement): (s: seq<byte>)
    requires Sendable(a)
    ensures |s| == 6
  {
    [a.maxl + 0x20, a.time + 0x20, a.npad + 0x20, Ctl(a.padc), a.eol + 0x20, a.qctl]
  }

  // The data of a send-init packet: a sender can leave fields out at the end, or add more.
  predicate Announces(data: seq<byte>, a: Announcement) {
    && Sendable(a)
    && if |data| <= 6 then data == AnnounceText(a)[..|data|] else data[..6] == AnnounceText(a)
  }

  // The line when the first `fields` fields have been sent; the others have their defaults, of
  // which the manual says CR for the end of line and '#' for the quote.
  function Announced(a: Announcement, fields: nat): Line {
    Line(
      if fields >= 5 then a.eol else 0x0D,
      if fields >= 3 then a.npad else 0,
      if fields >= 4 then a.padc else 0,
      if fields >= 6 then a.qctl else 0x23)
  }

  // The receiver takes exactly what the sender has announced.
  lemma AnnouncementTaken(data: seq<byte>, a: Announcement)
    requires Announces(data, a)
    ensures Negotiate(data) == Announced(a, |data|)
  {
    var text := AnnounceText(a);
    assert forall i :: 0 <= i < |data| && i < 6 ==> data[i] == (if |data| <= 6 then text[..|data|] else data[..6])[i] == text[i];
    CharTaken(a.npad);
    CharTaken(a.eol);
    assert Ktrans(Ctl(a.padc)) == a.padc;
    hide Ktrans, UnChar, Ctl;
  }

  lemma CharTaken(x: byte)
    requires x < 0xE0
    ensures UnChar(x + 0x20) == x
  {
    CharRoundTrip(x);
  }

  // The answer to a send-init packet asks for what k_recv itself needs and can take: no padding,
  // CR, '#', no eighth-bit quoting, check type 1, no repeat counts, and extended packets of any
  // length two digits to base 95 can state.
  lemma ReplyOffers(bytes: nat)
    ensures Negotiate(ReplyFields(bytes)) == DEFAULT_LINE
    ensures bytes >= 10 ==>
              var r := ReplyFields(bytes);
              && |r| == 13 && UnChar(r[0]) == 94 && UnChar(r[1]) == 1
              && r[6] == 'N' as int && r[7] == '1' as int && r[8] == 'N' as int
              && UnChar(r[9]) == 2 && UnChar(r[10]) == 0 && UnChar(r[11]) * 95 + UnChar(r[12]) == 95 * 95 - 1
    ensures bytes < 10 ==> ReplyFields(bytes) == ReplyFields(10)[..bytes]
  {
  }

  // ----- the file ---------------------------------------------------------------------------------

  lemma {:induction false} LineAfterLast(line: Line, pre: seq<Block>, b: Block, post: seq<Block>)
    requires b.typ == SEND_TYPE && NoneOf(post, SEND_TYPE)
    ensures LineAfter(line, pre + [b] + post) == Negotiate(b.data)
  {
    hide Negotiate;
    if post == [] {
      assert pre + [b] + post == pre + [b];
    } else {
      var blocks := pre + [b] + post;
      assert blocks[..|blocks| - 1] == pre + [b] + post[..|post| - 1];
      LineAfterLast(line, pre, b, post[..|post| - 1]);
    }
  }

  // A sender announces its quote in a send-init packet, quotes the file with it, cuts it into
  // data packets, and ends with a break packet, with any copies and rejects of all of them.
  ghost predicate Sends(run: seq<Attempt>, pre: seq<Block>, b: Block, post: seq<Block>, body: seq<Block>,
                        ends: seq<Attempt>, end: Attempt, a: Announcement, file: seq<byte>) {
    var quote := Announced(a, |b.data|).quote;
    && b.typ == SEND_TYPE && Announces(b.data, a) && LegalQuote(quote)
    && NoneOf(pre, DATA_TYPE) && NoneOf(post, DATA_TYPE) && NoneOf(post, SEND_TYPE) && NoneOf(body, SEND_TYPE)
    && run == AllTries(pre + [b] + post + body) + ends + [end]
    && IsBlockRun(-1, pre + [b] + post + body) && DataText(body) == Encode(quote, file)
    && IsBreak(end) && end.n as int != LastNumber(-1, pre + [b] + post + body) && RejectedEnds(ends, end.n)
  }

  lemma SendsTransfer(run: seq<Attempt>, pre: seq<Block>, b: Block, post: seq<Block>, body: seq<Block>,
                      ends: seq<Attempt>, end: Attempt, a: Announcement, file: seq<byte>)
    requires Sends(run, pre, b, post, body, ends, end, a, file)
    ensures IsTransfer(run, pre + [b] + post, body, ends, end, file)
  {
    hide LineAfter, Negotiate, Announced, Announces, AllTries, IsBlockRun, DataText, Encode, IsBreak, LegalQuote;
    LineAfterLast(DEFAULT_LINE, pre, b, post);
    AnnouncementTaken(b.data, a);
    HeadWithoutData(pre, b, post);
  }

  lemma HeadWithoutData(pre: seq<Block>, b: Block, post: seq<Block>)
    requires NoneOf(pre, DATA_TYPE) && NoneOf(post, DATA_TYPE) && b.typ == SEND_TYPE
    ensures NoneOf(pre + [b] + post, DATA_TYPE)
  {
  }

  // Main result: a file sent with the announced quote arrives.
  lemma FileSent(items: seq<Item>, rest: seq<byte>, pre: seq<Block>, b: Block, post: seq<Block>, body: seq<Block>,
                 ends: seq<Attempt>, a: Announcement, file: seq<byte>, start: int, mem: map<int, byte>, sent: seq<seq<byte>>)
    requires items != [] && forall k :: 0 <= k < |items| ==> Delivers(items[k])
    requires Sends(Attempts(items), pre, b, post, body, ends, items[|items| - 1].attempt, a, file)
    ensures var s := ReadStream(Wire(items, rest));
            var r := ApplyAll(Initial(start, mem, sent), s.run);
            s.end == Complete && Written(r.mem, start, file) && r.sink.addr - start == |file| && SameBelow(mem, r.mem, start)
  {
    hide Delivers, ReadStream, Wire, ApplyAll, Initial, Written, SameBelow, Sends, IsTransfer;
    SendsTransfer(Attempts(items), pre, b, post, body, ends, items[|items| - 1].attempt, a, file);
    FileTransferred(items, rest, pre + [b] + post, body, ends, file, start, mem, sent);
  }

  // ----- the answers --------------------------------------------------------------------------------

  predicate GoodSend(a: Attempt) {
    IsGood(a) && a.typ == Some(SEND_TYPE)
  }

  lemma {:induction false} LineSince(line: Line, run: seq<Attempt>, j: nat)
    requires j < |run| && GoodSend(run[j]) && forall i :: j < i < |run| ==> !GoodSend(run[i])
    ensures LineAt(line, run) == Negotiate(run[j].data)
  {
    hide Negotiate, GoodSend;
    var init := run[..|run| - 1];
    if j < |run| - 1 {
      NoSend(run[|run| - 1]);
      LineSince(line, init, j);
    } else {
      IsSend(run[j]);
    }
  }

  lemma NoSend(a: Attempt)
    requires !GoodSend(a)
    ensures forall line :: LineStep(line, a) == line
  {
  }

  lemma IsSend(a: Attempt)
    requires GoodSend(a)
    ensures forall line :: LineStep(line, a) == Negotiate(a.data)
  {
    hide Negotiate;
  }

  // An answer comes behind the padding and ends with the end of line that were announced.
  lemma AnswerFramed(answer: seq<byte>, a: Attempt, line: Line)
    requires Answers(answer, a, line)
    ensures |answer| > line.padCount && answer[line.padCount] == START_CHAR
    ensures forall i :: 0 <= i < line.padCount ==> answer[i] == line.padChar
    ensures line.eol != 0 ==> answer[|answer| - 1] == line.eol
  {
    hide AllGraphic, ShortHead, BlockCheck;
    var n: byte, data: seq<byte> :| |data| <= 13 && answer == Answer(line, AnswerType(a), n, data);
  }

  // Main result: from a good send-init packet on, every answer is framed as its sender has
  // announced there.
  lemma AnsweredAsAnnounced(s: seq<byte>, start: int, mem: map<int, byte>, j: nat, k: nat, a: Announcement)
    requires j <= k < |ReadStream(s).run| && GoodSend(ReadStream(s).run[j]) && Announces(ReadStream(s).run[j].data, a)
    requires forall i :: j < i <= k ==> !GoodSend(ReadStream(s).run[i])
    ensures var run := ReadStream(s).run;
            var sent, line := ApplyAll(Initial(start, mem, []), run).sent, Announced(a, |run[j].data|);
            && |sent| == |run| && Answers(sent[k], run[k], line)
            && |sent[k]| > line.padCount && sent[k][line.padCount] == START_CHAR
            && (forall i :: 0 <= i < line.padCount ==> sent[k][i] == line.padChar)
            && (line.eol != 0 ==> sent[k][|sent[k]| - 1] == line.eol)
  {
    var run := ReadStream(s).run;
    assert run[j].Frame?;
    hide ReadStream, Answers, GoodSend, Announces, Announced, Negotiate, LineAt, Apply;
    var sent := ApplyAll(Initial(start, mem, []), run).sent;
    StreamAnswered(s, start, mem);
    hide ApplyAll, Initial;
    assert Answers(sent[k], run[k], LineAt(DEFAULT_LINE, run[..k + 1]));
    assert forall i :: 0 <= i <= k ==> run[..k + 1][i] == run[i];
    LineSince(DEFAULT_LINE, run[..k + 1], j);
    AnnouncementTaken(run[j].data, a);
    AnswerFramed(sent[k], run[k], Announced(a, |run[j].data|));
  }
}
