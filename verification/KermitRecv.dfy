// k_recv and the routines it calls (common/cmd_load.c), working character by character on
// their global variables and on memory, proved to follow the attempts of KermitReceiver.

module KermitRecv {
  import opened Words
  import opened KermitCode
  import opened KermitPacket
  import R = KermitReceiver

  datatype Status = NoMore | Error | Fine

  class Receiver {
    const input: seq<byte>
    const start: int
    var pos: nat

    var hisEol: byte
    var hisPadCount: byte
    var hisPadChar: byte
    var hisQuote: byte

    var escape: bool
    var escapeSaved: bool
    var addr: int
    var addrSaved: int
    var kState: byte
    var kStateSaved: byte
    var lastN: int
    var n: byte
    var done: bool
    var mem: map<int, byte>
    var sent: seq<seq<byte>>

    const sendParms: array<byte>
    var sendPtr: nat

    constructor (input: seq<byte>, start: int, mem: map<int, byte>)
      ensures this.input == input && this.start == start && pos == 0 && fresh(sendParms)
      ensures sendParms.Length == R.SEND_DATA_SIZE && this.mem == mem && sent == []
    {
      this.input, this.start, this.mem := input, start, mem;
      pos, sent := 0, [];
      hisEol, hisPadCount, hisPadChar, hisQuote := 0, 0, 0, 0;
      escape, escapeSaved, addr, addrSaved := false, false, 0, 0;
      kState, kStateSaved, lastN, n, done := 0, 0, 0, 0, false;
      sendParms, sendPtr := new byte[R.SEND_DATA_SIZE], 0;
    }

    function Line(): R.Line
      reads this
    {
      R.Line(hisEol, hisPadCount, hisPadChar, hisQuote)
    }

    function S(): R.State
      reads this
    {
      R.State(Line(), R.Sink(escape, addr), R.Sink(escapeSaved, addrSaved), kState, kStateSaved, lastN, n, mem, sent, done)
    }

    // k_data_save
    method Save()
      modifies this`escapeSaved, this`addrSaved
      ensures S() == old(S()).(saved := old(S()).sink)
    {
      escapeSaved := escape;
      addrSaved := addr;
    }

    // k_data_restore
    method Restore()
      modifies this`escape, this`addr
      ensures S() == old(S()).(sink := old(S()).saved)
    {
      escape := escapeSaved;
      addr := addrSaved;
    }

    // bin_data_char
    method BinDataChar(c: byte)
      modifies this`mem, this`addr
      ensures S() == old(S()).(mem := old(mem)[old(addr) := c], sink := R.Sink(escape, old(addr) + 1))
    {
      mem := mem[addr := c];
      addr := addr + 1;
    }

    // k_data_char
    method DataChar(c: byte)
      modifies this`mem, this`addr, this`escape
      ensures S() == R.FeedChar(old(S()), c)
    {
      if escape {
        BinDataChar(Ktrans(c));
        escape := false;
      } else if c == hisQuote {
        escape := true;
      } else {
        BinDataChar(c);
      }
    }

    // send_pad and s1_sendpacket; `packet` ends in front of its NUL.
    method SendPacket(packet: seq<byte>)
      modifies this`sent
      ensures sent == old(sent) + [R.Repeat(hisPadChar, hisPadCount) + packet]
    {
      var out: seq<byte> := [];
      var count: int := hisPadCount;
      while count > 0
        invariant 0 <= count <= hisPadCount && out == R.Repeat(hisPadChar, hisPadCount - count)
      {
        out := out + [hisPadChar];
        count := count - 1;
      }
      sent := sent + [out + packet];
    }

    // send_ack, send_nack and the end of handle_send_packet: fill in the frame around `data`.
    method SendAnswer(typ: byte, data: seq<byte>)
      requires |data| <= 91
      modifies this`sent
      ensures S() == old(S()).(sent := old(sent) + [R.Answer(Line(), typ, n, data)])
    {
      hide Sum, BlockCheck;
      var head := [ToChar(|data| + 3), ToChar(n), typ] + data;
      var check := Chk1(head);
      var packet := [START_CHAR] + head + [ToChar(check)];
      if hisEol != 0 {
        packet := packet + [hisEol];
      }
      assert packet == (var full := [START_CHAR] + ShortPacket(n, typ, data, hisEol);
                        if hisEol == 0 then full[..|full| - 1] else full);
      SendPacket(packet);
    }

    // The parameters a send-init packet has left in send_parms.
    predicate Parms(data: seq<byte>)
      reads this, sendParms
    {
      && sendParms.Length == R.SEND_DATA_SIZE
      && sendPtr == (if |data| < R.SEND_DATA_SIZE - 1 then |data| else R.SEND_DATA_SIZE - 1)
      && forall i :: 0 <= i < |data| && i < R.SEND_DATA_SIZE - 1 ==> sendParms[i] == data[i]
    }

    // Put one parameter byte away; a full buffer keeps its last place for overwriting.
    method SendParm(c: byte, ghost data: seq<byte>)
      requires Parms(data)
      modifies this`sendPtr, sendParms
      ensures Parms(data + [c]) && S() == old(S())
    {
      sendParms[sendPtr] := c;
      sendPtr := sendPtr + 1;
      if sendPtr >= R.SEND_DATA_SIZE {
        sendPtr := sendPtr - 1;
      }
    }

    // The parameters handle_send_packet remembers.
    method ReadParms(ghost data: seq<byte>) returns (bytes: nat)
      requires Parms(data)
      modifies this`hisEol, this`hisPadCount, this`hisPadChar, this`hisQuote, this`sendPtr
      ensures Line() == R.Negotiate(data) && bytes == R.ParmCount(data)
    {
      DefaultLine();
      if sendPtr == R.SEND_DATA_SIZE - 1 {
        sendPtr := sendPtr - 1;
      }
      bytes := sendPtr;
      if bytes > 2 {
        hisPadCount := UnChar(sendParms[2]);
      }
      if bytes > 3 {
        hisPadChar := Ktrans(sendParms[3]);
      }
      if bytes > 4 {
        hisEol := UnChar(sendParms[4]);
      }
      if bytes > 5 {
        hisQuote := sendParms[5];
      }
    }

    // handle_send_packet
    method HandleSendPacket(ghost data: seq<byte>)
      requires Parms(data) && kState == SEND_TYPE
      modifies this
      ensures S() == R.Accept(old(S()), data) && pos == old(pos)
    {
      hide R.Answer, R.ReplyFields, R.Negotiate, R.ParmCount;
      var bytes := ReadParms(data);
      SendAnswer(ACK_TYPE, R.ReplyFields(bytes));
    }

    // getc() followed by the test for characters below SPACE.
    method GetChecked() returns (status: Status, c: byte)
      requires pos <= |input|
      modifies this`pos
      ensures pos <= |input|
      ensures match GetGraphic(input[old(pos)..])
              case Gone => status == NoMore
              case Bad(rest) => status == Error && input[pos..] == rest
              case Got(d, rest) => status == Fine && c == d && input[pos..] == rest
    {
      if pos == |input| {
        return NoMore, 0;
      }
      c := input[pos];
      assert input[pos..][1..] == input[pos + 1..];
      pos := pos + 1;
      status := if IsGraphic(c) then Fine else Error;
    }

    // What the packet type has done with the data so far.
    ghost predicate Taken(data: seq<byte>, before: R.State)
      reads this, sendParms
    {
      && S() == (if before.kState == DATA_TYPE then R.Feed(before, data) else before)
      && kState == before.kState && (kState == SEND_TYPE ==> Parms(data))
    }

    // One data character, according to the packet type.
    method TakeChar(c: byte, ghost data: seq<byte>, ghost before: R.State)
      requires Taken(data, before)
      modifies this`mem, this`addr, this`escape, this`sendPtr, sendParms
      ensures Taken(data + [c], before)
    {
      assert (data + [c])[..|data|] == data;
      if kState == DATA_TYPE {
        DataChar(c);
      } else if kState == SEND_TYPE {
        SendParm(c, data);
      }
    }

    // The loop that brings in the data of a packet.
    method BringIn(length: nat, sum0: nat) returns (status: Status, sum: nat, ghost data: seq<byte>)
      requires pos <= |input| && Parms([])
      modifies this, sendParms
      ensures pos <= |input|
      ensures match ReadBody(input[old(pos)..], length)
              case Missing => status == NoMore
              case Broken(d, rest) => status == Error && data == d && input[pos..] == rest
              case Whole(d, rest) => status == Fine && data == d && input[pos..] == rest && sum == sum0 + Sum(d)
      ensures S() == if old(kState) == DATA_TYPE then R.Feed(old(S()), data) else old(S())
      ensures old(kState) == SEND_TYPE ==> Parms(data)
    {
      hide IsGraphic, R.Feed, R.FeedChar, GetGraphic, Sum;
      ghost var s, before := input[pos..], S();
      sum, data := sum0, [];
      SumNothing();
      var left := length;
      assert R.Feed(before, []) == before by {
        FeedNothing(before);
      }
      assert ReadBody(s, length) == Behind(data, ReadBody(s, left)) by {
        BehindNothing(ReadBody(s, left));
      }
      while left > 0
        invariant pos <= |input| && 0 <= left <= length
        invariant ReadBody(s, length) == Behind(data, ReadBody(input[pos..], left))
        invariant sum == sum0 + Sum(data) && Taken(data, before)
        decreases left
      {
        ghost var rest := input[pos..];
        var c: byte;
        status, c := GetChecked();
        if status != Fine {
          assert data + [] == data;
          return;
        }
        BehindOne(data, c, ReadBody(input[pos..], left - 1));
        SumOne(data, c);
        sum := sum + c;
        left := left - 1;
        TakeChar(c, data, before);
        data := data + [c];
      }
      assert data + [] == data;
      status := Fine;
    }

    // Block check and end of line.
    method ReceiveTail(sum: nat, ghost m: byte, ghost t: byte, ghost d: seq<byte>) returns (status: Status)
      requires pos <= |input|
      modifies this`pos
      ensures pos <= |input|
      ensures var r := ReadTail(m, t, d, sum, input[old(pos)..]);
              && (status == NoMore <==> r.attempt.Cut?)
              && (status != NoMore ==> r == Reading(Frame(m, Some(t), d, status == Fine), input[pos..]))
    {
      hide ToChar, BlockCheck, GetGraphic;
      var c: byte;
      status, c := GetChecked();
      if status != Fine {
        return;
      }
      if c != ToChar(BlockCheck(sum)) {
        return Error;
      }
      if pos == |input| {
        return NoMore;
      }
      assert input[pos..][1..] == input[pos + 1..];
      pos := pos + 1;
      status := if input[pos - 1] == END_CHAR then Fine else Error;
    }

    // Data, block check and end of line of a packet whose header has been read.
    method ReceiveRest(count: nat, sum0: nat, ghost m: byte, ghost t: byte) returns (status: Status, ghost data: seq<byte>)
      requires pos <= |input| && Parms([])
      modifies this, sendParms
      ensures pos <= |input|
      ensures var r := ReadRest(m, t, count, sum0, input[old(pos)..]);
              && (status == NoMore <==> r.attempt.Cut?)
              && (status != NoMore ==> r == Reading(Frame(m, Some(t), data, status == Fine), input[pos..]))
      ensures S() == if old(kState) == DATA_TYPE then R.Feed(old(S()), data) else old(S())
      ensures status == Fine && old(kState) == SEND_TYPE ==> Parms(data)
    {
      hide ReadBody, ReadTail, Sum, R.Feed;
      var sum: nat;
      status, sum, data := BringIn(count, sum0);
      if status != Fine {
        return;
      }
      status := ReceiveTail(sum, m, t, data);
    }

    // The two length digits and the header check of an extended packet.
    method ReceiveExtended(sum0: nat, ghost m: byte, ghost t: byte) returns (status: Status, count: nat, sum: nat)
      requires pos <= |input|
      modifies this`pos
      ensures pos <= |input|
      ensures var r := ReadExtended(m, t, sum0, input[old(pos)..]);
              match status
              case NoMore => r.attempt.Cut?
              case Error => r == Reading(Frame(m, Some(t), [], false), input[pos..])
              case Fine => r == ReadRest(m, t, count, sum, input[pos..])
    {
      hide GetGraphic, ToChar, BlockCheck, UnChar, ReadRest, DataCount;
      count, sum := 0, sum0;
      var hi, lo, check: byte;
      status, hi := GetChecked();
      if status != Fine {
        return;
      }
      status, lo := GetChecked();
      if status != Fine {
        return;
      }
      status, check := GetChecked();
      if status != Fine {
        return;
      }
      sum := sum0 + hi + lo;
      if check != ToChar(BlockCheck(sum)) {
        return Error, 0, sum;
      }
      sum := sum + check;
      count := DataCount(UnChar(hi) * 95 + UnChar(lo));
    }

    // Restore the checkpoint of a repeated packet, or take a new one.
    method CheckSequence()
      modifies this`lastN, this`kState, this`kStateSaved, this`escape, this`addr, this`escapeSaved, this`addrSaved
      ensures S() == R.Begin(old(S()), n)
    {
      if n as int == lastN {
        kState := kStateSaved;
        Restore();
      } else {
        lastN := n;
        kStateSaved := kState;
        Save();
      }
    }

    // The part of a packet behind its sequence number.
    method ReceiveTyped(c0: byte, c1: byte) returns (status: Status, ghost typ: Option<byte>, ghost data: seq<byte>)
      requires pos <= |input| && Parms([])
      modifies this, sendParms
      ensures pos <= |input|
      ensures var r := ReadTyped(c0, c1, input[old(pos)..]);
              && (status == NoMore <==> r.attempt.Cut?)
              && (status != NoMore ==> r == Reading(Frame(UnChar(c1), typ, data, status == Fine), input[pos..]))
      ensures S() == Typed(old(S()), typ, data)
      ensures status == Fine && kState == SEND_TYPE ==> Parms(data)
      ensures status == Fine ==> typ.Some?
    {
      hide GetGraphic, ReadRest, ReadExtended, UnChar, DataCount, R.Feed;
      typ, data := None, [];
      var t: byte;
      status, t := GetChecked();
      if status != Fine {
        return;
      }
      kState := t;
      typ := Some(t);
      var begun := S();
      assert R.Feed(begun, []) == begun by {
        FeedNothing(begun);
      }
      var sum := c0 as int + c1 + t;
      var count := DataCount(UnChar(c0) as int - 2);
      if UnChar(c0) as int - 2 == -2 {
        status, count, sum := ReceiveExtended(sum, UnChar(c1), t);
        if status != Fine {
          return;
        }
      }
      status, data := ReceiveRest(count, sum, UnChar(c1), t);
      FeedKeepsState(begun, data);
    }

    // A packet behind its START_CHAR, up to `packet_error` or its end of line.
    method ReceivePacket() returns (status: Status, ghost a: Attempt)
      requires pos <= |input| && Parms([])
      modifies this, sendParms
      ensures pos <= |input|
      ensures var r := ReadPacket(input[old(pos)..]);
              && (status == NoMore <==> r.attempt.Cut?)
              && (status != NoMore ==> r == Reading(a, input[pos..]))
      ensures status != NoMore ==> match a
              case Cut => false
              case Early => status == Error && S() == old(S())
              case Frame(m, typ, data, good) =>
                && S() == R.Receive(old(S()), m, typ, data)
                && status == (if good then Fine else Error)
                && (good ==> typ.Some? && (kState == SEND_TYPE ==> Parms(data)))
      ensures status == NoMore ==> Partial(old(S()))
    {
      hide GetGraphic, ReadTyped, UnChar, R.Begin, R.Feed, R.SameBelow;
      a := Cut;
      var c0, c1: byte;
      status, c0 := GetChecked();
      R.SameBelowSelf(mem, R.SafeBound(S()));
      if status != Fine {
        return status, if status == NoMore then Cut else Early;
      }
      status, c1 := GetChecked();
      if status != Fine {
        return status, if status == NoMore then Cut else Early;
      }
      n := UnChar(c1);
      CheckSequence();
      BeginSetsNumber(old(S()), n);
      ghost var begun := S();
      ghost var typ: Option<byte>;
      ghost var data: seq<byte>;
      status, typ, data := ReceiveTyped(c0, c1);
      TypedKeepsBelow(old(S()), begun.n, typ, data);
      assert S() == R.Receive(old(S()), begun.n, typ, data);
      a := if status == NoMore then Cut else Frame(UnChar(c1), typ, data, status == Fine);
    }

    // What holds in the middle of a packet: memory below the pointer and the checkpoint is
    // as it was.
    ghost predicate Partial(before: R.State)
      reads this
    {
      var bound := R.SafeBound(before);
      R.SameBelow(before.mem, mem, bound) && bound <= addr && bound <= addrSaved
    }

    // Wait for the starting character or ^C.
    method WaitForStart() returns (status: Status)
      requires pos <= |input|
      modifies this`pos
      ensures old(pos) <= pos <= |input| && (status != NoMore ==> old(pos) < pos)
      ensures match R.Await(input[old(pos)..])
              case Silent => status == NoMore
              case Quit(_) => status == Error
              case Start(packet) => status == Fine && packet == input[pos..]
    {
      while pos < |input|
        invariant old(pos) <= pos <= |input|
        invariant R.Await(input[old(pos)..]) == R.Await(input[pos..])
      {
        var c := input[pos];
        assert input[pos..][1..] == input[pos + 1..];
        pos := pos + 1;
        if c == START_CHAR {
          return Fine;
        }
        if c == ETX_CHAR {
          return Error;
        }
      }
      return NoMore;
    }

    // One round of the main loop behind START: the packet and its answer.
    method HandlePacket() returns (status: Status, ghost a: Attempt)
      requires pos <= |input| && sendParms.Length == R.SEND_DATA_SIZE && !done
      modifies this, sendParms
      ensures pos <= |input|
      ensures var r := ReadPacket(input[old(pos)..]);
              && (status == NoMore <==> r.attempt.Cut?)
              && (status != NoMore ==> r == Reading(a, input[pos..]) && S() == R.Apply(old(S()), a) && done == R.IsBreak(a))
      ensures Partial(old(S()))
    {
      hide ReadPacket, R.Answer, R.Negotiate, R.ReplyFields, R.ParmCount, R.Receive, R.Feed, R.SameBelow, R.IsBreak;
      sendPtr := 0;
      ghost var before := S();
      status, a := ReceivePacket();
      if status == NoMore {
        return;
      }
      R.ApplyKeepsBelow(before, a);
      R.ApplyDone(before, a);
      if a.Frame? {
        R.ReceiveEffect(before, a.n, a.typ, a.data);
      }
      if status == Error {
        kState := kStateSaved;
        Restore();
        SendAnswer(NACK_TYPE, []);
      } else if kState == SEND_TYPE {
        HandleSendPacket(a.data);
      } else {
        SendAnswer(ACK_TYPE, []);
        if kState == BREAK_TYPE {
          done := true;
        }
      }
      assert S() == R.Apply(before, a);
    }

    // k_recv.  It does not return while characters are missing; `end` is then Waiting.
    method KRecv() returns (end: R.End, size: int)
      requires pos <= |input| && sendParms.Length == R.SEND_DATA_SIZE
      modifies this, sendParms
      ensures end == R.ReadStream(input[old(pos)..]).end
      ensures end != R.Waiting ==>
                && S() == R.ApplyAll(R.Initial(start, old(mem), old(sent)), R.ReadStream(input[old(pos)..]).run)
                && size == if end == R.Complete then addr - start else 0
      ensures end != R.Waiting && old(sent) == [] ==>
                R.AllAnswered(R.DEFAULT_LINE, sent, R.ReadStream(input[old(pos)..]).run)
      ensures R.SameBelow(old(mem), mem, start)
    {
      hide R.ReadStream, R.ApplyAll, R.SameBelow, R.AllAnswered;
      R.StreamAnswered(input[pos..], start, mem);
      Setup();
      end := MainLoop();
      size := if end == R.Complete then addr - start else 0;
    }

    // The protocol parameters before the sender has spoken.
    method DefaultLine()
      modifies this`hisEol, this`hisPadCount, this`hisPadChar, this`hisQuote
      ensures Line() == R.DEFAULT_LINE
    {
      hisEol := END_CHAR;
      hisPadCount := 0;
      hisPadChar := 0;
      hisQuote := K_ESCAPE;
    }

    // The initialization part of k_recv.
    method Setup()
      modifies this`hisEol, this`hisPadCount, this`hisPadChar, this`hisQuote, this`done, this`kState, this`kStateSaved,
        this`escape, this`addr, this`escapeSaved, this`addrSaved, this`n, this`lastN
      ensures S() == R.Initial(start, mem, sent)
    {
      done, kState, kStateSaved := false, 0, 0;
      escape, addr := false, start;
      n, lastN := 0, -1;
      Save();
      DefaultLine();
    }

    // The main loop of k_recv.
    method MainLoop() returns (end: R.End)
      requires pos <= |input| && sendParms.Length == R.SEND_DATA_SIZE && !done
      requires start <= addr && start <= addrSaved
      modifies this, sendParms
      ensures end == R.ReadStream(input[old(pos)..]).end
      ensures end != R.Waiting ==> S() == R.ApplyAll(old(S()), R.ReadStream(input[old(pos)..]).run)
      ensures R.SameBelow(old(mem), mem, start)
    {
      hide ReadPacket, R.Apply, R.Await, R.IsBreak, R.ReadStream, R.ApplyAll, R.Prepend;
      ghost var s, before := input[pos..], S();
      ghost var run: seq<Attempt> := [];
      assert R.ApplyAll(before, run) == before && R.Prepend(run, R.ReadStream(s)) == R.ReadStream(s) by {
        Nothing(before, R.ReadStream(s));
      }
      while !done
        invariant pos <= |input| && sendParms.Length == R.SEND_DATA_SIZE
        invariant S() == R.ApplyAll(before, run)
        invariant R.ReadStream(s) == if done then R.Stream(run, R.Complete) else R.Prepend(run, R.ReadStream(input[pos..]))
        invariant R.SameBelow(old(mem), mem, start) && start <= addr && start <= addrSaved
        decreases |input| - pos, !done
      {
        ghost var here := input[pos..];
        R.ReadStreamStops(here);
        R.PrependTwice(run, Cut, R.ReadStream(here));
        var status := WaitForStart();
        if status != Fine {
          return if status == NoMore then R.Waiting else R.Aborted;
        }
        ghost var packet, memBefore, bound := input[pos..], mem, R.SafeBound(S());
        ghost var a: Attempt;
        status, a := HandlePacket();
        R.SameBelowTrans(old(mem), memBefore, mem, start, bound);
        if status == NoMore {
          return R.Waiting;
        }
        R.ReadStreamStep(here, packet, a, input[pos..]);
        R.PrependTwice(run, a, R.ReadStream(input[pos..]));
        R.PrependOne(run, a);
        R.ApplyAllSnoc(before, run, a);
        run := run + [a];
      }
      return R.Complete;
    }
  }

  lemma Nothing(st: R.State, s: R.Stream)
    ensures R.ApplyAll(st, []) == st && R.Prepend([], s) == s
  {
    assert [] + s.run == s.run;
  }

  // What the type and the data of a packet do to the state.
  function Typed(st: R.State, typ: Option<byte>, data: seq<byte>): R.State {
    match typ
    case None => st
    case Some(t) =>
      var st1 := st.(kState := t);
      if t == DATA_TYPE then R.Feed(st1, data) else st1
  }

  lemma BeginSetsNumber(st: R.State, n: byte)
    ensures R.Begin(st.(n := n), n) == R.Begin(st, n) && R.Begin(st, n).n == n
  {
  }

  lemma TypedKeepsBelow(st: R.State, n: byte, typ: Option<byte>, data: seq<byte>)
    ensures Typed(R.Begin(st, n), typ, data) == R.Receive(st, n, typ, data)
    ensures var r := R.Receive(st, n, typ, data);
            var bound := R.SafeBound(st);
            r.n == n && R.SameBelow(st.mem, r.mem, bound) && bound <= r.sink.addr && bound <= r.saved.addr
  {
    hide R.Feed;
    if typ.Some? {
      R.FeedKeepsBelow(R.Begin(st, n).(kState := typ.value), data);
    }
  }

  lemma FeedKeepsState(st: R.State, data: seq<byte>)
    ensures R.Feed(st, data).kState == st.kState
  {
    R.FeedKeepsBelow(st, data);
  }

  lemma FeedNothing(st: R.State)
    ensures R.Feed(st, []) == st
  {
  }

  // A body whose first characters have been read already.
  function Behind(data: seq<byte>, b: Body): Body {
    match b
    case Missing => Missing
    case Broken(more, rest) => Broken(data + more, rest)
    case Whole(more, rest) => Whole(data + more, rest)
  }

  lemma BehindNothing(b: Body)
    ensures Behind([], b) == b
  {
    match b {
      case Missing =>
      case Broken(more, _) => assert [] + more == more;
      case Whole(more, _) => assert [] + more == more;
    }
  }

  lemma BehindOne(data: seq<byte>, c: byte, b: Body)
    ensures Behind(data, Behind([c], b)) == Behind(data + [c], b)
  {
    match b {
      case Missing =>
      case Broken(more, _) => assert data + ([c] + more) == data + [c] + more;
      case Whole(more, _) => assert data + ([c] + more) == data + [c] + more;
    }
  }
}
