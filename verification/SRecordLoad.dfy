// Loading S-records into memory and dumping memory as S-records: the loops of load_serial,
// read_record and save_serial (common/cmd_load.c).

module SRecordLoad {
  import opened Words
  import CText
  import opened SRecord

  // ----- reading a line ------------------------------------------------------------------------

  const CTRL_C: char := 3 as char
  const NUL: char := 0 as char

  // A line without its end, the end of the transfer, or input that is still missing.
  datatype ReadResult = Line(text: string, rest: string) | Stopped | Starved

  function ReadLine(input: string, room: nat): (r: ReadResult)
    ensures r.Line? ==> |r.text| <= room && |r.rest| <= |input| && (room > 0 ==> |r.rest| < |input|)
    decreases room
  {
    if room == 0 then Line("", input)
    else if input == "" then Starved
    else if input[0] == '\r' || input[0] == '\n' then Line("", input[1..])
    else if input[0] == NUL || input[0] == CTRL_C then Stopped
    else match ReadLine(input[1..], room - 1)
      case Line(text, rest) => Line([input[0]] + text, rest)
      case Stopped => Stopped
      case Starved => Starved
  }

  predicate Plain(c: char) {
    c != '\r' && c != '\n' && c != NUL && c != CTRL_C
  }

  predicate PlainText(s: string) {
    forall i :: 0 <= i < |s| ==> Plain(s[i])
  }

  lemma {:induction false} ReadsPlainLine(text: string, rest: string, room: nat)
    requires PlainText(text) && |text| < room
    ensures ReadLine(text + ("\n" + rest), room) == Line(text, rest)
  {
    var input := text + ("\n" + rest);
    if text == "" {
      assert input[1..] == rest;
    } else {
      assert input[1..] == text[1..] + ("\n" + rest);
      assert Plain(text[0]);
      ReadsPlainLine(text[1..], rest, room - 1);
    }
  }

  lemma {:induction false} HexIsPlain(data: seq<byte>)
    ensures PlainText(HexAll(data))
  {
    if data != [] {
      HexIsPlain(data[1..]);
    }
  }

  // ----- loading ---------------------------------------------------------------------------------

  // memcpy to memory.
  function Poke(mem: map<int, byte>, at: int, data: seq<byte>): map<int, byte>
    decreases |data|
  {
    if data == [] then mem else Poke(mem[Wrap(at) := data[0]], at + 1, data[1..])
  }

  datatype LoadState = LoadState(mem: map<int, byte>, start: u32, end: u32)

  datatype LoadResult =
    | Loaded(mem: map<int, byte>, start: u32, size: u32, entry: u32)
    | Aborted(mem: map<int, byte>)
    | Waiting(mem: map<int, byte>)

  function Store(st: LoadState, at: u32, data: seq<byte>): LoadState {
    var last := Wrap(at + |data| - 1);
    LoadState(Poke(st.mem, at, data), if at < st.start then at else st.start, if last > st.end then last else st.end)
  }

  // load_serial, from a state on.
  function Load(input: string, offset: int, st: LoadState): LoadResult
    decreases |input|
  {
    match ReadLine(input, SREC_MAXRECLEN)
    case Stopped => Aborted(st.mem)
    case Starved => Waiting(st.mem)
    case Line(text, rest) =>
      var r := SrecDecode(text);
      if r.code < 0 then Aborted(st.mem)
      else if SREC_DATA2 <= r.code <= SREC_DATA4 then
        Load(rest, offset, Store(st, Wrap(r.addr + offset), r.data))
      else if SREC_END4 <= r.code <= SREC_END2 then
        Loaded(st.mem, st.start, Wrap(st.end - st.start + 1), r.addr)
      else Load(rest, offset, st)
  }

  function Empty(mem: map<int, byte>): LoadState {
    LoadState(mem, MAX_U32, 0)
  }

  // ----- a dump is loaded as it was ----------------------------------------------------------------

  lemma {:induction false} PokeReads(mem: map<int, byte>, at: nat, data: seq<byte>)
    requires at + |data| <= 0x1_0000_0000
    ensures forall a :: at <= a < at + |data| ==> a in Poke(mem, at, data) && Poke(mem, at, data)[a] == data[a - at]
    ensures forall a :: !(at <= a < at + |data|) ==>
      (a in Poke(mem, at, data) <==> a in mem) && (a in mem ==> Poke(mem, at, data)[a] == mem[a])
    decreases |data|
  {
    if data != [] {
      PokeReads(mem[at := data[0]], at + 1, data[1..]);
    }
  }

  lemma {:induction false} PokeInPieces(mem: map<int, byte>, at: int, a: seq<byte>, b: seq<byte>)
    ensures Poke(mem, at, a + b) == Poke(Poke(mem, at, a), at + |a|, b)
    decreases |a|
  {
    if a == [] {
      assert a + b == b;
    } else {
      assert (a + b)[1..] == a[1..] + b;
      PokeInPieces(mem[Wrap(at) := a[0]], at + 1, a[1..], b);
    }
  }

  // memcpy only sees addresses modulo 2^32.
  lemma {:induction false} PokeWraps(mem: map<int, byte>, x: int, y: int, data: seq<byte>)
    requires Wrap(x) == Wrap(y)
    ensures Poke(mem, x, data) == Poke(mem, y, data)
    decreases |data|
  {
    hide Wrap;
    if data != [] {
      NextWraps(x, y);
      PokeWraps(mem[Wrap(x) := data[0]], x + 1, y + 1, data[1..]);
    }
  }

  lemma NextWraps(x: int, y: int)
    requires Wrap(x) == Wrap(y)
    ensures Wrap(x + 1) == Wrap(y + 1)
  {
  }

  // The records of a dump, stored one after the other.
  function StoreAll(st: LoadState, at: u32, data: seq<byte>): LoadState
    decreases |data|
  {
    if data == [] then st
    else
      var n := Least(|data|, SREC_BYTES_PER_RECORD);
      StoreAll(Store(st, at, data[..n]), Wrap(at + n), data[n..])
  }

  // All bytes arrive, even if the range runs over the top of the address space.
  lemma {:induction false} StoreAllPokes(st: LoadState, at: u32, data: seq<byte>)
    ensures StoreAll(st, at, data).mem == Poke(st.mem, at, data)
    decreases |data|
  {
    if data != [] {
      var n := Least(|data|, SREC_BYTES_PER_RECORD);
      var st1 := Store(st, at, data[..n]);
      StoreAllPokes(st1, Wrap(at + n), data[n..]);
      assert data[..n] + data[n..] == data;
      PokeInPieces(st.mem, at, data[..n], data[n..]);
      WrapTwice(at + n);
      PokeWraps(st1.mem, Wrap(at + n), at + n, data[n..]);
    }
  }

  lemma WrapTwice(x: int)
    ensures Wrap(Wrap(x)) == Wrap(x)
  {
  }

  lemma {:induction false} StoreAllWidens(st: LoadState, at: u32, data: seq<byte>)
    ensures StoreAll(st, at, data).start <= st.start && st.end <= StoreAll(st, at, data).end
    decreases |data|
  {
    hide Poke, Wrap;
    if data != [] {
      var n := Least(|data|, SREC_BYTES_PER_RECORD);
      StoreAllWidens(Store(st, at, data[..n]), Wrap(at + n), data[n..]);
    }
  }

  // First and last address after the bytes `done` have been stored from `store` on.
  predicate Spans(st: LoadState, store: u32, done: nat) {
    if done == 0 then st.start == MAX_U32 && st.end == 0
    else st.start == store && st.end == store + done - 1
  }

  lemma StoreNext(st: LoadState, store: u32, done: nat, chunk: seq<byte>)
    requires Spans(st, store, done) && chunk != [] && store + done + |chunk| <= 0x1_0000_0000
    ensures Spans(Store(st, store + done, chunk), store, done + |chunk|)
  {
    hide Poke;
  }

  lemma {:induction false} StoreAllSpans(st: LoadState, store: u32, done: nat, data: seq<byte>)
    requires Spans(st, store, done) && store + done + |data| <= 0x1_0000_0000
    ensures Spans(StoreAll(st, Wrap(store + done), data), store, done + |data|)
    decreases |data|
  {
    hide Poke, Store, Spans;
    if data != [] {
      var n := Least(|data|, SREC_BYTES_PER_RECORD);
      StoreNext(st, store, done, data[..n]);
      WrapSmall(store + done);
      StoreAllSpans(Store(st, store + done, data[..n]), store, done + n, data[n..]);
    }
  }

  lemma StoreFirst(mem: map<int, byte>, store: u32, chunk: seq<byte>)
    requires chunk != []
    ensures var st := Store(Empty(mem), store, chunk);
            st.start == store && st.end == Wrap(store + |chunk| - 1)
  {
    hide Poke, Wrap;
  }

  // Storing two records of a range bounds what is reported about all of it.
  lemma TwoRecords(mem: map<int, byte>, store: u32, data: seq<byte>)
    requires |data| > SREC_BYTES_PER_RECORD
    ensures var r := StoreAll(Empty(mem), store, data);
            && r.start <= Wrap(store + SREC_BYTES_PER_RECORD)
            && Wrap(store + SREC_BYTES_PER_RECORD - 1) <= r.end
  {
    hide Poke, Wrap;
    var n := SREC_BYTES_PER_RECORD;
    var st1, more := Store(Empty(mem), store, data[..n]), data[n..];
    var m := Least(|more|, n);
    var st2 := Store(st1, Wrap(store + n), more[..m]);
    assert StoreAll(Empty(mem), store, data) == StoreAll(st1, Wrap(store + n), more);
    assert StoreAll(st1, Wrap(store + n), more) == StoreAll(st2, Wrap(Wrap(store + n) + m), more[m..]);
    hide StoreAll;
    StoreFirst(mem, store, data[..n]);
    StoreAllWidens(st1, Wrap(store + n), more);
    StoreAllWidens(st2, Wrap(Wrap(store + n) + m), more[m..]);
  }

  // A range over the top reports the wrong start or the wrong size, unless it is one record.
  lemma OverTheTop(mem: map<int, byte>, store: u32, data: seq<byte>)
    requires |data| <= MAX_U32 && store + |data| > 0x1_0000_0000
    ensures var r := StoreAll(Empty(mem), store, data);
            r.start == store && Wrap(r.end - r.start + 1) == |data| <==> |data| <= SREC_BYTES_PER_RECORD
  {
    hide StoreAll;
    var r, n := StoreAll(Empty(mem), store, data), SREC_BYTES_PER_RECORD;
    if |data| > n {
      TwoRecords(mem, store, data);
      if r.start == store {
        assert store + n <= MAX_U32;
        assert store + n - 1 <= r.end;
      }
    } else {
      OneRecord(mem, store, data);
      EndsOver(store, |data|);
    }
  }

  lemma EndsOver(store: u32, n: nat)
    requires 0 < n <= MAX_U32 && store + n > 0x1_0000_0000
    ensures Wrap(Wrap(store + n - 1) - store + 1) == n
  {
    assert Wrap(store + n - 1) == store + n - 1 - 0x1_0000_0000;
  }

  lemma OneRecord(mem: map<int, byte>, store: u32, data: seq<byte>)
    requires 0 < |data| <= SREC_BYTES_PER_RECORD
    ensures var r := StoreAll(Empty(mem), store, data);
            r.start == store && r.end == Wrap(store + |data| - 1)
  {
    hide Store, Poke, Wrap;
    assert data[..|data|] == data && data[|data|..] == [];
    StoreFirst(mem, store, data);
  }

  // What one line does.
  lemma LoadsLine(text: string, rest: string, offset: int, st: LoadState)
    requires PlainText(text) && |text| < SREC_MAXRECLEN
    ensures var r := SrecDecode(text);
            && (r.code == SREC_DATA4 ==>
                  Load(text + ("\n" + rest), offset, st) == Load(rest, offset, Store(st, Wrap(r.addr + offset), r.data)))
            && (r.code == SREC_START ==> Load(text + ("\n" + rest), offset, st) == Load(rest, offset, st))
            && (r.code == SREC_END4 ==>
                  Load(text + ("\n" + rest), offset, st) ==
                  Loaded(st.mem, st.start, Wrap(st.end - st.start + 1), r.addr))
  {
    hide SrecDecode, ReadLine, Store, Wrap, PlainText;
    ReadsPlainLine(text, rest, SREC_MAXRECLEN);
  }

  lemma RecordIsPlain(t: char, data: seq<byte>)
    requires Plain(t)
    ensures PlainText(['S', t] + HexAll(data))
  {
    HexIsPlain(data);
    hide HexAll;
  }

  lemma LoadsRecord(address: u32, data: seq<byte>, rest: string, offset: int, st: LoadState)
    requires |data| <= SREC_BYTES_PER_RECORD
    ensures Load(DataRecord(address, data) + rest, offset, st) ==
            Load(rest, offset, Store(st, Wrap(address + offset), data))
  {
    hide Load, SrecDecode, HexAll, RecordBytes, ReadLine, Store, Wrap, PlainText;
    var text := "S3" + HexAll(RecordBytes(address, data));
    assert DataRecord(address, data) + rest == text + ("\n" + rest);
    RecordIsPlain('3', RecordBytes(address, data));
    RecordDecodes(address, data);
    LoadsLine(text, rest, offset, st);
  }

  lemma RecordsShape(address: u32, data: seq<byte>, rest: string)
    requires data != []
    ensures var n := Least(|data|, SREC_BYTES_PER_RECORD);
            DataRecords(address, data) + rest ==
            DataRecord(address, data[..n]) + (DataRecords(Wrap(address + n), data[n..]) + rest)
  {
    hide DataRecord;
    var n := Least(|data|, SREC_BYTES_PER_RECORD);
    CText.Reassociate(DataRecord(address, data[..n]), DataRecords(Wrap(address + n), data[n..]), rest);
  }

  // Loading the data records of a range stores its pieces from the shifted address on.
  lemma {:induction false} LoadsRecords(address: u32, data: seq<byte>, rest: string, offset: int, st: LoadState)
    ensures Load(DataRecords(address, data) + rest, offset, st) ==
            Load(rest, offset, StoreAll(st, Wrap(address + offset), data))
    decreases |data|
  {
    hide Load, DataRecord, DataRecords, Store, Wrap;
    if data == [] {
      RecordsEnd(address);
      assert DataRecords(address, data) + rest == rest;
    } else {
      var n := Least(|data|, SREC_BYTES_PER_RECORD);
      var chunk, more := data[..n], data[n..];
      var tail := DataRecords(Wrap(address + n), more) + rest;
      RecordsShape(address, data, rest);
      LoadsRecord(address, chunk, tail, offset, st);
      ShiftWraps(address, offset, n);
      LoadsRecords(Wrap(address + n), more, rest, offset, Store(st, Wrap(address + offset), chunk));
    }
  }

  lemma ShiftWraps(address: int, offset: int, n: int)
    ensures Wrap(Wrap(address + n) + offset) == Wrap(Wrap(address + offset) + n)
  {
  }

  // A dump comes back byte for byte at the shifted address.  Its start and size are reported
  // right exactly if it is not empty and either does not run over the top of the address
  // space or is a single record; an empty one reports a size of 2.
  lemma DumpLoads(address: u32, data: seq<byte>, rest: string, offset: int, mem: map<int, byte>)
    requires |data| <= MAX_U32
    ensures var store := Wrap(address + offset);
            match Load(Dump(address, data) + rest, offset, Empty(mem))
            case Loaded(now, start, size, entry) =>
              && now == Poke(mem, store, data) && entry == 0
              && (start == store && size == |data| <==>
                   data != [] && (store + |data| <= 0x1_0000_0000 || |data| <= SREC_BYTES_PER_RECORD))
              && (data == [] ==> size == 2)
            case _ => false
  {
    hide Load, DataRecords, Poke, Dump, StoreAll;
    var store, end := Wrap(address + offset), SREC3_END + rest;
    var st := StoreAll(Empty(mem), store, data);
    DumpShape(address, data, rest);
    LoadsStart(DataRecords(address, data) + end, offset, Empty(mem));
    LoadsRecords(address, data, end, offset, Empty(mem));
    LoadsEnd(rest, offset, st);
    StoreAllPokes(Empty(mem), store, data);
    if store + |data| <= 0x1_0000_0000 {
      WrapSmall(store);
      StoreAllSpans(Empty(mem), store, 0, data);
    } else {
      OverTheTop(mem, store, data);
    }
  }

  lemma FourInARow(a: string, b: string, c: string, d: string)
    ensures a + b + c + d == a + (b + (c + d))
  {
  }

  lemma DumpShape(address: u32, data: seq<byte>, rest: string)
    ensures Dump(address, data) + rest == SREC3_START + (DataRecords(address, data) + (SREC3_END + rest))
  {
    hide DataRecords;
    FourInARow(SREC3_START, DataRecords(address, data), SREC3_END, rest);
  }

  lemma LoadsStart(rest: string, offset: int, st: LoadState)
    ensures Load(SREC3_START + rest, offset, st) == Load(rest, offset, st)
  {
    var text := "S0" + HexAll([3, 0, 0, 0xFC]);
    hide Load, SrecDecode, HexAll, PlainText;
    StartDecodes();
    RecordIsPlain('0', [3, 0, 0, 0xFC]);
    CText.Reassociate(text, "\n", rest);
    LoadsLine(text, rest, offset, st);
  }

  lemma LoadsEnd(rest: string, offset: int, st: LoadState)
    ensures Load(SREC3_END + rest, offset, st) == Loaded(st.mem, st.start, Wrap(st.end - st.start + 1), 0)
  {
    var text := "S7" + HexAll([5, 0, 0, 0, 0, 0xFA]);
    hide Load, SrecDecode, HexAll, PlainText, Wrap;
    EndDecodes();
    RecordIsPlain('7', [5, 0, 0, 0, 0, 0xFA]);
    CText.Reassociate(text, "\n", rest);
    LoadsLine(text, rest, offset, st);
  }

  function Continued(record: string, r: ReadResult): ReadResult {
    match r
    case Line(text, rest) => Line(record + text, rest)
    case Stopped => Stopped
    case Starved => Starved
  }

  lemma LineStep(record: string, input: string, room: nat)
    requires room > 0 && input != "" && Plain(input[0])
    ensures Continued(record, ReadLine(input, room)) == Continued(record + [input[0]], ReadLine(input[1..], room - 1))
  {
    var r := ReadLine(input[1..], room - 1);
    assert r.Line? ==> record + ([input[0]] + r.text) == record + [input[0]] + r.text;
  }

  lemma LineCut(record: string, input: string, room: nat)
    ensures room == 0 ==> Continued(record, ReadLine(input, room)) == Line(record, input)
    ensures room > 0 && input == "" ==> Continued(record, ReadLine(input, room)) == Starved
    ensures Continued("", ReadLine(input, room)) == ReadLine(input, room)
  {
    assert record + "" == record;
    var r := ReadLine(input, room);
    assert r.Line? ==> "" + r.text == r.text;
  }

  lemma LineEnds(record: string, input: string, room: nat)
    requires room > 0 && input != "" && !Plain(input[0])
    ensures Continued(record, ReadLine(input, room)) ==
            if input[0] == '\r' || input[0] == '\n' then Line(record, input[1..]) else Stopped
  {
    assert record + "" == record;
  }

  // ----- the loops -----------------------------------------------------------------------------------

  // read_record: `record` is the line buffer's text; a negative result ends the transfer.
  method ReadRecord(input: string, at: nat) returns (rc: int, record: string, next: nat, starved: bool)
    requires at <= |input|
    ensures at <= next <= |input|
    ensures match ReadLine(input[at..], SREC_MAXRECLEN)
            case Line(text, rest) => !starved && rc == |text| && record == text && rest == input[next..]
            case Stopped => !starved && rc == -1
            case Starved => starved
  {
    hide ReadLine, Continued;
    rc, record, next, starved := 0, "", at, false;
    ghost var all := ReadLine(input[at..], SREC_MAXRECLEN);
    LineCut("", input[at..], SREC_MAXRECLEN);
    while |record| < SREC_MAXRECLEN
      invariant |record| <= SREC_MAXRECLEN && at <= next <= |input|
      invariant all == Continued(record, ReadLine(input[next..], SREC_MAXRECLEN - |record|))
    {
      ghost var rest, room := input[next..], SREC_MAXRECLEN - |record|;
      if next == |input| {
        LineCut(record, rest, room);
        return 0, record, next, true;
      }
      var c := input[next];
      assert rest[0] == c && rest[1..] == input[next + 1..];
      next := next + 1;
      if c == '\r' || c == '\n' {
        LineEnds(record, rest, room);
        return |record|, record, next, false;
      }
      if c == NUL || c == CTRL_C {
        LineEnds(record, rest, room);
        return -1, record, next, false;
      }
      LineStep(record, rest, room);
      record := record + [c];
    }
    LineCut(record, input[next..], 0);
    rc := |record|;
  }

  // load_serial on the characters the console delivers.
  method LoadSerial(input: string, offset: int, memory: map<int, byte>) returns (r: LoadResult)
    ensures r == Load(input, offset, Empty(memory))
  {
    hide ReadLine, SrecDecode, Poke;
    var mem := memory;
    var startAddr: u32, endAddr: u32 := MAX_U32, 0;
    var at: nat := 0;
    assert input[0..] == input;
    while true
      invariant at <= |input|
      invariant Load(input, offset, Empty(memory)) == Load(input[at..], offset, LoadState(mem, startAddr, endAddr))
      decreases |input| - at
    {
      var rc, record, next, starved := ReadRecord(input, at);
      if starved {
        return Waiting(mem);
      }
      if rc < 0 {
        return Aborted(mem);
      }
      var decoded := SrecDecode(record);
      if decoded.code < 0 {
        return Aborted(mem);
      }
      if SREC_DATA2 <= decoded.code <= SREC_DATA4 {
        var storeAddr := Wrap(decoded.addr + offset);
        mem := Poke(mem, storeAddr, decoded.data);
        if storeAddr < startAddr {
          startAddr := storeAddr;
        }
        if Wrap(storeAddr + |decoded.data| - 1) > endAddr {
          endAddr := Wrap(storeAddr + |decoded.data| - 1);
        }
      } else if SREC_END4 <= decoded.code <= SREC_END2 {
        var size := Wrap(endAddr as int - startAddr as int + 1);
        return Loaded(mem, startAddr, size, decoded.addr);
      }
      at := next;
    }
  }

  // (x >> (8 * i)) & 0xff
  function ByteOf(x: nat, i: nat): byte {
    if i == 0 then x % 0x100
    else if i == 1 then x / 0x100 % 0x100
    else if i == 2 then x / 0x1_0000 % 0x100
    else x / 0x100_0000 % 0x100
  }

  // The sum of the n low bytes of x.
  function SumLow(x: nat, n: nat): nat {
    if n == 0 then 0 else SumLow(x, n - 1) + ByteOf(x, n - 1)
  }

  lemma SumLowAddress(a: u32)
    ensures SumLow(a, 4) == Sum(AddressBytes(a))
  {
    LowBytes(a);
    var b: seq<byte> := AddressBytes(a);
    assert b == [b[0], b[1], b[2], b[3]];
    SumFour(b[0], b[1], b[2], b[3]);
    hide Sum, SumLow;
  }

  lemma LowBytes(a: u32)
    ensures SumLow(a, 4) == a % 0x100 + a / 0x100 % 0x100 + a / 0x1_0000 % 0x100 + a / 0x100_0000
  {
    assert ByteOf(a, 0) == a % 0x100 && ByteOf(a, 1) == a / 0x100 % 0x100;
    assert a / 0x100_0000 < 0x100;
    assert ByteOf(a, 2) == a / 0x1_0000 % 0x100 && ByteOf(a, 3) == a / 0x100_0000;
    hide ByteOf;
    assert SumLow(a, 1) == ByteOf(a, 0);
    assert SumLow(a, 2) == ByteOf(a, 0) + ByteOf(a, 1);
  }

  lemma SumFour(a: byte, b: byte, c: byte, d: byte)
    ensures Sum([a, b, c, d]) == a as int + b + c + d
  {
    SumNothing();
    SumOne([], a);
    SumOne([a], b);
    SumOne([a, b], c);
    SumOne([a, b, c], d);
    hide Sum;
    assert [] + [a] == [a] && [a] + [b] == [a, b] && [a, b] + [c] == [a, b, c] && [a, b, c] + [d] == [a, b, c, d];
  }

  // One S3 record from its printed data and the sum of that data.
  method PrintRecord(address: u32, hexData: string, sum: nat, ghost data: seq<byte>) returns (record: string)
    requires |data| <= SREC_BYTES_PER_RECORD && hexData == HexAll(data) && sum == Sum(data)
    ensures record == DataRecord(address, data)
  {
    hide ByteOf, HexAll, Hex2, AddressBytes, Sum;
    var length := 4 + |hexData| / 2 + 1;
    var checksum := sum;
    var i := 0;
    while i < 2
      invariant 0 <= i <= 2 && checksum == sum + SumLow(length, i)
    {
      checksum := checksum + ByteOf(length, i);
      i := i + 1;
    }
    assert SumLow(length, 2) == length by {
      LengthBytes(length);
    }
    i := 0;
    while i < 4
      invariant 0 <= i <= 4 && checksum == sum + length + SumLow(address, i)
    {
      checksum := checksum + ByteOf(address, i);
      i := i + 1;
    }
    SumLowAddress(address);
    record := "S3" + Hex2(length) + HexAll(AddressBytes(address)) + hexData + Hex2(Check(checksum)) + "\n";
    PrintedRecord(address, data);
    BodySum(address, data);
  }

  lemma LengthBytes(n: nat)
    requires n < 0x100
    ensures SumLow(n, 2) == n
  {
    assert ByteOf(n, 1) == 0;
    assert SumLow(n, 1) == n;
  }

  lemma Spread(t: string, p: string, q: string, r: string, s: string, u: string)
    ensures t + (p + q + r + s) + u == t + p + q + r + s + u
  {
  }

  lemma HexPieces(len: byte, a: seq<byte>, data: seq<byte>, check: byte)
    ensures HexAll([len] + a + data + [check]) == Hex2(len) + HexAll(a) + HexAll(data) + Hex2(check)
  {
    HexAppend([len] + a + data, [check]);
    HexAppend([len] + a, data);
    HexAppend([len], a);
    assert HexAll([len]) == Hex2(len) && HexAll([check]) == Hex2(check);
  }

  lemma PrintedRecord(address: u32, data: seq<byte>)
    requires |data| <= SREC_BYTES_PER_RECORD
    ensures DataRecord(address, data) ==
            "S3" + Hex2(5 + |data|) + HexAll(AddressBytes(address)) + HexAll(data)
            + Hex2(Check(Sum(RecordBody(address, data)))) + "\n"
  {
    hide HexAll, Hex2, AddressBytes, Sum, Check;
    var len: byte, a, check := 5 + |data|, AddressBytes(address), Check(Sum(RecordBody(address, data)));
    assert RecordBytes(address, data) == [len] + a + data + [check];
    HexPieces(len, a, data, check);
    Spread("S3", Hex2(len), HexAll(a), HexAll(data), Hex2(check), "\n");
  }

  // The bytes of a memory range; addresses run over the top of the address space.
  function Range(memory: u32 -> byte, start: int, count: nat): (s: seq<byte>)
    ensures |s| == count && forall i :: 0 <= i < count ==> s[i] == memory(Wrap(start + i))
    decreases count
  {
    if count == 0 then [] else [memory(Wrap(start))] + Range(memory, start + 1, count - 1)
  }

  lemma RangeStep(memory: u32 -> byte, start: int, count: nat)
    requires count > 0
    ensures Range(memory, start, count)[0] == memory(Wrap(start))
    ensures Range(memory, start, count)[1..] == Range(memory, start + 1, count - 1)
  {
  }

  // save_serial, as long as nobody interrupts it.
  method SaveSerial(memory: u32 -> byte, start: u32, count: u32) returns (sent: string)
    ensures sent == Dump(start, Range(memory, start, count))
  {
    hide HexAll, Hex2, DataRecord, DataRecords, Sum, Wrap, Range;
    var address: u32, left: nat := start, count;
    var reclen: nat, checksum: nat, hexData := 0, 0, "";
    ghost var pending: seq<byte>, rest: seq<byte>, out := [], Range(memory, start, count), "";
    ghost var whole := DataRecords(start, rest);
    sent := SREC3_START;
    HexAndSumOf([], 0);
    assert [] + rest == rest && out + whole == whole && sent + out == sent;
    WrapSmall(start);
    var again := true;
    while again
      invariant left <= count && reclen == |pending| < SREC_BYTES_PER_RECORD
      invariant again <==> left > 0 || (count == 0 && again)
      invariant hexData == HexAll(pending) && checksum == Sum(pending)
      invariant sent == SREC3_START + out && rest == Range(memory, start + count - left, left)
      invariant Wrap(address + reclen) == Wrap(start + count - left)
      invariant left == 0 ==> pending == []
      invariant whole == out + DataRecords(address, pending + rest)
      decreases left, again
    {
      if left > 0 {
        var c := memory(Wrap(address as int + reclen));
        RangeStep(memory, start + count - left, left);
        checksum := checksum + c;
        hexData := hexData + Hex2(c);
        HexAndSumOf(pending, c);
        assert pending + rest == pending + [c] + rest[1..];
        pending, rest := pending + [c], rest[1..];
        NextWraps(address + reclen, start + count - left);
        reclen, left := reclen + 1, left - 1;
      }
      if reclen == SREC_BYTES_PER_RECORD || left == 0 {
        if reclen > 0 {
          var record := PrintRecord(address, hexData, checksum, pending);
          RecordsStep(address, pending, rest);
          CText.Reassociate(out, record, DataRecords(Wrap(address + reclen), rest));
          CText.Reassociate(SREC3_START, out, record);
          sent := sent + record;
          out := out + record;
        }
        assert [] + rest == rest;
        assert reclen == 0 ==> rest == [];
        RecordsEnd(address);
        RecordsEnd(Wrap(address as int + reclen));
        address := Wrap(address as int + reclen);
        WrapSmall(address);
        checksum, reclen, hexData := 0, 0, "";
        pending := [];
        HexAndSumOf([], 0);
      }
      again := left > 0;
    }
    RecordsEnd(address);
    assert out + "" == out;
    sent := sent + SREC3_END;
  }

  lemma HexAndSumOf(data: seq<byte>, c: byte)
    ensures HexAll([]) == "" && Sum([]) == 0
    ensures HexAll(data + [c]) == HexAll(data) + Hex2(c) && Sum(data + [c]) == Sum(data) + c
  {
    HexAppend(data, [c]);
    SumConcat(data, [c]);
    assert HexAll([c]) == Hex2(c) && Sum([c]) == c;
  }

  lemma RecordsStep(address: u32, pending: seq<byte>, rest: seq<byte>)
    requires 0 < |pending| <= SREC_BYTES_PER_RECORD && (rest != [] ==> |pending| == SREC_BYTES_PER_RECORD)
    ensures DataRecords(address, pending + rest) ==
            DataRecord(address, pending) + DataRecords(Wrap(address + |pending|), rest)
  {
    hide DataRecord, Wrap;
    var data, n := pending + rest, |pending|;
    assert data[..n] == pending && data[n..] == rest;
  }

  lemma RecordsEnd(address: u32)
    ensures DataRecords(address, []) == ""
  {
  }
}
