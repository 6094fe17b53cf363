// The wire format of the Kermit receiver (common/cmd_load.c): how k_recv reads one packet,
// and the packets it answers with.  Kermit Protocol Manual, section 7 (Packet Format).

module KermitPacket {
  import opened Words
  import opened KermitCode

  const START_CHAR: byte := 0x01
  const ETX_CHAR: byte := 0x03
  const END_CHAR: byte := 0x0D
  const K_ESCAPE: byte := 0x23
  const SEND_TYPE: byte := 0x53
  const DATA_TYPE: byte := 0x44
  const ACK_TYPE: byte := 0x59
  const NACK_TYPE: byte := 0x4E
  const BREAK_TYPE: byte := 0x42

  // What k_recv makes of the characters behind a START_CHAR.
  datatype Attempt =
    | Cut                                              // the line has not delivered all of it yet
    | Early                                            // rejected before the sequence number was read
    | Frame(n: byte, typ: Option<byte>, data: seq<byte>, good: bool)

  datatype Reading = Reading(attempt: Attempt, rest: seq<byte>)

  // getc() and the test that follows it nearly everywhere.
  datatype Char = Gone | Bad(rest: seq<byte>) | Got(c: byte, rest: seq<byte>)

  function GetGraphic(s: seq<byte>): (r: Char)
    ensures !r.Gone? ==> |r.rest| < |s|
    ensures r.Got? ==> IsGraphic(r.c)
  {
    if s == [] then Gone else if IsGraphic(s[0]) then Got(s[0], s[1..]) else Bad(s[1..])
  }

  // The loop that brings in the rest of a packet.
  datatype Body =
    | Missing
    | Broken(data: seq<byte>, rest: seq<byte>)
    | Whole(data: seq<byte>, rest: seq<byte>)

  function ReadBody(s: seq<byte>, count: nat): (r: Body)
    ensures !r.Missing? ==> |r.rest| <= |s| && |r.data| <= count
    ensures r.Whole? ==> |r.data| == count
    decreases count
  {
    if count == 0 then Whole([], s)
    else match GetGraphic(s)
      case Gone => Missing
      case Bad(rest) => Broken([], rest)
      case Got(c, s1) =>
        match ReadBody(s1, count - 1)
        case Missing => Missing
        case Broken(data, rest) => Broken([c] + data, rest)
        case Whole(data, rest) => Whole([c] + data, rest)
  }

  // Block check and end of line; `sum` covers everything in front.
  function ReadTail(n: byte, typ: byte, data: seq<byte>, sum: nat, s: seq<byte>): (r: Reading)
    ensures |r.rest| <= |s|
  {
    match GetGraphic(s)
    case Gone => Reading(Cut, s)
    case Bad(rest) => Reading(Frame(n, Some(typ), data, false), rest)
    case Got(c, s1) =>
      if c != ToChar(BlockCheck(sum)) then Reading(Frame(n, Some(typ), data, false), s1)
      else if s1 == [] then Reading(Cut, s)
      else Reading(Frame(n, Some(typ), data, s1[0] == END_CHAR), s1[1..])
  }

  // Data and tail of a packet with `count` data characters.
  function ReadRest(n: byte, typ: byte, count: nat, sum: nat, s: seq<byte>): (r: Reading)
    ensures |r.rest| <= |s|
  {
    match ReadBody(s, count)
    case Missing => Reading(Cut, s)
    case Broken(data, rest) => Reading(Frame(n, Some(typ), data, false), rest)
    case Whole(data, rest) => ReadTail(n, typ, data, sum + Sum(data), rest)
  }

  // How often the data loop runs: while the length is above 1.
  function DataCount(length: int): nat {
    if length > 1 then length - 1 else 0
  }

  // The extended header: two length digits to base 95 and a check of their own.
  function ReadExtended(n: byte, typ: byte, sum: nat, s: seq<byte>): (r: Reading)
    ensures |r.rest| <= |s|
  {
    match GetGraphic(s)
    case Gone => Reading(Cut, s)
    case Bad(rest) => Reading(Frame(n, Some(typ), [], false), rest)
    case Got(hi, s1) =>
      match GetGraphic(s1)
      case Gone => Reading(Cut, s)
      case Bad(rest) => Reading(Frame(n, Some(typ), [], false), rest)
      case Got(lo, s2) =>
        match GetGraphic(s2)
        case Gone => Reading(Cut, s)
        case Bad(rest) => Reading(Frame(n, Some(typ), [], false), rest)
        case Got(check, s3) =>
          if check != ToChar(BlockCheck(sum + hi + lo)) then Reading(Frame(n, Some(typ), [], false), s3)
          else ReadRest(n, typ, DataCount(UnChar(hi) * 95 + UnChar(lo)), sum + hi + lo + check, s3)
  }

  // Type, optional extended header, and everything behind it.
  function ReadTyped(c0: byte, c1: byte, s: seq<byte>): (r: Reading)
    ensures |r.rest| <= |s|
  {
    match GetGraphic(s)
    case Gone => Reading(Cut, s)
    case Bad(rest) => Reading(Frame(UnChar(c1), None, [], false), rest)
    case Got(typ, s1) =>
      var length := UnChar(c0) as int - 2;
      if length == -2 then ReadExtended(UnChar(c1), typ, c0 as int + c1 + typ, s1)
      else ReadRest(UnChar(c1), typ, DataCount(length), c0 as int + c1 + typ, s1)
  }

  function ReadPacket(s: seq<byte>): (r: Reading)
    ensures |r.rest| <= |s|
  {
    match GetGraphic(s)
    case Gone => Reading(Cut, s)
    case Bad(rest) => Reading(Early, rest)
    case Got(c0, s1) =>
      match GetGraphic(s1)
      case Gone => Reading(Cut, s)
      case Bad(rest) => Reading(Early, rest)
      case Got(c1, s2) => ReadTyped(c0, c1, s2)
  }

  // ----- well-formed packets -----------------------------------------------------------

  // Length, sequence number, type and data: what the block check of a short packet covers.
  function ShortHead(n: byte, typ: byte, data: seq<byte>): seq<byte>
    requires |data| <= 91
  {
    [ToChar(|data| + 3), ToChar(n), typ] + data
  }

  // A short packet behind its START_CHAR.
  function ShortPacket(n: byte, typ: byte, data: seq<byte>, eol: byte): seq<byte>
    requires |data| <= 91
  {
    ShortHead(n, typ, data) + [ToChar(BlockCheck(Sum(ShortHead(n, typ, data)))), eol]
  }

  // An extended packet: zero length, then the length of data and block check to base 95.
  function LongHead(n: byte, typ: byte, size: nat): seq<byte>
    requires size < 95 * 95
  {
    var head := [ToChar(0), ToChar(n), typ, ToChar(size / 95), ToChar(size % 95)];
    head + [ToChar(BlockCheck(Sum(head)))]
  }

  function LongPacket(n: byte, typ: byte, data: seq<byte>, eol: byte): seq<byte>
    requires |data| + 1 < 95 * 95
  {
    var head := LongHead(n, typ, |data| + 1) + data;
    head + [ToChar(BlockCheck(Sum(head))), eol]
  }

  lemma SumSmall(a: byte, b: byte, c: byte)
    ensures Sum([a]) == a as int && Sum([a, b]) == a as int + b && Sum([a, b, c]) == a as int + b + c
  {
    var none: seq<byte> := [];
    assert [a][..0] == none && [a, b][..1] == [a] && [a, b, c][..2] == [a, b];
  }

  lemma GetAt(h: seq<byte>, i: nat, t: seq<byte>)
    requires i < |h| && IsGraphic(h[i])
    ensures GetGraphic(h[i..] + t) == Got(h[i], h[i + 1..] + t)
  {
    assert (h[i..] + t)[1..] == h[i + 1..] + t;
  }

  lemma GetHead(c: byte, s: seq<byte>)
    requires IsGraphic(c)
    ensures GetGraphic([c] + s) == Got(c, s)
  {
  }

  lemma {:induction false} ReadBodyWhole(data: seq<byte>, rest: seq<byte>)
    requires AllGraphic(data)
    ensures ReadBody(data + rest, |data|) == Whole(data, rest)
  {
    if data == [] {
      assert data + rest == rest;
    } else {
      GetHead(data[0], data[1..] + rest);
      assert data + rest == [data[0]] + (data[1..] + rest);
      ReadBodyWhole(data[1..], rest);
      assert [data[0]] + data[1..] == data;
    }
  }

  lemma CheckGraphic(sum: nat)
    ensures IsGraphic(ToChar(BlockCheck(sum))) && ToChar(BlockCheck(sum)) < 0x60
  {
  }

  lemma CharRoundTrip(x: byte)
    requires x < 0xE0
    ensures UnChar(ToChar(x)) == x && IsGraphic(ToChar(x))
  {
    assert ToChar(x) == x + 0x20;
    assert Minus(x + 0x20, 0x20) == x;
  }

  lemma ReadTailGood(n: byte, typ: byte, data: seq<byte>, sum: nat, check: byte, eol: byte, rest: seq<byte>)
    requires check == ToChar(BlockCheck(sum))
    ensures ReadTail(n, typ, data, sum, [check] + ([eol] + rest)) == Reading(Frame(n, Some(typ), data, eol == END_CHAR), rest)
  {
    CheckGraphic(sum);
    GetHead(check, [eol] + rest);
    hide BlockCheck, ToChar, GetGraphic;
    assert ([eol] + rest)[1..] == rest;
  }

  lemma ReadRestWhole(n: byte, typ: byte, data: seq<byte>, sum: nat, check: byte, eol: byte, rest: seq<byte>)
    requires AllGraphic(data) && check == ToChar(BlockCheck(sum + Sum(data)))
    ensures ReadRest(n, typ, |data|, sum, data + ([check] + ([eol] + rest))) == Reading(Frame(n, Some(typ), data, eol == END_CHAR), rest)
  {
    hide BlockCheck, ToChar, Sum, ReadBody, ReadTail, AllGraphic;
    ReadBodyWhole(data, [check] + ([eol] + rest));
    ReadTailGood(n, typ, data, sum + Sum(data), check, eol, rest);
  }

  lemma ReadExtendedHead(n: byte, typ: byte, sum: nat, hi: byte, lo: byte, check: byte,
                         s: seq<byte>, s1: seq<byte>, s2: seq<byte>, s3: seq<byte>)
    requires check == ToChar(BlockCheck(sum + hi + lo))
    requires GetGraphic(s) == Got(hi, s1) && GetGraphic(s1) == Got(lo, s2) && GetGraphic(s2) == Got(check, s3)
    ensures ReadExtended(n, typ, sum, s)
         == ReadRest(n, typ, DataCount(UnChar(hi) * 95 + UnChar(lo)), sum + hi + lo + check, s3)
  {
    hide ReadRest, BlockCheck, ToChar, UnChar, DataCount, GetGraphic;
  }

  lemma ReadHead(c0: byte, c1: byte, typ: byte, s: seq<byte>, s1: seq<byte>, s2: seq<byte>, s3: seq<byte>)
    requires GetGraphic(s) == Got(c0, s1) && GetGraphic(s1) == Got(c1, s2) && GetGraphic(s2) == Got(typ, s3)
    ensures ReadPacket(s)
         == if UnChar(c0) == 0 then ReadExtended(UnChar(c1), typ, c0 as int + c1 + typ, s3)
            else ReadRest(UnChar(c1), typ, DataCount(UnChar(c0) as int - 2), c0 as int + c1 + typ, s3)
  {
    hide ReadRest, ReadExtended, GetGraphic, UnChar, DataCount;
  }

  // The first three characters of a packet.
  lemma ReadFirst(h: seq<byte>, s: seq<byte>)
    requires |h| >= 3 && IsGraphic(h[0]) && IsGraphic(h[1]) && IsGraphic(h[2])
    ensures ReadPacket(h + s)
         == if UnChar(h[0]) == 0 then ReadExtended(UnChar(h[1]), h[2], h[0] as int + h[1] + h[2], h[3..] + s)
            else ReadRest(UnChar(h[1]), h[2], DataCount(UnChar(h[0]) as int - 2), h[0] as int + h[1] + h[2], h[3..] + s)
  {
    hide ReadExtended, ReadRest, UnChar, DataCount;
    GetAt(h, 0, s);
    GetAt(h, 1, s);
    GetAt(h, 2, s);
    assert h[0..] == h;
    hide GetGraphic;
    ReadHead(h[0], h[1], h[2], h + s, h[1..] + s, h[2..] + s, h[3..] + s);
  }

  lemma Regroup(head: seq<byte>, data: seq<byte>, check: byte, eol: byte, rest: seq<byte>)
    ensures head + data + [check, eol] + rest == head + (data + ([check] + ([eol] + rest)))
  {
  }

  lemma ShortShape(n: byte, typ: byte, data: seq<byte>, eol: byte, rest: seq<byte>)
    requires |data| <= 91
    ensures var head := [ToChar(|data| + 3), ToChar(n), typ];
            var check := ToChar(BlockCheck(Sum(head + data)));
            ShortPacket(n, typ, data, eol) + rest == head + (data + ([check] + ([eol] + rest)))
  {
    hide ToChar, Sum, BlockCheck;
    var head := [ToChar(|data| + 3), ToChar(n), typ];
    Regroup(head, data, ToChar(BlockCheck(Sum(head + data))), eol, rest);
  }

  // Reading the parts of a short packet.
  lemma ReadShort(c0: byte, c1: byte, typ: byte, data: seq<byte>, check: byte, eol: byte, rest: seq<byte>)
    requires IsGraphic(c0) && IsGraphic(c1) && IsGraphic(typ) && AllGraphic(data) && UnChar(c0) == |data| + 3
    requires check == ToChar(BlockCheck(c0 as int + c1 + typ + Sum(data)))
    ensures ReadPacket([c0, c1, typ] + (data + ([check] + ([eol] + rest))))
         == Reading(Frame(UnChar(c1), Some(typ), data, eol == END_CHAR), rest)
  {
    hide ToChar, UnChar, Sum, BlockCheck, ReadPacket, ReadRest, ReadExtended, AllGraphic;
    var head, tail := [c0, c1, typ], data + ([check] + ([eol] + rest));
    ReadFirst(head, tail);
    assert head[3..] + tail == tail;
    ReadRestWhole(UnChar(c1), typ, data, c0 as int + c1 + typ, check, eol, rest);
  }

  lemma SumBehind(c0: byte, c1: byte, typ: byte, data: seq<byte>)
    ensures Sum([c0, c1, typ] + data) == c0 as int + c1 + typ + Sum(data)
  {
    SumConcat([c0, c1, typ], data);
    SumSmall(c0, c1, typ);
  }

  // k_recv accepts every well-formed short packet and takes exactly its characters.
  lemma ShortAccepted(n: byte, typ: byte, data: seq<byte>, eol: byte, rest: seq<byte>)
    requires |data| <= 91 && AllGraphic(data) && IsGraphic(typ) && n < 0xE0
    ensures ReadPacket(ShortPacket(n, typ, data, eol) + rest) == Reading(Frame(n, Some(typ), data, eol == END_CHAR), rest)
  {
    hide ToChar, UnChar, Sum, BlockCheck, ReadPacket, AllGraphic, ShortPacket;
    CharRoundTrip(n);
    CharRoundTrip(|data| + 3);
    var c0, c1 := ToChar(|data| + 3), ToChar(n);
    SumBehind(c0, c1, typ, data);
    ShortShape(n, typ, data, eol, rest);
    ReadShort(c0, c1, typ, data, ToChar(BlockCheck(c0 as int + c1 + typ + Sum(data))), eol, rest);
  }

  lemma SumLongHead(c0: byte, c1: byte, c2: byte, c3: byte, c4: byte, c5: byte)
    ensures Sum([c0, c1, c2, c3, c4]) == c0 as int + c1 + c2 + c3 + c4
    ensures Sum([c0, c1, c2, c3, c4, c5]) == c0 as int + c1 + c2 + c3 + c4 + c5
  {
    SumSmall(c0, c1, c2);
    assert [c0, c1, c2, c3][..3] == [c0, c1, c2];
    assert [c0, c1, c2, c3, c4][..4] == [c0, c1, c2, c3];
    assert [c0, c1, c2, c3, c4, c5][..5] == [c0, c1, c2, c3, c4];
  }

  lemma LengthDigits(size: nat)
    requires size < 95 * 95
    ensures 0 <= size / 95 < 95 && 0 <= size % 95 < 95 && size / 95 * 95 + size % 95 == size
  {
  }

  // What the reader checks and computes over an extended header.
  predicate HeadChars(h: seq<byte>, n: byte, typ: byte, size: nat) {
    && |h| == 6
    && IsGraphic(h[0]) && IsGraphic(h[1]) && IsGraphic(h[2]) && IsGraphic(h[3]) && IsGraphic(h[4]) && IsGraphic(h[5])
    && UnChar(h[0]) == 0 && UnChar(h[1]) == n && h[2] == typ && UnChar(h[3]) * 95 + UnChar(h[4]) == size
    && h[5] == ToChar(BlockCheck(h[0] as int + h[1] + h[2] + h[3] + h[4]))
  }

  lemma LongHeadChars(n: byte, typ: byte, size: nat)
    requires 0 < size < 95 * 95 && IsGraphic(typ) && n < 0xE0
    ensures HeadChars(LongHead(n, typ, size), n, typ, size)
  {
    hide ToChar, UnChar, BlockCheck, Sum, IsGraphic;
    LengthDigits(size);
    CharRoundTrip(n);
    CharRoundTrip(0);
    CharRoundTrip(size / 95);
    CharRoundTrip(size % 95);
    var c1, hi, lo := ToChar(n), ToChar(size / 95), ToChar(size % 95);
    SumLongHead(ToChar(0), c1, typ, hi, lo, 0);
    CheckGraphic(Sum([ToChar(0), c1, typ, hi, lo]));
  }

  lemma SumHead(h: seq<byte>)
    requires |h| == 6
    ensures Sum(h) == h[0] as int + h[1] + h[2] + h[3] + h[4] + h[5]
  {
    SumLongHead(h[0], h[1], h[2], h[3], h[4], h[5]);
    assert h == [h[0], h[1], h[2], h[3], h[4], h[5]];
  }

  lemma ReadLongHead(h: seq<byte>, n: byte, typ: byte, size: nat, s: seq<byte>)
    requires size > 0 && HeadChars(h, n, typ, size)
    ensures ReadPacket(h + s) == ReadRest(n, typ, size - 1, Sum(h), s)
  {
    hide ToChar, UnChar, Sum, BlockCheck, ReadPacket, ReadExtended, ReadRest, GetGraphic;
    var sum := h[0] as int + h[1] + h[2];
    assert ReadPacket(h + s) == ReadExtended(n, typ, sum, h[3..] + s) by {
      ReadFirst(h, s);
    }
    assert ReadExtended(n, typ, sum, h[3..] + s) == ReadRest(n, typ, DataCount(size), sum + h[3] + h[4] + h[5], s) by {
      GetsNext(h, s);
      ReadExtendedHead(n, typ, sum, h[3], h[4], h[5], h[3..] + s, h[4..] + s, h[5..] + s, s);
    }
    SumHead(h);
  }

  lemma GetsNext(h: seq<byte>, s: seq<byte>)
    requires |h| == 6 && IsGraphic(h[3]) && IsGraphic(h[4]) && IsGraphic(h[5])
    ensures GetGraphic(h[3..] + s) == Got(h[3], h[4..] + s)
    ensures GetGraphic(h[4..] + s) == Got(h[4], h[5..] + s)
    ensures GetGraphic(h[5..] + s) == Got(h[5], s)
  {
    GetAt(h, 3, s);
    GetAt(h, 4, s);
    GetAt(h, 5, s);
    assert h[6..] + s == s;
  }

  // The same for extended packets.
  lemma LongAccepted(n: byte, typ: byte, data: seq<byte>, eol: byte, rest: seq<byte>)
    requires |data| + 1 < 95 * 95 && AllGraphic(data) && IsGraphic(typ) && n < 0xE0
    ensures ReadPacket(LongPacket(n, typ, data, eol) + rest) == Reading(Frame(n, Some(typ), data, eol == END_CHAR), rest)
  {
    hide ToChar, UnChar, Sum, BlockCheck, ReadPacket, ReadRest, AllGraphic, LongHead;
    var h := LongHead(n, typ, |data| + 1);
    var check := ToChar(BlockCheck(Sum(h + data)));
    SumConcat(h, data);
    var t := data + ([check] + ([eol] + rest));
    LongHeadChars(n, typ, |data| + 1);
    ReadLongHead(h, n, typ, |data| + 1, t);
    ReadRestWhole(n, typ, data, Sum(h), check, eol, rest);
    assert LongPacket(n, typ, data, eol) + rest == h + t;
  }

  // ----- damaged packets ----------------------------------------------------------------

  predicate Accepted(r: Reading) {
    r.attempt.Frame? && r.attempt.good
  }

  lemma {:induction false} ReadBodyNeedsGraphic(data: seq<byte>, rest: seq<byte>)
    ensures ReadBody(data + rest, |data|).Whole? ==> AllGraphic(data)
  {
    if data != [] && IsGraphic(data[0]) {
      GetHead(data[0], data[1..] + rest);
      assert data + rest == [data[0]] + (data[1..] + rest);
      ReadBodyNeedsGraphic(data[1..], rest);
    }
  }

  lemma TailRefuses(n: byte, typ: byte, data: seq<byte>, sum: nat, s: seq<byte>)
    requires s != [] && s[0] != ToChar(BlockCheck(sum))
    ensures !Accepted(ReadTail(n, typ, data, sum, s))
  {
    hide BlockCheck, ToChar;
  }

  lemma RestRefuses(n: byte, typ: byte, data: seq<byte>, sum: nat, end: seq<byte>)
    requires end != [] && end[0] != ToChar(BlockCheck(sum + Sum(data)))
    ensures !Accepted(ReadRest(n, typ, |data|, sum, data + end))
  {
    hide BlockCheck, ToChar, Sum, ReadTail, ReadBody, AllGraphic;
    if AllGraphic(data) {
      ReadBodyWhole(data, end);
      TailRefuses(n, typ, data, sum + Sum(data), end);
    } else {
      ReadBodyNeedsGraphic(data, end);
    }
  }

  // Whatever stands in for the head of a short packet, the receiver refuses it if the length
  // is right and the block check is not.
  lemma WrongCheckRefused(head: seq<byte>, end: seq<byte>)
    requires 3 <= |head| <= 94 && head[0] == ToChar(|head|) && end != []
    requires end[0] != ToChar(BlockCheck(Sum(head)))
    ensures !Accepted(ReadPacket(head + end))
  {
    if IsGraphic(head[1]) && IsGraphic(head[2]) {
      hide ToChar, Sum, BlockCheck, ReadPacket;
      CharRoundTrip(|head|);
      SumFirst(head);
      GraphicRefused(head, end, head[0] as int + head[1] + head[2]);
    } else {
      FirstRefuses(head, end);
    }
  }

  lemma SumFirst(h: seq<byte>)
    requires |h| >= 3
    ensures Sum(h) == h[0] as int + h[1] + h[2] + Sum(h[3..])
  {
    SumSmall(h[0], h[1], h[2]);
    SumConcat([h[0], h[1], h[2]], h[3..]);
    assert h == [h[0], h[1], h[2]] + h[3..];
  }

  lemma GraphicRefused(h: seq<byte>, end: seq<byte>, sum: nat)
    requires |h| >= 3 && IsGraphic(h[0]) && IsGraphic(h[1]) && IsGraphic(h[2])
    requires UnChar(h[0]) == |h| && sum == h[0] as int + h[1] + h[2]
    requires end != [] && end[0] != ToChar(BlockCheck(sum + Sum(h[3..])))
    ensures !Accepted(ReadPacket(h + end))
  {
    hide ToChar, UnChar, Sum, BlockCheck, ReadRest, ReadExtended, ReadPacket, Accepted;
    ReadFirst(h, end);
    RestRefuses(UnChar(h[1]), h[2], h[3..], sum, end);
  }

  lemma FirstRefuses(h: seq<byte>, s: seq<byte>)
    requires |h| >= 3 && !(IsGraphic(h[1]) && IsGraphic(h[2]))
    ensures !Accepted(ReadPacket(h + s))
  {
    hide ReadExtended, ReadRest, UnChar;
    var t := h + s;
    assert t[0] == h[0] && t[1..][0] == h[1] && t[1..][1..][0] == h[2];
  }

  lemma ChecksApart(a: nat, b: nat)
    ensures BlockCheck(a) != BlockCheck(b) ==> ToChar(BlockCheck(a)) != ToChar(BlockCheck(b))
  {
  }

  lemma UpdateInside(a: seq<byte>, end: seq<byte>, i: nat, c: byte, rest: seq<byte>)
    requires i < |a|
    ensures (a + end)[i] == a[i] && (a + end)[i := c] + rest == a[i := c] + (end + rest)
  {
  }

  // A short packet with one inverted bit in its sequence number, type or data is not accepted.
  lemma FlipRefused(n: byte, typ: byte, data: seq<byte>, eol: byte, rest: seq<byte>, i: nat, k: nat)
    requires |data| <= 91 && 1 <= i < |data| + 3 && k < 8
    ensures var p := ShortPacket(n, typ, data, eol);
            !Accepted(ReadPacket(p[i := FlipBit(p[i], k)] + rest))
  {
    hide ToChar, Sum, BlockCheck, ReadPacket, FlipBit, Accepted;
    var head := ShortHead(n, typ, data);
    var flipped := head[i := FlipBit(head[i], k)];
    CheckSeesFlip(head, i, k);
    ChecksApart(Sum(flipped), Sum(head));
    var end := [ToChar(BlockCheck(Sum(head))), eol];
    UpdateInside(head, end, i, FlipBit(head[i], k), rest);
    WrongCheckRefused(flipped, end + rest);
  }
}
