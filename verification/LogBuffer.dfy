// The log ring in its two layouts and logbuff_printk (common/cmd_log.c, include/logbuff.h).

module LogBuffer {
  import opened Words
  import opened LogText

  const LOGBUFF_LEN := 16384

  // Header and bytes of the ring.  `mark` is the size in layout 1 and the end in layout 2.
  datatype Ring = Ring(start: u32, mark: u32, chars: u32, data: seq<char>)

  type Layout = x: int | 1 <= x <= 2 witness 1

  // LOGBUFF_MASK keeps the low bits, and the length is a power of two.
  function Slot(x: int): (k: nat)
    ensures k < LOGBUFF_LEN
  {
    x % LOGBUFF_LEN
  }

  // One character enters the ring.
  function Put(layout: Layout, r: Ring, c: char): (q: Ring)
    requires |r.data| == LOGBUFF_LEN
    ensures |q.data| == LOGBUFF_LEN
  {
    var chars := Wrap(r.chars + 1);
    if layout == 2 then
      var data := r.data[Slot(r.mark) := c];
      var end := Wrap(r.mark + 1);
      Ring(if Minus(end, r.start) > LOGBUFF_LEN then Wrap(r.start + 1) else r.start, end, chars, data)
    else
      var data := r.data[Slot(Wrap(r.start + r.mark)) := c];
      if r.mark < LOGBUFF_LEN then Ring(r.start, r.mark + 1, chars, data)
      else Ring(Wrap(r.start + 1), r.mark, chars, data)
  }

  function PutAll(layout: Layout, r: Ring, s: string): (q: Ring)
    requires |r.data| == LOGBUFF_LEN
    ensures |q.data| == LOGBUFF_LEN
  {
    if s == "" then r
    else Put(layout, PutAll(layout, r, s[..|s| - 1]), s[|s| - 1])
  }

  // The ring as logbuff_reset leaves it; the bytes stay.
  predicate IsReset(r: Ring) {
    |r.data| == LOGBUFF_LEN && r.start == r.mark == r.chars == 0
  }

  // ----- the last characters --------------------------------------------------------------

  function Held(s: string): nat {
    if |s| < LOGBUFF_LEN then |s| else LOGBUFF_LEN
  }

  // What a reader of the ring sees, from the start on.
  function Shown(r: Ring, size: nat): string
    requires |r.data| == LOGBUFF_LEN
  {
    seq(size, i requires 0 <= i => r.data[Slot(Wrap(r.start + i))])
  }

  function Size(layout: Layout, r: Ring): u32 {
    if layout == 2 then Minus(r.mark, r.start) else r.mark
  }

  // Layout 1 after the text s has been logged since the reset.
  predicate Keeps(r: Ring, s: string) {
    && |r.data| == LOGBUFF_LEN && r.mark == Held(s)
    && r.start == Wrap(|s| - Held(s)) && r.chars == Wrap(|s|)
    && forall k :: |s| - Held(s) <= k < |s| ==> r.data[Slot(k)] == s[k]
  }

  lemma SlotsApart(k: nat, n: nat)
    requires n - LOGBUFF_LEN < k < n
    ensures Slot(k) != Slot(n)
  {
  }

  lemma SlotPeriod(x: int, m: int)
    ensures Slot(x - LOGBUFF_LEN * m) == Slot(x)
  {
    assert x - LOGBUFF_LEN * m == LOGBUFF_LEN * (x / LOGBUFF_LEN - m) + x % LOGBUFF_LEN;
  }

  lemma WrappedSlot(base: int, i: int)
    ensures Slot(Wrap(Wrap(base) + i)) == Slot(base + i)
  {
    var x := Wrap(base) + i;
    var m := base / 0x1_0000_0000 + x / 0x1_0000_0000;
    assert Wrap(x) == base + i - LOGBUFF_LEN * (0x4_0000 * m);
    hide Wrap, Slot;
    SlotPeriod(base + i, 0x4_0000 * m);
  }

  lemma WrapStep(x: int, m: int)
    ensures Wrap(Wrap(x) + m) == Wrap(x + m)
  {
    AddMod(x, m, 0x1_0000_0000);
  }

  lemma PutKeeps(r: Ring, s: string, c: char)
    requires Keeps(r, s)
    ensures Keeps(Put(1, r, c), s + [c])
  {
    hide Slot, Wrap, Minus;
    var q, t, n := Put(1, r, c), s + [c], |s|;
    assert Slot(Wrap(r.start + r.mark)) == Slot(n) by {
      WrappedSlot(n - Held(s), Held(s));
    }
    assert Wrap(r.chars + 1) == Wrap(|t|) by {
      WrapStep(n, 1);
    }
    assert q.start == Wrap(|t| - Held(t)) by {
      WrapStep(n - Held(s), 1);
    }
    forall k | |t| - Held(t) <= k < |t|
      ensures q.data[Slot(k)] == t[k]
    {
      if k < n {
        SlotsApart(k, n);
      }
    }
  }

  lemma {:induction false} PutAllKeeps(r: Ring, s: string)
    requires IsReset(r)
    ensures Keeps(PutAll(1, r, s), s)
  {
    hide Keeps, Put;
    if s == "" {
      NothingKept(r);
    } else {
      var init, c := s[..|s| - 1], s[|s| - 1];
      PutAllKeeps(r, init);
      PutKeeps(PutAll(1, r, init), init, c);
      assert s == init + [c];
    }
  }

  lemma NothingKept(r: Ring)
    requires IsReset(r)
    ensures Keeps(r, "")
  {
  }

  // ----- the two layouts run in lockstep -----------------------------------------------------

  predicate Lockstep(r1: Ring, r2: Ring) {
    && |r1.data| == LOGBUFF_LEN && r1.mark <= LOGBUFF_LEN
    && r1.start == r2.start && r2.mark == Wrap(r1.start + r1.mark)
    && r1.chars == r2.chars && r1.data == r2.data
  }

  lemma EndMinusStart(start: u32, m: int)
    requires 0 <= m <= LOGBUFF_LEN
    ensures Minus(Wrap(start + m), start) == m
    ensures Wrap(Wrap(start + m) + 1) == Wrap(start + m + 1) == Wrap(Wrap(start + 1) + m)
    ensures Minus(Wrap(start + m + 1), start) == m + 1
  {
    hide Wrap, Minus;
    EndMinus(start, m);
    EndMinus(start, m + 1);
    WrapStep(start + m, 1);
    WrapStep(start + 1, m);
  }

  lemma EndMinus(start: u32, m: int)
    requires 0 <= m <= LOGBUFF_LEN + 1
    ensures Minus(Wrap(start + m), start) == m
  {
    if start + m >= 0x1_0000_0000 {
      assert Wrap(start + m) == start + m - 0x1_0000_0000;
    } else {
      assert Wrap(start + m) == start + m;
    }
  }

  lemma PutLockstep(r1: Ring, r2: Ring, c: char)
    requires Lockstep(r1, r2)
    ensures Lockstep(Put(1, r1, c), Put(2, r2, c))
  {
    hide Slot, Wrap, Minus;
    EndMinusStart(r1.start, r1.mark);
  }

  lemma {:induction false} LayoutsAgree(r: Ring, s: string)
    requires IsReset(r)
    ensures Lockstep(PutAll(1, r, s), PutAll(2, r, s))
  {
    if s != "" {
      LayoutsAgree(r, s[..|s| - 1]);
      hide Lockstep, Put;
      PutLockstep(PutAll(1, r, s[..|s| - 1]), PutAll(2, r, s[..|s| - 1]), s[|s| - 1]);
    }
  }

  lemma ShownIsTail(r: Ring, s: string)
    requires Keeps(r, s)
    ensures Shown(r, Held(s)) == s[|s| - Held(s)..]
  {
    hide Slot, Wrap;
    var base := |s| - Held(s);
    forall i | 0 <= i < Held(s)
      ensures Shown(r, Held(s))[i] == s[base + i]
    {
      WrappedSlot(base, i);
      assert r.data[Slot(base + i)] == s[base + i];
    }
  }

  // In both layouts the ring shows the last characters logged since the reset, in order.
  lemma RingShowsTail(layout: Layout, r: Ring, s: string)
    requires IsReset(r)
    ensures var q := PutAll(layout, r, s);
            && Size(layout, q) == Held(s) && q.chars == Wrap(|s|)
            && Shown(q, Held(s)) == s[|s| - Held(s)..]
  {
    hide PutAll, Slot, Wrap, Minus;
    var r1, r2 := PutAll(1, r, s), PutAll(2, r, s);
    PutAllKeeps(r, s);
    LayoutsAgree(r, s);
    EndMinusStart(r1.start, r1.mark);
    ShownIsTail(r1, s);
    assert Shown(r2, Held(s)) == Shown(r1, Held(s));
  }

  lemma {:induction false} PutAllAppend(layout: Layout, r: Ring, a: string, b: string)
    requires |r.data| == LOGBUFF_LEN
    ensures PutAll(layout, r, a + b) == PutAll(layout, PutAll(layout, r, a), b)
  {
    hide Put;
    if b == "" {
      assert a + b == a;
    } else {
      var n := |b| - 1;
      assert (a + b)[..|a + b| - 1] == a + b[..n];
      PutAllAppend(layout, r, a, b[..n]);
    }
  }

  // From the reset on, calls that cut no mark leave the end of the stamped text in the ring.
  lemma CallsLeaveStampedTail(layout: Layout, r: Ring, lines: seq<string>)
    requires IsReset(r) && !SomeCut(-1, lines)
    ensures var text := StampLines(Concat(lines));
            var q := PutAll(layout, r, Run(-1, lines).text);
            Size(layout, q) == Held(text) && Shown(q, Held(text)) == text[|text| - Held(text)..]
  {
    hide PutAll, Shown, Size, StampLines, Run, Concat, SomeCut;
    RunStampsLinesIff(lines);
    RingShowsTail(layout, r, Run(-1, lines).text);
  }

  lemma EmitLineFeed(level: int, s: string)
    requires level >= 0 && s != "" && s[0] == '\n'
    ensures Emit(level, s) == Prefixed("\n", Annotate(-1, s[1..]))
  {
  }

  // The text of a line, up to its line feed or the end of the call, is passed on.
  lemma EmitUpTo(level: int, s: string, n: nat)
    requires level >= 0 && n <= |s| && '\n' !in s[..n] && (n < |s| ==> s[n] == '\n')
    ensures if n == |s| then Emit(level, s) == Marked(s, level)
            else Emit(level, s) == Prefixed(s[..n + 1], Annotate(-1, s[n + 1..]))
  {
    var head, tail := s[..n], s[n..];
    assert s == head + tail;
    EmitPlain(level, head, tail);
    if n == |s| {
      EmitNothing(level);
      hide Emit, Annotate;
      assert head + "" == s;
    } else {
      EmitLineFeed(level, tail);
      hide Emit, Annotate;
      assert tail[1..] == s[n + 1..] && head + "\n" == s[..n + 1];
      PrefixedTwice(head, "\n", Annotate(-1, s[n + 1..]));
    }
  }

  // The mark of a line in a buffer that ends with a NUL.
  lemma MarkAt(s: seq<char>, at: nat, end: nat)
    requires at < end < |s| && s[end] == '\0'
    ensures HasMark(s[at..end]) <==>
              s[at] == '<' && '0' <= s[at + 1] <= '7' && at + 2 <= end && s[at + 2] == '>'
    ensures HasMark(s[at..end]) ==> MarkLevel(s[at..end]) == s[at + 1] as int - '0' as int
  {
    if s[at] == '<' && '0' <= s[at + 1] <= '7' && at + 2 <= end && s[at + 2] == '>' {
      assert at + 2 != end;
    }
  }

  // The default mark written in front of a line.
  function WithMark(s: seq<char>, at: nat): (r: seq<char>)
    requires 3 <= at <= |s|
    ensures |r| == |s|
  {
    s[at - 3 := '<'][at - 2 := ('0' as int + DEFAULT_LEVEL) as char][at - 1 := '>']
  }

  lemma MarkInPlace(s: seq<char>, at: nat, end: nat)
    requires 3 <= at <= end < |s|
    ensures var r := WithMark(s, at);
            && r[at - 3..end] == DEFAULT_MARK + s[at..end] && r[at - 2] as int - '0' as int == DEFAULT_LEVEL
            && (forall k :: at <= k <= end ==> r[k] == s[k])
            && r[at - 3..at] == DEFAULT_MARK && '\n' !in DEFAULT_MARK
  {
  }

  lemma NotInside(s: seq<char>, i: nat, j: nat, c: char)
    requires i <= j <= |s| && c !in s[i..j]
    ensures forall k :: i <= k < j ==> s[k] != c
  {
    assert forall k :: i <= k < j ==> s[k] == s[i..j][k - i];
  }

  // At a line start the annotation is the rest of a line, behind its own mark or the default.
  lemma StartOfLine(level: int, s: string)
    requires s != ""
    ensures Annotate(level, s)
         == if level >= 0 then Emit(level, s)
            else if HasMark(s) then Emit(MarkLevel(s), s) else Emit(DEFAULT_LEVEL, DEFAULT_MARK + s)
  {
    EmitPlain(DEFAULT_LEVEL, DEFAULT_MARK, s);
    hide Emit;
  }

  lemma PrefixedTwice(a: string, b: string, r: Marked)
    ensures Prefixed(a, Prefixed(b, r)) == Prefixed(a + b, r)
  {
    assert a + (b + r.text) == a + b + r.text;
  }

  lemma AnnotateNothing(level: int)
    ensures Annotate(level, "") == Marked("", level)
  {
  }

  lemma SliceAgain(s: seq<char>, i: nat, j: nat, n: nat)
    requires i <= j <= |s| && n <= j - i
    ensures s[i..j][..n] == s[i..i + n] && s[i..j][n..] == s[i + n..j]
  {
  }

  lemma PutNothing(layout: Layout, r: Ring)
    requires |r.data| == LOGBUFF_LEN
    ensures PutAll(layout, r, "") == r
  {
  }

  // ----- the calls that log -----------------------------------------------------------------

  // The text after each word of `log append`.
  function AppendCalls(argv: seq<string>): seq<string> {
    if argv == [] then []
    else [argv[0], if |argv| == 1 then "\n" else " "] + AppendCalls(argv[1..])
  }

  // Words separated by spaces.
  function Sentence(words: seq<string>): string {
    if words == [] then ""
    else if |words| == 1 then words[0]
    else Sentence(words[..|words| - 1]) + (" " + words[|words| - 1])
  }

  lemma {:induction false} SentenceFirst(words: seq<string>)
    requires |words| > 1
    ensures Sentence(words) == words[0] + (" " + Sentence(words[1..]))
  {
    var init, last, more := words[..|words| - 1], words[|words| - 1], words[1..];
    if |words| > 2 {
      SentenceFirst(init);
      assert init[1..] == more[..|more| - 1] && more[|more| - 1] == last;
      var a, b := words[0], Sentence(init[1..]);
      assert a + (" " + b) + (" " + last) == a + (" " + (b + (" " + last)));
    } else {
      assert init == [words[0]] && more == [last];
    }
  }

  lemma {:induction false} ConcatCons(a: string, more: seq<string>)
    ensures Concat([a] + more) == a + Concat(more)
  {
    var all := [a] + more;
    if more == [] {
      assert all[..0] == [] && "" + a == a + "";
    } else {
      var init, last := more[..|more| - 1], more[|more| - 1];
      assert all[..|all| - 1] == [a] + init;
      ConcatCons(a, init);
      assert a + Concat(init) + last == a + (Concat(init) + last);
    }
  }

  lemma OneWord(words: seq<string>)
    requires |words| == 1
    ensures Sentence(words) == words[0]
  {
  }

  // `log append` logs its words, separated by spaces and ended by one line feed.
  lemma {:induction false} AppendReads(argv: seq<string>)
    ensures Concat(AppendCalls(argv)) == if argv == [] then "" else Sentence(argv) + "\n"
  {
    if argv != [] {
      hide Sentence, Concat;
      var word, more := argv[0], argv[1..];
      var end := if more == [] then "\n" else " ";
      AppendReads(more);
      assert AppendCalls(argv) == [word] + ([end] + AppendCalls(more));
      ConcatCons(word, [end] + AppendCalls(more));
      ConcatCons(end, AppendCalls(more));
      if more == [] {
        OneWord(argv);
        assert word + (end + "") == word + "\n";
      } else {
        SentenceFirst(argv);
        var b := Sentence(more);
        assert word + (" " + (b + "\n")) == word + (" " + b) + "\n";
      }
    }
  }

  // If no boundary between them cuts a mark, the words are stamped as one text.
  lemma AppendStamps(argv: seq<string>)
    requires argv != [] && !SomeCut(-1, AppendCalls(argv))
    ensures Run(-1, AppendCalls(argv)).text == StampLines(Sentence(argv) + "\n")
  {
    AppendReads(argv);
    RunStampsLinesIff(AppendCalls(argv));
    hide AppendCalls, Concat, StampLines, Run, SomeCut, Sentence;
  }

  lemma RunAppend(layout: Layout, r: Ring, level: int, calls: seq<string>, line: string)
    requires |r.data| == LOGBUFF_LEN
    ensures var h, q := Run(level, calls), Run(level, calls + [line]);
            && PutAll(layout, r, q.text) == PutAll(layout, PutAll(layout, r, h.text), Annotate(h.level, line).text)
            && q.level == Annotate(h.level, line).level
  {
    assert (calls + [line])[..|calls|] == calls;
    PutAllAppend(layout, r, Run(level, calls).text, Annotate(Run(level, calls).level, line).text);
  }

  class LogBuff {
    const layout: Layout
    const buf: array<char>
    const lbuf: array<char>
    var msgLevel: int
    var start: u32
    var size: u32
    var end: u32
    var chars: u32

    constructor (layout: Layout)
      ensures Valid() && this.layout == layout && msgLevel == -1 && IsReset(State())
      ensures fresh(buf) && fresh(lbuf)
    {
      this.layout := layout;
      buf := new char[1024];
      lbuf := new char[LOGBUFF_LEN];
      msgLevel := -1;
      start, size, end, chars := 0, 0, 0, 0;
    }

    ghost predicate Valid()
      reads this
    {
      buf.Length == 1024 && lbuf.Length == LOGBUFF_LEN && buf != lbuf && -1 <= msgLevel <= 7
    }

    ghost function State(): (r: Ring)
      reads this, lbuf
      requires Valid()
      ensures |r.data| == LOGBUFF_LEN
    {
      Ring(start, if layout == 2 then end else size, chars, lbuf[..])
    }

    // logbuff_reset
    method Reset()
      requires Valid()
      modifies this
      ensures Valid() && msgLevel == old(msgLevel)
      ensures IsReset(State()) && State().data == old(State().data)
    {
      start, size, end, chars := 0, 0, 0, 0;
    }

    method PutChar(c: char)
      requires Valid()
      modifies this, lbuf
      ensures Valid() && msgLevel == old(msgLevel)
      ensures State() == Put(layout, old(State()), c)
    {
      hide Wrap, Slot;
      if layout == 2 {
        lbuf[Slot(end)] := c;
        end := Wrap(end as int + 1);
        if Minus(end, start) > LOGBUFF_LEN {
          start := Wrap(start as int + 1);
        }
        chars := Wrap(chars as int + 1);
      } else {
        lbuf[Slot(Wrap(start as int + size as int))] := c;
        if size < LOGBUFF_LEN {
          size := size + 1;
        } else {
          start := Wrap(start as int + 1);
        }
        chars := Wrap(chars as int + 1);
      }
    }

    // logbuff_printk, which writes a missing mark in front of the line in its own buffer.
    method Printk(line: string) returns (i: int)
      requires Valid() && |line| + 4 <= buf.Length
      modifies this, buf, lbuf
      ensures Valid() && i == |line|
      ensures var r := Annotate(old(msgLevel), line);
              State() == PutAll(layout, old(State()), r.text) && msgLevel == r.level
    {
      hide Put, PutAll, Emit, Annotate, HasMark;
      ghost var before, out := State(), "";
      ghost var whole := Annotate(msgLevel, line);
      var bufEnd := Copy(line);
      i := |line|;
      var p := 3;
      assert line[0..] == line;
      assert Prefixed("", whole) == whole;
      PutNothing(layout, before);
      while p < bufEnd
        invariant Valid() && 3 <= p <= bufEnd + 1 == |line| + 4 && buf[bufEnd] == '\0'
        invariant forall k :: p <= k < bufEnd ==> buf[k] == line[k - 3]
        invariant State() == PutAll(layout, before, out)
        invariant whole == Prefixed(out, Annotate(msgLevel, if p <= bufEnd then line[p - 3..] else ""))
      {
        ghost var text, rest;
        p, text, rest := PrintLine(p, bufEnd, line[p - 3..]);
        PutAllAppend(layout, before, out, text);
        PrefixedTwice(out, text, Annotate(msgLevel, rest));
        out := out + text;
        assert p <= bufEnd ==> rest == line[p - 3..];
      }
      assert p == bufEnd ==> line[p - 3..] == "";
      AnnotateNothing(msgLevel);
      assert out + "" == out;
    }

    // One line: its mark, its characters, and the level for what follows.
    method PrintLine(at: nat, bufEnd: nat, ghost line: string)
      returns (next: nat, ghost text: string, ghost rest: string)
      requires Valid() && 3 <= at < bufEnd < buf.Length && buf[bufEnd] == '\0'
      requires line == buf[at..bufEnd]
      modifies this, buf, lbuf
      ensures Valid() && at < next <= bufEnd + 1
      ensures forall k :: at <= k <= bufEnd ==> buf[k] == old(buf[k])
      ensures State() == PutAll(layout, old(State()), text)
      ensures Annotate(old(msgLevel), line) == Prefixed(text, Annotate(msgLevel, rest))
      ensures rest == if next <= bufEnd then line[next - at..] else ""
    {
      hide Put, PutAll, Emit, Annotate, HasMark;
      var p := MarkLine(at, bufEnd, line);
      ghost var s, level, b := buf[p..bufEnd], msgLevel, buf[..];
      assert '\n' !in b[p..at];
      var q, lineFeed := LogLine(p, bufEnd);
      assert buf[..] == b;
      NotInside(b, p, at, '\n');
      assert lineFeed ==> b[q] == '\n';
      assert at <= q;
      EmitUpTo(level, s, q - p);
      next := q + 1;
      if lineFeed {
        msgLevel := -1;
        text, rest := buf[p..q + 1], buf[q + 1..bufEnd];
        SliceAgain(buf[..], at, bufEnd, q + 1 - at);
        SliceAgain(buf[..], p, bufEnd, q + 1 - p);
        assert buf[at..bufEnd] == line;
      } else {
        text, rest := buf[p..q], "";
        AnnotateNothing(level);
        assert text + "" == text;
      }
    }

    // The loop over the characters of one line.
    method LogLine(at: nat, bufEnd: nat) returns (p: nat, lineFeed: bool)
      requires Valid() && at <= bufEnd < buf.Length
      modifies this, lbuf
      ensures Valid() && msgLevel == old(msgLevel)
      ensures at <= p <= bufEnd && '\n' !in buf[at..p]
      ensures if lineFeed then p < bufEnd && buf[p] == '\n' else p == bufEnd
      ensures State() == PutAll(layout, old(State()), buf[at..if lineFeed then p + 1 else p])
    {
      hide Put;
      p, lineFeed := at, false;
      while p < bufEnd
        invariant Valid() && msgLevel == old(msgLevel)
        invariant at <= p <= bufEnd && '\n' !in buf[at..p]
        invariant State() == PutAll(layout, old(State()), buf[at..p])
      {
        PutChar(buf[p]);
        assert buf[at..p + 1][..|buf[at..p + 1]| - 1] == buf[at..p];
        if buf[p] == '\n' {
          lineFeed := true;
          break;
        }
        p := p + 1;
      }
    }

    // The line is copied behind three bytes kept free for a mark.
    method Copy(line: string) returns (bufEnd: nat)
      requires Valid() && |line| + 4 <= buf.Length
      modifies buf
      ensures bufEnd == 3 + |line| && buf[bufEnd] == '\0' && buf[3..bufEnd] == line
    {
      var j := 0;
      while j < |line|
        invariant 0 <= j <= |line|
        invariant buf[3..3 + j] == line[..j]
      {
        buf[3 + j] := line[j];
        j := j + 1;
      }
      bufEnd := 3 + |line|;
      buf[bufEnd] := '\0';
    }

    // At a line start: take the level from the mark, or write the default mark in place,
    // over bytes that have been logged already.
    method MarkLine(at: nat, bufEnd: nat, ghost rest: string) returns (p: nat)
      requires Valid() && 3 <= at < bufEnd < buf.Length && buf[bufEnd] == '\0'
      requires rest == buf[at..bufEnd]
      modifies this`msgLevel, buf
      ensures Valid() && msgLevel >= 0 && at - 3 <= p <= at
      ensures forall k :: at <= k <= bufEnd ==> buf[k] == old(buf[k])
      ensures '\n' !in buf[p..at]
      ensures Annotate(old(msgLevel), rest) == Emit(msgLevel, buf[p..bufEnd])
    {
      hide Annotate, Emit, HasMark, MarkLevel;
      ghost var was := buf[..];
      StartOfLine(msgLevel, rest);
      MarkAt(was, at, bufEnd);
      MarkInPlace(was, at, bufEnd);
      p := at;
      if msgLevel < 0 {
        if buf[p] != '<' || buf[p + 1] < '0' || buf[p + 1] > '7' || buf[p + 2] != '>' {
          p := p - 3;
          buf[p] := '<';
          buf[p + 1] := ('0' as int + DEFAULT_LEVEL) as char;
          buf[p + 2] := '>';
          assert buf[..] == WithMark(was, at);
        }
        msgLevel := buf[p + 1] as int - '0' as int;
      }
    }

    // logbuff_putc
    method Putc(c: char)
      requires Valid()
      modifies this, buf, lbuf
      ensures Valid()
      ensures var r := Annotate(old(msgLevel), [c]);
              State() == PutAll(layout, old(State()), r.text) && msgLevel == r.level
    {
      var _ := Printk([c]);
    }

    // do_log with "append"
    method Append(argv: seq<string>)
      requires Valid()
      requires forall k :: 0 <= k < |argv| ==> |argv[k]| + 4 <= buf.Length
      modifies this, buf, lbuf
      ensures Valid()
      ensures var r := Run(old(msgLevel), AppendCalls(argv));
              State() == PutAll(layout, old(State()), r.text) && msgLevel == r.level
    {
      hide PutAll, Annotate;
      ghost var before, level := State(), msgLevel;
      ghost var calls: seq<string> := [];
      var i := 0;
      PutNothing(layout, before);
      assert argv[0..] == argv;
      while i < |argv|
        invariant Valid() && 0 <= i <= |argv|
        invariant AppendCalls(argv) == calls + AppendCalls(argv[i..])
        invariant var r := Run(level, calls);
                  State() == PutAll(layout, before, r.text) && msgLevel == r.level
      {
        ghost var last := if i < |argv| - 1 then " " else "\n";
        assert argv[i..][0] == argv[i] && argv[i..][1..] == argv[i + 1..];
        ghost var r := Run(level, calls);
        var _ := Printk(argv[i]);
        RunAppend(layout, before, level, calls, argv[i]);
        calls := calls + [argv[i]];
        Putc(if i < |argv| - 1 then ' ' else '\n');
        RunAppend(layout, before, level, calls, last);
        calls := calls + [last];
        i := i + 1;
      }
      assert calls + [] == calls;
    }
  }
}
