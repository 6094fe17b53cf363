// The line annotator of the log buffer: what logbuff_printk makes of the text it is given
// (common/cmd_log.c).

module LogText {
  // default_message_loglevel
  const DEFAULT_LEVEL := 4
  const DEFAULT_MARK: string := ['<', ('0' as int + DEFAULT_LEVEL) as char, '>']

  // A line that names its own level.
  predicate HasMark(s: string) {
    |s| >= 3 && s[0] == '<' && '0' <= s[1] <= '7' && s[2] == '>'
  }

  function MarkLevel(s: string): (level: nat)
    requires HasMark(s)
    ensures level < 8
  {
    s[1] as int - '0' as int
  }

  // Text for the ring and the level left behind; a negative level stands for "at the start
  // of a line".
  datatype Marked = Marked(text: string, level: int)

  function Prefixed(p: string, r: Marked): Marked {
    Marked(p + r.text, r.level)
  }

  function Annotate(level: int, s: string): Marked
    decreases |s|, 1
  {
    if s == "" then Marked("", level)
    else if level >= 0 then Emit(level, s)
    else if HasMark(s) then Emit(MarkLevel(s), s)
    else Prefixed(DEFAULT_MARK, Emit(DEFAULT_LEVEL, s))
  }

  // The rest of a line whose level is known, and what follows it.
  function Emit(level: int, s: string): Marked
    requires level >= 0
    decreases |s|, 0
  {
    if s == "" then Marked("", level)
    else if s[0] == '\n' then Prefixed("\n", Annotate(-1, s[1..]))
    else Prefixed([s[0]], Emit(level, s[1..]))
  }

  // ----- the meaning of the annotation -----------------------------------------------------

  // Length of the first line, with its line feed if it has one.
  function LineLength(s: string): (n: nat)
    requires s != ""
    ensures 0 < n <= |s|
  {
    if s[0] == '\n' || |s| == 1 then 1 else 1 + LineLength(s[1..])
  }

  function Stamp(line: string): string {
    if HasMark(line) then line else DEFAULT_MARK + line
  }

  // Every line without a level of its own gets the default one.
  function StampLines(s: string): string {
    if s == "" then ""
    else var n := LineLength(s); Stamp(s[..n]) + StampLines(s[n..])
  }

  lemma {:induction false} EmitLine(level: int, s: string)
    requires level >= 0 && s != ""
    ensures var n := LineLength(s);
            && Emit(level, s).text == s[..n] + Annotate(-1, s[n..]).text
            && (n < |s| ==> s[n - 1] == '\n')
            && (forall i :: 0 <= i < n - 1 ==> s[i] != '\n')
  {
    if s[0] == '\n' || |s| == 1 {
      assert s[..1] == [s[0]];
    } else {
      var rest := s[1..];
      var n := LineLength(rest);
      EmitLine(level, rest);
      assert LineLength(s) == n + 1 && Emit(level, s) == Prefixed([s[0]], Emit(level, rest));
      hide LineLength, Emit, Annotate;
      assert rest[n..] == s[n + 1..] && s[..n + 1] == [s[0]] + rest[..n];
      Reassociate([s[0]], rest[..n], Annotate(-1, s[n + 1..]).text);
    }
  }

  lemma Reassociate(a: string, b: string, c: string)
    ensures a + (b + c) == a + b + c
  {
  }

  // A mark is part of its line.
  lemma MarkInLine(s: string)
    requires s != ""
    ensures HasMark(s[..LineLength(s)]) <==> HasMark(s)
  {
    EmitLine(DEFAULT_LEVEL, s);
    hide Emit, Annotate, LineLength;
  }

  lemma {:induction false} AnnotateStampsLines(s: string)
    ensures Annotate(-1, s).text == StampLines(s)
  {
    if s != "" {
      var n := LineLength(s);
      MarkInLine(s);
      AnnotateStampsLines(s[n..]);
      hide LineLength, Emit, HasMark;
      if HasMark(s) {
        var level := MarkLevel(s);
        EmitLine(level, s);
        assert Annotate(-1, s) == Emit(level, s);
      } else {
        EmitLine(DEFAULT_LEVEL, s);
        assert Annotate(-1, s) == Prefixed(DEFAULT_MARK, Emit(DEFAULT_LEVEL, s));
        Reassociate(DEFAULT_MARK, s[..n], StampLines(s[n..]));
      }
    }
  }

  // ----- cutting the text into calls --------------------------------------------------------

  // The call boundary between a and b falls inside the level mark of a line.
  predicate Cuts(level: int, a: string, b: string) {
    exists k :: 0 <= k < |a| && LineStart(level, a, k) && !HasMark(a[k..]) && HasMark(a[k..] + b)
  }

  predicate LineStart(level: int, a: string, k: nat)
    requires k < |a|
  {
    if k == 0 then level < 0 else a[k - 1] == '\n'
  }

  predicate SameSide(x: int, y: int) {
    x < 0 <==> y < 0
  }

  function Then(r: Marked, b: string): Marked {
    Prefixed(r.text, Annotate(r.level, b))
  }

  lemma CutsLater(level: int, a: string, b: string)
    requires a != "" && level >= 0
    ensures Cuts(level, a, b) <==> Cuts(if a[0] == '\n' then -1 else 0, a[1..], b)
  {
    var rest, l := a[1..], if a[0] == '\n' then -1 else 0;
    if Cuts(level, a, b) {
      var k :| 0 <= k < |a| && LineStart(level, a, k) && !HasMark(a[k..]) && HasMark(a[k..] + b);
      assert rest[k - 1..] == a[k..];
      assert LineStart(l, rest, k - 1);
    }
    if Cuts(l, rest, b) {
      var k :| 0 <= k < |rest| && LineStart(l, rest, k) && !HasMark(rest[k..]) && HasMark(rest[k..] + b);
      assert rest[k..] == a[k + 1..];
      assert LineStart(level, a, k + 1);
    }
  }

  lemma CutsHere(a: string, b: string)
    requires a != ""
    ensures Cuts(-1, a, b) <==> (!HasMark(a) && HasMark(a + b)) || Cuts(0, a, b)
  {
    assert a[0..] == a;
    if Cuts(-1, a, b) {
      var k :| 0 <= k < |a| && LineStart(-1, a, k) && !HasMark(a[k..]) && HasMark(a[k..] + b);
      assert k > 0 ==> LineStart(0, a, k);
    }
    if !HasMark(a) && HasMark(a + b) {
      assert LineStart(-1, a, 0);
    }
    if Cuts(0, a, b) {
      var k :| 0 <= k < |a| && LineStart(0, a, k) && !HasMark(a[k..]) && HasMark(a[k..] + b);
      assert LineStart(-1, a, k);
    }
  }

  // The level in force does not show in the text.
  lemma {:induction false} EmitLevelFree(x: int, y: int, s: string)
    requires x >= 0 && y >= 0
    ensures Emit(x, s).text == Emit(y, s).text && SameSide(Emit(x, s).level, Emit(y, s).level)
  {
    if s != "" && s[0] != '\n' {
      EmitLevelFree(x, y, s[1..]);
    }
  }

  lemma AnnotateLevelFree(x: int, y: int, s: string)
    requires SameSide(x, y)
    ensures Annotate(x, s).text == Annotate(y, s).text && SameSide(Annotate(x, s).level, Annotate(y, s).level)
  {
    if x >= 0 {
      EmitLevelFree(x, y, s);
    }
  }

  // Text without a line feed is passed on as it is.
  lemma {:induction false} EmitPlain(level: int, a: string, b: string)
    requires level >= 0 && '\n' !in a
    ensures Emit(level, a + b) == Prefixed(a, Emit(level, b))
  {
    if a == "" {
      assert a + b == b;
      assert Prefixed(a, Emit(level, b)) == Emit(level, b);
    } else {
      assert (a + b)[1..] == a[1..] + b;
      EmitPlain(level, a[1..], b);
      assert [a[0]] + (a[1..] + Emit(level, b).text) == a + Emit(level, b).text;
    }
  }

  // Two calls leave what one call with the whole text leaves, unless the boundary cuts a
  // mark; then exactly one mark too many is written.
  predicate SplitResult(cut: bool, whole: Marked, parts: Marked) {
    if cut then |parts.text| == |whole.text| + 3 && SameSide(parts.level, whole.level)
    else parts == whole
  }

  lemma SplitPrefixed(p: string, cut: bool, whole: Marked, r: Marked, b: string)
    requires SplitResult(cut, whole, Then(r, b))
    ensures SplitResult(cut, Prefixed(p, whole), Then(Prefixed(p, r), b))
  {
    hide Annotate;
    assert p + (r.text + Annotate(r.level, b).text) == p + r.text + Annotate(r.level, b).text;
  }

  lemma {:induction false} EmitSplit(level: int, a: string, b: string)
    requires level >= 0
    ensures SplitResult(Cuts(level, a, b), Emit(level, a + b), Then(Emit(level, a), b))
    decreases |a|, 0
  {
    if a == "" {
      assert a + b == b;
      assert Emit(level, b) == Annotate(level, b);
      assert Then(Marked("", level), b) == Annotate(level, b);
    } else {
      CutsLater(level, a, b);
      assert (a + b)[1..] == a[1..] + b;
      if a[0] == '\n' {
        AnnotateSplit(-1, a[1..], b);
        SplitPrefixed("\n", Cuts(-1, a[1..], b), Annotate(-1, a[1..] + b), Annotate(-1, a[1..]), b);
      } else {
        EmitSplit(level, a[1..], b);
        CutsLevelFree(level, 0, a[1..], b);
        SplitPrefixed([a[0]], Cuts(level, a[1..], b), Emit(level, a[1..] + b), Emit(level, a[1..]), b);
      }
    }
  }

  lemma CutsLevelFree(x: int, y: int, a: string, b: string)
    requires SameSide(x, y)
    ensures Cuts(x, a, b) <==> Cuts(y, a, b)
  {
    if Cuts(x, a, b) {
      var k :| 0 <= k < |a| && LineStart(x, a, k) && !HasMark(a[k..]) && HasMark(a[k..] + b);
      assert LineStart(y, a, k);
    }
    if Cuts(y, a, b) {
      var k :| 0 <= k < |a| && LineStart(y, a, k) && !HasMark(a[k..]) && HasMark(a[k..] + b);
      assert LineStart(x, a, k);
    }
  }

  lemma {:induction false} AnnotateSplit(level: int, a: string, b: string)
    ensures SplitResult(Cuts(level, a, b), Annotate(level, a + b), Then(Annotate(level, a), b))
    decreases |a|, 1
  {
    if a == "" {
      assert a + b == b;
      assert Then(Marked("", level), b) == Annotate(level, b);
    } else if level >= 0 {
      EmitSplit(level, a, b);
    } else {
      CutsLevelFree(level, -1, a, b);
      CutsHere(a, b);
      if !HasMark(a) && HasMark(a + b) {
        SplitAtCut(a, b);
      } else if HasMark(a) {
        var l := a[1] as int - '0' as int;
        EmitSplit(l, a, b);
        CutsLevelFree(l, 0, a, b);
      } else {
        EmitSplit(DEFAULT_LEVEL, a, b);
        CutsLevelFree(DEFAULT_LEVEL, 0, a, b);
        SplitPrefixed(DEFAULT_MARK, Cuts(DEFAULT_LEVEL, a, b), Emit(DEFAULT_LEVEL, a + b), Emit(DEFAULT_LEVEL, a), b);
      }
    }
  }

  lemma SplitAtCut(a: string, b: string)
    requires a != "" && !HasMark(a) && HasMark(a + b)
    ensures SplitResult(true, Annotate(-1, a + b), Then(Annotate(-1, a), b))
  {
    var s := a + b;
    var l := s[1] as int - '0' as int;
    assert |a| < 3;
    forall i | 0 <= i < |a|
      ensures a[i] != '\n'
    {
      assert a[i] == s[i];
    }
    hide Emit;
    EmitPlain(l, a, b);
    assert Emit(DEFAULT_LEVEL, a) == Marked(a, DEFAULT_LEVEL) by {
      EmitPlain(DEFAULT_LEVEL, a, "");
      assert a + "" == a;
      EmitNothing(DEFAULT_LEVEL);
    }
    EmitLevelFree(l, DEFAULT_LEVEL, b);
    AnnotateIsEmit(DEFAULT_LEVEL, b);
  }

  lemma EmitNothing(level: int)
    requires level >= 0
    ensures Emit(level, "") == Marked("", level)
  {
  }

  lemma AnnotateIsEmit(level: int, s: string)
    requires level >= 0
    ensures Annotate(level, s) == Emit(level, s)
  {
  }

  // ----- any number of calls --------------------------------------------------------------

  function Concat(lines: seq<string>): string {
    if lines == [] then "" else Concat(lines[..|lines| - 1]) + lines[|lines| - 1]
  }

  // All text the calls enter into the ring.
  function Run(level: int, lines: seq<string>): Marked {
    if lines == [] then Marked("", level)
    else Then(Run(level, lines[..|lines| - 1]), lines[|lines| - 1])
  }

  predicate CutBefore(level: int, lines: seq<string>, k: nat)
    requires k < |lines|
  {
    Cuts(level, Concat(lines[..k]), lines[k])
  }

  predicate SomeCut(level: int, lines: seq<string>) {
    exists k :: 0 <= k < |lines| && CutBefore(level, lines, k)
  }

  lemma SomeCutStep(level: int, lines: seq<string>)
    requires lines != []
    ensures var n := |lines| - 1;
            SomeCut(level, lines) <==>
              SomeCut(level, lines[..n]) || Cuts(level, Concat(lines[..n]), lines[n])
  {
    hide Cuts, Concat;
    var n := |lines| - 1;
    var front := lines[..n];
    if SomeCut(level, lines) {
      var k :| 0 <= k < |lines| && CutBefore(level, lines, k);
      assert k < n ==> front[..k] == lines[..k] && CutBefore(level, front, k);
    }
    if SomeCut(level, front) {
      var k :| 0 <= k < n && CutBefore(level, front, k);
      assert front[..k] == lines[..k] && CutBefore(level, lines, k);
    }
    if Cuts(level, Concat(lines[..n]), lines[n]) {
      assert CutBefore(level, lines, n);
    }
  }

  lemma {:induction false} RunResult(level: int, lines: seq<string>)
    ensures var whole, run := Annotate(level, Concat(lines)), Run(level, lines);
            && SameSide(run.level, whole.level)
            && if SomeCut(level, lines) then |run.text| > |whole.text| else run == whole
  {
    if lines != [] {
      var n := |lines| - 1;
      var front, last := lines[..n], lines[n];
      RunResult(level, front);
      SomeCutStep(level, lines);
      AnnotateSplit(level, Concat(front), last);
      AnnotateLevelFree(Run(level, front).level, Annotate(level, Concat(front)).level, last);
      hide Annotate, Cuts;
    }
  }

  // However the text is cut into calls, each line gets its mark once: if and only if no
  // boundary falls inside a mark.
  lemma RunStampsLinesIff(lines: seq<string>)
    ensures Run(-1, lines).text == StampLines(Concat(lines)) <==> !SomeCut(-1, lines)
  {
    RunResult(-1, lines);
    AnnotateStampsLines(Concat(lines));
  }
}
