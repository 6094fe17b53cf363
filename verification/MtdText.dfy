// Reading and printing the `mtdparts` text (common/cmd_jffs2.c), as functions on text.

module MtdText {
  import opened Words
  import opened CText
  import opened MtdTypes

  // Outcome of reading one syntactic element: its value and the text behind it.
  datatype Scan<+T> = Scanned(value: T, rest: string) | Rejected

  // ----- sizes ---------------------------------------------------------------

  const KB: u32 := 1024
  const MB: u32 := 1048576
  const GB: u32 := 1073741824

  function SuffixUnit(c: char): u32 {
    if c == 'G' || c == 'g' then GB
    else if c == 'M' || c == 'm' then MB
    else if c == 'K' || c == 'k' then KB
    else 1
  }

  function Scale(n: u32, unit: u32): u32 {
    Wrap(n * unit)
  }

  // memsize_parse
  function ScanSize(s: string): (r: Number)
    ensures |r.rest| <= |s|
  {
    var n := Strtoul(s, 0);
    if n.rest == "" || SuffixUnit(n.rest[0]) == 1 then n
    else Number(Scale(n.value, SuffixUnit(n.rest[0])), n.rest[1..])
  }

  // memsize_format
  function SizeText(size: u32): (s: string)
    ensures |s| >= 1 && IsDigit(s[0])
  {
    if size % GB == 0 then Decimal(size / GB) + "g"
    else if size % MB == 0 then Decimal(size / MB) + "m"
    else if size % KB == 0 then Decimal(size / KB) + "k"
    else Decimal(size)
  }

  // A size is printed in the largest unit that divides it.
  lemma SizePrinted(n: nat)
    requires n % 1024 != 0
    ensures n < 0x1_0000_0000 ==> SizeText(n) == Decimal(n)
    ensures n < 0x40_0000 ==> SizeText(n * 1024) == Decimal(n) + "k"
    ensures n < 0x1000 ==> SizeText(n * 1048576) == Decimal(n) + "m"
    ensures n < 4 ==> SizeText(n * 1073741824) == Decimal(n) + "g"
  {
    hide Decimal, SizeText;
    UnitPrinted(n);
    if n < 0x40_0000 {
      KPrinted(n);
    }
    if n < 0x1000 {
      MPrinted(n);
    }
    if n < 4 {
      GPrinted(n);
    }
  }

  lemma UnitPrinted(n: nat)
    requires n % 1024 != 0
    ensures n < 0x1_0000_0000 ==> SizeText(n) == Decimal(n)
  {
    hide Decimal;
    UnitsNest(n);
  }

  lemma UnitsNest(x: nat)
    ensures x % GB == 0 ==> x % MB == 0
    ensures x % MB == 0 ==> x % KB == 0
  {
    if x % GB == 0 {
      ModUnique(x, MB, x / GB * 1024, 0);
    }
    if x % MB == 0 {
      ModUnique(x, KB, x / MB * 1024, 0);
    }
  }

  lemma KPrinted(n: nat)
    requires n % 1024 != 0 && n < 0x40_0000
    ensures SizeText(n * 1024) == Decimal(n) + "k"
  {
    hide Decimal;
    ModUnique(n * 1024, MB, n / 1024, n % 1024 * 1024);
    UnitsNest(n * 1024);
    assert n * 1024 / KB == n && n * 1024 % KB == 0;
  }

  lemma MPrinted(n: nat)
    requires n % 1024 != 0 && n < 0x1000
    ensures SizeText(n * 1048576) == Decimal(n) + "m"
  {
    hide Decimal;
    ModUnique(n * 1048576, GB, n / 1024, n % 1024 * 1048576);
    assert n * 1048576 / MB == n && n * 1048576 % MB == 0;
  }

  lemma GPrinted(n: nat)
    requires n < 4
    ensures SizeText(n * 1073741824) == Decimal(n) + "g"
  {
    hide Decimal;
    assert n * 1073741824 / GB == n && n * 1073741824 % GB == 0;
  }

  // Text that cannot be taken for the continuation of a printed size.
  predicate EndsSize(rest: string) {
    rest == "" || rest[0] in {'@', '(', 'r', ',', ';'}
  }

  lemma SizeRoundTrip(size: u32, rest: string)
    requires EndsSize(rest)
    ensures ScanSize(SizeText(size) + rest) == Number(size, rest)
  {
    if size % GB == 0 {
      SuffixedSize(size, size / GB, GB, 'g', rest);
    } else if size % MB == 0 {
      SuffixedSize(size, size / MB, MB, 'm', rest);
    } else if size % KB == 0 {
      SuffixedSize(size, size / KB, KB, 'k', rest);
    } else {
      StrtoulReadsDecimal(size, rest);
    }
  }

  lemma SuffixedSize(size: u32, n: u32, unit: u32, suffix: char, rest: string)
    requires SuffixUnit(suffix) == unit != 1 && suffix in {'g', 'm', 'k'}
    requires n * unit == size
    ensures ScanSize(Decimal(n) + [suffix] + rest) == Number(size, rest)
  {
    var tail := [suffix] + rest;
    assert Decimal(n) + [suffix] + rest == Decimal(n) + tail;
    StrtoulReadsDecimal(n, tail);
    assert tail[1..] == rest;
  }

  // ----- one partition -------------------------------------------------------

  // strchr(s, c) as an index
  function Find(s: string, c: char): (r: Option<nat>)
    ensures r.Some? ==> r.value < |s| && s[r.value] == c && c !in s[..r.value]
    ensures r.None? <==> c !in s
  {
    if s == "" then None
    else if s[0] == c then Some(0)
    else match Find(s[1..], c)
      case None => None
      case Some(k) => Some(k + 1)
  }

  lemma {:induction false} FindBehind(word: string, c: char, rest: string)
    requires c !in word
    ensures Find(word + [c] + rest, c) == Some(|word|)
  {
    if word != "" {
      assert (word + [c] + rest)[1..] == word[1..] + [c] + rest;
      FindBehind(word[1..], c, rest);
    }
  }

  // "-" or a size of at least MIN_PART_SIZE
  function ScanPartSize(s: string): (r: Scan<u32>)
    ensures r.Scanned? ==> |r.rest| <= |s|
  {
    if s != "" && s[0] == '-' then Scanned(SIZE_REMAINING, s[1..])
    else
      var n := ScanSize(s);
      if n.value < MIN_PART_SIZE then Rejected else Scanned(n.value, n.rest)
  }

  function ScanOffset(s: string): (r: Number)
    ensures |r.rest| <= |s|
  {
    if s != "" && s[0] == '@' then ScanSize(s[1..]) else Number(OFFSET_NOT_SPECIFIED, s)
  }

  function ScanName(s: string): (r: Scan<Option<string>>)
    ensures r.Scanned? ==> |r.rest| <= |s|
  {
    if s != "" && s[0] == '(' then
      match Find(s[1..], ')')
      case None => Rejected
      case Some(k) => if k == 0 then Rejected else Scanned(Some(s[1..][..k]), s[1..][k + 1..])
    else
      Scanned(None, s)
  }

  function ScanFlags(s: string): (r: Number)
    ensures |r.rest| <= |s|
  {
    if "ro" <= s then Number(MTD_WRITEABLE_CMD, s[2..]) else Number(0, s)
  }

  // Steps over the ',' in front of another partition; "the rest" must be the last one.
  function ScanSeparator(size: u32, s: string): (r: Scan<()>)
    ensures r.Scanned? ==> |r.rest| <= |s|
  {
    if s == "" || s[0] == ';' then Scanned((), s)
    else if s[0] == ',' && size != SIZE_REMAINING then Scanned((), s[1..])
    else Rejected
  }

  // part_parse
  function ScanPart(s: string): (r: Scan<PartInfo>) {
    match ScanPartSize(s)
    case Rejected => Rejected
    case Scanned(size, afterSize) =>
      var offset := ScanOffset(afterSize);
      match ScanName(offset.rest)
      case Rejected => Rejected
      case Scanned(name, afterName) =>
        var flags := ScanFlags(afterName);
        match ScanSeparator(size, flags.rest)
        case Rejected => Rejected
        case Scanned(_, rest) => Scanned(PartInfo(size, offset.value, name, flags.value), rest)
  }

  // Every definition takes at least one character.
  lemma ScanPartAdvances(s: string)
    ensures ScanPart(s).Scanned? ==> |ScanPart(s).rest| < |s|
  {
    hide ScanPartSize, ScanOffset, ScanName, ScanFlags;
    PartSizeTakesOne(s);
  }

  // One that is followed by another takes at least two.
  lemma ScanPartTakesTwo(s: string)
    requires ScanPart(s).Scanned? && ScanPart(s).rest != "" && ScanPart(s).rest[0] != ';'
    ensures |ScanPart(s).rest| + 2 <= |s|
  {
    hide ScanOffset, ScanName, ScanFlags, Strtoul;
    var afterSize := ScanPartSize(s).rest;
    var offset := ScanOffset(afterSize);
    var afterName := ScanName(offset.rest).rest;
    var flags := ScanFlags(afterName);
    assert |ScanPart(s).rest| + 1 <= |flags.rest|;
    PartSizeTakesOne(s);
  }

  lemma PartSizeTakesOne(s: string)
    ensures ScanPartSize(s).Scanned? ==> |ScanPartSize(s).rest| < |s|
  {
    if s != "" && s[0] != '-' && !IsDigit(s[0]) {
      assert Strtoul(s, 0).value == 0;
    }
    if s != "" && IsDigit(s[0]) {
      assert |Strtoul(s, 0).rest| < |s|;
    }
  }

  // Where the printer leaves the offset out: behind the previous partition, or at 0.
  function DefaultOffset(prev: Option<PartInfo>): u32 {
    match prev
    case None => 0
    case Some(q) => Wrap(q.offset + q.size)
  }

  function OffsetText(prev: Option<PartInfo>, part: PartInfo): string {
    if part.offset == DefaultOffset(prev) then "" else "@" + SizeText(part.offset)
  }

  function NameText(name: Option<string>): string {
    match name
    case None => ""
    case Some(n) => "(" + n + ")"
  }

  function FlagText(maskFlags: u32): string {
    if maskFlags != 0 then "ro" else ""
  }

  // The body of the inner loop of generate_mtdparts.
  function PartText(prev: Option<PartInfo>, part: PartInfo): string {
    SizeText(part.size) + OffsetText(prev, part) + NameText(part.name) + FlagText(part.maskFlags)
  }

  // An offset is printed only where the reader would assume another one.
  lemma OffsetPrintedIff(prev: Option<PartInfo>, part: PartInfo)
    ensures OffsetText(prev, part) == "" <==> part.offset == match prev case None => 0 case Some(q) => Wrap(q.End())
  {
  }

  // What the reader can have stored as a name and as flags.
  predicate Nameable(part: PartInfo) {
    && (part.name.Some? ==> part.name.value != "" && ')' !in part.name.value)
    && (part.maskFlags == 0 || part.maskFlags == MTD_WRITEABLE_CMD)
  }

  predicate EndsPart(rest: string) {
    rest == "" || rest[0] == ',' || rest[0] == ';'
  }

  // The partition as its definition spells it, before the offset is resolved.
  function Spelled(prev: Option<PartInfo>, part: PartInfo): PartInfo {
    if part.offset == DefaultOffset(prev) then part.(offset := OFFSET_NOT_SPECIFIED) else part
  }

  lemma NameRoundTrip(name: Option<string>, rest: string)
    requires name.Some? ==> name.value != "" && ')' !in name.value
    requires rest == "" || rest[0] != '('
    ensures ScanName(NameText(name) + rest) == Scanned(name, rest)
  {
    if name.Some? {
      ParenthesisedName(name.value, rest);
      Reassociate("(", name.value + ")", rest);
      Reassociate("(", name.value, ")");
    } else {
      assert NameText(name) + rest == rest;
    }
  }

  lemma ParenthesisedName(name: string, rest: string)
    requires name != "" && ')' !in name
    ensures ScanName("(" + (name + ")" + rest)) == Scanned(Some(name), rest)
  {
    hide Find;
    var inside := name + ")" + rest;
    FindBehind(name, ')', rest);
    assert ("(" + inside)[1..] == inside;
    assert inside[..|name|] == name;
    assert inside[|name| + 1..] == rest;
  }

  lemma FlagsRoundTrip(maskFlags: u32, rest: string)
    requires maskFlags == 0 || maskFlags == MTD_WRITEABLE_CMD
    requires EndsPart(rest)
    ensures ScanFlags(FlagText(maskFlags) + rest) == Number(maskFlags, rest)
  {
    var s := FlagText(maskFlags) + rest;
    if maskFlags != 0 {
      assert s[2..] == rest;
    } else {
      assert s == rest;
    }
  }

  lemma OffsetRoundTrip(prev: Option<PartInfo>, part: PartInfo, rest: string)
    requires EndsSize(rest) && (rest == "" || rest[0] != '@')
    ensures ScanOffset(OffsetText(prev, part) + rest) == Number(Spelled(prev, part).offset, rest)
  {
    var s := OffsetText(prev, part) + rest;
    if part.offset == DefaultOffset(prev) {
      assert s == rest;
    } else {
      assert s[1..] == SizeText(part.offset) + rest;
      SizeRoundTrip(part.offset, rest);
    }
  }

  lemma PartSizeRoundTrip(size: u32, rest: string)
    requires EndsSize(rest)
    ensures ScanPartSize(SizeText(size) + rest)
         == if size < MIN_PART_SIZE then Rejected else Scanned(size, rest)
  {
    SizeRoundTrip(size, rest);
    assert (SizeText(size) + rest)[0] == SizeText(size)[0];
  }

  // Reading back one printed partition.
  lemma PartRoundTrip(prev: Option<PartInfo>, part: PartInfo, rest: string)
    requires Nameable(part) && EndsPart(rest)
    ensures ScanPart(PartText(prev, part) + rest)
         == if part.size < MIN_PART_SIZE then Rejected
            else match ScanSeparator(part.size, rest)
                 case Rejected => Rejected
                 case Scanned(_, tail) => Scanned(Spelled(prev, part), tail)
  {
    var flagged := FlagText(part.maskFlags) + rest;
    var named := NameText(part.name) + flagged;
    var placed := OffsetText(prev, part) + named;
    PiecesStart(prev, part, rest);
    PartSizeRoundTrip(part.size, placed);
    OffsetRoundTrip(prev, part, named);
    NameRoundTrip(part.name, flagged);
    FlagsRoundTrip(part.maskFlags, rest);
    hide SizeText, OffsetText, NameText, FlagText, ScanPartSize, ScanOffset, ScanName, ScanFlags, ScanSeparator, EndsSize, EndsPart;
    Pieces(SizeText(part.size), OffsetText(prev, part), NameText(part.name), FlagText(part.maskFlags), rest);
    hide PartText;
    assert PartText(prev, part) + rest == SizeText(part.size) + placed;
  }

  lemma Pieces(a: string, b: string, c: string, d: string, e: string)
    ensures a + b + c + d + e == a + (b + (c + (d + e)))
  {
    Reassociate(a + b + c, d, e);
    Reassociate(a + b, c, d + e);
    Reassociate(a, b, c + (d + e));
  }

  // What can stand behind a size, an offset and a name.
  lemma PiecesStart(prev: Option<PartInfo>, part: PartInfo, rest: string)
    requires EndsPart(rest)
    ensures var flagged := FlagText(part.maskFlags) + rest;
            var named := NameText(part.name) + flagged;
            && (flagged == "" || flagged[0] != '(')
            && EndsSize(named) && (named == "" || named[0] != '@')
            && EndsSize(OffsetText(prev, part) + named)
  {
    hide SizeText;
    var flagged := FlagText(part.maskFlags) + rest;
    var named := NameText(part.name) + flagged;
    assert flagged == "" || flagged[0] in {'r', ',', ';'};
    assert named == "" || named[0] in {'(', 'r', ',', ';'};
    assert OffsetText(prev, part) == "" || OffsetText(prev, part)[0] == '@';
    hide OffsetText, NameText, FlagText;
    assert OffsetText(prev, part) == "" ==> OffsetText(prev, part) + named == named;
  }
}
