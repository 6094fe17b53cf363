// Number scanning and printing on C strings (lib_generic/vsprintf.c).
//
// A NUL-terminated string is a `string` without its terminator; a pointer into it is
// the suffix it points at (in functions) or an index (in methods), and reading `*p` at
// the end of the string is reading the terminator.

module CText {
  import opened Words

  lemma Reassociate(a: string, b: string, c: string)
    ensures a + b + c == a + (b + c)
  {
  }

  predicate IsDigit(c: char) {
    '0' <= c <= '9'
  }

  predicate IsHexDigit(c: char) {
    IsDigit(c) || 'a' <= c <= 'f' || 'A' <= c <= 'F'
  }

  function HexValue(c: char): (v: nat)
    requires IsHexDigit(c)
    ensures v < 16
  {
    if IsDigit(c) then c as int - '0' as int
    else if 'a' <= c <= 'f' then c as int - 'a' as int + 10
    else c as int - 'A' as int + 10
  }

  predicate DigitIn(c: char, base: nat) {
    IsHexDigit(c) && HexValue(c) < base
  }

  // A scanned number and the text that follows it.
  datatype Number = Number(value: u32, rest: string)

  // One step of the accumulation, with the wrap of a 32-bit `unsigned long`.
  function Accumulate(acc: u32, base: nat, c: char): u32
    requires IsHexDigit(c)
  {
    Wrap(acc * base + HexValue(c))
  }

  function ScanDigits(s: string, base: nat, acc: u32): (r: Number)
    ensures |r.rest| <= |s|
  {
    if s != "" && DigitIn(s[0], base) then
      ScanDigits(s[1..], base, Accumulate(acc, base, s[0]))
    else
      Number(acc, s)
  }

  predicate HexMark(s: string) {
    |s| >= 2 && s[0] == 'x' && IsHexDigit(s[1])
  }

  // What simple_strtoul(s, &end, base) returns and leaves; base 0 means "guess".
  function Strtoul(s: string, base: nat): (r: Number)
    ensures |r.rest| <= |s|
  {
    if s != "" && s[0] == '0' then
      if HexMark(s[1..]) then ScanDigits(s[2..], 16, 0)
      else ScanDigits(s[1..], if base == 0 then 8 else base, 0)
    else
      ScanDigits(s, if base == 0 then 10 else base, 0)
  }

  // simple_strtoul with the source's advancing pointer and wrapping accumulator.
  method SimpleStrtoul(s: string, start: nat, radix: nat) returns (value: u32, next: nat)
    requires start <= |s|
    ensures start <= next <= |s|
    ensures Strtoul(s[start..], radix) == Number(value, s[next..])
  {
    var base := radix;
    next := start;
    if next < |s| && s[next] == '0' {
      next := next + 1;
      if next + 1 < |s| && s[next] == 'x' && IsHexDigit(s[next + 1]) {
        base := 16;
        next := next + 1;
      }
      if base == 0 {
        base := 8;
      }
    }
    if base == 0 {
      base := 10;
    }
    value := 0;
    hide Accumulate, ScanDigits;
    assert Strtoul(s[start..], radix) == ScanDigits(s[next..], base, value) by {
      assert next == start + 2 ==> s[start..][2..] == s[next..];
      assert next == start + 1 ==> s[start..][1..] == s[next..];
      assert next + 1 < |s| ==> s[next..][0] == s[next] && s[next..][1] == s[next + 1];
    }
    while next < |s| && DigitIn(s[next], base)
      invariant start <= next <= |s|
      invariant Strtoul(s[start..], radix) == ScanDigits(s[next..], base, value)
    {
      assert s[next..][1..] == s[next + 1..];
      value := Accumulate(value, base, s[next]);
      next := next + 1;
    }
  }

  // ----- printed numbers -----------------------------------------------------------

  function HexDigit(d: nat, upper: bool): (c: char)
    requires d < 16
    ensures IsHexDigit(c) && HexValue(c) == d && (d < 10 <==> IsDigit(c)) && c != 'x'
  {
    if d < 10 then ('0' as int + d) as char
    else if upper then ('A' as int + d - 10) as char
    else ('a' as int + d - 10) as char
  }

  predicate Radix(base: nat) {
    base == 8 || base == 10 || base == 16
  }

  lemma Quotient(n: nat, base: nat)
    requires Radix(base)
    ensures n / base * base + n % base == n && n % base < base
    ensures n >= base ==> 0 < n / base < n
    ensures n < base ==> n / base == 0 && n % base == n
  {
  }

  // The digits of n to a base.
  function Spell(n: nat, base: nat, upper: bool): (s: string)
    requires Radix(base)
    ensures s != ""
  {
    Quotient(n, base);
    if n < base then [HexDigit(n, upper)] else Spell(n / base, base, upper) + [HexDigit(n % base, upper)]
  }

  // The text of "%u".
  function Decimal(n: nat): (s: string)
    ensures s != "" && IsDigit(s[0])
  {
    DecimalDigit(n);
    Spell(n, 10, false)
  }

  lemma {:induction false} DecimalDigit(n: nat)
    ensures IsDigit(Spell(n, 10, false)[0])
  {
    if n >= 10 {
      DecimalDigit(n / 10);
    }
  }

  lemma {:induction false} SpellLeads(n: nat, base: nat, upper: bool)
    requires Radix(base)
    ensures Spell(n, base, upper)[0] == '0' <==> n == 0
    ensures DigitIn(Spell(n, base, upper)[0], base)
  {
    Quotient(n, base);
    if n >= base {
      hide DigitIn;
      SpellLeads(n / base, base, upper);
    }
  }

  lemma AccumulateDigit(n: u32, base: nat, upper: bool)
    requires Radix(base)
    ensures Accumulate(n / base, base, HexDigit(n % base, upper)) == n
  {
    Quotient(n, base);
  }

  lemma ScanDigit(c: char, rest: string, base: nat, acc: u32)
    requires DigitIn(c, base)
    ensures ScanDigits([c] + rest, base, acc) == ScanDigits(rest, base, Accumulate(acc, base, c))
  {
    hide DigitIn, Accumulate;
    assert ([c] + rest)[1..] == rest;
  }

  lemma {:induction false} ScanSpelled(n: u32, base: nat, upper: bool, rest: string)
    requires Radix(base)
    ensures ScanDigits(Spell(n, base, upper) + rest, base, 0) == ScanDigits(rest, base, n)
  {
    Quotient(n, base);
    var last := HexDigit(n % base, upper);
    ScanDigit(last, rest, base, n / base);
    AccumulateDigit(n, base, upper);
    hide Accumulate, ScanDigits, HexDigit, Radix;
    if n >= base {
      assert Spell(n, base, upper) + rest == Spell(n / base, base, upper) + ([last] + rest);
      ScanSpelled(n / base, base, upper, [last] + rest);
    }
  }

  // Text that does not continue a number.
  predicate EndsNumber(rest: string, base: nat) {
    rest == "" || !DigitIn(rest[0], base)
  }

  lemma SpellReads(n: u32, base: nat, upper: bool, rest: string)
    requires Radix(base) && EndsNumber(rest, base)
    ensures ScanDigits(Spell(n, base, upper) + rest, base, 0) == Number(n, rest)
  {
    ScanSpelled(n, base, upper, rest);
  }

  // Whatever "%u" prints, simple_strtoul with base 0 reads back, as long as the next
  // character does not continue the number.
  lemma StrtoulReadsDecimal(n: u32, rest: string)
    requires rest != "" ==> !IsDigit(rest[0]) && rest[0] != 'x'
    ensures Strtoul(Decimal(n) + rest, 0) == Number(n, rest)
  {
    var s := Decimal(n) + rest;
    SpellLeads(n, 10, false);
    if n == 0 {
      assert s[1..] == rest;
    } else {
      assert s[0] == Decimal(n)[0];
      SpellReads(n, 10, false, rest);
    }
  }

  lemma HexMarked(s: string, radix: nat)
    requires s != "" && IsHexDigit(s[0])
    ensures Strtoul("0x" + s, radix) == ScanDigits(s, 16, 0)
  {
    hide ScanDigits, IsHexDigit;
    var t := "0x" + s;
    assert t[2..] == s && t[1..][0] == 'x' && t[1..][1] == s[0];
  }

  lemma ZeroReads(rest: string)
    requires EndsNumber(rest, 16) && (rest != "" ==> rest[0] != 'x')
    ensures Strtoul("0" + rest, 16) == Number(0, rest)
  {
    assert ("0" + rest)[1..] == rest;
  }

  // Hexadecimal text in either case reads back with base 16, and behind "0x" with any base.
  lemma StrtoulReadsHex(n: u32, upper: bool, rest: string, radix: nat)
    requires EndsNumber(rest, 16) && (rest != "" ==> rest[0] != 'x')
    ensures Strtoul(Spell(n, 16, upper) + rest, 16) == Number(n, rest)
    ensures Strtoul("0x" + (Spell(n, 16, upper) + rest), radix) == Number(n, rest)
  {
    var digits := Spell(n, 16, upper);
    SpellLeads(n, 16, upper);
    SpellReads(n, 16, upper, rest);
    ZeroReads(rest);
    assert (digits + rest)[0] == digits[0];
    HexMarked(digits + rest, radix);
    if n == 0 {
      assert digits == "0";
    }
    hide Spell, ScanDigits;
  }

  // Octal text behind a 0 reads back with base 0.
  lemma StrtoulReadsOctal(n: u32, rest: string)
    requires EndsNumber(rest, 8)
    ensures Strtoul("0" + (Spell(n, 8, false) + rest), 0) == Number(n, rest)
  {
    var s := Spell(n, 8, false) + rest;
    SpellLeads(n, 8, false);
    SpellReads(n, 8, false, rest);
    assert ("0" + s)[1..] == s && s[0] == Spell(n, 8, false)[0];
  }
}
