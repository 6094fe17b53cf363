// The flash commands on top of the range selection: address arguments, erasing and
// protecting (common/cmd_flash.c).

module FlashCommands {
  import opened Words
  import CText
  import opened Flash

  // ----- rounding an end address ---------------------------------------------------------

  function FindSect(b: FlashInfo, addr: u32, s: nat): (r: Option<nat>)
    requires s <= |b.start|
    ensures r.Some? ==> s <= r.value < |b.start| && b.start[r.value] <= addr <= SectEnd(b, r.value)
    decreases |b.start| - s
  {
    if s == |b.start| then None
    else if b.start[s] <= addr <= SectEnd(b, s) then Some(s)
    else FindSect(b, addr, s + 1)
  }

  // flash_sect_roundb: the end of the first sector that holds addr.
  function Roundb(banks: seq<FlashInfo>, addr: u32): Option<u32> {
    if banks == [] then None
    else match FindSect(banks[0], addr, 0)
      case Some(s) => Some(SectEnd(banks[0], s))
      case None => Roundb(banks[1..], addr)
  }

  method FlashSectRoundb(info: seq<FlashInfo>, addr: u32) returns (rc: int, rounded: u32)
    ensures Roundb(info, addr) == if rc == 0 then Some(rounded) else None
    ensures rc == 0 || (rc == 1 && rounded == addr)
  {
    rounded := addr;
    var found := false;
    var bank := 0;
    while bank < |info| && !found
      invariant 0 <= bank <= |info|
      invariant Roundb(info, addr) == if found then Some(rounded) else Roundb(info[bank..], addr)
      invariant !found ==> rounded == addr
    {
      var b := info[bank];
      assert info[bank..][0] == b && info[bank..][1..] == info[bank + 1..];
      var i := 0;
      while i < |b.start| && !found
        invariant 0 <= i <= |b.start|
        invariant found ==> Roundb(info, addr) == Some(rounded)
        invariant !found ==> rounded == addr && FindSect(b, addr, 0) == FindSect(b, addr, i)
      {
        var end := SectEnd(b, i);
        if rounded <= end && rounded >= b.start[i] {
          found := true;
          if rounded < end {
            rounded := end;
          }
        }
        i := i + 1;
      }
      bank := bank + 1;
    }
    rc := if found then 0 else 1;
  }

  // addr_spec: "start end" or "start +length".
  function AddrSpec(banks: seq<FlashInfo>, arg1: string, arg2: string): Option<(u32, u32)> {
    var len := arg2 != "" && arg2[0] == '+';
    var text := if len then arg2[1..] else arg2;
    var first := CText.Strtoul(arg1, 16);
    var last := CText.Strtoul(text, 16);
    if first.rest == arg1 || first.rest != "" || last.rest == text || last.rest != "" then None
    else if len then
      match Roundb(banks, Wrap(first.value + last.value - 1))
      case Some(end) => Some((first.value, end))
      case None => None
    else Some((first.value, last.value))
  }

  method ParseAddrSpec(info: seq<FlashInfo>, arg1: string, arg2: string)
    returns (rc: int, addrFirst: u32, addrLast: u32)
    ensures rc == 1 || rc == -1
    ensures AddrSpec(info, arg1, arg2) == if rc == 1 then Some((addrFirst, addrLast)) else None
  {
    var ep: nat;
    addrLast := 0;
    addrFirst, ep := CText.SimpleStrtoul(arg1, 0, 16);
    assert arg1[0..] == arg1;
    if ep == 0 || ep < |arg1| {
      return -1, addrFirst, addrLast;
    }
    var lenUsed := false;
    var start := 0;
    if arg2 != "" && arg2[0] == '+' {
      lenUsed := true;
      start := 1;
    }
    assert arg2[0..] == arg2;
    addrLast, ep := CText.SimpleStrtoul(arg2, start, 16);
    if ep == start || ep < |arg2| {
      return -1, addrFirst, addrLast;
    }
    if lenUsed {
      addrLast := Wrap(addrFirst + addrLast - 1);
      var failed;
      failed, addrLast := FlashSectRoundb(info, addrLast);
      if failed > 0 {
        return -1, addrFirst, addrLast;
      }
    }
    return 1, addrFirst, addrLast;
  }

  // ----- "start +length" ------------------------------------------------------------------

  predicate UnknownAreEmpty(banks: seq<FlashInfo>) {
    forall k :: 0 <= k < |banks| && !banks[k].known ==> banks[k].start == []
  }

  lemma {:induction false} RoundbFinds(banks: seq<FlashInfo>, addr: u32) returns (k: nat, s: nat)
    requires UnknownAreEmpty(banks) && Roundb(banks, addr).Some?
    ensures k < |banks| && banks[k].known && s < |banks[k].start|
    ensures banks[k].start[s] <= addr <= SectEnd(banks[k], s) && Roundb(banks, addr) == Some(SectEnd(banks[k], s))
  {
    hide SectEnd;
    var found := FindSect(banks[0], addr, 0);
    if found.Some? {
      k, s := 0, found.value;
    } else {
      k, s := RoundbFinds(banks[1..], addr);
      k := k + 1;
    }
  }

  lemma SectorsApart(banks: seq<FlashInfo>, at: int, j: nat, s: nat, k: nat, t: nat)
    requires Chain(banks, at) && j < |banks| && k < |banks| && banks[j].known && banks[k].known
    requires s < |banks[j].start| && t < |banks[k].start| && (j != k || s != t)
    requires banks[j].start[s] <= banks[k].start[t]
    ensures SectEnd(banks[j], s) < banks[k].start[t]
  {
    ChainValid(banks, at);
    hide SectEnd, BankEnd;
    SectSpan(banks[j], s);
    SectSpan(banks[k], t);
    if j < k {
      ChainOrder(banks, at, j, k);
    } else if k < j {
      ChainOrder(banks, at, k, j);
    } else if s < t {
      SectOrder(banks[j], s, t);
    }
  }

  // A rounded end selects the sectors that meet the unrounded range, no others.
  lemma RoundedEnd(banks: seq<FlashInfo>, at: int, first: int, addr: u32, j: nat, s: nat, k: nat, t: nat)
    requires Chain(banks, at) && j < |banks| && k < |banks| && banks[j].known && banks[k].known
    requires s < |banks[j].start| && t < |banks[k].start| && SectorStart(banks, first)
    requires banks[j].start[s] <= addr <= SectEnd(banks[j], s)
    ensures first <= banks[k].start[t] <==> first <= SectEnd(banks[k], t)
    ensures banks[k].start[t] <= addr <==> SectEnd(banks[k], t) <= SectEnd(banks[j], s)
  {
    assert banks[k].start[t] <= SectEnd(banks[k], t) by {
      ChainValid(banks, at);
      SectSpan(banks[k], t);
    }
    var i :| 0 <= i < |banks| && banks[i].known && StartsAt(banks[i], first);
    var r :| 0 <= r < |banks[i].start| && banks[i].start[r] == first;
    hide SectEnd, Chain;
    if banks[k].start[t] < first {
      SectorsApart(banks, at, k, t, i, r);
    }
    if j != k || s != t {
      if banks[k].start[t] <= banks[j].start[s] {
        SectorsApart(banks, at, k, t, j, s);
      } else {
        SectorsApart(banks, at, j, s, k, t);
      }
    }
  }

  // "start +length" from a sector start picks exactly the sectors that meet the requested
  // bytes.  A range that wraps cannot get here, because the callers refuse an end below the
  // start; a zero length only gets here at address 0, and then picks everything.
  lemma PlusLengthPicks(banks: seq<FlashInfo>, at: int, first: u32, length: u32, last: u32)
    requires Chain(banks, at) && ValidBanks(banks) && UnknownAreEmpty(banks)
    requires SectorStart(banks, first)
    requires Roundb(banks, Wrap(first + length - 1)) == Some(last) && first <= last
    ensures length == 0 ==> first == 0 && last == MAX_U32
    ensures length > 0 ==> first + length - 1 <= MAX_U32
    ensures var picks, end := Fill(banks, first, last), if length == 0 then MAX_U32 as int else first + length - 1;
            && picks.Some?
            && forall k, t :: 0 <= k < |banks| && 0 <= t < |banks[k].start| ==>
                (Picked(picks.value, k, t) <==>
                banks[k].known && banks[k].start[t] <= end && first <= SectEnd(banks[k], t))
  {
    hide Chain, SectEnd, Ascending, Fill, Picked;
    var addr := Wrap(first + length - 1);
    var j, s := RoundbFinds(banks, addr);
    hide Roundb;
    RoundedEnd(banks, at, first, addr, j, s, j, s);
    assert EndsAt(banks[j], last);
    assert first <= addr;
    hide SectorStart, EndsAt;
    assert SectorEnd(banks, last);
    ChainExact(banks, at, first, last);
    var picks := Fill(banks, first, last);
    forall k, t | 0 <= k < |banks| && 0 <= t < |banks[k].start|
      ensures Picked(picks.value, k, t) <==> banks[k].known && banks[k].start[t] <= addr && first <= SectEnd(banks[k], t)
    {
      if banks[k].known {
        RoundedEnd(banks, at, first, addr, j, s, k, t);
      }
    }
  }

  // ----- the arguments as they are typed -----------------------------------------------------

  // A hexadecimal number in either case, with or without "0x".
  function HexText(n: u32, upper: bool, marked: bool): (s: string)
    ensures s != "" && s[0] != '+'
  {
    CText.SpellLeads(n, 16, upper);
    (if marked then "0x" else "") + CText.Spell(n, 16, upper)
  }

  lemma HexTextReads(n: u32, upper: bool, marked: bool, junk: string)
    requires junk == "" || (!CText.IsHexDigit(junk[0]) && junk[0] != 'x')
    ensures CText.Strtoul(HexText(n, upper, marked) + junk, 16) == CText.Number(n, junk)
  {
    hide CText.Strtoul, CText.Spell;
    CText.StrtoulReadsHex(n, upper, junk, 16);
    var digits := CText.Spell(n, 16, upper);
    if marked {
      CText.Reassociate("0x", digits, junk);
    } else {
      assert "" + digits == digits;
    }
  }

  lemma HexTextRead(n: u32, upper: bool, marked: bool)
    ensures CText.Strtoul(HexText(n, upper, marked), 16) == CText.Number(n, "")
  {
    HexTextReads(n, upper, marked, "");
    hide CText.Strtoul;
    assert HexText(n, upper, marked) + "" == HexText(n, upper, marked);
  }

  // Two numbers are taken as they are; text behind a number is refused.
  lemma PairRead(banks: seq<FlashInfo>, first: u32, last: u32, u: bool, v: bool, m: bool, w: bool, junk: string)
    requires junk == "" || (!CText.IsHexDigit(junk[0]) && junk[0] != 'x')
    ensures AddrSpec(banks, HexText(first, u, m) + junk, HexText(last, v, w))
         == if junk == "" then Some((first, last)) else None
    ensures AddrSpec(banks, HexText(first, u, m), HexText(last, v, w) + junk)
         == if junk == "" then Some((first, last)) else None
  {
    hide CText.Strtoul, HexText, CText.IsHexDigit, Roundb;
    var a, b := HexText(first, u, m), HexText(last, v, w);
    HexTextReads(first, u, m, junk);
    HexTextReads(last, v, w, junk);
    HexTextRead(first, u, m);
    HexTextRead(last, v, w);
    assert (a + junk) != junk && (b + junk)[0] == b[0];
    assert junk == "" ==> a + junk == a && b + junk == b;
  }

  lemma LengthRead(banks: seq<FlashInfo>, first: u32, length: u32, u: bool, v: bool, m: bool, w: bool)
    ensures AddrSpec(banks, HexText(first, u, m), "+" + HexText(length, v, w))
         == match Roundb(banks, Minus(first + length, 1)) case None => None case Some(last) => Some((first, last))
  {
    hide CText.Strtoul, HexText, Roundb;
    HexTextRead(first, u, m);
    HexTextRead(length, v, w);
    assert ("+" + HexText(length, v, w))[1..] == HexText(length, v, w);
  }

  // Main result: "start +length" typed for a sector start picks exactly the sectors that meet
  // the bytes start .. start + length - 1, if it gets past the callers' check.
  lemma LengthTyped(banks: seq<FlashInfo>, at: int, first: u32, length: u32, u: bool, v: bool, m: bool, w: bool)
    requires Chain(banks, at) && ValidBanks(banks) && UnknownAreEmpty(banks) && SectorStart(banks, first)
    ensures match AddrSpec(banks, HexText(first, u, m), "+" + HexText(length, v, w))
            case None => true
            case Some((a, last)) =>
              a <= last ==>
                && a == first && Fill(banks, first, last).Some?
                && var end := if length == 0 then MAX_U32 as int else first + length - 1;
                   && end <= last
                   && forall k, t :: 0 <= k < |banks| && 0 <= t < |banks[k].start| ==>
                        (Picked(Fill(banks, first, last).value, k, t) <==>
                         banks[k].known && banks[k].start[t] <= end && first <= SectEnd(banks[k], t))
  {
    LengthRead(banks, first, length, u, v, m, w);
    hide AddrSpec, Chain, ValidBanks, Fill, Picked, SectEnd, SectorStart, HexText;
    var rounded := Roundb(banks, Minus(first + length, 1));
    if rounded.Some? && first <= rounded.value {
      PlusLengthPicks(banks, at, first, length, rounded.value);
      RoundsUp(banks, Minus(first + length, 1));
    }
  }

  lemma RoundsUp(banks: seq<FlashInfo>, addr: u32)
    requires UnknownAreEmpty(banks) && Roundb(banks, addr).Some?
    ensures addr <= Roundb(banks, addr).value
  {
    var k, s := RoundbFinds(banks, addr);
    hide Roundb;
  }

  // It is refused by addr_spec exactly if no sector holds the last byte.
  lemma {:induction false} RoundbRefuses(banks: seq<FlashInfo>, addr: u32)
    ensures Roundb(banks, addr).None? <==>
              forall k, s :: 0 <= k < |banks| && 0 <= s < |banks[k].start| ==>
                !(banks[k].start[s] <= addr <= SectEnd(banks[k], s))
  {
    hide SectEnd;
    if banks != [] {
      FindSectRefuses(banks[0], addr, 0);
      RoundbRefuses(banks[1..], addr);
      var more := banks[1..];
      assert forall k :: 0 <= k < |more| ==> more[k] == banks[k + 1];
      assert forall k :: 0 < k < |banks| ==> banks[k] == more[k - 1];
    }
  }

  lemma {:induction false} FindSectRefuses(b: FlashInfo, addr: u32, s: nat)
    requires s <= |b.start|
    ensures FindSect(b, addr, s).None? <==> forall t :: s <= t < |b.start| ==> !(b.start[t] <= addr <= SectEnd(b, t))
    decreases |b.start| - s
  {
    hide SectEnd;
    if s < |b.start| {
      FindSectRefuses(b, addr, s + 1);
    }
  }

  // ----- the loops of flash_fill_sect_ranges ------------------------------------------------

  // s_first[] and s_last[] hold these picks; -1 in s_first[] stands for none.
  predicate Recorded(sFirst: seq<int>, sLast: seq<int>, picks: seq<Pick>) {
    && |sFirst| == |sLast| == |picks|
    && forall k :: 0 <= k < |picks| ==>
      match picks[k]
      case Nothing => sFirst[k] == -1
      case Sectors(f, l) => sFirst[k] == f && sLast[k] == l
  }

  predicate Populated(banks: seq<FlashInfo>) {
    forall k :: 0 <= k < |banks| && banks[k].known ==> 0 < |banks[k].start| <= 0x8000
  }

  // The rest of the search, behind the banks already done.
  function Onward(done: seq<Pick>, banks: seq<FlashInfo>, first: u32, last: u32): Option<seq<Pick>>
    requires Populated(banks)
  {
    match Fill(banks, first, last)
    case None => None
    case Some(picks) => Some(done + picks)
  }

  lemma OnwardStep(done: seq<Pick>, banks: seq<FlashInfo>, first: u32, last: u32)
    requires Populated(banks) && banks != [] && first <= last
    ensures Onward(done, banks, first, last) ==
            match StepBank(banks[0], first, last)
            case Refuse => None
            case Pass => Onward(done + [Nothing], banks[1..], first, last)
            case Take(f, l, next) => Onward(done + [Sectors(f, l)], banks[1..], next, last)
  {
    hide StepBank;
    match StepBank(banks[0], first, last) {
      case Refuse =>
      case Pass =>
        var r := Fill(banks[1..], first, last);
        assert r.Some? ==> done + ([Nothing] + r.value) == done + [Nothing] + r.value;
      case Take(f, l, next) =>
        var r := Fill(banks[1..], next, last);
        assert r.Some? ==> done + ([Sectors(f, l)] + r.value) == done + [Sectors(f, l)] + r.value;
    }
  }

  lemma OnwardStart(banks: seq<FlashInfo>, first: u32, last: u32)
    requires Populated(banks)
    ensures Onward([], banks, first, last) == Fill(banks, first, last)
  {
    var r := Fill(banks, first, last);
    assert r.Some? ==> [] + r.value == r.value;
  }

  lemma OnwardDone(done: seq<Pick>, banks: seq<FlashInfo>, first: u32, last: u32)
    requires Populated(banks) && (banks == [] || first > last)
    ensures Onward(done, banks, first, last) == Some(done + Nothings(|banks|))
  {
  }

  lemma {:induction false} CountAppend(done: seq<Pick>, p: Pick)
    ensures Count(done + [p]) == Count(done) + PickSize(p)
  {
    if done != [] {
      assert (done + [p])[1..] == done[1..] + [p];
      CountAppend(done[1..], p);
    }
  }

  lemma {:induction false} CountNothings(done: seq<Pick>, n: nat)
    ensures Count(done + Nothings(n)) == Count(done)
    decreases n
  {
    if n == 0 {
      assert done + Nothings(0) == done;
    } else {
      assert done + Nothings(n) == done + [Nothing] + Nothings(n - 1);
      CountNothings(done + [Nothing], n - 1);
      CountAppend(done, Nothing);
    }
  }

  // The loop over the sectors of one bank.
  method ScanSectors(b: FlashInfo, bank: nat, addrFirst: u32, addrLast: u32, sFirst: array<int>, sLast: array<int>)
    requires sFirst != sLast && bank < sFirst.Length == sLast.Length && |b.start| > 0
    requires sFirst[bank] == sLast[bank] == -1
    modifies sFirst, sLast
    ensures sFirst[..] == old(sFirst[..])[bank := FirstSect(b, addrFirst, addrLast, |b.start|)]
    ensures sLast[..] == old(sLast[..])[bank := LastSect(b, addrFirst, addrLast, |b.start|)]
  {
    ghost var f0, l0 := sFirst[..], sLast[..];
    var sect := 0;
    while sect < |b.start|
      invariant 0 <= sect <= |b.start|
      invariant sFirst[..] == f0[bank := FirstSect(b, addrFirst, addrLast, sect)]
      invariant sLast[..] == l0[bank := LastSect(b, addrFirst, addrLast, sect)]
    {
      var end := SectEnd(b, sect);
      if !(addrFirst > end) && !(addrLast < b.start[sect]) {
        if addrFirst == b.start[sect] {
          sFirst[bank] := sect;
        }
        if addrLast == end {
          sLast[bank] := sect;
        }
      }
      sect := sect + 1;
    }
  }

  // The entries of the banks not reached yet.
  predicate Untouched(sFirst: seq<int>, sLast: seq<int>, bank: nat) {
    && |sFirst| == |sLast|
    && forall k :: bank <= k < |sFirst| ==> sFirst[k] == sLast[k] == -1
  }

  lemma RecordedExtends(sFirst: seq<int>, sLast: seq<int>, done: seq<Pick>, p: Pick)
    requires |sFirst| == |sLast| > |done| && Recorded(sFirst[..|done|], sLast[..|done|], done)
    requires Recorded([sFirst[|done|]], [sLast[|done|]], [p])
    ensures Recorded(sFirst[..|done| + 1], sLast[..|done| + 1], done + [p])
  {
    var n := |done|;
    forall k | 0 <= k <= n
      ensures match (done + [p])[k]
              case Nothing => sFirst[k] == -1
              case Sectors(f, l) => sFirst[k] == f && sLast[k] == l
    {
      if k < n {
        assert sFirst[..n][k] == sFirst[k] && sLast[..n][k] == sLast[k];
      } else {
        assert [p][0] == p;
      }
    }
  }

  lemma RecordedNothings(sFirst: seq<int>, sLast: seq<int>, done: seq<Pick>)
    requires |done| <= |sFirst| == |sLast| && Recorded(sFirst[..|done|], sLast[..|done|], done)
    requires Untouched(sFirst, sLast, |done|)
    ensures Recorded(sFirst, sLast, done + Nothings(|sFirst| - |done|))
  {
    var n := |done|;
    var picks := done + Nothings(|sFirst| - n);
    forall k | 0 <= k < |picks|
      ensures match picks[k]
              case Nothing => sFirst[k] == -1
              case Sectors(f, l) => sFirst[k] == f && sLast[k] == l
    {
      if k < n {
        assert picks[k] == done[k];
        assert sFirst[..n][k] == sFirst[k] && sLast[..n][k] == sLast[k];
      } else {
        assert picks[k] == Nothing;
      }
    }
  }

  // What the outer loop does with one known bank.
  method FillBank(b: FlashInfo, bank: nat, addrFirst: u32, addrLast: u32, sFirst: array<int>, sLast: array<int>)
    returns (rcode: int, next: u32, added: int)
    requires b.known && 0 < |b.start| <= 0x8000
    requires sFirst != sLast && bank < sFirst.Length == sLast.Length
    requires sFirst[bank] == sLast[bank] == -1
    modifies sFirst, sLast
    ensures forall k :: 0 <= k < sFirst.Length && k != bank ==>
      sFirst[k] == old(sFirst[k]) && sLast[k] == old(sLast[k])
    ensures match StepBank(b, addrFirst, addrLast)
            case Refuse => rcode == 1
            case Pass => rcode == 0 && next == addrFirst && added == 0 && sFirst[bank] == -1
            case Take(f, l, n) =>
              rcode == 0 && next == n && added == l - f + 1 && sFirst[bank] == f && sLast[bank] == l
  {
    hide FirstSect, LastSect, SectEnd, BankEnd;
    rcode, next, added := 0, addrFirst, 0;
    var bEnd := BankEnd(b);
    var sEnd := |b.start| - 1;
    ScanSectors(b, bank, addrFirst, addrLast, sFirst, sLast);
    assert sFirst[..][bank] == FirstSect(b, addrFirst, addrLast, |b.start|);
    assert sLast[..][bank] == LastSect(b, addrFirst, addrLast, |b.start|);
    if sFirst[bank] >= 0 {
      if sLast[bank] < 0 {
        if addrLast > bEnd {
          sLast[bank] := sEnd;
        } else {
          return 1, next, added;
        }
      }
      if sLast[bank] < sFirst[bank] {
        return 1, next, added;
      }
      var sect := sLast[bank];
      next := if sect == sEnd then Wrap(bEnd as int + 1) else b.start[sect + 1];
      added := sLast[bank] - sFirst[bank] + 1;
    } else if addrFirst >= b.start[0] && addrFirst < bEnd {
      return 1, next, added;
    } else if sLast[bank] >= 0 {
      return 1, next, added;
    }
  }

  // flash_fill_sect_ranges
  method FillSectRanges(info: seq<FlashInfo>, addrFirst: u32, addrLast: u32, sFirst: array<int>, sLast: array<int>)
    returns (rcode: int, count: int)
    requires Populated(info) && sFirst != sLast && sFirst.Length == sLast.Length == |info|
    modifies sFirst, sLast
    ensures match Fill(info, addrFirst, addrLast)
            case None => rcode == 1
            case Some(p) => rcode == 0 && Recorded(sFirst[..], sLast[..], p) && count == Count(p)
  {
    hide StepBank, Fill, Onward;
    rcode, count := 0, 0;
    var bank := 0;
    while bank < |info|
      invariant 0 <= bank <= |info|
      invariant forall k :: 0 <= k < bank ==> sFirst[k] == sLast[k] == -1
    {
      sFirst[bank] := -1;
      sLast[bank] := -1;
      bank := bank + 1;
    }
    ghost var done: seq<Pick> := [];
    var first: u32 := addrFirst;
    bank := 0;
    assert info[0..] == info;
    OnwardStart(info, addrFirst, addrLast);
    while bank < |info| && first <= addrLast
      invariant 0 <= bank <= |info| && |done| == bank && rcode == 0
      invariant Recorded(sFirst[..bank], sLast[..bank], done) && Untouched(sFirst[..], sLast[..], bank)
      invariant Onward(done, info[bank..], first, addrLast) == Fill(info, addrFirst, addrLast)
      invariant count == Count(done)
    {
      var b := info[bank];
      assert info[bank..][0] == b && info[bank..][1..] == info[bank + 1..];
      OnwardStep(done, info[bank..], first, addrLast);
      ghost var f0, l0 := sFirst[..bank], sLast[..bank];
      ghost var pick := Nothing;
      assert sFirst[..][bank] == -1 && sLast[..][bank] == -1;
      if b.known {
        ghost var step := StepBank(b, first, addrLast);
        var failed, next, added := FillBank(b, bank, first, addrLast, sFirst, sLast);
        if failed == 1 {
          rcode := 1;
          break;
        }
        first := next;
        count := count + added;
        if step.Take? {
          pick := Sectors(step.first, step.last);
        }
      } else {
        UnknownPasses(b, first, addrLast);
      }
      assert sFirst[..bank] == f0 && sLast[..bank] == l0;
      RecordedExtends(sFirst[..], sLast[..], done, pick);
      CountAppend(done, pick);
      done := done + [pick];
      bank := bank + 1;
    }
    if rcode == 0 {
      OnwardDone(done, info[bank..], first, addrLast);
      RecordedNothings(sFirst[..], sLast[..], done);
      CountNothings(done, |info| - bank);
    }
  }

  // ----- erasing and protecting ---------------------------------------------------------------

  // A call of the driver: flash_erase(info, first, last).
  datatype Job = Job(bank: nat, first: nat, last: nat)

  // The calls for banks from `bank` on, up to the first that fails, and the code they leave.
  function Jobs(picks: seq<Pick>, answers: seq<int>, bank: nat): (r: (seq<Job>, int))
    requires |answers| == |picks| && bank <= |picks|
    decreases |picks| - bank
  {
    if bank == |picks| then ([], 0)
    else match picks[bank]
      case Nothing => Jobs(picks, answers, bank + 1)
      case Sectors(f, l) =>
        if answers[bank] != 0 then ([Job(bank, f, l)], answers[bank])
        else
          var rest := Jobs(picks, answers, bank + 1);
          ([Job(bank, f, l)] + rest.0, rest.1)
  }

  predicate Covered(jobs: seq<Job>, k: nat, s: int) {
    jobs != [] && ((jobs[0].bank == k && jobs[0].first <= s <= jobs[0].last) || Covered(jobs[1..], k, s))
  }

  lemma {:induction false} JobsAbove(picks: seq<Pick>, answers: seq<int>, bank: nat, k: nat, s: int)
    requires |answers| == |picks| && k < bank <= |picks|
    ensures !Covered(Jobs(picks, answers, bank).0, k, s)
    decreases |picks| - bank
  {
    if bank < |picks| {
      JobsAbove(picks, answers, bank + 1, k, s);
      var rest := Jobs(picks, answers, bank + 1).0;
      var all := Jobs(picks, answers, bank).0;
      assert |all| > 1 && picks[bank].Sectors? ==> all[1..] == rest;
    }
  }

  // The driver is only asked to erase picked sectors, and when no call fails, all of them.
  lemma {:induction false} JobsCover(picks: seq<Pick>, answers: seq<int>, bank: nat, k: nat, s: int)
    requires |answers| == |picks| && bank <= k < |picks|
    ensures Covered(Jobs(picks, answers, bank).0, k, s) ==> Picked(picks, k, s)
    ensures Jobs(picks, answers, bank).1 == 0 && Picked(picks, k, s) ==> Covered(Jobs(picks, answers, bank).0, k, s)
    decreases |picks| - bank
  {
    if bank < k {
      JobsCover(picks, answers, bank + 1, k, s);
    } else {
      JobsAbove(picks, answers, bank + 1, k, s);
    }
    var rest := Jobs(picks, answers, bank + 1).0;
    var all := Jobs(picks, answers, bank).0;
    if picks[bank].Sectors? {
      assert all[1..] == if answers[bank] == 0 then rest else [];
      assert Covered(all, k, s) <==>
        (bank == k && picks[bank].first <= s <= picks[bank].last) || Covered(all[1..], k, s);
    }
  }

  // Erasing a whole number of sectors in adjacent banks: nothing outside the range is ever
  // erased, and when no call fails everything in it is.
  lemma ErasesRange(banks: seq<FlashInfo>, at: int, first: u32, last: u32, answers: seq<int>, k: nat, s: nat)
    requires Chain(banks, at) && ValidBanks(banks) && |answers| == |banks|
    requires SectorStart(banks, first) && SectorEnd(banks, last) && first <= last
    requires k < |banks| && banks[k].known && s < |banks[k].start|
    ensures Fill(banks, first, last).Some?
    ensures var jobs := Jobs(Fill(banks, first, last).value, answers, 0);
            var inRange := first <= banks[k].start[s] && SectEnd(banks[k], s) <= last;
            (Covered(jobs.0, k, s) ==> inRange) && (jobs.1 == 0 && inRange ==> Covered(jobs.0, k, s))
  {
    hide Chain, Fill, Jobs, Covered, SectEnd, Picked, SectorStart, SectorEnd, Ascending;
    ChainExact(banks, at, first, last);
    JobsCover(Fill(banks, first, last).value, answers, 0, k, s);
  }

  // "erase start +length" erases exactly the sectors that meet the bytes named, if no call of
  // the driver fails, and none but them in any case.
  lemma LengthErases(banks: seq<FlashInfo>, at: int, first: u32, length: u32, u: bool, v: bool, m: bool, w: bool,
                     answers: seq<int>, k: nat, t: nat)
    requires Chain(banks, at) && ValidBanks(banks) && UnknownAreEmpty(banks) && SectorStart(banks, first)
    requires 0 < length && |answers| == |banks| && k < |banks| && t < |banks[k].start|
    ensures match AddrSpec(banks, HexText(first, u, m), "+" + HexText(length, v, w))
            case None => true
            case Some((a, last)) =>
              a <= last ==>
                && Fill(banks, a, last).Some?
                && var jobs := Jobs(Fill(banks, a, last).value, answers, 0);
                   var meets := banks[k].start[t] < first + length && first <= SectEnd(banks[k], t);
                   && (Covered(jobs.0, k, t) ==> banks[k].known && meets)
                   && (jobs.1 == 0 && banks[k].known && meets ==> Covered(jobs.0, k, t))
  {
    LengthTyped(banks, at, first, length, u, v, m, w);
    hide AddrSpec, Chain, ValidBanks, Fill, Picked, SectEnd, SectorStart, HexText, Jobs, Covered;
    var spec := AddrSpec(banks, HexText(first, u, m), "+" + HexText(length, v, w));
    if spec.Some? && spec.value.0 <= spec.value.1 {
      JobsCover(Fill(banks, first, spec.value.1).value, answers, 0, k, t);
    }
  }

  // The calls stop at the first that fails, whose code is reported.
  predicate StopsAtFailure(jobs: seq<Job>, code: int, answers: seq<int>) {
    && (forall i :: 0 <= i < |jobs| ==> jobs[i].bank < |answers|)
    && (forall i :: 0 <= i < |jobs| - 1 ==> answers[jobs[i].bank] == 0)
    && (forall i, j :: 0 <= i < j < |jobs| ==> jobs[i].bank < jobs[j].bank)
    && (jobs != [] ==> code == answers[jobs[|jobs| - 1].bank])
    && (jobs == [] ==> code == 0)
  }

  lemma {:induction false} JobsStop(picks: seq<Pick>, answers: seq<int>, bank: nat)
    requires |answers| == |picks| && bank <= |picks|
    ensures var r := Jobs(picks, answers, bank);
            StopsAtFailure(r.0, r.1, answers) && forall i :: 0 <= i < |r.0| ==> bank <= r.0[i].bank
    decreases |picks| - bank
  {
    hide StopsAtFailure;
    if bank == |picks| {
      OneStops([], 0, answers);
    } else {
      JobsStop(picks, answers, bank + 1);
      if picks[bank].Sectors? {
        var job, more := Job(bank, picks[bank].first, picks[bank].last), Jobs(picks, answers, bank + 1);
        if answers[bank] == 0 {
          StopsLater(job, more.0, more.1, answers);
        } else {
          OneStops([job], answers[bank], answers);
        }
      }
    }
  }

  lemma OneStops(jobs: seq<Job>, code: int, answers: seq<int>)
    requires |jobs| <= 1 && (jobs == [] ==> code == 0)
    requires jobs != [] ==> jobs[0].bank < |answers| && code == answers[jobs[0].bank]
    ensures StopsAtFailure(jobs, code, answers)
  {
  }

  lemma StopsLater(job: Job, more: seq<Job>, code: int, answers: seq<int>)
    requires StopsAtFailure(more, code, answers) && job.bank < |answers| && answers[job.bank] == 0
    requires forall i :: 0 <= i < |more| ==> job.bank < more[i].bank
    ensures StopsAtFailure([job] + more, code, answers)
  {
    var jobs := [job] + more;
    assert forall i :: 0 < i < |jobs| ==> jobs[i] == more[i - 1];
  }

  // The count is that of the sectors picked; it is 0 exactly if nothing has been picked.
  lemma CountsPicks(picks: seq<Pick>, chosen: set<(nat, nat)>)
    requires forall k :: 0 <= k < |picks| && picks[k].Sectors? ==> picks[k].first <= picks[k].last
    requires forall k: nat, s: nat :: (k, s) in chosen <==> k < |picks| && Picked(picks, k, s)
    ensures Count(picks) == |chosen|
    ensures Count(picks) == 0 <==> forall k :: 0 <= k < |picks| ==> picks[k] == Nothing
  {
    CountsFrom(picks, 0, chosen);
    assert picks[0..] == picks;
    forall k | 0 <= k < |picks| && picks[k].Sectors?
      ensures chosen != {}
    {
      assert Picked(picks, k, picks[k].first) && (k as nat, picks[k].first) in chosen;
    }
    assert chosen != {} ==> exists p :: p in chosen && picks[p.0] != Nothing by {
      if chosen != {} {
        var p :| p in chosen;
        assert (p.0, p.1) in chosen && Picked(picks, p.0, p.1);
      }
    }
  }

  lemma {:induction false} CountsFrom(picks: seq<Pick>, bank: nat, chosen: set<(nat, nat)>)
    requires bank <= |picks|
    requires forall k :: 0 <= k < |picks| && picks[k].Sectors? ==> picks[k].first <= picks[k].last
    requires forall k: nat, s: nat :: (k, s) in chosen <==> bank <= k < |picks| && Picked(picks, k, s)
    ensures Count(picks[bank..]) == |chosen|
    decreases |picks| - bank
  {
    if bank == |picks| {
      assert forall p :: p in chosen ==> (p.0, p.1) in chosen;
    } else {
      var here := set p | p in chosen && p.0 == bank;
      CountsFrom(picks, bank + 1, chosen - here);
      assert |chosen| == |here| + |chosen - here|;
      assert picks[bank..][0] == picks[bank] && picks[bank..][1..] == picks[bank + 1..];
      match picks[bank]
      case Nothing =>
        assert here == {};
      case Sectors(f, l) =>
        RunCounts(bank, f, l + 1);
        assert here == Run(bank, f, l + 1);
    }
  }

  function Run(bank: nat, f: nat, n: nat): set<(nat, nat)> {
    set s | f <= s < n :: (bank, s)
  }

  lemma {:induction false} RunCounts(bank: nat, f: nat, n: nat)
    requires f <= n
    ensures |Run(bank, f, n)| == n - f
    decreases n
  {
    if f < n {
      RunCounts(bank, f, n - 1);
      assert Run(bank, f, n) == Run(bank, f, n - 1) + {(bank, n - 1)};
    }
  }

  // The protection of the picked sectors is p, that of all others as before.
  predicate ProtectionSet(was: seq<seq<int>>, now: seq<seq<int>>, picks: seq<Pick>, p: int) {
    && |was| == |now| == |picks|
    && forall k :: 0 <= k < |now| ==> BankSet(was[k], now[k], picks[k], p)
  }

  predicate BankSet(was: seq<int>, now: seq<int>, pick: Pick, p: int) {
    && |was| == |now|
    && forall s :: 0 <= s < |now| ==>
      now[s] == if pick.Sectors? && pick.first <= s <= pick.last then p else was[s]
  }

  // Protecting a whole number of sectors in adjacent banks sets exactly those to p.
  lemma ProtectsRange(banks: seq<FlashInfo>, at: int, first: u32, last: u32,
                      was: seq<seq<int>>, now: seq<seq<int>>, p: int, k: nat, s: nat)
    requires Chain(banks, at) && ValidBanks(banks)
    requires SectorStart(banks, first) && SectorEnd(banks, last) && first <= last
    requires Fill(banks, first, last).Some? && ProtectionSet(was, now, Fill(banks, first, last).value, p)
    requires k < |banks| && banks[k].known && s < |banks[k].start| == |was[k]|
    ensures |now| == |banks| && |now[k]| == |was[k]|
    ensures now[k][s] == if first <= banks[k].start[s] && SectEnd(banks[k], s) <= last then p else was[k][s]
  {
    hide Chain, Fill, SectEnd, SectorStart, SectorEnd, Ascending;
    ChainExact(banks, at, first, last);
  }

  lemma {:induction false} FillBounds(banks: seq<FlashInfo>, first: u32, last: u32)
    requires Populated(banks) && Fill(banks, first, last).Some?
    ensures var picks := Fill(banks, first, last).value;
            forall k :: 0 <= k < |banks| && picks[k].Sectors? ==>
              banks[k].known && picks[k].first <= picks[k].last < |banks[k].start|
  {
    hide FirstSect, LastSect, SectEnd, BankEnd;
    if banks != [] && first <= last {
      var step := StepBank(banks[0], first, last);
      FillBounds(banks[1..], if step.Take? then step.next else first, last);
    }
  }

  class FlashBanks {
    const info: seq<FlashInfo>
    var protect: seq<seq<int>>   // info->protect[]
    var erased: seq<Job>         // the erase calls the driver has seen

    constructor (info: seq<FlashInfo>, protect: seq<seq<int>>)
      requires Populated(info) && |protect| == |info|
      requires forall k :: 0 <= k < |info| ==> |protect[k]| == |info[k].start|
      ensures Valid() && this.info == info && this.protect == protect && erased == []
    {
      this.info, this.protect, this.erased := info, protect, [];
    }

    ghost predicate Valid()
      reads this
    {
      && Populated(info) && |protect| == |info|
      && forall k :: 0 <= k < |info| ==> |protect[k]| == |info[k].start|
    }

    // flash_sect_erase; `answers` holds what flash_erase returns for each bank.
    method SectErase(addrFirst: u32, addrLast: u32, answers: seq<int>) returns (rcode: int)
      requires Valid() && |answers| == |info|
      modifies `erased
      ensures match Fill(info, addrFirst, addrLast)
              case None => rcode == 1 && erased == old(erased)
              case Some(picks) =>
                if Count(picks) == 0 then rcode == 1 && erased == old(erased)
                else erased == old(erased) + Jobs(picks, answers, 0).0 && rcode == Jobs(picks, answers, 0).1
    {
      hide Fill, Count;
      var sFirst := new int[|info|];
      var sLast := new int[|info|];
      var planned;
      rcode, planned := FillSectRanges(info, addrFirst, addrLast, sFirst, sLast);
      if planned != 0 && rcode == 0 {
        ghost var picks := Fill(info, addrFirst, addrLast).value;
        ghost var total := Jobs(picks, answers, 0);
        var bank := 0;
        while bank < |info| && rcode == 0
          invariant 0 <= bank <= |info|
          invariant Recorded(sFirst[..], sLast[..], picks)
          invariant if rcode == 0 then
                      var rest := Jobs(picks, answers, bank);
                      erased + rest.0 == old(erased) + total.0 && rest.1 == total.1
                    else erased == old(erased) + total.0 && rcode == total.1
        {
          assert sFirst[..][bank] == sFirst[bank] && sLast[..][bank] == sLast[bank];
          assert picks[bank] == Nothing <==> sFirst[bank] < 0;
          if sFirst[bank] >= 0 {
            assert picks[bank] == Sectors(sFirst[bank], sLast[bank]);
            ghost var rest := Jobs(picks, answers, bank + 1).0;
            ghost var job := Job(bank, sFirst[bank], sLast[bank]);
            assert erased + [job] + rest == erased + ([job] + rest);
            erased := erased + [Job(bank, sFirst[bank], sLast[bank])];
            rcode := answers[bank];
          }
          bank := bank + 1;
        }
        assert rcode == 0 ==> erased + [] == erased;
      } else if rcode == 0 {
        rcode := 1;
      }
    }

    // flash_sect_protect, with the protection kept in info->protect[].
    method SectProtect(p: int, addrFirst: u32, addrLast: u32) returns (rcode: int)
      requires Valid()
      modifies `protect
      ensures Valid()
      ensures match Fill(info, addrFirst, addrLast)
              case None => rcode == 1 && protect == old(protect)
              case Some(picks) =>
                && (rcode == 0 <==> Count(picks) != 0) && (rcode == 0 || (rcode == 1 && protect == old(protect)))
                && (rcode == 0 ==> ProtectionSet(old(protect), protect, picks, p))
    {
      hide Fill, Count;
      var sFirst := new int[|info|];
      var sLast := new int[|info|];
      var planned;
      rcode, planned := FillSectRanges(info, addrFirst, addrLast, sFirst, sLast);
      if planned != 0 && rcode == 0 {
        ghost var picks := Fill(info, addrFirst, addrLast).value;
        FillBounds(info, addrFirst, addrLast);
        ghost var was := protect;
        var bank := 0;
        while bank < |info|
          invariant 0 <= bank <= |info| && Valid()
          invariant Recorded(sFirst[..], sLast[..], picks)
          invariant forall k :: bank <= k < |info| ==> protect[k] == was[k]
          invariant forall k :: 0 <= k < bank ==> BankSet(was[k], protect[k], picks[k], p)
        {
          assert sFirst[..][bank] == sFirst[bank] && sLast[..][bank] == sLast[bank];
          if info[bank].known && sFirst[bank] >= 0 && sFirst[bank] <= sLast[bank] {
            ProtectSectors(bank, sFirst[bank], sLast[bank], p);
          }
          bank := bank + 1;
        }
      } else if rcode == 0 {
        rcode := 1;
      }
    }

    // The loop over the sectors of one bank.
    method ProtectSectors(bank: nat, first: nat, last: nat, p: int)
      requires Valid() && bank < |info| && first <= last < |info[bank].start|
      modifies `protect
      ensures Valid()
      ensures forall k :: 0 <= k < |info| && k != bank ==> protect[k] == old(protect[k])
      ensures BankSet(old(protect[bank]), protect[bank], Sectors(first, last), p)
    {
      var i: nat := first;
      while i <= last
        invariant first <= i <= last + 1 && Valid()
        invariant forall k :: 0 <= k < |info| && k != bank ==> protect[k] == old(protect[k])
        invariant forall s :: 0 <= s < |protect[bank]| ==>
          protect[bank][s] == if first <= s < i then p else old(protect[bank][s])
      {
        protect := protect[bank := protect[bank][i := p]];
        i := i + 1;
      }
    }
  }
}
