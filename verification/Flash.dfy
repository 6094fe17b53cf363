// Turning an address range into sector ranges of the flash banks (common/cmd_flash.c).

module Flash {
  import opened Words

  // flash_info_t; sector_count is the length of `start`.
  datatype FlashInfo = FlashInfo(known: bool, size: u32, start: seq<u32>)

  // A bank as the drivers describe it: sectors in ascending order that fill the bank, and
  // the bank inside the address space.
  predicate Ascending(b: FlashInfo) {
    forall i, j :: 0 <= i < j < |b.start| ==> b.start[i] < b.start[j]
  }

  predicate ValidBank(b: FlashInfo) {
    && 0 < |b.start| <= 0x8000
    && Ascending(b)
    && b.start[|b.start| - 1] < b.start[0] + b.size <= 0x1_0000_0000
  }

  predicate ValidBanks(banks: seq<FlashInfo>) {
    forall k :: 0 <= k < |banks| && banks[k].known ==> ValidBank(banks[k])
  }

  // Last address of a bank and of a sector, as the sources compute them.
  function BankEnd(b: FlashInfo): u32
    requires b.start != []
  {
    Wrap(b.start[0] + b.size - 1)
  }

  function SectEnd(b: FlashInfo, s: nat): u32
    requires s < |b.start|
  {
    if s == |b.start| - 1 then BankEnd(b) else Minus(b.start[s + 1], 1)
  }

  // The ends of a valid bank do not wrap, and its sectors tile it.
  lemma BankSpan(b: FlashInfo)
    requires ValidBank(b)
    ensures b.start != [] && b.start[0] <= BankEnd(b) == b.start[0] + b.size - 1
    ensures SectEnd(b, |b.start| - 1) == BankEnd(b)
  {
    assert |b.start| > 1 ==> b.start[0] < b.start[|b.start| - 1];
  }

  lemma SectSpan(b: FlashInfo, s: nat)
    requires ValidBank(b) && s < |b.start|
    ensures b.start[0] <= b.start[s] <= SectEnd(b, s) <= BankEnd(b)
    ensures s < |b.start| - 1 ==> SectEnd(b, s) as int + 1 == b.start[s + 1]
  {
    BankSpan(b);
    assert s > 0 ==> b.start[0] < b.start[s];
    if s < |b.start| - 1 {
      assert b.start[s] < b.start[s + 1];
      assert s + 1 < |b.start| - 1 ==> b.start[s + 1] < b.start[|b.start| - 1];
    }
  }

  lemma SectOrder(b: FlashInfo, s: nat, t: nat)
    requires ValidBank(b) && s < t < |b.start|
    ensures SectEnd(b, s) < b.start[t]
  {
    SectSpan(b, s);
    assert s + 1 < t ==> b.start[s + 1] < b.start[t];
  }

  // ----- one bank -------------------------------------------------------------------

  // A sector the loop does not pass over with `continue`.
  predicate Touches(b: FlashInfo, s: nat, first: u32, last: u32)
    requires s < |b.start|
  {
    first <= SectEnd(b, s) && b.start[s] <= last
  }

  // s_first[bank] and s_last[bank] after the loop over the first n sectors.
  function FirstSect(b: FlashInfo, first: u32, last: u32, n: nat): (r: int)
    requires n <= |b.start|
    ensures -1 <= r < n
  {
    if n == 0 then -1
    else if Touches(b, n - 1, first, last) && first == b.start[n - 1] then n - 1
    else FirstSect(b, first, last, n - 1)
  }

  function LastSect(b: FlashInfo, first: u32, last: u32, n: nat): (r: int)
    requires n <= |b.start|
    ensures -1 <= r < n
  {
    if n == 0 then -1
    else if Touches(b, n - 1, first, last) && last == SectEnd(b, n - 1) then n - 1
    else LastSect(b, first, last, n - 1)
  }

  // What the outer loop does with one bank; `next` is the new addr_first.
  datatype BankStep = Pass | Take(first: nat, last: nat, next: u32) | Refuse

  function StepBank(b: FlashInfo, first: u32, last: u32): (r: BankStep)
    requires b.known ==> b.start != []
    ensures r.Take? ==> r.first <= r.last < |b.start|
  {
    if !b.known then Pass
    else
      var f := FirstSect(b, first, last, |b.start|);
      var l := LastSect(b, first, last, |b.start|);
      if f >= 0 then
        var l1 := if l < 0 && last > BankEnd(b) then |b.start| - 1 else l;
        if l1 < f then Refuse
        else Take(f, l1, if l1 == |b.start| - 1 then Wrap(BankEnd(b) + 1) else b.start[l1 + 1])
      else if b.start[0] <= first < BankEnd(b) then Refuse
      else if l >= 0 then Refuse
      else Pass
  }

  // ----- all banks ---------------------------------------------------------------------

  // The sectors picked in one bank.
  datatype Pick = Nothing | Sectors(first: nat, last: nat)

  function Nothings(n: nat): (r: seq<Pick>)
    ensures |r| == n && forall i :: 0 <= i < n ==> r[i] == Nothing
  {
    if n == 0 then [] else [Nothing] + Nothings(n - 1)
  }

  // flash_fill_sect_ranges; None is the error return.
  function Fill(banks: seq<FlashInfo>, first: u32, last: u32): (r: Option<seq<Pick>>)
    requires forall k :: 0 <= k < |banks| && banks[k].known ==> banks[k].start != []
    ensures r.Some? ==> |r.value| == |banks|
    decreases |banks|
  {
    if banks == [] || first > last then Some(Nothings(|banks|))
    else match StepBank(banks[0], first, last)
      case Refuse => None
      case Pass => Cons(Nothing, Fill(banks[1..], first, last))
      case Take(f, l, next) => Cons(Sectors(f, l), Fill(banks[1..], next, last))
  }

  function Cons(p: Pick, r: Option<seq<Pick>>): Option<seq<Pick>> {
    match r
    case None => None
    case Some(picks) => Some([p] + picks)
  }

  function PickSize(p: Pick): int {
    match p
    case Nothing => 0
    case Sectors(f, l) => l - f + 1
  }

  function Count(picks: seq<Pick>): int {
    if picks == [] then 0 else PickSize(picks[0]) + Count(picks[1..])
  }

  predicate Picked(picks: seq<Pick>, k: nat, s: int)
    requires k < |picks|
  {
    picks[k].Sectors? && picks[k].first <= s <= picks[k].last
  }

  // ----- what the two scans find ---------------------------------------------------------

  lemma {:induction false} FirstSectFinds(b: FlashInfo, first: u32, last: u32, n: nat)
    requires ValidBank(b) && n <= |b.start| && first <= last
    ensures var r := FirstSect(b, first, last, n);
            && (r >= 0 ==> b.start[r] == first)
            && (r < 0 ==> forall s :: 0 <= s < n ==> b.start[s] != first)
  {
    hide ValidBank, SectEnd, BankEnd;
    if n > 0 {
      assert b.start[n - 1] <= SectEnd(b, n - 1) by {
        SectSpan(b, n - 1);
      }
      FirstSectFinds(b, first, last, n - 1);
    }
  }

  lemma {:induction false} LastSectFinds(b: FlashInfo, first: u32, last: u32, n: nat)
    requires ValidBank(b) && n <= |b.start| && first <= last
    ensures var r := LastSect(b, first, last, n);
            && (r >= 0 ==> SectEnd(b, r) == last)
            && (r < 0 ==> forall s :: 0 <= s < n ==> SectEnd(b, s) != last)
  {
    hide ValidBank, SectEnd, BankEnd;
    if n > 0 {
      assert b.start[n - 1] <= SectEnd(b, n - 1) by {
        SectSpan(b, n - 1);
      }
      LastSectFinds(b, first, last, n - 1);
    }
  }

  predicate StartsAt(b: FlashInfo, a: int) {
    exists s :: 0 <= s < |b.start| && b.start[s] == a
  }

  predicate EndsAt(b: FlashInfo, a: int) {
    exists s :: 0 <= s < |b.start| && SectEnd(b, s) == a
  }

  // The three outcomes for a bank, in terms of addresses: it is taken when the range starts
  // on one of its sectors and either ends on one or goes beyond the bank.
  lemma StepBankExact(b: FlashInfo, first: u32, last: u32)
    requires b.known && ValidBank(b) && first <= last
    ensures match StepBank(b, first, last)
            case Take(f, l, next) =>
              && b.start[f] == first && next == Wrap(SectEnd(b, l) + 1)
              && (SectEnd(b, l) == last || (l == |b.start| - 1 && BankEnd(b) < last))
            case Pass =>
              !StartsAt(b, first) && !EndsAt(b, last) && !(b.start[0] <= first < BankEnd(b))
            case Refuse =>
              || (StartsAt(b, first) && last <= BankEnd(b) && !EndsAt(b, last))
              || (!StartsAt(b, first) && (b.start[0] <= first < BankEnd(b) || EndsAt(b, last)))
  {
    hide ValidBank, SectEnd, BankEnd;
    FirstSectFinds(b, first, last, |b.start|);
    LastSectFinds(b, first, last, |b.start|);
    var f := FirstSect(b, first, last, |b.start|);
    var l := LastSect(b, first, last, |b.start|);
    hide FirstSect, LastSect;
    assert |b.start| > 0 by {
      BankSpan(b);
    }
    assert SectEnd(b, |b.start| - 1) == BankEnd(b) by {
      BankSpan(b);
    }
    if f >= 0 {
      assert !(f > l >= 0) by {
        if f > l >= 0 {
          SectOrder(b, l, f);
        }
      }
      assert 0 <= l < |b.start| - 1 ==> SectEnd(b, l) + 1 == b.start[l + 1] by {
        if 0 <= l < |b.start| - 1 {
          SectSpan(b, l);
        }
      }
    }
  }

  // ----- safety ------------------------------------------------------------------------

  // Every picked sector lies wholly inside the requested range.
  predicate Inside(banks: seq<FlashInfo>, picks: seq<Pick>, first: int, last: int)
    requires |picks| == |banks|
  {
    forall k, s :: 0 <= k < |banks| && 0 <= s < |banks[k].start| && Picked(picks, k, s) ==>
      first <= banks[k].start[s] && SectEnd(banks[k], s) <= last
  }

  predicate Safe(banks: seq<FlashInfo>, first: u32, last: u32)
    requires ValidBanks(banks)
  {
    var picks := Fill(banks, first, last);
    picks.Some? ==> Inside(banks, picks.value, first, last)
  }

  predicate StartsAtZero(b: FlashInfo) {
    b.known && b.start != [] && b.start[0] == 0
  }

  predicate EndsAtTop(b: FlashInfo) {
    b.known && b.start != [] && BankEnd(b) == MAX_U32
  }

  // A bank that ends at the top of the address space, listed before one that starts at 0.
  predicate WrapsAround(banks: seq<FlashInfo>) {
    exists i, j :: 0 <= i < j < |banks| && EndsAtTop(banks[i]) && StartsAtZero(banks[j])
  }

  predicate Disjoint(banks: seq<FlashInfo>)
    requires ValidBanks(banks)
  {
    forall i, j :: 0 <= i < j < |banks| && banks[i].known && banks[j].known ==>
      BankEnd(banks[i]) < banks[j].start[0] || BankEnd(banks[j]) < banks[i].start[0]
  }

  lemma InsideCons(banks: seq<FlashInfo>, p: Pick, rest: seq<Pick>, first: int, last: int)
    requires banks != [] && |rest| == |banks| - 1
    requires Inside(banks[1..], rest, first, last)
    requires forall s :: 0 <= s < |banks[0].start| && Picked([p], 0, s) ==>
      first <= banks[0].start[s] && SectEnd(banks[0], s) <= last
    ensures Inside(banks, [p] + rest, first, last)
  {
    hide SectEnd;
    var picks := [p] + rest;
    forall k, s | 0 <= k < |banks| && 0 <= s < |banks[k].start| && Picked(picks, k, s)
      ensures first <= banks[k].start[s] && SectEnd(banks[k], s) <= last
    {
      if k == 0 {
        assert Picked([p], 0, s);
      } else {
        assert banks[1..][k - 1] == banks[k];
        assert Picked(rest, k - 1, s);
      }
    }
  }

  lemma NothingsInside(banks: seq<FlashInfo>, first: int, last: int)
    ensures Inside(banks, Nothings(|banks|), first, last)
  {
  }

  // The sectors taken from one bank lie between the current start and the end of the range.
  lemma TakenInside(b: FlashInfo, first: u32, last: u32, s: nat)
    requires b.known && ValidBank(b) && first <= last && s < |b.start|
    requires var r := StepBank(b, first, last); r.Take? && r.first <= s <= r.last
    ensures first <= b.start[s] && SectEnd(b, s) <= last
  {
    var r := StepBank(b, first, last);
    StepBankExact(b, first, last);
    hide StepBank, SectEnd, BankEnd;
    assert r.first < s ==> b.start[r.first] < b.start[s];
    assert SectEnd(b, r.last) <= last;
    assert s < r.last ==> SectEnd(b, s) < b.start[r.last] <= SectEnd(b, r.last) by {
      if s < r.last {
        SectOrder(b, s, r.last);
        SectSpan(b, r.last);
      }
    }
  }

  // Behind a bank that ends at the top, the search goes on from address 0; that is harmless
  // as long as no bank starts there.
  lemma {:induction false} FillInside(banks: seq<FlashInfo>, first: u32, last: u32, low: u32)
    requires ValidBanks(banks) && !WrapsAround(banks)
    requires low <= first || (first == 0 && forall k :: 0 <= k < |banks| ==> !StartsAtZero(banks[k]))
    ensures Fill(banks, first, last).Some? ==> Inside(banks, Fill(banks, first, last).value, low, last)
  {
    hide SectEnd, BankEnd, StepBank;
    if banks == [] || first > last {
      NothingsInside(banks, low, last);
    } else {
      var rest := banks[1..];
      assert ValidBanks(rest);
      forall k | 0 <= k < |rest| && EndsAtTop(banks[0])
        ensures !StartsAtZero(rest[k])
      {
        assert rest[k] == banks[k + 1];
      }
      assert !WrapsAround(rest) by {
        RestDoesNotWrap(banks);
      }
      match StepBank(banks[0], first, last) {
        case Refuse =>
        case Pass =>
          FillInside(rest, first, last, low);
          var r := Fill(rest, first, last);
          if r.Some? {
            InsideCons(banks, Nothing, r.value, low, last);
          }
        case Take(f, l, next) =>
          TakeGoesOn(banks[0], first, last);
          FillInside(rest, next, last, low);
          var r := Fill(rest, next, last);
          if r.Some? {
            forall s | 0 <= s < |banks[0].start| && f <= s <= l
              ensures first <= banks[0].start[s] && SectEnd(banks[0], s) <= last
            {
              TakenInside(banks[0], first, last, s);
            }
            InsideCons(banks, Sectors(f, l), r.value, low, last);
          }
      }
    }
  }

  lemma RestDoesNotWrap(banks: seq<FlashInfo>)
    requires banks != [] && !WrapsAround(banks)
    ensures !WrapsAround(banks[1..])
  {
    hide EndsAtTop, StartsAtZero;
    var rest := banks[1..];
    forall i, j | 0 <= i < j < |rest| && EndsAtTop(rest[i])
      ensures !StartsAtZero(rest[j])
    {
      assert rest[i] == banks[i + 1] && rest[j] == banks[j + 1];
    }
  }

  // After a bank has been taken the start moves up, unless the bank ends at the top.
  lemma TakeGoesOn(b: FlashInfo, first: u32, last: u32)
    requires (b.known ==> ValidBank(b)) && first <= last && StepBank(b, first, last).Take?
    ensures b.known && StartsAt(b, first)
    ensures var next := StepBank(b, first, last).next;
            first < next || (next == 0 && EndsAtTop(b))
  {
    StepBankExact(b, first, last);
    var r := StepBank(b, first, last);
    hide StepBank, SectEnd, BankEnd;
    assert b.start[r.first] <= b.start[r.last] by {
      assert r.first < r.last ==> b.start[r.first] < b.start[r.last];
    }
    SectSpan(b, r.last);
  }

  // `first` does not fall inside a bank behind its first address.
  predicate Clear(banks: seq<FlashInfo>, first: int)
    requires ValidBanks(banks)
  {
    forall k :: 0 <= k < |banks| && banks[k].known ==>
      !(banks[k].start[0] < first <= BankEnd(banks[k]))
  }

  predicate NoneAtTop(banks: seq<FlashInfo>) {
    forall k :: 0 <= k < |banks| ==> !EndsAtTop(banks[k])
  }

  // A bank below the top, for a range that ends at the top and does not start inside it.
  lemma StepToTop(b: FlashInfo, first: u32)
    requires b.known && ValidBank(b) && !EndsAtTop(b)
    requires !(b.start[0] < first <= BankEnd(b))
    ensures var r := StepBank(b, first, MAX_U32);
            if b.start[0] == first then r == Take(0, |b.start| - 1, BankEnd(b) as int + 1) else r == Pass
  {
    hide StepBank, SectEnd, BankEnd;
    var r := StepBank(b, first, MAX_U32);
    forall s | 0 <= s < |b.start|
      ensures SectEnd(b, s) < MAX_U32 && (b.start[s] == first ==> s == 0)
    {
      SectSpan(b, s);
      assert s > 0 ==> b.start[0] < b.start[s];
    }
    hide Ascending;
    StepBankExact(b, first, MAX_U32);
    assert SectEnd(b, |b.start| - 1) == BankEnd(b) by {
      BankSpan(b);
    }
    if b.start[0] == first {
      assert StartsAt(b, first);
    }
  }

  lemma PickedCons(p: Pick, rest: seq<Pick>, k: nat, s: int)
    requires k < |rest|
    ensures Picked([p] + rest, k + 1, s) == Picked(rest, k, s)
  {
  }

  lemma RestDisjoint(banks: seq<FlashInfo>)
    requires banks != [] && ValidBanks(banks) && Disjoint(banks)
    ensures ValidBanks(banks[1..]) && Disjoint(banks[1..])
    ensures banks[0].known ==>
            forall k :: 0 <= k < |banks[1..]| && banks[1..][k].known ==>
              BankEnd(banks[0]) < banks[1..][k].start[0] || BankEnd(banks[1..][k]) < banks[0].start[0]
  {
    hide BankEnd, ValidBank;
    var rest := banks[1..];
    forall k | 0 <= k < |rest|
      ensures rest[k] == banks[k + 1]
    {
    }
  }

  lemma {:induction false} FillToTop(banks: seq<FlashInfo>, first: u32)
    requires ValidBanks(banks) && Disjoint(banks) && NoneAtTop(banks) && Clear(banks, first)
    ensures var r := Fill(banks, first, MAX_U32);
            && r.Some?
            && forall j :: 0 <= j < |banks| && first == 0 && StartsAtZero(banks[j]) ==> Picked(r.value, j, 0)
  {
    if banks != [] {
      RestDisjoint(banks);
      hide StepBank, BankEnd, SectEnd, ValidBank;
      var b, rest := banks[0], banks[1..];
      assert NoneAtTop(rest);
      var next: u32 := first;
      if b.known {
        StepToTop(b, first);
        if b.start[0] == first {
          next := BankEnd(b) as int + 1;
        }
        assert b.start[0] <= BankEnd(b) by {
          BankSpan(b);
        }
      }
      forall k | 0 <= k < |rest| && rest[k].known
        ensures !(rest[k].start[0] < next <= BankEnd(rest[k]))
      {
        assert rest[k] == banks[k + 1];
      }
      FillToTop(rest, next);
      var r := Fill(banks, first, MAX_U32);
      var tail := Fill(rest, next, MAX_U32);
      forall j | 0 <= j < |banks| && first == 0 && StartsAtZero(banks[j])
        ensures Picked(r.value, j, 0)
      {
        if j > 0 {
          assert rest[j - 1] == banks[j];
          BankSpan(banks[j]);
          assert next == first;
          PickedCons(r.value[0], tail.value, j - 1, 0);
        }
      }
    }
  }

  lemma OthersBelowTop(banks: seq<FlashInfo>)
    requires banks != [] && ValidBanks(banks) && Disjoint(banks) && EndsAtTop(banks[0])
    ensures NoneAtTop(banks[1..])
  {
    RestDisjoint(banks);
    hide BankEnd, ValidBank;
    var rest := banks[1..];
    BankSpan(banks[0]);
    forall k | 0 <= k < |rest|
      ensures !EndsAtTop(rest[k])
    {
      if EndsAtTop(rest[k]) {
        BankSpan(rest[k]);
      }
    }
  }

  lemma NoneAbove(banks: seq<FlashInfo>)
    requires ValidBanks(banks)
    ensures Clear(banks, 0)
  {
  }

  // The request for a first bank that ends at the top wraps to 0.
  lemma {:induction false} FillFromTop(banks: seq<FlashInfo>, j: nat)
    requires ValidBanks(banks) && Disjoint(banks)
    requires 0 < j < |banks| && EndsAtTop(banks[0]) && StartsAtZero(banks[j])
    ensures var r := Fill(banks, banks[0].start[0], MAX_U32); r.Some? && Picked(r.value, j, 0)
  {
    var b, rest := banks[0], banks[1..];
    RestDisjoint(banks);
    OthersBelowTop(banks);
    StepAtTop(b);
    NoneAbove(rest);
    hide StepBank, BankEnd, SectEnd, ValidBank, NoneAtTop, Disjoint, Clear;
    assert rest[j - 1] == banks[j];
    FillToTop(rest, 0);
    hide ValidBanks;
    PickedCons(Sectors(0, |b.start| - 1), Fill(rest, 0, MAX_U32).value, j - 1, 0);
  }

  // The request for everything from bank i upward takes bank j as well.
  lemma {:induction false} FillWraps(banks: seq<FlashInfo>, i: nat, j: nat)
    requires ValidBanks(banks) && Disjoint(banks)
    requires i < j < |banks| && EndsAtTop(banks[i]) && StartsAtZero(banks[j])
    ensures var r := Fill(banks, banks[i].start[0], MAX_U32); r.Some? && Picked(r.value, j, 0)
  {
    if i == 0 {
      FillFromTop(banks, j);
    } else {
      RestDisjoint(banks);
      hide StepBank, BankEnd, SectEnd, ValidBank, Disjoint;
      var b, rest, first := banks[0], banks[1..], banks[i].start[0];
      assert rest[j - 1] == banks[j] && rest[i - 1] == banks[i];
      BankSpan(banks[i]);
      if b.known {
        BankSpan(b);
        assert BankEnd(b) < first;
        StepToTop(b, first);
      }
      FillWraps(rest, i - 1, j - 1);
      hide ValidBanks;
      PickedCons(Nothing, Fill(rest, first, MAX_U32).value, j - 1, 0);
    }
  }

  lemma StepAtTop(b: FlashInfo)
    requires ValidBank(b) && EndsAtTop(b)
    ensures StepBank(b, b.start[0], MAX_U32) == Take(0, |b.start| - 1, 0)
  {
    StepBankExact(b, b.start[0], MAX_U32);
    BankSpan(b);
    hide StepBank, SectEnd, BankEnd;
    var r := StepBank(b, b.start[0], MAX_U32);
    assert StartsAt(b, b.start[0]);
    assert EndsAt(b, MAX_U32) by {
      assert SectEnd(b, |b.start| - 1) == MAX_U32;
    }
    if r.Take? && r.last < |b.start| - 1 {
      SectOrder(b, r.last, |b.start| - 1);
    }
  }

  // A sector outside the request can only be picked when a bank at the top of the address
  // space is listed before one at address 0; and then such a request exists.
  lemma SafeIff(banks: seq<FlashInfo>)
    requires ValidBanks(banks) && Disjoint(banks)
    ensures (forall first, last :: Safe(banks, first, last)) <==> !WrapsAround(banks)
  {
    if WrapsAround(banks) {
      var i, j :| 0 <= i < j < |banks| && EndsAtTop(banks[i]) && StartsAtZero(banks[j]);
      var first := banks[i].start[0];
      assert first > 0 by {
        BankSpan(banks[i]);
        BankSpan(banks[j]);
      }
      FillWraps(banks, i, j);
      assert !Safe(banks, first, MAX_U32);
    } else {
      forall first: u32, last: u32
        ensures Safe(banks, first, last)
      {
        FillInside(banks, first, last, first);
      }
    }
  }

  // ----- adjacent ascending banks --------------------------------------------------------

  // Each known bank starts where the one before it ends; the first one starts at `at`.
  predicate Chain(banks: seq<FlashInfo>, at: int) {
    banks == [] ||
    if banks[0].known then
      ValidBank(banks[0]) && banks[0].start[0] == at && Chain(banks[1..], at + banks[0].size)
    else
      Chain(banks[1..], at)
  }

  predicate SectorStart(banks: seq<FlashInfo>, a: int) {
    exists k :: 0 <= k < |banks| && banks[k].known && StartsAt(banks[k], a)
  }

  predicate SectorEnd(banks: seq<FlashInfo>, a: int) {
    exists k :: 0 <= k < |banks| && banks[k].known && EndsAt(banks[k], a)
  }

  // Exactly the sectors of the range [first, last] are picked.
  predicate Exact(banks: seq<FlashInfo>, picks: seq<Pick>, first: int, last: int)
    requires |picks| == |banks|
  {
    forall k, s :: 0 <= k < |banks| && 0 <= s < |banks[k].start| ==>
      (Picked(picks, k, s) <==>
      banks[k].known && first <= banks[k].start[s] && SectEnd(banks[k], s) <= last)
  }

  predicate ExactHere(b: FlashInfo, p: Pick, first: int, last: int) {
    forall s :: 0 <= s < |b.start| ==>
      (p.Sectors? && p.first <= s <= p.last <==>
      b.known && first <= b.start[s] && SectEnd(b, s) <= last)
  }

  lemma ExactCons(banks: seq<FlashInfo>, p: Pick, rest: seq<Pick>, first: int, last: int)
    requires banks != [] && |rest| == |banks| - 1
    requires Exact(banks[1..], rest, first, last) && ExactHere(banks[0], p, first, last)
    ensures Exact(banks, [p] + rest, first, last)
  {
    hide SectEnd;
    var picks := [p] + rest;
    forall k, s | 0 <= k < |banks| && 0 <= s < |banks[k].start|
      ensures Picked(picks, k, s) <==>
              banks[k].known && first <= banks[k].start[s] && SectEnd(banks[k], s) <= last
    {
      if k > 0 {
        assert banks[1..][k - 1] == banks[k];
        assert Picked(rest, k - 1, s) == Picked(picks, k, s);
      }
    }
  }

  lemma {:induction false} ChainAbove(banks: seq<FlashInfo>, at: int, k: nat)
    requires Chain(banks, at) && k < |banks| && banks[k].known
    ensures ValidBank(banks[k]) && at <= banks[k].start[0]
    decreases |banks|
  {
    if k > 0 {
      assert banks[1..][k - 1] == banks[k];
      ChainAbove(banks[1..], if banks[0].known then at + banks[0].size else at, k - 1);
    }
  }

  lemma {:induction false} ChainOrder(banks: seq<FlashInfo>, at: int, j: nat, k: nat)
    requires Chain(banks, at) && j < k < |banks| && banks[j].known && banks[k].known
    ensures ValidBank(banks[j]) && ValidBank(banks[k]) && BankEnd(banks[j]) < banks[k].start[0]
    decreases |banks|
  {
    assert banks[1..][k - 1] == banks[k];
    var next := if banks[0].known then at + banks[0].size else at;
    if j == 0 {
      ChainAbove(banks[1..], next, k - 1);
    } else {
      assert banks[1..][j - 1] == banks[j];
      ChainOrder(banks[1..], next, j - 1, k - 1);
    }
  }

  lemma ChainValid(banks: seq<FlashInfo>, at: int)
    requires Chain(banks, at)
    ensures ValidBanks(banks)
  {
    forall k | 0 <= k < |banks| && banks[k].known
      ensures ValidBank(banks[k])
    {
      ChainAbove(banks, at, k);
    }
  }

  lemma {:induction false} ChainStarts(banks: seq<FlashInfo>, at: int, k: nat)
    requires Chain(banks, at) && k < |banks| && banks[k].known
    ensures SectorStart(banks, at)
    decreases |banks|
  {
    if banks[0].known {
      assert StartsAt(banks[0], at);
    } else {
      var rest := banks[1..];
      assert rest[k - 1] == banks[k];
      ChainStarts(rest, at, k - 1);
      var i :| 0 <= i < |rest| && rest[i].known && StartsAt(rest[i], at);
      assert banks[i + 1] == rest[i];
    }
  }

  lemma ChainGoesOn(banks: seq<FlashInfo>, at: int, last: int)
    requires Chain(banks, at) && SectorEnd(banks, last)
    ensures SectorStart(banks, at)
  {
    var k :| 0 <= k < |banks| && banks[k].known && EndsAt(banks[k], last);
    ChainStarts(banks, at, k);
  }

  // All sectors behind the first bank lie above it.
  lemma RestAbove(banks: seq<FlashInfo>, at: int, k: nat, s: nat)
    requires banks != [] && Chain(banks, at)
    requires k < |banks[1..]| && banks[1..][k].known && s < |banks[1..][k].start|
    ensures banks[0].known ==>
            && at <= BankEnd(banks[0]) == at + banks[0].size - 1
            && BankEnd(banks[0]) < banks[1..][k].start[s] <= SectEnd(banks[1..][k], s)
  {
    assert banks[1..][k] == banks[k + 1];
    ChainAbove(banks, at, k + 1);
    if banks[0].known {
      ChainOrder(banks, at, 0, k + 1);
      BankSpan(banks[0]);
    }
    hide BankEnd, SectEnd, Chain;
    SectSpan(banks[k + 1], s);
  }

  lemma BoundariesInRest(banks: seq<FlashInfo>, first: int, last: int)
    requires banks != []
    ensures SectorStart(banks, first) && !(banks[0].known && StartsAt(banks[0], first)) ==>
              SectorStart(banks[1..], first)
    ensures SectorEnd(banks, last) && !(banks[0].known && EndsAt(banks[0], last)) ==>
              SectorEnd(banks[1..], last)
  {
    hide StartsAt, EndsAt;
    if SectorStart(banks, first) && !(banks[0].known && StartsAt(banks[0], first)) {
      var k :| 0 <= k < |banks| && banks[k].known && StartsAt(banks[k], first);
      assert banks[1..][k - 1] == banks[k];
    }
    if SectorEnd(banks, last) && !(banks[0].known && EndsAt(banks[0], last)) {
      var k :| 0 <= k < |banks| && banks[k].known && EndsAt(banks[k], last);
      assert banks[1..][k - 1] == banks[k];
    }
  }

  // Where the range starts and ends, seen from the first bank.
  lemma ChainFirst(banks: seq<FlashInfo>, at: int, first: int)
    requires banks != [] && banks[0].known && Chain(banks, at) && SectorStart(banks, first)
    ensures banks[0].start[0] <= first
    ensures if first <= BankEnd(banks[0]) then StartsAt(banks[0], first) else SectorStart(banks[1..], first)
  {
    var rest := banks[1..];
    BoundariesInRest(banks, first, 0);
    BankSpan(banks[0]);
    hide Chain, BankEnd, SectEnd, Ascending;
    if StartsAt(banks[0], first) {
      var s :| 0 <= s < |banks[0].start| && banks[0].start[s] == first;
      SectSpan(banks[0], s);
    } else {
      var k :| 0 <= k < |rest| && rest[k].known && StartsAt(rest[k], first);
      var s :| 0 <= s < |rest[k].start| && rest[k].start[s] == first;
      RestAbove(banks, at, k, s);
    }
  }

  lemma ChainLast(banks: seq<FlashInfo>, at: int, last: int)
    requires banks != [] && banks[0].known && Chain(banks, at) && SectorEnd(banks, last)
    ensures if last <= BankEnd(banks[0]) then EndsAt(banks[0], last) else SectorEnd(banks[1..], last)
  {
    var rest := banks[1..];
    BoundariesInRest(banks, 0, last);
    hide Chain, BankEnd, SectEnd, Ascending;
    if EndsAt(banks[0], last) {
      var s :| 0 <= s < |banks[0].start| && SectEnd(banks[0], s) == last;
      SectSpan(banks[0], s);
    } else {
      var k :| 0 <= k < |rest| && rest[k].known && EndsAt(rest[k], last);
      var s :| 0 <= s < |rest[k].start| && SectEnd(rest[k], s) == last;
      RestAbove(banks, at, k, s);
    }
  }

  // In the bank the range starts in, exactly the sectors of the range are taken.
  lemma TakenExact(b: FlashInfo, first: u32, last: u32)
    requires b.known && ValidBank(b) && first <= last
    requires StepBank(b, first, last).Take?
    ensures var r := StepBank(b, first, last); ExactHere(b, Sectors(r.first, r.last), first, last)
  {
    var r := StepBank(b, first, last);
    StepBankExact(b, first, last);
    hide StepBank, SectEnd, BankEnd, Ascending;
    forall s | 0 <= s < |b.start|
      ensures r.first <= s <= r.last <==> first <= b.start[s] && SectEnd(b, s) <= last
    {
      if r.first <= s <= r.last {
        TakenInside(b, first, last, s);
      } else if r.last < s {
        SectOrder(b, r.last, s);
        SectSpan(b, s);
      } else {
        SectOrder(b, s, r.first);
        SectSpan(b, s);
      }
    }
  }

  lemma PassedExact(b: FlashInfo, first: u32, last: u32)
    requires b.known ==> ValidBank(b) && BankEnd(b) < first
    ensures ExactHere(b, Nothing, first, last)
  {
    hide SectEnd, BankEnd, ValidBank;
    forall s | 0 <= s < |b.start| && b.known
      ensures b.start[s] < first
    {
      SectSpan(b, s);
    }
  }

  // The range starts and ends on sector boundaries; where in relation to bank b?
  lemma StepInChain(b: FlashInfo, first: u32, last: u32)
    requires b.known && ValidBank(b) && b.start[0] <= first <= last
    requires first <= BankEnd(b) ==> StartsAt(b, first)
    requires last <= BankEnd(b) ==> EndsAt(b, last)
    ensures var r := StepBank(b, first, last);
            if BankEnd(b) < first then r == Pass
            else r.Take? && r.next == Wrap((if last <= BankEnd(b) then last else BankEnd(b)) + 1)
  {
    hide StepBank, SectEnd, BankEnd, Ascending;
    forall s | 0 <= s < |b.start|
      ensures b.start[s] <= SectEnd(b, s) <= BankEnd(b)
    {
      SectSpan(b, s);
    }
    assert StartsAt(b, first) ==> first <= BankEnd(b);
    assert EndsAt(b, last) ==> last <= BankEnd(b);
    StepBankExact(b, first, last);
    assert SectEnd(b, |b.start| - 1) == BankEnd(b) by {
      BankSpan(b);
    }
    hide StartsAt, EndsAt;
  }

  lemma UnknownPasses(b: FlashInfo, first: u32, last: u32)
    requires !b.known
    ensures StepBank(b, first, last) == Pass
  {
  }

  lemma {:induction false} FillUnknown(banks: seq<FlashInfo>, first: u32, last: u32)
    requires forall k :: 0 <= k < |banks| ==> !banks[k].known
    ensures Fill(banks, first, last) == Some(Nothings(|banks|))
  {
    if banks != [] && first <= last {
      FillUnknown(banks[1..], first, last);
      assert Nothings(|banks|) == [Nothing] + Nothings(|banks| - 1);
    }
  }

  // Behind the bank the range ends in nothing is picked, even if the start wraps to 0.
  lemma FillBehind(banks: seq<FlashInfo>, at: int, last: u32)
    requires banks != [] && banks[0].known && Chain(banks, at) && last <= BankEnd(banks[0])
    ensures (forall k :: 0 <= k < |banks[1..]| && banks[1..][k].known ==> banks[1..][k].start != [])
    ensures Fill(banks[1..], Wrap(last + 1), last) == Some(Nothings(|banks[1..]|))
  {
    var rest := banks[1..];
    ChainValid(banks, at);
    forall k | 0 <= k < |rest| && rest[k].known
      ensures rest[k].start != [] && last < rest[k].start[0]
    {
      assert rest[k] == banks[k + 1];
      RestAbove(banks, at, k, 0);
    }
    if last == MAX_U32 {
      FillUnknown(rest, 0, last);
    }
  }

  // Nothing behind the first bank belongs to a range that ends in it.
  lemma NothingBehind(banks: seq<FlashInfo>, at: int, first: int, last: int)
    requires banks != [] && banks[0].known && Chain(banks, at) && last <= BankEnd(banks[0])
    ensures Exact(banks[1..], Nothings(|banks[1..]|), first, last)
  {
    var rest := banks[1..];
    hide Chain, BankEnd, SectEnd, Ascending, ValidBank;
    forall k, s | 0 <= k < |rest| && 0 <= s < |rest[k].start| && rest[k].known
      ensures last < SectEnd(rest[k], s)
    {
      RestAbove(banks, at, k, s);
    }
  }

  // Behind the first bank it makes no difference where in or below it the range started.
  lemma ExactBehind(banks: seq<FlashInfo>, at: int, picks: seq<Pick>, first: int, last: int)
    requires banks != [] && banks[0].known && Chain(banks, at)
    requires |picks| == |banks[1..]| && Exact(banks[1..], picks, at + banks[0].size, last)
    requires first <= BankEnd(banks[0])
    ensures Exact(banks[1..], picks, first, last)
  {
    var rest := banks[1..];
    BankSpan(banks[0]);
    hide Chain, BankEnd, SectEnd, Ascending, ValidBank, Picked;
    forall k, s | 0 <= k < |rest| && 0 <= s < |rest[k].start|
      ensures Picked(picks, k, s) <==> rest[k].known && first <= rest[k].start[s] && SectEnd(rest[k], s) <= last
    {
      if rest[k].known {
        RestAbove(banks, at, k, s);
      }
    }
  }

  // The range starts in the first bank, and what it covers behind it is picked there.
  lemma ChainTaken(banks: seq<FlashInfo>, at: int, first: u32, last: u32)
    requires banks != [] && banks[0].known && Chain(banks, at) && ValidBanks(banks)
    requires ValidBanks(banks[1..])
    requires StepBank(banks[0], first, last).Take? && at <= first <= last && first <= BankEnd(banks[0])
    requires var next := StepBank(banks[0], first, last).next;
             if last <= BankEnd(banks[0]) then next == Wrap(last + 1)
             else
               && next == at + banks[0].size
               && Fill(banks[1..], next, last).Some?
               && Exact(banks[1..], Fill(banks[1..], next, last).value, next, last)
    ensures Fill(banks, first, last).Some?
    ensures Exact(banks, Fill(banks, first, last).value, first, last)
  {
    hide Ascending, SectEnd, BankEnd, StepBank, Exact, ExactHere, Picked;
    var b, rest := banks[0], banks[1..];
    var r := StepBank(b, first, last);
    if last <= BankEnd(b) {
      FillBehind(banks, at, last);
      NothingBehind(banks, at, first, last);
    } else {
      ExactBehind(banks, at, Fill(rest, r.next, last).value, first, last);
    }
    TakenExact(b, first, last);
    ExactCons(banks, Sectors(r.first, r.last), Fill(rest, r.next, last).value, first, last);
  }

  // A request for a whole number of sectors picks exactly these.
  lemma {:induction false} ChainExact(banks: seq<FlashInfo>, at: int, first: u32, last: u32)
    requires Chain(banks, at) && ValidBanks(banks)
    requires SectorStart(banks, first) && SectorEnd(banks, last) && first <= last
    ensures Fill(banks, first, last).Some?
    ensures Exact(banks, Fill(banks, first, last).value, first, last)
    decreases |banks|
  {
    hide Ascending, SectEnd, BankEnd, StepBank, StartsAt, EndsAt, Exact, ExactHere, Picked;
    var b, rest := banks[0], banks[1..];
    ChainValid(rest, if b.known then at + b.size else at);
    if !b.known {
      BoundariesInRest(banks, first, last);
      hide SectorStart, SectorEnd;
      ChainExact(rest, at, first, last);
      UnknownPasses(b, first, last);
      PassedExact(b, first, last);
      ExactCons(banks, Nothing, Fill(rest, first, last).value, first, last);
    } else {
      ChainFirst(banks, at, first);
      ChainLast(banks, at, last);
      hide SectorStart, SectorEnd;
      StepInChain(b, first, last);
      if BankEnd(b) < first {
        ChainExact(rest, at + b.size, first, last);
        PassedExact(b, first, last);
        ExactCons(banks, Nothing, Fill(rest, first, last).value, first, last);
      } else {
        if BankEnd(b) < last {
          assert BankEnd(b) as int + 1 == at + b.size by {
            BankSpan(b);
          }
          ChainGoesOn(rest, at + b.size, last);
          ChainExact(rest, at + b.size, at + b.size, last);
        }
        ChainTaken(banks, at, first, last);
      }
    }
  }
}
