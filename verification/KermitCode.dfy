// The character codings of the Kermit receiver (common/cmd_load.c): control quoting and
// the one-character block check.

module KermitCode {
  import opened Words

  function ToChar(x: int): byte {
    (x + 0x20) % 0x100
  }

  function UnChar(c: byte): byte {
    Minus(c, 0x20) % 0x100
  }

  // (c & 0xE0) != 0
  predicate IsGraphic(c: byte) {
    c >= 0x20
  }

  // ----- quoting ---------------------------------------------------------------

  // ktrans: (in & 0x60) == 0x40 clears bit 6, (in & 0x7f) == 0x3f sets it.
  function Ktrans(c: byte): byte {
    if c / 32 % 4 == 2 then c - 64
    else if c % 128 == 63 then c + 64
    else c
  }

  // The same in the source's bit operations.
  function KtransBits(c: bv8): bv8 {
    if c & 0x60 == 0x40 then c & 0xBF
    else if c & 0x7F == 0x3F then c | 0x40
    else c
  }

  lemma KtransIsBits(c: bv8)
    ensures Ktrans(c as int) == KtransBits(c) as int
  {
    ClearsBit(c);
    SetsBit(c);
  }

  lemma ClearsBit(c: bv8)
    ensures c & 0x60 == 0x40 <==> c as int / 32 % 4 == 2
    ensures c & 0x60 == 0x40 ==> (c & 0xBF) as int == c as int - 64
  {
  }

  lemma SetsBit(c: bv8)
    ensures c & 0x7F == 0x3F <==> c as int % 128 == 63
    ensures c & 0x7F == 0x3F ==> (c | 0x40) as int == c as int + 64
  {
  }

  // What the receiver has decoded, and whether the last character was the quote.
  datatype Decoded = Decoded(out: seq<byte>, escape: bool)

  // k_data_char
  function DecodeChar(quote: byte, d: Decoded, c: byte): Decoded {
    if d.escape then Decoded(d.out + [Ktrans(c)], false)
    else if c == quote then Decoded(d.out, true)
    else Decoded(d.out + [c], false)
  }

  function Decode(quote: byte, d: Decoded, text: seq<byte>): Decoded {
    if text == [] then d
    else DecodeChar(quote, Decode(quote, d, text[..|text| - 1]), text[|text| - 1])
  }

  // Decoding does not depend on where the text is cut into packets.
  lemma {:induction false} DecodeCut(quote: byte, d: Decoded, a: seq<byte>, b: seq<byte>)
    ensures Decode(quote, d, a + b) == Decode(quote, Decode(quote, d, a), b)
  {
    if b == [] {
      assert a + b == a;
    } else {
      assert (a + b)[..|a + b| - 1] == a + b[..|b| - 1];
      DecodeCut(quote, d, a, b[..|b| - 1]);
    }
  }

  // What is decoded depends on what was decoded before only by appending to it.
  lemma {:induction false} DecodeAppends(quote: byte, d: Decoded, text: seq<byte>)
    ensures Decode(quote, d, text)
         == Decoded(d.out + Decode(quote, Decoded([], d.escape), text).out, Decode(quote, Decoded([], d.escape), text).escape)
  {
    if text == [] {
      assert d.out + [] == d.out;
    } else {
      DecodeAppends(quote, d, text[..|text| - 1]);
      var before := Decode(quote, Decoded([], d.escape), text[..|text| - 1]).out;
      var last := text[|text| - 1];
      assert d.out + before + [Ktrans(last)] == d.out + (before + [Ktrans(last)]);
      assert d.out + before + [last] == d.out + (before + [last]);
    }
  }

  // The sender's side: control characters and the quote itself are quoted.
  function Quoted(quote: byte, b: byte): seq<byte> {
    if b % 128 < 32 then [quote, b + 64]
    else if b % 128 == 127 then [quote, b - 64]
    else if b % 128 == quote then [quote, b]
    else [b]
  }

  function Encode(quote: byte, data: seq<byte>): seq<byte> {
    if data == [] then [] else Encode(quote, data[..|data| - 1]) + Quoted(quote, data[|data| - 1])
  }

  // The quote characters the protocol allows.
  predicate LegalQuote(quote: byte) {
    0x21 <= quote <= 0x3E || 0x60 <= quote <= 0x7E
  }

  // Quote characters that ktrans changes when they are quoted themselves.
  predicate Clashes(quote: byte) {
    0x3F <= quote <= 0x5F
  }

  lemma {:induction false} DecodeInvertsEncode(quote: byte, data: seq<byte>)
    requires quote < 0x80 && !Clashes(quote)
    ensures Decode(quote, Decoded([], false), Encode(quote, data)) == Decoded(data, false)
  {
    hide Quoted, DecodeChar, Clashes;
    if data != [] {
      var init, b := data[..|data| - 1], data[|data| - 1];
      DecodeInvertsEncode(quote, init);
      DecodeCut(quote, Decoded([], false), Encode(quote, init), Quoted(quote, b));
      QuotedDecodes(quote, Decoded(init, false), b);
      assert init + [b] == data;
    }
  }

  lemma QuotedDecodes(quote: byte, d: Decoded, b: byte)
    requires quote < 0x80 && !Clashes(quote) && !d.escape
    ensures Decode(quote, d, Quoted(quote, b)) == Decoded(d.out + [b], false)
  {
    var text := Quoted(quote, b);
    if |text| == 2 {
      assert text[..1] == [quote] && [quote][..0] == [];
      assert Decode(quote, d, [quote]) == DecodeChar(quote, d, quote);
    } else {
      assert text[..0] == [];
    }
  }

  // Unquoting inverts quoting for all data exactly when the quote does not clash.
  lemma QuoteWorksIff(quote: byte)
    requires quote < 0x80
    ensures !Clashes(quote)
       <==> forall data: seq<byte> :: Decode(quote, Decoded([], false), Encode(quote, data)) == Decoded(data, false)
  {
    if Clashes(quote) {
      ClashFails(quote);
    } else {
      forall data: seq<byte>
        ensures Decode(quote, Decoded([], false), Encode(quote, data)) == Decoded(data, false)
      {
        DecodeInvertsEncode(quote, data);
      }
    }
  }

  lemma ClashMoves(quote: byte)
    requires Clashes(quote)
    ensures Quoted(quote, quote) == [quote, quote] && Ktrans(quote) != quote
  {
  }

  lemma ClashFails(quote: byte)
    requires Clashes(quote)
    ensures Decode(quote, Decoded([], false), Encode(quote, [quote])) != Decoded([quote], false)
  {
    ClashMoves(quote);
    hide Quoted, Ktrans, Clashes;
    var none: seq<byte> := [];
    assert [quote][..0] == none;
    assert Encode(quote, [quote]) == none + [quote, quote] == [quote, quote];
    assert [quote, quote][..1] == [quote];
    assert Decode(quote, Decoded(none, false), [quote]) == Decoded(none, true);
  }

  predicate AllGraphic(text: seq<byte>) {
    forall i :: 0 <= i < |text| ==> IsGraphic(text[i])
  }

  // Encoded text contains no character the receiver would take for a line error.
  lemma {:induction false} EncodedGraphic(quote: byte, data: seq<byte>)
    requires LegalQuote(quote)
    ensures AllGraphic(Encode(quote, data))
  {
    if data != [] {
      EncodedGraphic(quote, data[..|data| - 1]);
    }
  }

  // ----- block check ---------------------------------------------------------------

  function BlockCheck(sum: nat): byte {
    (sum + sum / 64 % 4) % 64
  }

  // chk1 over the characters in front of the NUL
  method Chk1(buffer: seq<byte>) returns (check: byte)
    ensures check == BlockCheck(Sum(buffer))
  {
    var total: nat := 0;
    for i := 0 to |buffer|
      invariant total == Sum(buffer[..i])
    {
      assert buffer[..i + 1][..i] == buffer[..i];
      total := total + buffer[i];
    }
    assert buffer[..|buffer|] == buffer;
    check := (total + total / 64 % 4) % 64;
  }

  predicate HasBit(c: byte, k: nat) {
    c / Pow2(k) % 2 == 1
  }

  // c with bit k inverted
  function FlipBit(c: byte, k: nat): (r: byte)
    requires k < 8
  {
    Pow2Byte(k);
    if HasBit(c, k) then c - Pow2(k) else c + Pow2(k)
  }

  lemma FlipChanges(c: byte, k: nat)
    requires k < 8
    ensures FlipBit(c, k) - c == Pow2(k) || c - FlipBit(c, k) == Pow2(k)
  {
  }

  // The two upper bits of a sum, folded into its lower six.
  function Fold(r: nat, e: nat): nat {
    if r + e >= 64 then r + e - 64 else r + e
  }

  lemma CheckFolds(q: nat, r: nat)
    requires r < 64
    ensures BlockCheck(64 * q + r) == Fold(r, q % 4)
  {
    assert (64 * q + r) / 64 == q;
    var e := q % 4;
    assert 64 * q + r + e == if r + e >= 64 then 64 * (q + 1) + (r + e - 64) else 64 * q + (r + e);
  }

  lemma FoldDiffers(r: nat, e: nat, r': nat, e': nat)
    requires r < 64 && r' < 64 && e < 4 && e' < 4
    requires r' + e' - r - e != 0 && r' + e' - r - e != 64 && r' + e' - r - e != -64
    ensures Fold(r, e) != Fold(r', e')
  {
  }

  lemma QuarterTurns(q: nat)
    ensures (q + 1) % 4 == Fold4(q % 4 + 1) && (q + 2) % 4 == Fold4(q % 4 + 2)
  {
  }

  function Fold4(n: nat): nat {
    if n >= 4 then n - 4 else n
  }

  lemma CheckSeesPower(sum: nat, k: nat)
    requires k < 8
    ensures BlockCheck(sum) != BlockCheck(sum + Pow2(k))
  {
    Pow2Byte(k);
    hide BlockCheck, Pow2, Fold;
    var q, r, p := sum / 64, sum % 64, Pow2(k);
    var q' := if p == 128 then q + 2 else if r + p >= 64 then q + 1 else q;
    var r' := if p >= 64 then r else if r + p >= 64 then r + p - 64 else r + p;
    assert 64 * q + r == sum && 64 * q' + r' == sum + p;
    CheckFolds(q, r);
    CheckFolds(q', r');
    QuarterTurns(q);
    FoldDiffers(r, q % 4, r', q' % 4);
  }

  lemma {:induction false} SumUpdate(cs: seq<byte>, i: nat, c: byte)
    requires i < |cs|
    ensures Sum(cs[i := c]) == Sum(cs) - cs[i] + c
  {
    var last := |cs| - 1;
    if i < last {
      SumUpdate(cs[..last], i, c);
      assert cs[i := c][..last] == cs[..last][i := c];
    } else {
      assert cs[i := c][..last] == cs[..last];
    }
  }

  // One inverted bit in one summed character always changes the block check.
  lemma CheckSeesFlip(cs: seq<byte>, i: nat, k: nat)
    requires i < |cs| && k < 8
    ensures BlockCheck(Sum(cs[i := FlipBit(cs[i], k)])) != BlockCheck(Sum(cs))
  {
    var flipped := cs[i := FlipBit(cs[i], k)];
    SumUpdate(cs, i, FlipBit(cs[i], k));
    FlipChanges(cs[i], k);
    CheckSeesPower(Sum(cs), k);
    CheckSeesPower(Sum(flipped), k);
  }
}
