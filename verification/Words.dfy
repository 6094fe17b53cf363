// Fixed-width machine words.  The sources are compiled for 32-bit targets, where
// `unsigned long`, `unsigned int`, `u32` and pointers are all 32 bits wide.

module Words {
  type byte = x: int | 0 <= x < 0x100

  type u16 = x: int | 0 <= x < 0x1_0000

  type u32 = x: int | 0 <= x < 0x1_0000_0000

  const MAX_U32: u32 := 0xFFFF_FFFF

  // Reduction of a mathematical integer to the value a 32-bit unsigned variable holds.
  function Wrap(x: int): u32 {
    x % 0x1_0000_0000
  }

  // The offset of b from a as a 32-bit unsigned difference.
  function Minus(a: int, b: int): u32 {
    Wrap(a - b)
  }

  function Least(a: int, b: int): int {
    if a < b then a else b
  }

  datatype Option<+T> = None | Some(value: T) {
    function UnwrapOr(default: T): T {
      if Some? then value else default
    }
  }

  // Quotient and remainder are unique.
  lemma ModUnique(x: int, m: int, q: int, r: int)
    requires 0 <= r < m && x == m * q + r
    ensures x % m == r
  {
    var d := x / m - q;
    assert m * d == r - x % m;
    assert d >= 1 ==> m * d >= m;
    assert d <= -1 ==> m * d <= -m;
  }

  lemma AddMod(a: int, b: int, m: int)
    requires m > 0
    ensures (a % m + b) % m == (a + b) % m
  {
    var q, r := (a % m + b) / m, (a % m + b) % m;
    assert a + b == m * (a / m + q) + r by {
      assert a == m * (a / m) + a % m;
      assert m * (a / m + q) == m * (a / m) + m * q;
    }
    ModUnique(a + b, m, a / m + q, r);
  }

  lemma Scaled(m: int, a: int, b: int)
    requires m >= 0 && a <= b
    ensures m * a <= m * b
  {
    assert m * (b - a) >= 0;
  }

  function Pow2(n: nat): (p: nat)
    ensures p > 0
  {
    if n == 0 then 1 else 2 * Pow2(n - 1)
  }

  lemma Pow2Byte(n: nat)
    requires n < 8
    ensures Pow2(n) in {1, 2, 4, 8, 16, 32, 64, 128}
  {
    assert Pow2(4) == 16 && Pow2(5) == 32 && Pow2(6) == 64 && Pow2(7) == 128;
  }

  predicate PowerOfTwo(p: int) {
    p == 1 || (p > 1 && p % 2 == 0 && PowerOfTwo(p / 2))
  }

  // The sum of characters or bytes, as block checks and checksums take it.
  function Sum(cs: seq<byte>): nat {
    if cs == [] then 0 else Sum(cs[..|cs| - 1]) + cs[|cs| - 1]
  }

  lemma SumNothing()
    ensures Sum([]) == 0
  {
  }

  lemma SumOne(cs: seq<byte>, c: byte)
    ensures Sum(cs + [c]) == Sum(cs) + c
  {
    assert (cs + [c])[..|cs|] == cs;
  }

  lemma {:induction false} SumConcat(a: seq<byte>, b: seq<byte>)
    ensures Sum(a + b) == Sum(a) + Sum(b)
  {
    if b == [] {
      assert a + b == a;
    } else {
      assert (a + b)[..|a + b| - 1] == a + b[..|b| - 1];
      SumConcat(a, b[..|b| - 1]);
    }
  }
}
