// The overwriting circular buffer (common/circbuf.c, include/circbuf.h).

module CircBuf {
  import opened Words

  // ----- the queue it stands for ------------------------------------------------------------

  // The last n bytes.
  function Newest(s: seq<byte>, n: nat): seq<byte> {
    if |s| <= n then s else s[|s| - n..]
  }

  // Pushing in pieces keeps the same bytes as pushing everything at once.
  lemma NewestInPieces(a: seq<byte>, b: seq<byte>, n: nat)
    ensures Newest(Newest(a, n) + b, n) == Newest(a + b, n)
  {
    if |a| > n {
      var cut := |a| - n;
      assert a + b == a[..cut] + (a[cut..] + b);
    }
  }

  datatype Op = Push(src: seq<byte>) | Pop(len: nat)

  // What the buffer holds, and everything that went in, came out, or was overwritten.
  datatype Trace = Trace(held: seq<byte>, pushed: seq<byte>, popped: seq<byte>, lost: nat)

  function Step(t: Trace, op: Op, capacity: nat): Trace {
    match op
    case Push(src) =>
      var all := t.held + src;
      var held := Newest(all, capacity);
      Trace(held, t.pushed + src, t.popped, t.lost + (|all| - |held|))
    case Pop(len) =>
      var n := Least(len, |t.held|);
      Trace(t.held[n..], t.pushed, t.popped + t.held[..n], t.lost)
  }

  function Run(ops: seq<Op>, capacity: nat): Trace {
    if ops == [] then Trace([], [], [], 0)
    else Step(Run(ops[..|ops| - 1], capacity), ops[|ops| - 1], capacity)
  }

  predicate Accounted(t: Trace, capacity: nat) {
    && |t.held| <= capacity
    && |t.pushed| == |t.popped| + t.lost + |t.held|
    && t.held == t.pushed[|t.pushed| - |t.held|..]
    && (t.lost == 0 ==> t.popped == t.pushed[..|t.popped|])
  }

  lemma PushAccounted(t: Trace, src: seq<byte>, capacity: nat)
    requires Accounted(t, capacity)
    ensures Accounted(Step(t, Push(src), capacity), capacity)
  {
    var q, base := Step(t, Push(src), capacity), |t.pushed| - |t.held|;
    assert t.held + src == q.pushed[base..];
    assert q.held == q.pushed[base..][|t.held + src| - |q.held|..];
    hide Newest;
    if q.lost == 0 {
      assert q.pushed[..|t.popped|] == t.pushed[..|t.popped|];
    }
  }

  lemma PopAccounted(t: Trace, len: nat, capacity: nat)
    requires Accounted(t, capacity)
    ensures Accounted(Step(t, Pop(len), capacity), capacity)
  {
    var base, n := |t.pushed| - |t.held|, Least(len, |t.held|);
    assert t.held[n..] == t.pushed[base + n..];
    assert t.held[..n] == t.pushed[base..base + n];
    assert t.pushed[..base] + t.pushed[base..base + n] == t.pushed[..base + n];
  }

  // First in, first out: nothing is lost but the oldest bytes, the buffer holds the newest,
  // and while nothing has been overwritten the bytes come out as they went in.
  lemma {:induction false} RunAccounted(ops: seq<Op>, capacity: nat)
    ensures Accounted(Run(ops, capacity), capacity)
  {
    if ops != [] {
      RunAccounted(ops[..|ops| - 1], capacity);
      var t := Run(ops[..|ops| - 1], capacity);
      match ops[|ops| - 1] {
        case Push(src) => PushAccounted(t, src, capacity);
        case Pop(len) => PopAccounted(t, len, capacity);
      }
    }
  }

  // ----- the ring ---------------------------------------------------------------------------

  function Index(top: nat, i: nat, capacity: nat): nat {
    if top + i < capacity then top + i else top + i - capacity
  }

  function Next(p: nat, capacity: nat): nat {
    if p + 1 == capacity then 0 else p + 1
  }

  function View(data: seq<byte>, top: nat, size: nat): (s: seq<byte>)
    requires (size > 0 ==> top < |data|) && size <= |data|
    ensures |s| == size
  {
    seq(size, i requires 0 <= i < size => data[Index(top, i, |data|)])
  }

  lemma ViewPush(data: seq<byte>, top: nat, size: nat, b: byte)
    requires top < |data| && size <= |data|
    ensures var n := |data|;
            var d := data[Index(top, size, n) := b];
            if size < n then View(d, top, size + 1) == View(data, top, size) + [b]
            else View(d, Next(top, n), n) == View(data, top, n)[1..] + [b]
  {
    var n := |data|;
    var d := data[Index(top, size, n) := b];
    if size == n {
      forall i | 0 <= i < n
        ensures View(d, Next(top, n), n)[i] == (View(data, top, n)[1..] + [b])[i]
      {
      }
    }
  }

  lemma ViewPop(data: seq<byte>, top: nat, size: nat, k: nat)
    requires (size > 0 ==> top < |data|) && k <= size <= |data|
    ensures var t := Index(top, k, |data|);
            (size > 0 ==> t < |data|) && View(data, t, size - k) == View(data, top, size)[k..]
  {
  }

  lemma NewestGrows(s: seq<byte>, b: byte, n: nat)
    requires 0 < n
    ensures var t := Newest(s, n);
            Newest(s + [b], n) == if |t| < n then t + [b] else t[1..] + [b]
  {
  }

  class CircBuf {
    const data: array<byte>
    var top: nat
    var tail: nat
    var size: u32

    // buf_init
    constructor (totalsize: u32)
      ensures Valid() && data.Length == totalsize && Contents() == [] && fresh(data)
    {
      data := new byte[totalsize];
      top, tail, size := 0, 0, 0;
    }

    ghost predicate Valid()
      reads this
    {
      && size <= data.Length <= MAX_U32 && tail == Index(top, size, data.Length)
      && if data.Length == 0 then top == 0 else top < data.Length
    }

    ghost function Contents(): seq<byte>
      reads this, data
      requires Valid()
    {
      View(data[..], top, size)
    }

    // buf_push; in a buffer of size 0 the first byte would be written out of bounds.
    method Push(src: seq<byte>) returns (pushed: nat)
      requires Valid() && (src != [] ==> data.Length > 0)
      modifies this, data
      ensures Valid() && pushed == |src|
      ensures Contents() == Newest(old(Contents()) + src, data.Length)
    {
      hide View, Newest;
      var p := tail;
      var i := 0;
      ghost var before := Contents();
      ghost var n := data.Length;
      NewestWhole(before, n);
      assert before + src[..0] == before;
      while i < |src|
        invariant 0 <= i <= |src| && size <= n && p == Index(top, size, n)
        invariant if n == 0 then top == 0 else top < n
        invariant View(data[..], top, size) == Newest(before + src[..i], n)
      {
        ViewPush(data[..], top, size, src[i]);
        NewestGrows(before + src[..i], src[i], n);
        assert before + src[..i] + [src[i]] == before + src[..i + 1];
        data[p] := src[i];
        p := p + 1;
        if p == data.Length {
          p := 0;
        }
        if size < data.Length {
          size := size + 1;
        } else {
          top := top + 1;
          if top == data.Length {
            top := 0;
          }
        }
        i := i + 1;
      }
      assert src[..i] == src;
      tail := p;
      pushed := |src|;
    }

    // buf_pop
    method Pop(dest: array<byte>, len: nat) returns (popped: nat)
      requires Valid() && dest != data && Least(len, size) <= dest.Length
      modifies this, dest
      ensures Valid() && popped == Least(len, |old(Contents())|)
      ensures dest[..popped] == old(Contents())[..popped] && dest[popped..] == old(dest[popped..])
      ensures Contents() == old(Contents())[popped..]
    {
      var p := top;
      popped := if len > size then size else len;
      ghost var before, rest := Contents(), dest[popped..];
      var i := 0;
      while i < popped
        modifies dest
        invariant 0 <= i <= popped && p == Index(top, i, data.Length)
        invariant dest[..i] == before[..i] && dest[popped..] == rest
      {
        dest[i] := data[p];
        p := p + 1;
        if p == data.Length {
          p := 0;
        }
        i := i + 1;
      }
      ViewPop(data[..], top, size, popped);
      top := p;
      size := size - popped;
    }
  }

  lemma NewestWhole(s: seq<byte>, n: nat)
    requires |s| <= n
    ensures Newest(s, n) == s
  {
  }
}
