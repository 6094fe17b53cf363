// The operand fields of the PowerPC assembler, disassembler and stepper
// (common/bedbug.c, include/bedbug/ppc.h, include/bedbug/tables.h).
//
// A 32-bit word is its bits, lowest first.

module Bedbug {
  import opened Words

  // ----- bits ----------------------------------------------------------------------------------

  predicate IsWord(w: seq<bool>) {
    |w| == 32
  }

  function ToBits(v: nat, n: nat): (b: seq<bool>)
    ensures |b| == n
  {
    if n == 0 then [] else [v % 2 == 1] + ToBits(v / 2, n - 1)
  }

  function FromBits(b: seq<bool>): (v: nat)
    ensures v < Pow2(|b|)
  {
    if b == [] then 0 else (if b[0] then 1 else 0) + 2 * FromBits(b[1..])
  }

  lemma {:induction false} FromToBits(v: nat, n: nat)
    requires v < Pow2(n)
    ensures FromBits(ToBits(v, n)) == v
  {
    if n > 0 {
      FromToBits(v / 2, n - 1);
    }
  }

  function Zero(): (w: seq<bool>)
    ensures IsWord(w) && forall i :: 0 <= i < 32 ==> !w[i]
  {
    seq(32, _ => false)
  }

  predicate InField(i: int, shift: nat, bits: nat) {
    shift <= i < shift + bits
  }

  // w | (v << shift) for a value of `bits` bits
  function Put(w: seq<bool>, v: nat, shift: nat, bits: nat): (r: seq<bool>)
    requires IsWord(w) && shift + bits <= 32
    ensures IsWord(r)
    ensures forall i :: 0 <= i < 32 ==> r[i] == (w[i] || (InField(i, shift, bits) && ToBits(v, bits)[i - shift]))
  {
    seq(32, i requires 0 <= i < 32 => w[i] || (InField(i, shift, bits) && ToBits(v, bits)[i - shift]))
  }

  // (w >> shift) & ((1 << bits) - 1)
  function Extract(w: seq<bool>, shift: nat, bits: nat): (v: nat)
    requires IsWord(w) && shift + bits <= 32
    ensures v < Pow2(bits)
  {
    FromBits(w[shift..shift + bits])
  }

  predicate Clear(w: seq<bool>, shift: nat, bits: nat)
    requires IsWord(w) && shift + bits <= 32
  {
    forall i :: 0 <= i < 32 && InField(i, shift, bits) ==> !w[i]
  }

  lemma PutAt(w: seq<bool>, v: nat, shift: nat, bits: nat, i: nat)
    requires IsWord(w) && shift + bits <= 32 && Clear(w, shift, bits) && i < bits
    ensures Put(w, v, shift, bits)[shift + i] == ToBits(v, bits)[i]
  {
    hide ToBits, Put;
    assert InField(shift + i, shift, bits) && !w[shift + i] && shift + i - shift == i;
  }

  // A value put into a clear field is read back.
  lemma PutExtract(w: seq<bool>, v: nat, shift: nat, bits: nat)
    requires IsWord(w) && shift + bits <= 32 && Clear(w, shift, bits) && v < Pow2(bits)
    ensures Extract(Put(w, v, shift, bits), shift, bits) == v
  {
    FromToBits(v, bits);
    hide ToBits, FromBits, Pow2, Put, Clear, InField;
    var field := Put(w, v, shift, bits)[shift..shift + bits];
    forall i | 0 <= i < bits
      ensures field[i] == ToBits(v, bits)[i]
    {
      PutAt(w, v, shift, bits, i);
    }
    assert field == ToBits(v, bits);
  }

  // ----- operands and opcodes -------------------------------------------------------------------

  datatype Field = AA | BD | BI | BO | LI | LK | Other(number: nat)

  datatype Hint = SilentHint | AddrHint | RegHint | SprHint | TbrHint | PlainHint

  datatype Operand = Operand(field: Field, bits: nat, shift: nat, hint: Hint)

  datatype Opcode = Opcode(opcode: seq<bool>, mask: seq<bool>, fields: seq<Operand>, relative: bool)

  predicate ValidOperand(o: Operand) {
    o.shift + o.bits <= 32 && (o.hint.AddrHint? ==> 0 < o.bits < 30)
  }

  predicate ValidOpcode(op: Opcode) {
    && IsWord(op.opcode) && IsWord(op.mask)
    && forall k :: 0 <= k < |op.fields| ==> ValidOperand(op.fields[k])
  }

  predicate Apart(a: Operand, b: Operand) {
    a.shift + a.bits <= b.shift || b.shift + b.bits <= a.shift
  }

  // The fields read from the text overlap neither each other nor the bits of the opcode.
  predicate DisjointFields(op: Opcode)
    requires ValidOpcode(op)
  {
    && (forall j, k :: 0 <= j < k < |op.fields| && !op.fields[j].hint.SilentHint? && !op.fields[k].hint.SilentHint? ==>
          Apart(op.fields[j], op.fields[k]))
    && (forall k :: 0 <= k < |op.fields| && !op.fields[k].hint.SilentHint? ==>
          Clear(op.opcode, op.fields[k].shift, op.fields[k].bits) && Clear(op.mask, op.fields[k].shift, op.fields[k].bits))
  }

  predicate Matches(op: Opcode, instr: seq<bool>)
    requires ValidOpcode(op) && IsWord(instr)
  {
    forall i :: 0 <= i < 32 && op.mask[i] ==> instr[i] == op.opcode[i]
  }

  // ----- the assembler ---------------------------------------------------------------------------

  const E_ASM_NUM_OPERANDS := 2
  const E_ASM_BAD_REGISTER := 3
  const E_ASM_BAD_SPR := 4
  const E_ASM_BAD_TBR := 5

  datatype Assembled = Instr(word: seq<bool>) | Error(code: int)

  // A 32-bit value as a signed `long`.
  function Signed(x: int): int {
    var u := Wrap(x);
    if u >= 0x8000_0000 then u as int - 0x1_0000_0000 else u
  }

  datatype Param = Value(v: nat) | Bad(code: int)

  // parse_operand on the number the text stands for
  function ParseOperand(memaddr: u32, op: Opcode, oper: Operand, number: int): (p: Param)
    requires ValidOperand(oper)
    ensures p.Value? ==> p.v < Pow2(oper.bits)
  {
    match oper.hint
    case AddrHint =>
      var data := Signed(if op.relative then number - memaddr else number);
      var low := data / 4 % Pow2(oper.bits - 1);
      Value(if data < 0 then low + Pow2(oper.bits - 1) else low)
    case RegHint =>
      if number > 31 then Bad(E_ASM_BAD_REGISTER) else Value(number % Pow2(oper.bits))
    case SprHint =>
      if number == 0 then Bad(E_ASM_BAD_SPR) else Value(number % Pow2(oper.bits))
    case TbrHint =>
      if number == 0 then Bad(E_ASM_BAD_TBR) else Value(number % Pow2(oper.bits))
    case _ => Value(number % Pow2(oper.bits))
  }

  // asmppc from operand k on; `numbers` are the operands still to be read from the text.
  function AssembleFrom(memaddr: u32, op: Opcode, k: nat, numbers: seq<int>, instr: seq<bool>): (r: Assembled)
    requires ValidOpcode(op) && k <= |op.fields| && IsWord(instr)
    ensures r.Instr? ==> IsWord(r.word)
    decreases |op.fields| - k
  {
    if k == |op.fields| then Instr(instr)
    else
      var oper := op.fields[k];
      if oper.hint.SilentHint? then AssembleFrom(memaddr, op, k + 1, numbers, instr)
      else if numbers == [] then Error(E_ASM_NUM_OPERANDS)
      else match ParseOperand(memaddr, op, oper, numbers[0])
        case Bad(code) => Error(code)
        case Value(v) =>
          AssembleFrom(memaddr, op, k + 1, numbers[1..], Put(instr, v, oper.shift, oper.bits))
  }

  function Assemble(memaddr: u32, op: Opcode, numbers: seq<int>): (r: Assembled)
    requires ValidOpcode(op)
    ensures r.Instr? ==> IsWord(r.word)
  {
    AssembleFrom(memaddr, op, 0, numbers, op.opcode)
  }

  method AsmPpc(memaddr: u32, op: Opcode, numbers: seq<int>) returns (r: Assembled)
    requires ValidOpcode(op) && |op.fields| <= 8
    ensures r == Assemble(memaddr, op, numbers)
  {
    hide ParseOperand;
    var instr := op.opcode;
    var k, word := 0, 0;
    assert numbers[0..] == numbers;
    while k < |op.fields|
      invariant k <= |op.fields| && word <= |numbers| && IsWord(instr)
      invariant Assemble(memaddr, op, numbers) == AssembleFrom(memaddr, op, k, numbers[word..], instr)
    {
      var oper := op.fields[k];
      if oper.hint.SilentHint? {
        k := k + 1;
        continue;
      }
      if word == |numbers| {
        break;
      }
      assert numbers[word..][0] == numbers[word] && numbers[word..][1..] == numbers[word + 1..];
      match ParseOperand(memaddr, op, oper, numbers[word]) {
        case Bad(code) => return Error(code);
        case Value(v) => instr := Put(instr, v, oper.shift, oper.bits);
      }
      k, word := k + 1, word + 1;
    }
    if k < |op.fields| {
      return Error(E_ASM_NUM_OPERANDS);
    }
    r := Instr(instr);
  }

  // ----- what is refused ----------------------------------------------------------------------------

  // Why operand j is refused, when the text is read from operand k on; 0 if it is not.
  function Offence(op: Opcode, k: nat, numbers: seq<int>, j: nat): int
    requires k <= j < |op.fields|
  {
    var hint, n := op.fields[j].hint, WordsBefore(op.fields, k, j);
    if hint.SilentHint? then 0
    else if n >= |numbers| then E_ASM_NUM_OPERANDS
    else if hint.RegHint? && numbers[n] > 31 then E_ASM_BAD_REGISTER
    else if hint.SprHint? && numbers[n] == 0 then E_ASM_BAD_SPR
    else if hint.TbrHint? && numbers[n] == 0 then E_ASM_BAD_TBR
    else 0
  }

  // The code is that of the first operand that is refused; without one there is an instruction.
  predicate Judged(r: Assembled, op: Opcode, k: nat, numbers: seq<int>)
    requires k <= |op.fields|
  {
    match r
    case Instr(_) => forall j :: k <= j < |op.fields| ==> Offence(op, k, numbers, j) == 0
    case Error(code) =>
      exists j :: k <= j < |op.fields| && code == Offence(op, k, numbers, j) != 0 && FineUpTo(op, k, numbers, j)
  }

  predicate FineUpTo(op: Opcode, k: nat, numbers: seq<int>, j: nat)
    requires j <= |op.fields|
  {
    forall i :: k <= i < j ==> Offence(op, k, numbers, i) == 0
  }

  lemma OffenceLater(op: Opcode, k: nat, numbers: seq<int>, j: nat)
    requires k < j < |op.fields|
    ensures op.fields[k].hint.SilentHint? ==> Offence(op, k, numbers, j) == Offence(op, k + 1, numbers, j)
    ensures !op.fields[k].hint.SilentHint? && numbers != [] ==>
              Offence(op, k, numbers, j) == Offence(op, k + 1, numbers[1..], j)
  {
  }

  lemma JudgedLater(r: Assembled, op: Opcode, k: nat, numbers: seq<int>, later: seq<int>)
    requires k < |op.fields| && Judged(r, op, k + 1, later) && Offence(op, k, numbers, k) == 0
    requires if op.fields[k].hint.SilentHint? then later == numbers else numbers != [] && later == numbers[1..]
    ensures Judged(r, op, k, numbers)
  {
    forall j | k < j < |op.fields|
      ensures Offence(op, k, numbers, j) == Offence(op, k + 1, later, j)
    {
      OffenceLater(op, k, numbers, j);
    }
    hide Offence;
    if r.Error? {
      var j :| k + 1 <= j < |op.fields| && r.code == Offence(op, k + 1, later, j) != 0 && FineUpTo(op, k + 1, later, j);
      assert r.code == Offence(op, k, numbers, j);
      assert FineUpTo(op, k, numbers, j);
    }
  }

  lemma {:induction false} JudgesFrom(memaddr: u32, op: Opcode, k: nat, numbers: seq<int>, instr: seq<bool>)
    requires ValidOpcode(op) && k <= |op.fields| && IsWord(instr)
    ensures Judged(AssembleFrom(memaddr, op, k, numbers, instr), op, k, numbers)
    decreases |op.fields| - k
  {
    hide ToBits, Pow2;
    if k < |op.fields| {
      var oper := op.fields[k];
      var r := AssembleFrom(memaddr, op, k, numbers, instr);
      if oper.hint.SilentHint? {
        JudgesFrom(memaddr, op, k + 1, numbers, instr);
        JudgedLater(r, op, k, numbers, numbers);
      } else if numbers != [] && ParseOperand(memaddr, op, oper, numbers[0]).Value? {
        var v := ParseOperand(memaddr, op, oper, numbers[0]).v;
        JudgesFrom(memaddr, op, k + 1, numbers[1..], Put(instr, v, oper.shift, oper.bits));
        JudgedLater(r, op, k, numbers, numbers[1..]);
      } else {
        assert r == Error(Offence(op, k, numbers, k));
      }
    }
  }

  // The assembler refuses exactly too few operands, registers above 31, and the numbers 0 of
  // special purpose and time base registers, and says which came first.
  lemma AssembleJudges(memaddr: u32, op: Opcode, numbers: seq<int>)
    requires ValidOpcode(op)
    ensures Judged(Assemble(memaddr, op, numbers), op, 0, numbers)
  {
    JudgesFrom(memaddr, op, 0, numbers, op.opcode);
  }

  // ----- what was assembled can be extracted -------------------------------------------------------

  // Number of operands the text holds for the fields lo..hi.
  function WordsBefore(fields: seq<Operand>, lo: int, hi: int): nat
    requires 0 <= lo <= hi <= |fields|
    decreases hi - lo
  {
    if lo == hi then 0
    else (if fields[lo].hint.SilentHint? then 0 else 1) + WordsBefore(fields, lo + 1, hi)
  }

  // Later operands leave bits outside their fields alone.
  lemma {:induction false} LaterKeeps(memaddr: u32, op: Opcode, k: nat, numbers: seq<int>, instr: seq<bool>, i: nat)
    requires ValidOpcode(op) && k <= |op.fields| && IsWord(instr) && i < 32
    requires forall j :: k <= j < |op.fields| && !op.fields[j].hint.SilentHint? ==>
      !InField(i, op.fields[j].shift, op.fields[j].bits)
    ensures var r := AssembleFrom(memaddr, op, k, numbers, instr); r.Instr? ==> r.word[i] == instr[i]
    decreases |op.fields| - k
  {
    hide ParseOperand, ToBits;
    if k < |op.fields| {
      var oper := op.fields[k];
      if oper.hint.SilentHint? {
        LaterKeeps(memaddr, op, k + 1, numbers, instr, i);
      } else if numbers != [] {
        var p := ParseOperand(memaddr, op, oper, numbers[0]);
        if p.Value? {
          LaterKeeps(memaddr, op, k + 1, numbers[1..], Put(instr, p.v, oper.shift, oper.bits), i);
        }
      }
    }
  }

  // The opcode bits of an assembled instruction still match.
  lemma AssembledMatches(memaddr: u32, op: Opcode, numbers: seq<int>)
    requires ValidOpcode(op) && DisjointFields(op)
    ensures var r := Assemble(memaddr, op, numbers); r.Instr? ==> Matches(op, r.word)
  {
    var r := Assemble(memaddr, op, numbers);
    forall i | 0 <= i < 32 && op.mask[i] && r.Instr?
      ensures r.word[i] == op.opcode[i]
    {
      LaterKeeps(memaddr, op, 0, numbers, op.opcode, i);
    }
  }

  lemma {:induction false} ExtractsFrom(memaddr: u32, op: Opcode, k: nat, numbers: seq<int>, instr: seq<bool>, j: nat)
    requires ValidOpcode(op) && DisjointFields(op) && k <= j < |op.fields| && IsWord(instr)
    requires !op.fields[j].hint.SilentHint? && Clear(instr, op.fields[j].shift, op.fields[j].bits)
    ensures var r, o, n := AssembleFrom(memaddr, op, k, numbers, instr), op.fields[j], WordsBefore(op.fields, k, j);
            r.Instr? ==> n < |numbers| && ParseOperand(memaddr, op, o, numbers[n]) == Value(Extract(r.word, o.shift, o.bits))
    decreases |op.fields| - k
  {
    hide ParseOperand, ToBits, Extract, Matches;
    var oper, o := op.fields[k], op.fields[j];
    if k < j && oper.hint.SilentHint? {
      ExtractsFrom(memaddr, op, k + 1, numbers, instr, j);
    } else if numbers != [] {
      var p := ParseOperand(memaddr, op, oper, numbers[0]);
      if p.Value? {
        var next := Put(instr, p.v, oper.shift, oper.bits);
        if k < j {
          assert Apart(oper, o);
          assert Clear(next, o.shift, o.bits);
          ExtractsFrom(memaddr, op, k + 1, numbers[1..], next, j);
        } else {
          FieldKept(memaddr, op, k, numbers[1..], next);
          PutExtract(instr, p.v, o.shift, o.bits);
        }
      }
    }
  }

  lemma FieldKept(memaddr: u32, op: Opcode, k: nat, numbers: seq<int>, instr: seq<bool>)
    requires ValidOpcode(op) && DisjointFields(op) && k < |op.fields| && IsWord(instr)
    requires !op.fields[k].hint.SilentHint?
    ensures var r, o := AssembleFrom(memaddr, op, k + 1, numbers, instr), op.fields[k];
            r.Instr? ==> Extract(r.word, o.shift, o.bits) == Extract(instr, o.shift, o.bits)
  {
    hide ParseOperand, ToBits, FromBits, Matches;
    var r, o := AssembleFrom(memaddr, op, k + 1, numbers, instr), op.fields[k];
    if r.Instr? {
      forall i | o.shift <= i < o.shift + o.bits
        ensures r.word[i] == instr[i]
      {
        forall j | k + 1 <= j < |op.fields| && !op.fields[j].hint.SilentHint?
          ensures !InField(i, op.fields[j].shift, op.fields[j].bits)
        {
          assert Apart(o, op.fields[j]);
        }
        LaterKeeps(memaddr, op, k + 1, numbers, instr, i);
      }
      assert r.word[o.shift..o.shift + o.bits] == instr[o.shift..o.shift + o.bits];
    }
  }

  // Every operand read from the text is found in its field again.
  lemma AssembledExtracts(memaddr: u32, op: Opcode, numbers: seq<int>, j: nat)
    requires ValidOpcode(op) && DisjointFields(op) && j < |op.fields| && !op.fields[j].hint.SilentHint?
    ensures var r, o, n := Assemble(memaddr, op, numbers), op.fields[j], WordsBefore(op.fields, 0, j);
            r.Instr? ==> n < |numbers| && ParseOperand(memaddr, op, o, numbers[n]) == Value(Extract(r.word, o.shift, o.bits))
  {
    ExtractsFrom(memaddr, op, 0, numbers, op.opcode, j);
  }
}
