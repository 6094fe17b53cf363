// Branch targets in the assembler, the disassembler and the stepper (common/bedbug.c).

module BedbugBranch {
  import opened Words
  import opened Bedbug

  // ----- the entries of the tables ---------------------------------------------------------------

  const OPERAND_AA := Operand(AA, 1, 1, SilentHint)
  const OPERAND_BD := Operand(BD, 14, 2, AddrHint)
  const OPERAND_BI := Operand(BI, 5, 16, PlainHint)
  const OPERAND_BO := Operand(BO, 5, 21, PlainHint)
  const OPERAND_LI := Operand(LI, 24, 2, AddrHint)
  const OPERAND_LK := Operand(LK, 1, 0, SilentHint)

  // I_OPCODE and B_OPCODE
  function BranchWord(primary: nat, aa: nat, lk: nat): (w: seq<bool>)
    ensures IsWord(w)
  {
    Put(Put(Put(Zero(), primary, 26, 6), aa, 1, 1), lk, 0, 1)
  }

  // XL_OPCODE
  function XlWord(primary: nat, xo: nat, lk: nat): (w: seq<bool>)
    ensures IsWord(w)
  {
    Put(Put(Put(Zero(), primary, 26, 6), xo, 1, 10), lk, 0, 1)
  }

  // b, bl, ba, bla
  function IBranch(aa: nat, lk: nat): (op: Opcode)
    ensures ValidOpcode(op)
  {
    Opcode(BranchWord(18, aa, lk), BranchWord(0x3F, 1, 1), [OPERAND_LI, OPERAND_AA, OPERAND_LK], aa == 0)
  }

  // bc, bcl, bca, bcla
  function BBranch(aa: nat, lk: nat): (op: Opcode)
    ensures ValidOpcode(op)
  {
    Opcode(BranchWord(16, aa, lk), BranchWord(0x3F, 1, 1),
           [OPERAND_BO, OPERAND_BI, OPERAND_BD, OPERAND_AA, OPERAND_LK], aa == 0)
  }

  // Between the primary opcode and the two low bits there is room for operands.
  lemma MiddleClear(primary: nat, aa: nat, lk: nat)
    ensures forall i :: 2 <= i < 26 ==> !BranchWord(primary, aa, lk)[i]
  {
    hide ToBits;
  }

  lemma BranchesDisjoint(aa: nat, lk: nat)
    ensures DisjointFields(IBranch(aa, lk)) && DisjointFields(BBranch(aa, lk))
  {
    hide BranchWord;
    MiddleClear(18, aa, lk);
    MiddleClear(16, aa, lk);
    MiddleClear(0x3F, 1, 1);
  }

  // ----- the disassembler -------------------------------------------------------------------------

  // The address print_operands shows for an OH_ADDR operand.
  function PrintedAddress(op: Opcode, instr: seq<bool>, oper: Operand, virtual: u32): u32
    requires IsWord(instr) && ValidOperand(oper) && oper.hint.AddrHint?
  {
    var operand := Extract(instr, oper.shift, oper.bits);
    var extended := if operand >= Pow2(oper.bits - 1) then Wrap(operand - Pow2(oper.bits)) else Wrap(operand);
    if op.relative then Wrap(extended * 4 + virtual) else Wrap(extended * 4)
  }

  // ----- the stepper ------------------------------------------------------------------------------

  // get_operand_value
  function GetOperandValue(op: Opcode, instr: seq<bool>, field: Field, k: nat): Option<nat>
    requires ValidOpcode(op) && IsWord(instr) && k <= |op.fields|
    decreases |op.fields| - k
  {
    if k == |op.fields| then None
    else if op.fields[k].field != field then GetOperandValue(op, instr, field, k + 1)
    else Some(Extract(instr, op.fields[k].shift, op.fields[k].bits))
  }

  method OperandValue(op: Opcode, instr: seq<bool>, field: Field) returns (value: Option<nat>)
    requires ValidOpcode(op) && IsWord(instr)
    ensures value == GetOperandValue(op, instr, field, 0)
  {
    var i := 0;
    while i < |op.fields|
      invariant i <= |op.fields|
      invariant GetOperandValue(op, instr, field, 0) == GetOperandValue(op, instr, field, i)
    {
      if op.fields[i].field == field {
        return Some(Extract(instr, op.fields[i].shift, op.fields[i].bits));
      }
      i := i + 1;
    }
    value := None;
  }

  // struct pt_regs, as far as the stepper reads it; ccr as bits.
  datatype Regs = Regs(nip: u32, ctr: u32, ccr: seq<bool>, link: u32)

  // Is the branch condition BO met, and what does it do to CTR?
  datatype Outcome = Outcome(ctrOk: bool, condOk: bool)

  method Condition(bo: nat, bi: nat, regs: Regs) returns (ctrOk: bool, condOk: bool)
    requires bo < 32 && bi < 32 && IsWord(regs.ccr)
    ensures (ctrOk && condOk) == CodeTakes(bo, bi, regs)
  {
    ctrOk, condOk := false, false;
    var ctr := Wrap(regs.ctr as int - 1);
    var bit := regs.ccr[31 - bi];
    match bo / 2 {
      case 0 => ctrOk, condOk := ctr != 0, !bit;
      case 1 => ctrOk, condOk := ctr == 0, !bit;
      case 2 => ctrOk, condOk := true, !bit;
      case 4 => ctrOk, condOk := ctr != 0, bit;
      case 5 => ctrOk, condOk := ctr == 0, bit;
      case 6 => ctrOk, condOk := true, bit;
      case 8 =>
        if ctr != 0 {
          ctrOk, condOk := true, true;
        }
      case 9 =>
        if ctr == 0 {
          ctrOk, condOk := true, true;
        }
      case 10 => ctrOk, condOk := true, true;
      case _ =>
    }
  }

  // The encodings of BO the code knows: all but the ones with a z bit set above the lowest
  // bit.  The lowest bit, which is y or the last z of 1z1zz, is shifted out.
  predicate KnownBo(bo: nat) {
    var b := bo / 2;
    b == 0 || b == 1 || b == 2 || b == 4 || b == 5 || b == 6 || b == 8 || b == 9 || b == 10
  }

  // The rule behind the encodings: bit 2 of BO ignores CTR, bit 3 asks for zero, bit 0
  // ignores the condition, bit 1 is the value asked for.
  predicate RuleTakes(bo: nat, bi: nat, regs: Regs)
    requires bo < 32 && bi < 32 && IsWord(regs.ccr)
  {
    && (bo / 4 % 2 == 1 || (regs.ctr == 1) == (bo / 2 % 2 == 1))
    && (bo / 16 == 1 || regs.ccr[31 - bi] == (bo / 8 % 2 == 1))
  }

  predicate CodeTakes(bo: nat, bi: nat, regs: Regs)
    requires bo < 32 && bi < 32 && IsWord(regs.ccr)
  {
    KnownBo(bo) && RuleTakes(bo, bi, regs)
  }

  // The code follows the rule for every state of the registers, exactly for these encodings.
  lemma FollowsRuleIff(bo: nat, bi: nat)
    requires bo < 32 && bi < 32
    ensures KnownBo(bo) <==> forall regs: Regs :: IsWord(regs.ccr) ==> CodeTakes(bo, bi, regs) == RuleTakes(bo, bi, regs)
  {
    if !KnownBo(bo) {
      var wanted := bo / 8 % 2 == 1;
      var regs := Regs(0, if bo / 2 % 2 == 1 then 1 else 2, seq(32, _ => wanted), 0);
      assert IsWord(regs.ccr) && RuleTakes(bo, bi, regs) && !CodeTakes(bo, bi, regs);
    }
  }

  // What the encodings mean: branch if the condition bit is clear or set, always, or if CTR is
  // not, or is, 0 after it has been counted down; alone or together with a condition.
  lemma BoTable(bi: nat, regs: Regs)
    requires bi < 32 && IsWord(regs.ccr)
    ensures var bit, one := regs.ccr[31 - bi], regs.ctr == 1;
            && (CodeTakes(4, bi, regs) <==> !bit) && (CodeTakes(12, bi, regs) <==> bit)
            && (CodeTakes(16, bi, regs) <==> !one) && (CodeTakes(18, bi, regs) <==> one)
            && (CodeTakes(0, bi, regs) <==> !one && !bit) && (CodeTakes(2, bi, regs) <==> one && !bit)
            && (CodeTakes(8, bi, regs) <==> !one && bit) && (CodeTakes(10, bi, regs) <==> one && bit)
            && CodeTakes(20, bi, regs)
  {
  }

  // `addr` of the stepper for an n-bit field: sign extended and shifted.
  function Displacement(v: nat, n: nat): u32
    requires n > 0
  {
    Wrap((if v >= Pow2(n - 1) then Wrap(v - Pow2(n)) else Wrap(v)) * 4)
  }

  datatype Form = BForm | IForm | CtrForm | LrForm | NoBranch

  // The cases of the switch over op->opcode.
  function FormOf(w: seq<bool>): Form {
    if w == BranchWord(16, 0, 0) || w == BranchWord(16, 0, 1) || w == BranchWord(16, 1, 0) || w == BranchWord(16, 1, 1)
    then BForm
    else if w == BranchWord(18, 0, 0) || w == BranchWord(18, 0, 1) || w == BranchWord(18, 1, 0) || w == BranchWord(18, 1, 1)
    then IForm
    else if w == XlWord(19, 528, 0) || w == XlWord(19, 528, 1) then CtrForm
    else if w == XlWord(19, 16, 0) || w == XlWord(19, 16, 1) then LrForm
    else NoBranch
  }

  // BO and BI are five bits wide in the operand table.
  predicate FiveBitConditions(op: Opcode) {
    forall k :: 0 <= k < |op.fields| && (op.fields[k].field.BO? || op.fields[k].field.BI?) ==> op.fields[k].bits == 5
  }

  lemma {:induction false} ConditionBits(op: Opcode, instr: seq<bool>, field: Field, k: nat)
    requires ValidOpcode(op) && IsWord(instr) && FiveBitConditions(op) && (field.BO? || field.BI?) && k <= |op.fields|
    ensures var v := GetOperandValue(op, instr, field, k); v.Some? ==> v.value < 32
    decreases |op.fields| - k
  {
    assert Pow2(5) == 32;
    hide Extract;
    if k < |op.fields| && op.fields[k].field != field {
      ConditionBits(op, instr, field, k + 1);
    }
  }

  // What find_next_address makes of a branch: its target, whether it depends on a condition,
  // and whether it leaves a return address.
  datatype Branch = Branch(target: u32, conditional: bool, bo: nat, bi: nat, link: bool)

  function Pc(regs: Regs): u32 {
    regs.nip - regs.nip % 4
  }

  function Decoded(op: Opcode, instr: seq<bool>, regs: Regs): (b: Option<Branch>)
    requires ValidOpcode(op) && IsWord(instr) && FiveBitConditions(op)
    ensures b.Some? ==> b.value.bo < 32 && b.value.bi < 32
  {
    ConditionBits(op, instr, BO, 0);
    ConditionBits(op, instr, BI, 0);
    var aa := GetOperandValue(op, instr, AA, 0);
    var lk := GetOperandValue(op, instr, LK, 0);
    var bo := GetOperandValue(op, instr, BO, 0);
    var bi := GetOperandValue(op, instr, BI, 0);
    match FormOf(op.opcode)
    case IForm =>
      var li := GetOperandValue(op, instr, LI, 0);
      if li.None? || aa.None? || lk.None? then None
      else
        var addr := Displacement(li.value, 24);
        Some(Branch(if aa.value != 0 then addr else Wrap(addr + Pc(regs)), false, 0, 0, lk.value != 0))
    case BForm =>
      var bd := GetOperandValue(op, instr, BD, 0);
      if bd.None? || bo.None? || bi.None? || aa.None? || lk.None? then None
      else
        var addr := Displacement(bd.value, 14);
        Some(Branch(if aa.value != 0 then addr else Wrap(addr + Pc(regs)), true, bo.value, bi.value, lk.value != 0))
    case NoBranch => None
    case _ =>
      if bo.None? || bi.None? || lk.None? then None
      else Some(Branch(if FormOf(op.opcode).CtrForm? then regs.ctr else regs.link, true, bo.value, bi.value, lk.value != 0))
  }

  // The address the stepper stops at.
  function NextAddress(op: Opcode, instr: seq<bool>, regs: Regs, stepOver: bool): Option<u32>
    requires ValidOpcode(op) && IsWord(instr) && FiveBitConditions(op) && IsWord(regs.ccr)
  {
    if FormOf(op.opcode).NoBranch? then Some(Wrap(Pc(regs) + 4))
    else match Decoded(op, instr, regs)
      case None => None
      case Some(b) =>
        if b.conditional && !CodeTakes(b.bo, b.bi, regs) then Some(Wrap(Pc(regs) + 4))
        else Some(if stepOver && b.link then Wrap(Pc(regs) + 4) else b.target)
  }

  // find_next_address for an instruction whose table entry is `op`
  method FindNextAddress(op: Opcode, instr: seq<bool>, regs: Regs, stepOver: bool) returns (nextAddr: Option<u32>)
    requires ValidOpcode(op) && IsWord(instr) && FiveBitConditions(op) && IsWord(regs.ccr)
    ensures nextAddr == NextAddress(op, instr, regs, stepOver)
  {
    hide Displacement, GetOperandValue, CodeTakes, BranchWord, XlWord, ValidOpcode, FiveBitConditions, FormOf;
    var pc := Pc(regs);
    var addr: u32, aa: nat, lk: nat, bo: nat, bi: nat := 0, 0, 0, 0, 0;
    var conditional, branch := false, false;
    var form := FormOf(op.opcode);
    ConditionBits(op, instr, BO, 0);
    ConditionBits(op, instr, BI, 0);
    if !form.NoBranch? {
      branch, conditional := true, !form.IForm?;
      var l := OperandValue(op, instr, LK);
      if l.None? {
        return None;
      }
      lk := l.value;
      if conditional {
        var o := OperandValue(op, instr, BO);
        var i := OperandValue(op, instr, BI);
        if o.None? || i.None? {
          return None;
        }
        bo, bi := o.value, i.value;
      }
      if form.IForm? || form.BForm? {
        var disp := OperandValue(op, instr, if form.IForm? then LI else BD);
        var a := OperandValue(op, instr, AA);
        if disp.None? || a.None? {
          return None;
        }
        aa := a.value;
        addr := Displacement(disp.value, if form.IForm? then 24 else 14);
      } else {
        addr, aa := if form.CtrForm? then regs.ctr else regs.link, 1;
      }
    }
    var ctrOk, condOk := false, false;
    if conditional {
      ctrOk, condOk := Condition(bo, bi, regs);
    }
    var step: u32, next: u32 := Wrap(pc as int + 4), Wrap(pc as int + 4);
    if branch && (!conditional || (ctrOk && condOk)) {
      step := if aa != 0 then addr else Wrap(addr as int + pc as int);
      if lk == 0 {
        next := step;
      }
    }
    nextAddr := Some(if stepOver then next else step);
  }

  // ----- the three computations agree ------------------------------------------------------------

  // The distances an n-bit field can express.
  predicate Reaches(data: int, n: nat)
    requires n > 0
  {
    data % 4 == 0 && 0 <= data / 4 + Pow2(n - 1) < 2 * Pow2(n - 1)
  }

  function SignExtended(v: nat, n: nat): int
    requires n > 0
  {
    if v >= Pow2(n - 1) then v - Pow2(n) else v
  }

  // What parse_operand packs into the field.
  function Packed(data: int, n: nat): (v: nat)
    requires n > 0
    ensures v < Pow2(n)
  {
    var low := data / 4 % Pow2(n - 1);
    if data < 0 then low + Pow2(n - 1) else low
  }

  lemma PackedReturnsIff(data: int, n: nat)
    requires n > 0
    ensures SignExtended(Packed(data, n), n) * 4 == data <==> Reaches(data, n)
  {
    var p, d := Pow2(n - 1), data / 4;
    var low := d % p;
    if Reaches(data, n) {
      ModUnique(d, p, if data < 0 then -1 else 0, if data < 0 then d + p else d);
    }
  }

  // The number an operand is assembled from is found in its field: in full if it fits, else its
  // low bits; of an address the distance, which the field expresses exactly if it reaches.
  lemma AssembledFields(memaddr: u32, op: Opcode, numbers: seq<int>, j: nat)
    requires ValidOpcode(op) && DisjointFields(op) && j < |op.fields| && !op.fields[j].hint.SilentHint?
    ensures var r, o, n := Assemble(memaddr, op, numbers), op.fields[j], WordsBefore(op.fields, 0, j);
            r.Instr? ==>
              && n < |numbers|
              && var v, x := Extract(r.word, o.shift, o.bits), numbers[n];
                 if o.hint.AddrHint? then
                   var distance := Signed(if op.relative then x - memaddr else x);
                   SignExtended(v, o.bits) * 4 == distance <==> Reaches(distance, o.bits)
                 else
                   (v - x) % Pow2(o.bits) == 0 && (0 <= x < Pow2(o.bits) ==> v == x)
  {
    AssembledExtracts(memaddr, op, numbers, j);
    hide Extract, Assemble, DisjointFields, Signed, ParseOperand, Pow2, Reaches, SignExtended;
    var r, o, n := Assemble(memaddr, op, numbers), op.fields[j], WordsBefore(op.fields, 0, j);
    if r.Instr? {
      var x := numbers[n];
      if o.hint.AddrHint? {
        AddressParam(memaddr, op, o, x);
        PackedReturnsIff(Signed(if op.relative then x - memaddr else x), o.bits);
      } else {
        NumberParam(memaddr, op, o, x);
        LowBitsOf(x, Pow2(o.bits));
      }
    }
  }

  lemma AddressParam(memaddr: u32, op: Opcode, oper: Operand, x: int)
    requires ValidOperand(oper) && oper.hint.AddrHint?
    ensures ParseOperand(memaddr, op, oper, x) == Value(Packed(Signed(if op.relative then x - memaddr else x), oper.bits))
  {
    hide Signed, Pow2;
  }

  lemma NumberParam(memaddr: u32, op: Opcode, oper: Operand, x: int)
    requires ValidOperand(oper) && !oper.hint.AddrHint?
    ensures var p := ParseOperand(memaddr, op, oper, x); p.Value? ==> p.v == x % Pow2(oper.bits)
  {
    hide Pow2;
  }

  lemma LowBitsOf(x: int, m: int)
    requires m > 0
    ensures (x % m - x) % m == 0
    ensures 0 <= x < m ==> x % m == x
  {
    ModUnique(x % m - x, m, -(x / m), 0);
    if 0 <= x < m {
      ModUnique(x, m, 0, x);
    }
  }

  lemma WrapPeriod(x: int, k: int)
    ensures Wrap(x + 0x1_0000_0000 * k) == Wrap(x)
  {
  }

  lemma WrapScaled(x: int, y: int)
    ensures Wrap(Wrap(x) * 4 + y) == Wrap(x * 4 + y)
    ensures Wrap(Wrap(Wrap(x) * 4) + y) == Wrap(x * 4 + y)
  {
    var k := x / 0x1_0000_0000;
    var z: int := Wrap(x) * 4;
    var m := z / 0x1_0000_0000;
    assert z == x * 4 + 0x1_0000_0000 * (-4 * k);
    assert Wrap(z) == x * 4 + 0x1_0000_0000 * (-4 * k - m);
    hide Wrap;
    WrapPeriod(x * 4 + y, -4 * k);
    WrapPeriod(x * 4 + y, -4 * k - m);
  }

  lemma WrapInjective(x: int, y: int)
    requires -0x1_0000_0000 < x - y < 0x1_0000_0000
    ensures Wrap(x) == Wrap(y) <==> x == y
  {
  }

  // Which signed distance x from `base` leads to `number`?
  lemma ShiftedBy(base: int, number: int, x: int)
    requires -0x8000_0000 <= x < 0x8000_0000
    ensures Wrap(x + base) == Wrap(number) <==> x == Signed(number - base)
  {
    var data := Signed(number - base);
    var k := (number - base) / 0x1_0000_0000 + if Wrap(number - base) >= 0x8000_0000 then 1 else 0;
    assert number == base + data + 0x1_0000_0000 * k;
    WrapPeriod(base + data, k);
    WrapInjective(x + base, data + base);
  }

  // The bits an assembled branch keeps from its table entry.
  lemma SilentBits(aa: nat, lk: nat)
    requires aa < 2 && lk < 2
    ensures var w, mask := BranchWord(18, aa, lk), BranchWord(0x3F, 1, 1);
            mask[0] && mask[1] && w[0] == (lk == 1) && w[1] == (aa == 1)
    ensures var w := BranchWord(16, aa, lk); w[0] == (lk == 1) && w[1] == (aa == 1)
    ensures FormOf(BranchWord(18, aa, lk)) == IForm && FormOf(BranchWord(16, aa, lk)) == BForm
  {
    LowBits(18, aa, lk);
    LowBits(16, aa, lk);
    LowBits(0x3F, 1, 1);
    PrimaryBit(aa, lk);
    PrimaryBit(0, 0);
    PrimaryBit(0, 1);
    PrimaryBit(1, 0);
    PrimaryBit(1, 1);
    hide BranchWord;
  }

  lemma LowBits(primary: nat, aa: nat, lk: nat)
    requires aa < 2 && lk < 2
    ensures var w := BranchWord(primary, aa, lk); w[0] == (lk == 1) && w[1] == (aa == 1)
  {
    assert ToBits(aa, 1) == [aa == 1] && ToBits(lk, 1) == [lk == 1];
    hide ToBits;
  }

  // The opcodes 18 and 16 differ in this bit.
  lemma PrimaryBit(aa: nat, lk: nat)
    ensures BranchWord(18, aa, lk)[27] && !BranchWord(16, aa, lk)[27]
  {
    assert ToBits(18, 6)[1] && !ToBits(16, 6)[1];
    hide ToBits;
  }

  lemma OneBit(w: seq<bool>, i: nat)
    requires IsWord(w) && i < 32
    ensures Extract(w, i, 1) == if w[i] then 1 else 0
  {
    assert w[i..i + 1] == [w[i]];
    assert FromBits([w[i]]) == if w[i] then 1 else 0;
  }

  lemma NumberOfBits()
    ensures Pow2(13) == 0x2000 && Pow2(14) == 0x4000 && Pow2(23) == 0x80_0000 && Pow2(24) == 0x100_0000
  {
    assert Pow2(8) == 0x100;
    assert Pow2(16) == 0x1_0000;
  }

  // The printed address and the stepper's target are the same sum, which is the number given
  // to the assembler exactly when the field can express the distance.
  lemma FieldTarget(memaddr: u32, relative: bool, number: int, n: nat)
    requires n == 14 || n == 24
    ensures var base := if relative then memaddr else 0;
            var v := Packed(Signed(number - base), n);
            && Wrap(Displacement(v, n) + base) ==
               Wrap(Wrap(SignExtended(v, n)) * 4 + base)
            && (Wrap(Wrap(SignExtended(v, n)) * 4 + base) == Wrap(number) <==> Reaches(Signed(number - base), n))
  {
    hide Packed, Reaches, Signed, Wrap, Pow2;
    NumberOfBits();
    var base := if relative then memaddr else 0;
    var data := Signed(number - base);
    var v := Packed(data, n);
    var s := SignExtended(v, n);
    WrapScaled(s, base);
    PackedReturnsIff(data, n);
    assert Displacement(v, n) == Wrap(Wrap(s) * 4);
    ShiftedBy(base, number, s * 4);
  }

  // The operands of a branch entry, as the stepper finds them.
  lemma Found(op: Opcode, instr: seq<bool>, k: nat, at: nat)
    requires ValidOpcode(op) && IsWord(instr) && k <= at < |op.fields|
    requires forall j :: k <= j < at ==> op.fields[j].field != op.fields[at].field
    ensures var o := op.fields[at]; GetOperandValue(op, instr, o.field, k) == Some(Extract(instr, o.shift, o.bits))
    decreases at - k
  {
    hide Extract;
    if k < at {
      Found(op, instr, k + 1, at);
    }
  }

  // The AA and LK bits of an assembled branch are those of its table entry.
  lemma SilentKept(op: Opcode, aa: nat, lk: nat, instr: seq<bool>)
    requires aa < 2 && lk < 2 && (op == IBranch(aa, lk) || op == BBranch(aa, lk))
    requires IsWord(instr) && Matches(op, instr)
    ensures Extract(instr, 1, 1) == aa && Extract(instr, 0, 1) == lk
    ensures FormOf(op.opcode) == if op == IBranch(aa, lk) then IForm else BForm
  {
    SilentBits(aa, lk);
    hide Extract, BranchWord, FormOf;
    OneBit(instr, 1);
    OneBit(instr, 0);
    assert op.mask[0] && op.mask[1];
    assert instr[1] == op.opcode[1] && instr[0] == op.opcode[0];
  }

  lemma IOperands(aa: nat, lk: nat, instr: seq<bool>)
    requires aa < 2 && lk < 2 && IsWord(instr) && Matches(IBranch(aa, lk), instr)
    ensures var op := IBranch(aa, lk);
            && GetOperandValue(op, instr, LI, 0) == Some(Extract(instr, 2, 24))
            && GetOperandValue(op, instr, AA, 0) == Some(aa) && GetOperandValue(op, instr, LK, 0) == Some(lk)
            && FormOf(op.opcode) == IForm && FiveBitConditions(op)
  {
    hide Extract, BranchWord, FormOf, Matches, GetOperandValue;
    var op := IBranch(aa, lk);
    SilentKept(op, aa, lk, instr);
    assert op.fields == [OPERAND_LI, OPERAND_AA, OPERAND_LK] && FiveBitConditions(op);
    hide IBranch, BBranch, FiveBitConditions, IsWord;
    Found(op, instr, 0, 0);
    Found(op, instr, 0, 1);
    Found(op, instr, 0, 2);
  }

  lemma BOperands(aa: nat, lk: nat, instr: seq<bool>)
    requires aa < 2 && lk < 2 && IsWord(instr) && Matches(BBranch(aa, lk), instr)
    ensures var op := BBranch(aa, lk);
            && GetOperandValue(op, instr, BO, 0) == Some(Extract(instr, 21, 5))
            && GetOperandValue(op, instr, BI, 0) == Some(Extract(instr, 16, 5))
            && GetOperandValue(op, instr, BD, 0) == Some(Extract(instr, 2, 14))
            && GetOperandValue(op, instr, AA, 0) == Some(aa) && GetOperandValue(op, instr, LK, 0) == Some(lk)
            && FormOf(op.opcode) == BForm && FiveBitConditions(op)
  {
    hide Extract, BranchWord, FormOf, Matches, GetOperandValue;
    var op := BBranch(aa, lk);
    SilentKept(op, aa, lk, instr);
    assert op.fields == [OPERAND_BO, OPERAND_BI, OPERAND_BD, OPERAND_AA, OPERAND_LK] && FiveBitConditions(op);
    hide IBranch, BBranch, FiveBitConditions, IsWord;
    Found(op, instr, 0, 0);
    Found(op, instr, 0, 1);
    Found(op, instr, 0, 2);
    Found(op, instr, 0, 3);
    Found(op, instr, 0, 4);
  }

  // The address shown for an operand, from its sign-extended value.
  lemma Prints(op: Opcode, instr: seq<bool>, oper: Operand, virtual: u32)
    requires IsWord(instr) && ValidOperand(oper) && oper.hint.AddrHint?
    ensures var v, base := Extract(instr, oper.shift, oper.bits), if op.relative then virtual else 0;
            PrintedAddress(op, instr, oper, virtual) == Wrap(Wrap(SignExtended(v, oper.bits)) * 4 + base)
  {
    hide Extract, Pow2, Wrap;
  }

  // Where an unconditional branch leads.
  lemma ISteps(aa: nat, lk: nat, instr: seq<bool>, regs: Regs)
    requires aa < 2 && lk < 2 && IsWord(instr) && Matches(IBranch(aa, lk), instr) && IsWord(regs.ccr)
    ensures var op, base := IBranch(aa, lk), if aa == 0 then Pc(regs) else 0;
            var target := Wrap(Displacement(Extract(instr, 2, 24), 24) + base);
            && FiveBitConditions(op)
            && NextAddress(op, instr, regs, false) == Some(target)
            && NextAddress(op, instr, regs, true) == Some(if lk == 1 then Wrap(Pc(regs) + 4) else target)
  {
    hide Extract, BranchWord, FormOf, Matches, GetOperandValue, Displacement, Pc;
    IOperands(aa, lk, instr);
  }

  // Where a conditional branch leads.
  lemma BSteps(aa: nat, lk: nat, instr: seq<bool>, regs: Regs)
    requires aa < 2 && lk < 2 && IsWord(instr) && Matches(BBranch(aa, lk), instr) && IsWord(regs.ccr)
    requires Extract(instr, 21, 5) < 32 && Extract(instr, 16, 5) < 32
    ensures var op, base := BBranch(aa, lk), if aa == 0 then Pc(regs) else 0;
            var target := Wrap(Displacement(Extract(instr, 2, 14), 14) + base);
            var takes := CodeTakes(Extract(instr, 21, 5), Extract(instr, 16, 5), regs);
            && FiveBitConditions(op)
            && NextAddress(op, instr, regs, false) == Some(if takes then target else Wrap(Pc(regs) + 4))
            && NextAddress(op, instr, regs, true) == Some(if takes && lk == 0 then target else Wrap(Pc(regs) + 4))
  {
    hide Extract, BranchWord, FormOf, Matches, GetOperandValue, Displacement, Pc, CodeTakes;
    BOperands(aa, lk, instr);
  }

  // b, bl, ba, bla: assembled at an address, printed there and stepped from there, a branch
  // has one target; it is the number given to the assembler if and only if the field can
  // express it.
  lemma UnconditionalAgrees(memaddr: u32, aa: nat, lk: nat, number: int, regs: Regs)
    requires aa < 2 && lk < 2 && Pc(regs) == memaddr && IsWord(regs.ccr)
    ensures var op, r := IBranch(aa, lk), Assemble(memaddr, IBranch(aa, lk), [number]);
            && r.Instr? && Matches(op, r.word) && FiveBitConditions(op)
            && NextAddress(op, r.word, regs, false) == Some(PrintedAddress(op, r.word, OPERAND_LI, memaddr))
            && NextAddress(op, r.word, regs, true) ==
               Some(if lk == 1 then Wrap(memaddr + 4) else PrintedAddress(op, r.word, OPERAND_LI, memaddr))
            && (PrintedAddress(op, r.word, OPERAND_LI, memaddr) == Wrap(number) <==>
                Reaches(Signed(number - if aa == 0 then memaddr else 0), 24))
  {
    hide ToBits, BranchWord, Extract, Matches, Signed, Reaches, DisjointFields, FormOf, GetOperandValue, Pow2;
    hide NextAddress, PrintedAddress, Displacement, SignExtended, Packed, Wrap, Pc;
    var op := IBranch(aa, lk);
    var r := Assemble(memaddr, op, [number]);
    BranchesDisjoint(aa, lk);
    IAssembles(memaddr, op, number);
    AssembledMatches(memaddr, op, [number]);
    AssembledExtracts(memaddr, op, [number], 0);
    ISteps(aa, lk, r.word, regs);
    Prints(op, r.word, OPERAND_LI, memaddr);
    FieldTarget(memaddr, op.relative, number, 24);
  }

  lemma IAssembles(memaddr: u32, op: Opcode, number: int)
    requires ValidOpcode(op) && op.fields == [OPERAND_LI, OPERAND_AA, OPERAND_LK]
    ensures Assemble(memaddr, op, [number]).Instr? && WordsBefore(op.fields, 0, 0) == 0
    ensures ParseOperand(memaddr, op, OPERAND_LI, number) ==
            Value(Packed(Signed(number - if op.relative then memaddr else 0), 24))
  {
    var v := ParseOperand(memaddr, op, OPERAND_LI, number).v;
    var w := Put(op.opcode, v, 2, 24);
    hide ParseOperand, ToBits, Pow2;
    assert AssembleFrom(memaddr, op, 3, [], w) == Instr(w);
    assert AssembleFrom(memaddr, op, 1, [], w) == Instr(w);
    assert [number][1..] == [];
  }

  // bc, bcl, bca, bcla: the same, where the condition is met.
  lemma ConditionalAgrees(memaddr: u32, aa: nat, lk: nat, bo: nat, bi: nat, number: int, regs: Regs)
    requires aa < 2 && lk < 2 && bo < 32 && bi < 32 && Pc(regs) == memaddr && IsWord(regs.ccr)
    ensures var op, r := BBranch(aa, lk), Assemble(memaddr, BBranch(aa, lk), [bo, bi, number]);
            && r.Instr? && Matches(op, r.word) && FiveBitConditions(op)
            && NextAddress(op, r.word, regs, false) ==
               Some(if CodeTakes(bo, bi, regs) then PrintedAddress(op, r.word, OPERAND_BD, memaddr) else Wrap(memaddr + 4))
            && NextAddress(op, r.word, regs, true) ==
               (if lk == 1 then Some(Wrap(memaddr + 4)) else NextAddress(op, r.word, regs, false))
            && (PrintedAddress(op, r.word, OPERAND_BD, memaddr) == Wrap(number) <==>
                Reaches(Signed(number - if aa == 0 then memaddr else 0), 14))
  {
    hide ToBits, BranchWord, Extract, Matches, Signed, Reaches, DisjointFields, FormOf, GetOperandValue, Pow2, CodeTakes;
    hide NextAddress, PrintedAddress, Displacement, SignExtended, Packed, Wrap, Pc;
    var op, numbers := BBranch(aa, lk), [bo, bi, number];
    var r := Assemble(memaddr, op, numbers);
    BranchesDisjoint(aa, lk);
    BAssembles(memaddr, op, bo, bi, number);
    AssembledMatches(memaddr, op, numbers);
    AssembledExtracts(memaddr, op, numbers, 0);
    AssembledExtracts(memaddr, op, numbers, 1);
    AssembledExtracts(memaddr, op, numbers, 2);
    BSteps(aa, lk, r.word, regs);
    Prints(op, r.word, OPERAND_BD, memaddr);
    FieldTarget(memaddr, op.relative, number, 14);
  }

  lemma BAssembles(memaddr: u32, op: Opcode, bo: nat, bi: nat, number: int)
    requires ValidOpcode(op) && op.fields == [OPERAND_BO, OPERAND_BI, OPERAND_BD, OPERAND_AA, OPERAND_LK]
    requires bo < 32 && bi < 32
    ensures Assemble(memaddr, op, [bo, bi, number]).Instr?
    ensures WordsBefore(op.fields, 0, 0) == 0 && WordsBefore(op.fields, 0, 1) == 1 && WordsBefore(op.fields, 0, 2) == 2
    ensures ParseOperand(memaddr, op, OPERAND_BO, bo) == Value(bo) && ParseOperand(memaddr, op, OPERAND_BI, bi) == Value(bi)
    ensures ParseOperand(memaddr, op, OPERAND_BD, number) ==
            Value(Packed(Signed(number - if op.relative then memaddr else 0), 14))
  {
    assert Pow2(5) == 32;
    var v := ParseOperand(memaddr, op, OPERAND_BD, number).v;
    assert ParseOperand(memaddr, op, OPERAND_BO, bo) == Value(bo) && ParseOperand(memaddr, op, OPERAND_BI, bi) == Value(bi);
    hide ParseOperand, ToBits, Pow2;
    var w1 := Put(op.opcode, bo, 21, 5);
    var w2 := Put(w1, bi, 16, 5);
    var w := Put(w2, v, 2, 14);
    assert AssembleFrom(memaddr, op, 5, [], w) == Instr(w);
    assert AssembleFrom(memaddr, op, 3, [], w) == Instr(w);
    assert [bo, bi, number][1..] == [bi, number] && [bi, number][1..] == [number] && [number][1..] == [];
    assert AssembleFrom(memaddr, op, 2, [number], w2) == Instr(w);
    assert AssembleFrom(memaddr, op, 1, [bi, number], w1) == Instr(w);
    assert WordsBefore(op.fields, 1, 2) == 1;
  }

  // ----- branches to CTR and LR --------------------------------------------------------------------

  // bclr, bclrl and bcctr, bcctrl
  function XlBranch(xo: nat, lk: nat): (op: Opcode)
    ensures ValidOpcode(op)
  {
    Opcode(XlWord(19, xo, lk), XlWord(0x3F, 0x3FF, 1), [OPERAND_BO, OPERAND_BI, OPERAND_LK], false)
  }

  lemma XlMiddleClear(primary: nat, xo: nat, lk: nat)
    ensures forall i :: 11 <= i < 26 ==> !XlWord(primary, xo, lk)[i]
  {
    hide ToBits;
  }

  lemma XlDisjoint(xo: nat, lk: nat)
    ensures DisjointFields(XlBranch(xo, lk))
  {
    hide XlWord;
    XlMiddleClear(19, xo, lk);
    XlMiddleClear(0x3F, 0x3FF, 1);
  }

  lemma XlBits(primary: nat, xo: nat, lk: nat)
    requires lk < 2
    ensures var w := XlWord(primary, xo, lk);
            && w[0] == (lk == 1) && w[10] == ToBits(xo, 10)[9] && w[26] == ToBits(primary, 6)[0]
  {
    assert ToBits(lk, 1) == [lk == 1];
    hide ToBits;
  }

  lemma BranchBit26(primary: nat, aa: nat, lk: nat)
    ensures BranchWord(primary, aa, lk)[26] == ToBits(primary, 6)[0]
  {
    hide ToBits;
  }

  // v shifted down by i bits
  function Shifted(v: nat, i: nat): nat {
    if i == 0 then v else Shifted(v / 2, i - 1)
  }

  lemma {:induction false} BitOf(v: nat, n: nat, i: nat)
    requires i < n
    ensures ToBits(v, n)[i] == (Shifted(v, i) % 2 == 1)
  {
    if i > 0 {
      BitOf(v / 2, n - 1, i - 1);
    }
  }

  lemma TenthBits()
    ensures ToBits(528, 10)[9] && !ToBits(16, 10)[9]
    ensures ToBits(19, 6)[0] && !ToBits(16, 6)[0] && !ToBits(18, 6)[0]
  {
    BitOf(528, 10, 9);
    BitOf(16, 10, 9);
    assert Shifted(528, 9) == Shifted(264, 8) == Shifted(132, 7) == Shifted(66, 6) == Shifted(33, 5) == Shifted(16, 4);
    assert Shifted(16, 9) == Shifted(8, 8) == Shifted(4, 7) == Shifted(2, 6) == Shifted(1, 5) == Shifted(0, 4);
    assert Shifted(16, 4) == Shifted(8, 3) == Shifted(4, 2) == 1 && Shifted(0, 4) == Shifted(0, 3) == Shifted(0, 2) == 0;
  }

  // The words of bc and b differ from those of XL instructions with opcode 19.
  lemma NotBranchWord(w: seq<bool>, aa: nat, lk: nat)
    requires IsWord(w) && w[26]
    ensures w != BranchWord(16, aa, lk) && w != BranchWord(18, aa, lk)
  {
    hide ToBits, BranchWord;
    TenthBits();
    BranchBit26(16, aa, lk);
    BranchBit26(18, aa, lk);
  }

  lemma XlForms(lk: nat)
    requires lk < 2
    ensures FormOf(XlWord(19, 528, lk)) == CtrForm && FormOf(XlWord(19, 16, lk)) == LrForm
  {
    hide ToBits, BranchWord, XlWord;
    TenthBits();
    XlBits(19, 528, lk);
    XlBits(19, 16, lk);
    XlBits(19, 528, 0);
    XlBits(19, 528, 1);
    forall w | w in {XlWord(19, 528, lk), XlWord(19, 16, lk)}
      ensures !FormOf(w).BForm? && !FormOf(w).IForm?
    {
      NotBranchWord(w, 0, 0);
      NotBranchWord(w, 0, 1);
      NotBranchWord(w, 1, 0);
      NotBranchWord(w, 1, 1);
    }
  }

  lemma XlLink(xo: nat, lk: nat, instr: seq<bool>)
    requires lk < 2 && IsWord(instr) && Matches(XlBranch(xo, lk), instr)
    ensures Extract(instr, 0, 1) == lk
  {
    hide ToBits, XlWord, Extract;
    XlBits(19, xo, lk);
    XlBits(0x3F, 0x3FF, 1);
    OneBit(instr, 0);
    assert XlBranch(xo, lk).mask[0];
  }

  lemma XlOperands(xo: nat, lk: nat, instr: seq<bool>)
    requires (xo == 528 || xo == 16) && lk < 2 && IsWord(instr) && Matches(XlBranch(xo, lk), instr)
    ensures var op := XlBranch(xo, lk);
            && GetOperandValue(op, instr, BO, 0) == Some(Extract(instr, 21, 5))
            && GetOperandValue(op, instr, BI, 0) == Some(Extract(instr, 16, 5))
            && GetOperandValue(op, instr, LK, 0) == Some(lk) && GetOperandValue(op, instr, AA, 0) == None
            && FormOf(op.opcode) == (if xo == 528 then CtrForm else LrForm) && FiveBitConditions(op)
  {
    hide Extract, XlWord, FormOf, GetOperandValue, Matches;
    var op := XlBranch(xo, lk);
    XlForms(lk);
    XlLink(xo, lk, instr);
    assert op.fields == [OPERAND_BO, OPERAND_BI, OPERAND_LK] && FiveBitConditions(op);
    hide XlBranch, FiveBitConditions, IsWord;
    Found(op, instr, 0, 0);
    Found(op, instr, 0, 1);
    Found(op, instr, 0, 2);
    NotFound(op, instr, AA, 0);
  }

  lemma NotFound(op: Opcode, instr: seq<bool>, field: Field, k: nat)
    requires ValidOpcode(op) && IsWord(instr) && k <= |op.fields|
    requires forall j :: k <= j < |op.fields| ==> op.fields[j].field != field
    ensures GetOperandValue(op, instr, field, k) == None
    decreases |op.fields| - k
  {
    if k < |op.fields| {
      NotFound(op, instr, field, k + 1);
    }
  }

  lemma XlSteps(xo: nat, lk: nat, instr: seq<bool>, regs: Regs)
    requires (xo == 528 || xo == 16) && lk < 2 && IsWord(instr) && Matches(XlBranch(xo, lk), instr) && IsWord(regs.ccr)
    requires Extract(instr, 21, 5) < 32 && Extract(instr, 16, 5) < 32
    ensures var op, target := XlBranch(xo, lk), if xo == 528 then regs.ctr else regs.link;
            var takes := CodeTakes(Extract(instr, 21, 5), Extract(instr, 16, 5), regs);
            && FiveBitConditions(op)
            && NextAddress(op, instr, regs, false) == Some(if takes then target else Wrap(Pc(regs) + 4))
            && NextAddress(op, instr, regs, true) == Some(if takes && lk == 0 then target else Wrap(Pc(regs) + 4))
  {
    hide Extract, XlWord, FormOf, Matches, GetOperandValue, Pc, CodeTakes;
    XlOperands(xo, lk, instr);
  }

  lemma XlAssembles(memaddr: u32, op: Opcode, bo: nat, bi: nat)
    requires ValidOpcode(op) && op.fields == [OPERAND_BO, OPERAND_BI, OPERAND_LK] && bo < 32 && bi < 32
    ensures Assemble(memaddr, op, [bo, bi]).Instr?
    ensures WordsBefore(op.fields, 0, 0) == 0 && WordsBefore(op.fields, 0, 1) == 1
    ensures ParseOperand(memaddr, op, OPERAND_BO, bo) == Value(bo) && ParseOperand(memaddr, op, OPERAND_BI, bi) == Value(bi)
  {
    assert Pow2(5) == 32;
    assert ParseOperand(memaddr, op, OPERAND_BO, bo) == Value(bo) && ParseOperand(memaddr, op, OPERAND_BI, bi) == Value(bi);
    hide ParseOperand, ToBits, Pow2;
    var w1 := Put(op.opcode, bo, 21, 5);
    var w := Put(w1, bi, 16, 5);
    assert AssembleFrom(memaddr, op, 3, [], w) == Instr(w);
    assert AssembleFrom(memaddr, op, 2, [], w) == Instr(w);
    assert [bo, bi][1..] == [bi] && [bi][1..] == [];
    assert AssembleFrom(memaddr, op, 1, [bi], w1) == Instr(w);
  }

  // bcctr and bclr, with and without link: where the condition is met the next address is that in
  // CTR or LR, or the one behind the call when calls are stepped over.
  lemma RegisterBranchSteps(memaddr: u32, xo: nat, lk: nat, bo: nat, bi: nat, regs: Regs)
    requires (xo == 528 || xo == 16) && lk < 2 && bo < 32 && bi < 32 && Pc(regs) == memaddr && IsWord(regs.ccr)
    ensures var op, r := XlBranch(xo, lk), Assemble(memaddr, XlBranch(xo, lk), [bo, bi]);
            var target := if xo == 528 then regs.ctr else regs.link;
            && r.Instr? && Matches(op, r.word) && FiveBitConditions(op)
            && NextAddress(op, r.word, regs, false) == Some(if CodeTakes(bo, bi, regs) then target else Wrap(memaddr + 4))
            && NextAddress(op, r.word, regs, true) ==
               Some(if CodeTakes(bo, bi, regs) && lk == 0 then target else Wrap(memaddr + 4))
  {
    hide ToBits, XlWord, Extract, Matches, DisjointFields, FormOf, GetOperandValue, Pow2, CodeTakes, NextAddress, Wrap, Pc;
    var op, numbers := XlBranch(xo, lk), [bo, bi];
    var r := Assemble(memaddr, op, numbers);
    XlDisjoint(xo, lk);
    XlAssembles(memaddr, op, bo, bi);
    AssembledMatches(memaddr, op, numbers);
    AssembledExtracts(memaddr, op, numbers, 0);
    AssembledExtracts(memaddr, op, numbers, 1);
    XlSteps(xo, lk, r.word, regs);
  }

  // Any other instruction is followed by the next one.
  lemma OtherSteps(op: Opcode, instr: seq<bool>, regs: Regs, stepOver: bool)
    requires ValidOpcode(op) && IsWord(instr) && FiveBitConditions(op) && IsWord(regs.ccr) && FormOf(op.opcode).NoBranch?
    ensures NextAddress(op, instr, regs, stepOver) == Some(Wrap(regs.nip / 4 * 4 + 4))
  {
    hide FormOf, Decoded, Wrap;
    assert Pc(regs) == regs.nip / 4 * 4;
  }
}
