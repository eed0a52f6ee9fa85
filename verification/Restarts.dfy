/** When the pending load is committed early, by an exception or by an interrupt, and the instruction then runs:
    exactly when a program can tell. */
module Restarts {
  import opened Bytes
  import opened BitOps
  import opened Translation
  import opened Instructions
  import opened MachineSemantics

  /** The registers that a program can tell apart: all but the bad address, and the value of a load into nothing. */
  ghost predicate SameRegisters(a: Registers, b: Registers) {
    (forall k :: 0 <= k < 38 ==> a[k] == b[k]) && (a[37] != 0 ==> a[38] == b[38])
  }

  ghost predicate SameResult(a: StepResult, b: StepResult) {
    match (a, b)
    case (Retired(r, mem), Retired(s, mem')) => SameRegisters(r, s) && mem == mem'
    case (Raised(e, r, mem), Raised(e', s, mem')) => e == e' && SameRegisters(r, s) && mem == mem'
    case (Stopped, Stopped) => true
    case _ => false
  }

  /** Whether an instruction's effect depends on the register in field rs. */
  predicate ReadsRs(i: Instruction) {
    match i.opCode
    case ADD | ADDU | SUB | SUBU | AND | OR | XOR | NOR | SLT | SLTU | SLLV | SRAV | SRLV | MULT | MULTU | DIV | DIVU
       | ADDI | ADDIU | ANDI | ORI | XORI | SLTI | SLTIU | MTHI | MTLO | BEQ | BNE | BGEZ | BGTZ | BLEZ | BLTZ | JR
       | LB | LBU | LH | LHU | LW | LWL | LWR | SB | SH | SW | SWL | SWR => true
    case BGEZAL | BLTZAL => i.rs != 31
    case JALR => i.rs != i.rd
    case _ => false
  }

  /** Whether it depends on the register in field rt. LWR does not: it takes a load pending for rt into account. */
  predicate ReadsRt(i: Instruction) {
    match i.opCode
    case ADD | ADDU | SUB | SUBU | AND | OR | XOR | NOR | SLT | SLTU | SLLV | SRAV | SRLV | MULT | MULTU | DIV | DIVU
       | SLL | SRA | SRL | BEQ | BNE | SB | SH | SW | SWL | SWR => true
    case _ => false
  }

  /** The general register it writes before the pending load is committed; 0 if none. */
  function Dest(i: Instruction): Reg {
    match i.opCode
    case ADD | ADDU | SUB | SUBU | AND | OR | XOR | NOR | SLT | SLTU | SLL | SLLV | SRA | SRAV | SRL | SRLV
       | MFHI | MFLO | JALR => i.rd
    case ADDI | ADDIU | ANDI | ORI | XORI | SLTI | SLTIU | LUI => i.rt
    case BGEZAL | BLTZAL | JAL => 31
    case _ => 0
  }

  predicate ReadsReg(i: Instruction, p: Reg) {
    (ReadsRs(i) && p == i.rs) || (ReadsRt(i) && p == i.rt)
  }

  predicate Touches(i: Instruction, p: Reg) {
    p != 0 && (ReadsReg(i, p) || p == Dest(i))
  }

  lemma Targets(i: Instruction, o: Operands)
    ensures Meaning(i, o).Next? ==> Meaning(i, o).dest == Dest(i) || Meaning(i, o).dest == 0 == Dest(i)
    ensures Meaning(i, o).Load? ==> Meaning(i, o).target == i.rt
  {
    hide ShiftLeft, ShiftRightArithmetic, ShiftRightLogical, And, Or, Xor, Not, Wrap, Quotient, Remainder, Divide,
         Modulo,
         JumpTo, Advance, InRange, ToUnsigned, Amount, Low16, Boolean, Linked;
  }

  /** Operands that differ only in registers not read. */
  predicate Alike(i: Instruction, o: Operands, o2: Operands) {
    && (ReadsRs(i) ==> o.a == o2.a) && (ReadsRt(i) ==> o.b == o2.b)
    && o.hi == o2.hi && o.lo == o2.lo && o.nextPC == o2.nextPC
  }

  /** What is read is enough: nothing else enters an instruction's meaning. */
  lemma ReadsSuffice(i: Instruction, o: Operands, o2: Operands)
    requires Alike(i, o, o2)
    ensures Meaning(i, o) == Meaning(i, o2)
  {
    hide ShiftLeft, ShiftRightArithmetic, ShiftRightLogical, And, Or, Xor, Not, Wrap, Quotient, Remainder, Divide,
         Modulo,
         Advance, InRange, ToUnsigned, Amount, Low16, Boolean;
    match i.opCode
    case ADD | ADDU | SUB | SUBU | AND | OR | XOR | NOR | SLT | SLTU | SLLV | SRAV | SRLV | MULT | MULTU | DIV | DIVU
       | BEQ | BNE | SB | SH | SW | SWL | SWR =>
      assert o == o2;
    case ADDI | ADDIU | ANDI | ORI | XORI | SLTI | SLTIU | MTHI | MTLO | BGEZ | BGTZ | BLEZ | BLTZ | JR =>
    case LB | LBU | LH | LHU | LW | LWL | LWR =>
    case SLL | SRA | SRL =>
    case BGEZAL | BLTZAL =>
    case JALR =>
    case _ =>
  }

  /** r2 is r with its pending load committed. */
  ghost predicate Committed(r: Registers, r2: Registers) {
    && Sound(r) && r2[37] == 0 && r2[38] == 0
    && forall k :: 0 <= k < 37 ==> r2[k] == if k == r[37] && k != 0 then r[38] else r[k]
  }

  /** What a trap leaves is such a state, and so is what an interrupt leaves that fires in user mode. */
  lemma TrapsCommit(r: Registers, bad: int32)
    requires Sound(r)
    ensures Committed(r, Trapped(r, bad)) && Committed(r, DelayedLoad(r, 0, 0))
  {
  }

  lemma CommittedLater(r: Registers, r2: Registers, pcAfter: int32, next: int32, v: int32, v2: int32)
    requires Committed(r, r2) && (next != 0 ==> v == v2)
    ensures SameRegisters(Retire(r2, pcAfter, next, v2), Retire(r, pcAfter, next, v))
  {
  }

  lemma CommittedTrap(r: Registers, r2: Registers, bad: int32)
    requires Committed(r, r2)
    ensures SameRegisters(Trapped(r2, bad), Trapped(r, bad))
  {
  }

  /** Two meanings that a program cannot tell apart, the first running straight on with a load of x into p pending. */
  predicate Agree(a: Result, b: Result, p: int, x: int32) {
    match (a, b)
    case (Next(d, v, hi, lo, pc), Next(d2, v2, hi2, lo2, pc2)) =>
      && d == d2 && hi == hi2 && lo == lo2 && pc == pc2
      && (d == 0 || if d == p then v2 == x else v == v2)
    case _ => a == b
  }

  lemma CommittedNext(r: Registers, r2: Registers, a: Result, b: Result)
    requires Committed(r, r2) && a.Next? && b.Next? && a.dest == b.dest
    ensures SameRegisters(Retire(Written(r2, b.dest, b.value, b.hi, b.lo), b.pcAfter, 0, 0),
                          Retire(Written(r, a.dest, a.value, a.hi, a.lo), a.pcAfter, 0, 0))
       <==> Agree(a, b, r[37], r[38])
  {
    var s := Retire(Written(r, a.dest, a.value, a.hi, a.lo), a.pcAfter, 0, 0);
    var s2 := Retire(Written(r2, b.dest, b.value, b.hi, b.lo), b.pcAfter, 0, 0);
    assert s[32] == a.hi && s2[32] == b.hi && s[33] == a.lo && s2[33] == b.lo && s[35] == a.pcAfter
        && s2[35] == b.pcAfter;
    if a.dest != 0 {
      assert s2[a.dest] == b.value && s[a.dest] == if a.dest == r[37] then r[38] else a.value;
    }
  }

  /** Meanings that agree come to the same. */
  lemma AgreeingRuns(m: Mmu, mem: Memory, r: Registers, r2: Registers, i: Instruction)
    requires Committed(r, r2) && Agree(Meaning(i, OperandsOf(i, r)), Meaning(i, OperandsOf(i, r2)), r[37], r[38])
    ensures SameResult(Execute(m, mem, r2, i), Execute(m, mem, r, i))
  {
    hide Meaning, Resolve, Fetch, Retire, Written, Stored, SameRegisters;
    var a, b := Meaning(i, OperandsOf(i, r)), Meaning(i, OperandsOf(i, r2));
    match a
    case Stop =>
    case Trap(e) =>
      CommittedTrap(r, r2, 0);
    case Next(dest, value, hi, lo, pcAfter) =>
      CommittedNext(r, r2, a, b);
    case Load(kind, addr, target) =>
      CommittedTrap(r, r2, addr);
      var t := Resolve(m, addr, kind.Size(), false);
      if t.Physical? {
        var word := Fetch(mem, t.address, kind.Size());
        CommittedLater(r, r2, Advance(r[35]), target, kind.Value(word, if r[37] == target then r[38] else r[target]),
                       kind.Value(word, if r2[37] == target then r2[38] else r2[target]));
      }
    case Store(kind, addr, v) =>
      CommittedTrap(r, r2, addr);
      CommittedLater(r, r2, Advance(r[35]), 0, 0, 0);
  }

  /** Meanings that do not agree, where memory plays no part, do not. */
  lemma DisagreeingRuns(m: Mmu, mem: Memory, r: Registers, r2: Registers, i: Instruction)
    requires Committed(r, r2)
    requires Disagree(Meaning(i, OperandsOf(i, r)), Meaning(i, OperandsOf(i, r2)), r[37], r[38])
    ensures !SameResult(Execute(m, mem, r2, i), Execute(m, mem, r, i))
  {
    hide Meaning, Resolve, Fetch, Retire, Written, SameRegisters, Trapped;
    var a, b := Meaning(i, OperandsOf(i, r)), Meaning(i, OperandsOf(i, r2));
    Targets(i, OperandsOf(i, r));
    Targets(i, OperandsOf(i, r2));
    if a.Next? && b.Next? {
      CommittedNext(r, r2, a, b);
    }
  }

  predicate Disagree(a: Result, b: Result, p: int, x: int32) {
    !a.Load? && !a.Store? && !b.Load? && !b.Store? && !Agree(a, b, p, x)
  }

  /** Running with the pending load committed comes to the same as running straight on, whatever the handler did to
      the translation, if the instruction neither reads the load's register nor writes it at once. */
  lemma RestartIsTransparent(m: Mmu, mem: Memory, r: Registers, r2: Registers, i: Instruction)
    requires Committed(r, r2) && !Touches(i, r[37])
    ensures SameResult(Execute(m, mem, r2, i), Execute(m, mem, r, i))
  {
    hide Meaning, Execute, SameResult, ReadsRs, ReadsRt, Dest;
    ReadsSuffice(i, OperandsOf(i, r), OperandsOf(i, r2));
    Targets(i, OperandsOf(i, r));
    AgreeingRuns(m, mem, r, r2, i);
  }

  // ---- Forms that take back what they read ----

  /** Register p is one of two operands, and the other is register 0. */
  predicate WithZero(i: Instruction, p: Reg) {
    i.rs != i.rt && (if p == i.rs then i.rt else i.rs) == 0
  }

  /** The instruction reads p, but what it comes to does not depend on it, or is just the value loaded: register 0 as
      result or as the other operand, one register as both operands, an immediate that changes nothing, a branch
      to where the program goes anyway, a store to a misaligned constant address. */
  predicate Cancels(i: Instruction, p: Reg) {
    var nowhere, own, twice := Dest(i) == 0, Dest(i) == p, i.rs == i.rt;
    && ReadsReg(i, p)
    && match i.opCode
       case ADD => WithZero(i, p) && (nowhere || own)
       case ADDU => nowhere || (own && WithZero(i, p))
       case SUB => if twice then !own else p == i.rs && i.rt == 0 && (nowhere || own)
       case SUBU => if twice then !own else nowhere || (own && p == i.rs && i.rt == 0)
       case ADDI => i.extra == 0 && (nowhere || own)
       case ADDIU => nowhere || (own && i.extra == 0)
       case AND => nowhere || (if twice then own else !own && WithZero(i, p))
       case OR => nowhere || (own && (twice || WithZero(i, p)))
       case XOR => nowhere || (if twice then !own else own && WithZero(i, p))
       case NOR => nowhere
       case ANDI => nowhere || (!own && i.extra == 0)
       case ORI | XORI => nowhere || (own && i.extra == 0)
       case SLT => nowhere || (twice && !own)
       case SLTU => nowhere || (!own && (twice || (p == i.rs && i.rt == 0)))
       case SLTI => nowhere
       case SLTIU => nowhere || (!own && i.extra == 0)
       case SLL | SRA | SRL => nowhere || (own && i.extra == 0)
       case SLLV | SRAV | SRLV => nowhere || (WithZero(i, p) && (if p == i.rs then !own else own))
       case MULT | MULTU | DIV | DIVU => WithZero(i, p)
       case BEQ | BNE => twice || i.extra == 1
       case BGEZ | BGTZ | BLEZ | BLTZ | BGEZAL | BLTZAL => i.extra == 1
       case SH => p == i.rt && i.rs == 0 && i.extra % 2 != 0
       case SW | SWL | SWR => p == i.rt && i.rs == 0 && i.extra % 4 != 0
       case _ => false
  }

  /** Operands before and after a load of x into p is committed. */
  predicate AroundLoad(i: Instruction, p: Reg, x: int32, o: Operands, o2: Operands) {
    && (if i.rs == p then o2.a == x else o2.a == o.a) && (if i.rt == p then o2.b == x else o2.b == o.b)
    && (i.rs == 0 ==> o.a == 0) && (i.rt == 0 ==> o.b == 0) && (i.rs == i.rt ==> o.a == o.b)
    && o.hi == o2.hi && o.lo == o2.lo && o.nextPC == o2.nextPC
  }

  lemma CancelsInSums(i: Instruction, p: Reg, x: int32, o: Operands, o2: Operands)
    requires p != 0 && Cancels(i, p) && AroundLoad(i, p, x, o, o2) && i.opCode in {ADD, ADDI, ADDIU, ADDU, SUB, SUBU}
    ensures Agree(Meaning(i, o), Meaning(i, o2), p, x)
  {
    hide And, Or, Xor, Not, Quotient, Remainder, Divide, Modulo, ShiftLeft, ShiftRightArithmetic, ShiftRightLogical,
         Wrap, Advance;
    WrapFits(x);
    WrapFits(0);
  }

  lemma WrapFits(x: int32)
    ensures Wrap(x) == x
  {
  }

  lemma CancelsInTests(i: Instruction, p: Reg, x: int32, o: Operands, o2: Operands)
    requires p != 0 && Cancels(i, p) && AroundLoad(i, p, x, o, o2) && i.opCode in {SLT, SLTI, SLTIU, SLTU}
    ensures Agree(Meaning(i, o), Meaning(i, o2), p, x)
  {
    hide And, Or, Xor, Not, Quotient, Remainder, Divide, Modulo, ShiftLeft, ShiftRightArithmetic, ShiftRightLogical,
         Wrap, Advance;
  }

  lemma CancelsInBits(i: Instruction, p: Reg, x: int32, o: Operands, o2: Operands)
    requires p != 0 && Cancels(i, p) && AroundLoad(i, p, x, o, o2)
    requires i.opCode in {AND, ANDI, OR, ORI, XOR, XORI, NOR}
    ensures Agree(Meaning(i, o), Meaning(i, o2), p, x)
  {
    hide And, Or, Xor, Not, Quotient, Remainder, Divide, Modulo, ShiftLeft, ShiftRightArithmetic, ShiftRightLogical,
         Wrap, Advance;
    ZeroOrItself(o.a);
    ZeroOrItself(o.b);
    ZeroOrItself(x);
  }

  lemma ZeroOrItself(y: int32)
    ensures And(0, y) == 0 == And(y, 0) && Or(0, y) == y == Or(y, 0) && Xor(0, y) == y == Xor(y, 0)
    ensures And(y, y) == y == Or(y, y) && Xor(y, y) == 0 && Low16(0) == 0
  {
    hide Combine;
    CombineCommutes(AndGate, y, 0);
    CombineCommutes(OrGate, y, 0);
    CombineCommutes(XorGate, y, 0);
    ConstantWords(y);
    CombineSelf(y);
  }

  lemma CancelsInShifts(i: Instruction, p: Reg, x: int32, o: Operands, o2: Operands)
    requires p != 0 && Cancels(i, p) && AroundLoad(i, p, x, o, o2)
    requires i.opCode in {SLL, SLLV, SRA, SRAV, SRL, SRLV}
    ensures Agree(Meaning(i, o), Meaning(i, o2), p, x)
  {
    hide And, Or, Xor, Not, Quotient, Remainder, Divide, Modulo, ShiftLeft, ShiftRightArithmetic, ShiftRightLogical,
         Wrap, Advance, Amount;
    ShiftsByNothing(x);
    NoAmount();
    if i.rt == 0 {
      ShiftedZero(Amount(o.a));
      ShiftedZero(Amount(o2.a));
    }
  }

  lemma NoAmount()
    ensures Amount(0) == 0
  {
  }

  lemma ShiftedZero(k: nat)
    ensures ShiftLeft(0, k) == 0 && ShiftRightArithmetic(0, k) == 0 && ShiftRightLogical(0, k) == 0
  {
    ShiftsOfZero(k);
  }

  lemma NoProduct(i: Instruction, o: Operands)
    requires i.opCode in {MULT, MULTU} && (o.a == 0 || o.b == 0)
    ensures Meaning(i, o) == SetHiLo(o, Wrap(0), Wrap(0))
  {
    hide Wrap, Advance;
    TimesZero(o.a, o.b);
    TimesZero(ToUnsigned(o.a), ToUnsigned(o.b));
  }

  lemma TimesZero(x: int, y: int)
    ensures x == 0 || y == 0 ==> x * y == 0
  {
  }

  lemma CancelsInHiLo(i: Instruction, p: Reg, x: int32, o: Operands, o2: Operands)
    requires p != 0 && Cancels(i, p) && AroundLoad(i, p, x, o, o2) && i.opCode in {MULT, MULTU}
    ensures Agree(Meaning(i, o), Meaning(i, o2), p, x)
  {
    hide Meaning, Wrap, Advance;
    NoProduct(i, o);
    NoProduct(i, o2);
  }

  lemma CancelsInDivision(i: Instruction, p: Reg, x: int32, o: Operands, o2: Operands)
    requires p != 0 && Cancels(i, p) && AroundLoad(i, p, x, o, o2) && i.opCode in {DIV, DIVU}
    ensures Agree(Meaning(i, o), Meaning(i, o2), p, x)
  {
    hide And, Or, Xor, Not, Quotient, Remainder, Divide, Modulo, ShiftLeft, ShiftRightArithmetic, ShiftRightLogical,
         Wrap, Advance;
    if i.rs == 0 {
      NoughtDivided(o.b);
      NoughtDivided(o2.b);
    }
  }

  lemma NoughtDivided(y: int32)
    ensures y != 0 ==> Quotient(0, y) == 0 == Remainder(0, y)
    ensures y != 0 ==> Divide(0, ToUnsigned(y)) == 0 == Modulo(0, ToUnsigned(y))
  {
    if y != 0 {
      NoughtOver(Abs(y));
      NoughtOver(ToUnsigned(y));
    }
  }

  lemma NoughtOver(y: nat)
    requires y > 0
    ensures Divide(0, y) == 0 == Modulo(0, y)
  {
  }

  lemma CancelsInBranches(i: Instruction, p: Reg, x: int32, o: Operands, o2: Operands)
    requires p != 0 && Cancels(i, p) && AroundLoad(i, p, x, o, o2)
    requires i.opCode in {BEQ, BNE, BGEZ, BGTZ, BLEZ, BLTZ, BGEZAL, BLTZAL}
    ensures Agree(Meaning(i, o), Meaning(i, o2), p, x)
  {
    hide And, Or, Xor, Not, Quotient, Remainder, Divide, Modulo, ShiftLeft, ShiftRightArithmetic, ShiftRightLogical,
         Wrap;
  }

  lemma Misaligned(m: Mmu, e: int32, size: int, writing: bool)
    requires IsSize(size) && e % size != 0
    ensures Resolve(m, Wrap(e), size, writing) == Fault(AddressError) && (size == 4 ==> Wrap(e) % 4 != 0)
  {
    hide LookUp;
    assert Wrap(e) == e;
  }

  lemma ConstantStores(i: Instruction, o: Operands)
    requires i.opCode in {SH, SW, SWL, SWR} && o.a == 0
    requires i.opCode in {SWL, SWR} ==> Wrap(i.extra) % 4 != 0
    ensures match i.opCode
            case SH => Meaning(i, o) == Store(StoreHalf, Wrap(i.extra), o.b)
            case SW => Meaning(i, o) == Store(StoreWord, Wrap(i.extra), o.b)
            case _ => Meaning(i, o) == Stop
  {
    hide Wrap;
  }

  /** A store to a constant address that is misaligned fails, whatever is to be stored. */
  lemma CancelsInStores(m: Mmu, mem: Memory, r: Registers, r2: Registers, i: Instruction)
    requires Committed(r, r2) && r[37] != 0 && Cancels(i, r[37]) && i.opCode in {SH, SW, SWL, SWR}
    ensures SameResult(Execute(m, mem, r2, i), Execute(m, mem, r, i))
  {
    hide Meaning, Fetch, Stored, Retire, Trapped, LookUp, SameRegisters, Resolve, Wrap;
    assert r[0] == 0 == r2[0];
    Misaligned(m, i.extra, if i.opCode == SH then 2 else 4, true);
    ConstantStores(i, OperandsOf(i, r));
    ConstantStores(i, OperandsOf(i, r2));
    CommittedTrap(r, r2, Wrap(i.extra));
  }

  /** Running with the pending load committed comes to the same, too, when the instruction takes back what it
      reads. */
  lemma CancelledIsTransparent(m: Mmu, mem: Memory, r: Registers, r2: Registers, i: Instruction)
    requires Committed(r, r2) && r[37] != 0 && Cancels(i, r[37])
    ensures SameResult(Execute(m, mem, r2, i), Execute(m, mem, r, i))
  {
    hide Meaning, Execute, SameResult, Agree;
    var p, x, o, o2 := r[37], r[38], OperandsOf(i, r), OperandsOf(i, r2);
    assert AroundLoad(i, p, x, o, o2);
    match i.opCode
    case SH | SW | SWL | SWR => CancelsInStores(m, mem, r, r2, i);
    case ADD | ADDI | ADDIU | ADDU | SUB | SUBU =>
      CancelsInSums(i, p, x, o, o2);
      AgreeingRuns(m, mem, r, r2, i);
    case SLT | SLTI | SLTIU | SLTU =>
      CancelsInTests(i, p, x, o, o2);
      AgreeingRuns(m, mem, r, r2, i);
    case AND | ANDI | OR | ORI | XOR | XORI | NOR =>
      CancelsInBits(i, p, x, o, o2);
      AgreeingRuns(m, mem, r, r2, i);
    case SLL | SLLV | SRA | SRAV | SRL | SRLV =>
      CancelsInShifts(i, p, x, o, o2);
      AgreeingRuns(m, mem, r, r2, i);
    case MULT | MULTU =>
      CancelsInHiLo(i, p, x, o, o2);
      AgreeingRuns(m, mem, r, r2, i);
    case DIV | DIVU =>
      CancelsInDivision(i, p, x, o, o2);
      AgreeingRuns(m, mem, r, r2, i);
    case BEQ | BNE | BGEZ | BGTZ | BLEZ | BLTZ | BGEZAL | BLTZAL =>
      CancelsInBranches(i, p, x, o, o2);
      AgreeingRuns(m, mem, r, r2, i);
    case _ =>
  }
}
