/** One step of the simulated processor as a function of registers, memory and translation, and what every
    step keeps. */
module MachineSemantics {
  import opened Bytes
  import opened BitOps
  import opened Multiplication
  import opened Translation
  import opened Instructions

  type Registers = r: seq<int32> | |r| == 40 witness seq(40, _ => 0)

  const R31 := 31
  const HiReg := 32
  const LoReg := 33
  const PCReg := 34
  const NextPCReg := 35
  const PrevPCReg := 36
  const LoadReg := 37
  const LoadValueReg := 38
  const BadVAddrReg := 39

  predicate InRange(x: int) {
    -0x8000_0000 <= x < 0x8000_0000
  }

  function Divide(x: nat, y: nat): nat
    requires y > 0
  {
    x / y
  }

  function Modulo(x: nat, y: nat): nat
    requires y > 0
  {
    x % y
  }

  /** C division truncates toward zero. */
  function Quotient(a: int, b: int): int
    requires b != 0
  {
    var q: int := Divide(Abs(a), Abs(b));
    if (a < 0) == (b < 0) then q else -q
  }

  function Remainder(a: int, b: int): int
    requires b != 0
  {
    var m: int := Modulo(Abs(a), Abs(b));
    if a < 0 then -m else m
  }

  /** How a loaded value is made from the bytes read. */
  datatype LoadKind = SignedByte | UnsignedByte | SignedHalf | UnsignedHalf | FullWord | RightWord {
    function Size(): (s: nat)
      ensures IsSize(s)
    {
      if SignedByte? || UnsignedByte? then 1 else if SignedHalf? || UnsignedHalf? then 2 else 4
    }

    /** v is the unsigned number read; kept is what the register held. */
    function Value(v: uint32, kept: int32): int32 {
      match this
      case SignedByte => var b := v % 0x100; if b >= 0x80 then b - 0x100 else b
      case UnsignedByte => v % 0x100
      case SignedHalf => var h := v % 0x1_0000; if h >= 0x8000 then h - 0x1_0000 else h
      case UnsignedHalf => v % 0x1_0000
      case FullWord => FromUnsigned(v)
      case RightWord => FromUnsigned(ToUnsigned(kept) - ToUnsigned(kept) % 0x100 + v / 0x100_0000)
    }
  }

  datatype StoreKind = StoreByte | StoreHalf | StoreWord | StoreLeft | StoreRight {
    function Size(): (s: nat)
      ensures IsSize(s)
    {
      if StoreByte? then 1 else if StoreHalf? then 2 else 4
    }

    /** SWL and SWR read the word before they write it. */
    predicate ReadsFirst() {
      StoreLeft? || StoreRight?
    }

    /** v is the register, was the word that was there. */
    function Value(v: int32, was: uint32): (u: uint32) {
      if StoreRight? then was % 0x100_0000 + ToUnsigned(v) % 0x100 * 0x100_0000 else ToUnsigned(v)
    }
  }

  /** What an instruction comes to, once its operands are known: a register write, new Hi and Lo and a next
      address; a load or a store; an exception; or a stop, where the simulator asserts or C has no result. */
  datatype Result =
    | Next(dest: Reg, value: int32, hi: int32, lo: int32, pcAfter: int32)
    | Load(loadKind: LoadKind, loadAddr: int32, target: Reg)
    | Store(storeKind: StoreKind, storeAddr: int32, stored: int32)
    | Trap(e: ExceptionType)
    | Stop

  /** The values an instruction can see: a and b are registers rs and rt. */
  datatype Operands = Operands(a: int32, b: int32, hi: int32, lo: int32, nextPC: int32)

  function OperandsOf(i: Instruction, r: Registers): Operands {
    Operands(r[i.rs], r[i.rt], r[32], r[33], r[35])
  }

  function Advance(pc: int32): int32 {
    Wrap(pc + 4)
  }

  function SetReg(o: Operands, dest: Reg, value: int32): Result {
    Next(dest, value, o.hi, o.lo, Advance(o.nextPC))
  }

  function SetHiLo(o: Operands, hi: int32, lo: int32): Result {
    Next(0, 0, hi, lo, Advance(o.nextPC))
  }

  function Branch(o: Operands, taken: bool, extra: int32): Result {
    Next(0, 0, o.hi, o.lo, if taken then Wrap(o.nextPC + 4 * extra) else Advance(o.nextPC))
  }

  /** A branch or jump that leaves its return address in register link, and reads rs after that. */
  function BranchAndLink(o: Operands, taken: bool, extra: int32): Result {
    Next(31, Advance(o.nextPC), o.hi, o.lo, if taken then Wrap(o.nextPC + 4 * extra) else Advance(o.nextPC))
  }

  function Linked(o: Operands, i: Instruction, link: Reg): int32 {
    if i.rs == link then Advance(o.nextPC) else o.a
  }

  function JumpTo(o: Operands, extra: int32): int32 {
    var pc := ToUnsigned(Advance(o.nextPC));
    Wrap(pc - pc % 0x1000_0000 + 4 * extra)
  }

  function Boolean(b: bool): int32 {
    if b then 1 else 0
  }

  /** The low five bits, which a variable shift goes by. */
  function Amount(x: int32): nat {
    ToUnsigned(x) % 32
  }

  function Low16(x: int32): int32 {
    ToUnsigned(x) % 0x1_0000
  }

  /** What each instruction means. Sums, differences and products are exact here. */
  function Meaning(i: Instruction, o: Operands): Result {
    var addr := Wrap(o.a + i.extra);
    match i.opCode
    case ADD => if InRange(o.a + o.b) then SetReg(o, i.rd, o.a + o.b) else Trap(Overflow)
    case ADDI => if InRange(o.a + i.extra) then SetReg(o, i.rt, o.a + i.extra) else Trap(Overflow)
    case SUB => if InRange(o.a - o.b) then SetReg(o, i.rd, o.a - o.b) else Trap(Overflow)
    case ADDIU => SetReg(o, i.rt, Wrap(o.a + i.extra))
    case ADDU => SetReg(o, i.rd, Wrap(o.a + o.b))
    case SUBU => SetReg(o, i.rd, Wrap(o.a - o.b))
    case AND => SetReg(o, i.rd, And(o.a, o.b))
    case ANDI => SetReg(o, i.rt, And(o.a, Low16(i.extra)))
    case OR => SetReg(o, i.rd, Or(o.a, o.b))
    case ORI => SetReg(o, i.rt, Or(o.a, Low16(i.extra)))
    case XOR => SetReg(o, i.rd, Xor(o.a, o.b))
    case XORI => SetReg(o, i.rt, Xor(o.a, Low16(i.extra)))
    case NOR => SetReg(o, i.rd, Not(Or(o.a, o.b)))
    case SLT => SetReg(o, i.rd, Boolean(o.a < o.b))
    case SLTI => SetReg(o, i.rt, Boolean(o.a < i.extra))
    case SLTU => SetReg(o, i.rd, Boolean(ToUnsigned(o.a) < ToUnsigned(o.b)))
    case SLTIU => SetReg(o, i.rt, Boolean(ToUnsigned(o.a) < ToUnsigned(i.extra)))
    case SLL => SetReg(o, i.rd, ShiftLeft(o.b, ToUnsigned(i.extra)))
    case SLLV => SetReg(o, i.rd, ShiftLeft(o.b, Amount(o.a)))
    case SRA => SetReg(o, i.rd, ShiftRightArithmetic(o.b, ToUnsigned(i.extra)))
    case SRAV => SetReg(o, i.rd, ShiftRightArithmetic(o.b, Amount(o.a)))
    case SRL => SetReg(o, i.rd, ShiftRightLogical(o.b, ToUnsigned(i.extra)))
    case SRLV => SetReg(o, i.rd, ShiftRightLogical(o.b, Amount(o.a)))
    case LUI => SetReg(o, i.rt, Wrap(i.extra * 0x1_0000))
    case MFHI => SetReg(o, i.rd, o.hi)
    case MFLO => SetReg(o, i.rd, o.lo)
    case MTHI => SetHiLo(o, o.a, o.lo)
    case MTLO => SetHiLo(o, o.hi, o.a)
    case MULT => SetHiLo(o, Wrap(o.a * o.b / 0x1_0000_0000), Wrap(o.a * o.b))
    case MULTU => var p := ToUnsigned(o.a) * ToUnsigned(o.b); SetHiLo(o, Wrap(p / 0x1_0000_0000), Wrap(p))
    case DIV =>
      if o.b == 0 then SetHiLo(o, 0, 0)
      else if o.a == -0x8000_0000 && o.b == -1 then Stop
      else SetHiLo(o, Wrap(Remainder(o.a, o.b)), Wrap(Quotient(o.a, o.b)))
    case DIVU =>
      if o.b == 0 then SetHiLo(o, 0, 0)
      else SetHiLo(o, Wrap(Modulo(ToUnsigned(o.a), ToUnsigned(o.b))), Wrap(Divide(ToUnsigned(o.a), ToUnsigned(o.b))))
    case BEQ => Branch(o, o.a == o.b, i.extra)
    case BNE => Branch(o, o.a != o.b, i.extra)
    case BGEZ => Branch(o, o.a >= 0, i.extra)
    case BGTZ => Branch(o, o.a > 0, i.extra)
    case BLEZ => Branch(o, o.a <= 0, i.extra)
    case BLTZ => Branch(o, o.a < 0, i.extra)
    case BGEZAL => BranchAndLink(o, Linked(o, i, 31) >= 0, i.extra)
    case BLTZAL => BranchAndLink(o, Linked(o, i, 31) < 0, i.extra)
    case J => Next(0, 0, o.hi, o.lo, JumpTo(o, i.extra))
    case JAL => Next(31, Advance(o.nextPC), o.hi, o.lo, JumpTo(o, i.extra))
    case JR => Next(0, 0, o.hi, o.lo, o.a)
    case JALR => Next(i.rd, Advance(o.nextPC), o.hi, o.lo, Linked(o, i, i.rd))
    case LB => Load(SignedByte, addr, i.rt)
    case LBU => Load(UnsignedByte, addr, i.rt)
    case LH => Load(SignedHalf, addr, i.rt)
    case LHU => Load(UnsignedHalf, addr, i.rt)
    case LW => Load(FullWord, addr, i.rt)
    case LWL => if addr % 4 == 0 then Load(FullWord, addr, i.rt) else Stop
    case LWR => if addr % 4 == 0 then Load(RightWord, addr, i.rt) else Stop
    case SB => Store(StoreByte, addr, o.b)
    case SH => Store(StoreHalf, addr, o.b)
    case SW => Store(StoreWord, addr, o.b)
    case SWL => if addr % 4 == 0 then Store(StoreLeft, addr, o.b) else Stop
    case SWR => if addr % 4 == 0 then Store(StoreRight, addr, o.b) else Stop
    case SYSCALL => Trap(Syscall)
    case RES => Trap(IllegalInstr)
    case UNIMP => Trap(IllegalInstr)
    case RFE => Stop
  }

  // One group of instructions at a time, so that a proof about the group need not look at the others.

  lemma SumMeanings(i: Instruction, o: Operands)
    ensures i.opCode == ADD ==>
              Meaning(i, o) == if InRange(o.a + o.b) then SetReg(o, i.rd, o.a + o.b) else Trap(Overflow)
    ensures i.opCode == SUB ==>
              Meaning(i, o) == if InRange(o.a - o.b) then SetReg(o, i.rd, o.a - o.b) else Trap(Overflow)
    ensures i.opCode == ADDI ==>
              Meaning(i, o) == if InRange(o.a + i.extra) then SetReg(o, i.rt, o.a + i.extra) else Trap(Overflow)
  {
    hide SetReg, InRange, Wrap;
  }

  lemma WrappedSumMeanings(i: Instruction, o: Operands)
    ensures i.opCode == ADDIU ==> Meaning(i, o) == SetReg(o, i.rt, Wrap(o.a + i.extra))
    ensures i.opCode == ADDU ==> Meaning(i, o) == SetReg(o, i.rd, Wrap(o.a + o.b))
    ensures i.opCode == SUBU ==> Meaning(i, o) == SetReg(o, i.rd, Wrap(o.a - o.b))
  {
    hide SetReg, Wrap;
  }

  lemma TestMeanings(i: Instruction, o: Operands)
    ensures i.opCode == SLT ==> Meaning(i, o) == SetReg(o, i.rd, Boolean(o.a < o.b))
    ensures i.opCode == SLTI ==> Meaning(i, o) == SetReg(o, i.rt, Boolean(o.a < i.extra))
    ensures i.opCode == SLTU ==> Meaning(i, o) == SetReg(o, i.rd, Boolean(ToUnsigned(o.a) < ToUnsigned(o.b)))
    ensures i.opCode == SLTIU ==> Meaning(i, o) == SetReg(o, i.rt, Boolean(ToUnsigned(o.a) < ToUnsigned(i.extra)))
  {
    hide SetReg, Wrap;
  }

  lemma LogicMeanings(i: Instruction, o: Operands)
    ensures i.opCode == AND ==> Meaning(i, o) == SetReg(o, i.rd, And(o.a, o.b))
    ensures i.opCode == OR ==> Meaning(i, o) == SetReg(o, i.rd, Or(o.a, o.b))
    ensures i.opCode == XOR ==> Meaning(i, o) == SetReg(o, i.rd, Xor(o.a, o.b))
    ensures i.opCode == NOR ==> Meaning(i, o) == SetReg(o, i.rd, Not(Or(o.a, o.b)))
    ensures i.opCode == ANDI ==> Meaning(i, o) == SetReg(o, i.rt, And(o.a, Low16(i.extra)))
    ensures i.opCode == ORI ==> Meaning(i, o) == SetReg(o, i.rt, Or(o.a, Low16(i.extra)))
    ensures i.opCode == XORI ==> Meaning(i, o) == SetReg(o, i.rt, Xor(o.a, Low16(i.extra)))
  {
    hide SetReg, And, Or, Xor, Not, Wrap, Low16;
  }

  lemma ShiftMeanings(i: Instruction, o: Operands)
    ensures i.opCode == SLL ==> Meaning(i, o) == SetReg(o, i.rd, ShiftLeft(o.b, ToUnsigned(i.extra)))
    ensures i.opCode == SRA ==> Meaning(i, o) == SetReg(o, i.rd, ShiftRightArithmetic(o.b, ToUnsigned(i.extra)))
    ensures i.opCode == SRL ==> Meaning(i, o) == SetReg(o, i.rd, ShiftRightLogical(o.b, ToUnsigned(i.extra)))
    ensures i.opCode == SLLV ==> Meaning(i, o) == SetReg(o, i.rd, ShiftLeft(o.b, Amount(o.a)))
    ensures i.opCode == SRAV ==> Meaning(i, o) == SetReg(o, i.rd, ShiftRightArithmetic(o.b, Amount(o.a)))
    ensures i.opCode == SRLV ==> Meaning(i, o) == SetReg(o, i.rd, ShiftRightLogical(o.b, Amount(o.a)))
    ensures i.opCode == LUI ==> Meaning(i, o) == SetReg(o, i.rt, Wrap(i.extra * 0x1_0000))
  {
    hide SetReg, ShiftLeft, ShiftRightArithmetic, ShiftRightLogical, Amount, Wrap, ToUnsigned;
  }

  lemma ProductMeanings(i: Instruction, o: Operands)
    ensures i.opCode == MULT ==>
              Meaning(i, o) == SetHiLo(o, Wrap(o.a * o.b / 0x1_0000_0000), Wrap(o.a * o.b))
    ensures i.opCode == MULTU ==>
              var p := ToUnsigned(o.a) * ToUnsigned(o.b);
              Meaning(i, o) == SetHiLo(o, Wrap(p / 0x1_0000_0000), Wrap(p))
  {
    hide SetHiLo, Wrap;
  }

  lemma QuotientMeanings(i: Instruction, o: Operands)
    ensures i.opCode in {DIV, DIVU} && o.b == 0 ==> Meaning(i, o) == SetHiLo(o, 0, 0)
    ensures i.opCode == DIV && o.b != 0 ==>
              Meaning(i, o) == if o.a == -0x8000_0000 && o.b == -1 then Stop
                               else SetHiLo(o, Wrap(Remainder(o.a, o.b)), Wrap(Quotient(o.a, o.b)))
    ensures i.opCode == DIVU && o.b != 0 ==>
              var a, b := ToUnsigned(o.a), ToUnsigned(o.b);
              Meaning(i, o) == SetHiLo(o, Wrap(Modulo(a, b)), Wrap(Divide(a, b)))
  {
    hide SetHiLo, Wrap, Quotient, Remainder, Divide, Modulo;
  }

  lemma MoveMeanings(i: Instruction, o: Operands)
    ensures i.opCode == MFHI ==> Meaning(i, o) == SetReg(o, i.rd, o.hi)
    ensures i.opCode == MFLO ==> Meaning(i, o) == SetReg(o, i.rd, o.lo)
    ensures i.opCode == MTHI ==> Meaning(i, o) == SetHiLo(o, o.a, o.lo)
    ensures i.opCode == MTLO ==> Meaning(i, o) == SetHiLo(o, o.hi, o.a)
  {
    hide SetReg, SetHiLo, Wrap;
  }

  lemma BranchMeanings(i: Instruction, o: Operands)
    ensures i.opCode == BEQ ==> Meaning(i, o) == Branch(o, o.a == o.b, i.extra)
    ensures i.opCode == BNE ==> Meaning(i, o) == Branch(o, o.a != o.b, i.extra)
    ensures i.opCode == BGEZ ==> Meaning(i, o) == Branch(o, o.a >= 0, i.extra)
    ensures i.opCode == BGTZ ==> Meaning(i, o) == Branch(o, o.a > 0, i.extra)
    ensures i.opCode == BLEZ ==> Meaning(i, o) == Branch(o, o.a <= 0, i.extra)
    ensures i.opCode == BLTZ ==> Meaning(i, o) == Branch(o, o.a < 0, i.extra)
    ensures i.opCode == BGEZAL ==> Meaning(i, o) == BranchAndLink(o, Linked(o, i, 31) >= 0, i.extra)
    ensures i.opCode == BLTZAL ==> Meaning(i, o) == BranchAndLink(o, Linked(o, i, 31) < 0, i.extra)
  {
    hide Branch, BranchAndLink, Linked, Wrap;
  }

  lemma JumpMeanings(i: Instruction, o: Operands)
    ensures i.opCode == J ==> Meaning(i, o) == Next(0, 0, o.hi, o.lo, JumpTo(o, i.extra))
    ensures i.opCode == JAL ==> Meaning(i, o) == Next(31, Advance(o.nextPC), o.hi, o.lo, JumpTo(o, i.extra))
    ensures i.opCode == JR ==> Meaning(i, o) == Next(0, 0, o.hi, o.lo, o.a)
    ensures i.opCode == JALR ==> Meaning(i, o) == Next(i.rd, Advance(o.nextPC), o.hi, o.lo, Linked(o, i, i.rd))
  {
    hide Linked, JumpTo, Advance, Wrap;
  }

  lemma LoadMeanings(i: Instruction, o: Operands, addr: int32)
    requires addr == Wrap(o.a + i.extra)
    ensures i.opCode == LB ==> Meaning(i, o) == Load(SignedByte, addr, i.rt)
    ensures i.opCode == LBU ==> Meaning(i, o) == Load(UnsignedByte, addr, i.rt)
    ensures i.opCode == LH ==> Meaning(i, o) == Load(SignedHalf, addr, i.rt)
    ensures i.opCode == LHU ==> Meaning(i, o) == Load(UnsignedHalf, addr, i.rt)
    ensures i.opCode == LW ==> Meaning(i, o) == Load(FullWord, addr, i.rt)
  {
    hide SetReg, SetHiLo, Branch, BranchAndLink, JumpTo, Linked, Advance, Boolean, InRange, Wrap;
  }

  lemma StoreMeanings(i: Instruction, o: Operands, addr: int32)
    requires addr == Wrap(o.a + i.extra)
    ensures i.opCode == SB ==> Meaning(i, o) == Store(StoreByte, addr, o.b)
    ensures i.opCode == SH ==> Meaning(i, o) == Store(StoreHalf, addr, o.b)
    ensures i.opCode == SW ==> Meaning(i, o) == Store(StoreWord, addr, o.b)
  {
    hide SetReg, SetHiLo, Branch, BranchAndLink, JumpTo, Linked, Advance, Boolean, InRange, Wrap;
  }

  lemma TrapMeanings(i: Instruction, o: Operands)
    ensures i.opCode == SYSCALL ==> Meaning(i, o) == Trap(Syscall)
    ensures i.opCode in {RES, UNIMP} ==> Meaning(i, o) == Trap(IllegalInstr)
  {
    hide SetReg, SetHiLo, Branch, BranchAndLink, JumpTo, Linked, Advance, Boolean, InRange, Wrap;
  }

  lemma PartLoadMeanings(i: Instruction, o: Operands, addr: int32)
    requires addr == Wrap(o.a + i.extra)
    ensures i.opCode == LWL ==> Meaning(i, o) == if addr % 4 == 0 then Load(FullWord, addr, i.rt) else Stop
    ensures i.opCode == LWR ==> Meaning(i, o) == if addr % 4 == 0 then Load(RightWord, addr, i.rt) else Stop
  {
    hide Wrap;
  }

  lemma PartStoreMeanings(i: Instruction, o: Operands, addr: int32)
    requires addr == Wrap(o.a + i.extra)
    ensures i.opCode == SWL ==> Meaning(i, o) == if addr % 4 == 0 then Store(StoreLeft, addr, o.b) else Stop
    ensures i.opCode == SWR ==> Meaning(i, o) == if addr % 4 == 0 then Store(StoreRight, addr, o.b) else Stop
  {
    hide Wrap;
  }

  /** DelayedLoad: the pending load reaches its register, and another may become pending. */
  function DelayedLoad(r: Registers, nextReg: int32, nextValue: int32): Registers
    requires 0 <= r[37] < 32
  {
    r[r[37] := r[38]][37 := nextReg][38 := nextValue][0 := 0]
  }

  /** The registers as an exception handler finds them. */
  function Trapped(r: Registers, badVAddr: int32): Registers
    requires 0 <= r[37] < 32
  {
    DelayedLoad(r[39 := badVAddr], 0, 0)
  }

  function Written(r: Registers, dest: Reg, value: int32, hi: int32, lo: int32): Registers {
    r[dest := value][32 := hi][33 := lo]
  }

  /** The registers after an instruction that succeeded. */
  function Retire(r: Registers, pcAfter: int32, nextReg: int32, nextValue: int32): Registers
    requires 0 <= r[37] < 32
  {
    var c := DelayedLoad(r, nextReg, nextValue);
    c[36 := c[34]][34 := c[35]][35 := pcAfter]
  }

  datatype StepResult =
    | Retired(r: Registers, mem: Memory)
    | Raised(e: ExceptionType, r: Registers, mem: Memory)
    | Stopped

  function StepLoad(m: Mmu, mem: Memory, r: Registers, kind: LoadKind, addr: int32, target: Reg): StepResult
    requires 0 <= r[37] < 32
  {
    var t := Resolve(m, addr, kind.Size(), false);
    var kept := if r[37] == target then r[38] else r[target];
    if t.Fault? then Raised(t.e, Trapped(r, addr), mem)
    else Retired(Retire(r, Advance(r[35]), target, kind.Value(Fetch(mem, t.address, kind.Size()), kept)), mem)
  }

  function StepStore(m: Mmu, mem: Memory, r: Registers, kind: StoreKind, addr: int32, v: int32): StepResult
    requires 0 <= r[37] < 32
  {
    var before, t := Resolve(m, addr, kind.Size(), false), Resolve(m, addr, kind.Size(), true);
    if kind.ReadsFirst() && before.Fault? then Raised(before.e, Trapped(r, addr), mem)
    else if t.Fault? then Raised(t.e, Trapped(r, addr), mem)
    else
      var was := if kind.ReadsFirst() then Fetch(mem, before.address, 4) else 0;
      Retired(Retire(r, Advance(r[35]), 0, 0), Stored(mem, t.address, kind.Size(), kind.Value(v, was)))
  }

  /** An instruction already fetched and decoded. */
  function Execute(m: Mmu, mem: Memory, r: Registers, i: Instruction): StepResult
    requires 0 <= r[37] < 32
  {
    match Meaning(i, OperandsOf(i, r))
    case Stop => Stopped
    case Trap(e) => Raised(e, Trapped(r, 0), mem)
    case Next(dest, value, hi, lo, pcAfter) => Retired(Retire(Written(r, dest, value, hi, lo), pcAfter, 0, 0), mem)
    case Load(kind, addr, target) => StepLoad(m, mem, r, kind, addr, target)
    case Store(kind, addr, v) => StepStore(m, mem, r, kind, addr, v)
  }

  /** OneInstruction, from fetch to the program counters' advance. */
  function Step(m: Mmu, mem: Memory, r: Registers): StepResult
    requires 0 <= r[37] < 32
  {
    var t := Resolve(m, r[34], 4, false);
    if t.Fault? then Raised(t.e, Trapped(r, r[34]), mem)
    else Execute(m, mem, r, Decode(Fetch(mem, t.address, 4)))
  }

  // ---- What every step keeps ----

  /** Register 0 is 0, and the pending load, if any, is for a general register. */
  predicate Sound(r: Registers) {
    r[0] == 0 && 0 <= r[37] < 32
  }

  /** Whatever happens, the registers are sound again at the end of the step. */
  lemma StepKeepsSound(m: Mmu, mem: Memory, r: Registers)
    requires Sound(r)
    ensures !Step(m, mem, r).Stopped? ==> Sound(Step(m, mem, r).r)
  {
    hide Meaning, Resolve, Decode, Fetch;
  }

  /** The program counters move together: one instruction of branch delay. */
  lemma CountersAdvance(m: Mmu, mem: Memory, r: Registers)
    requires 0 <= r[37] < 32 && Step(m, mem, r).Retired?
    ensures var r2 := Step(m, mem, r).r;
            r2[34] == r[35] && r2[36] == r[34]
  {
    hide Meaning, Resolve, Decode, Fetch;
  }

  /** Restartability: an exception leaves memory, program counters, Hi, Lo and every general register as they
      were, but for the pending load, which has reached its register. */
  lemma ExceptionsLeaveNoTrace(m: Mmu, mem: Memory, r: Registers)
    requires Sound(r) && Step(m, mem, r).Raised?
    ensures var s := Step(m, mem, r);
            && s.mem == mem && s.r[37] == 0
            && (forall k :: 0 <= k < 37 ==> s.r[k] == if k == r[37] && k != 0 then r[38] else r[k])
  {
    hide Meaning, Resolve, Decode, Fetch;
  }

  /** What the handler can rely on. After a page fault, a read-only, bus or address error the bad address is that of
      an access which still resolves to just this exception, the fetch itself or one of the instruction's; after
      any other exception it is 0. */
  lemma BadAddressIsTheCulprit(m: Mmu, mem: Memory, r: Registers)
    requires Sound(r) && Step(m, mem, r).Raised?
    ensures var s := Step(m, mem, r);
            if s.e in {Syscall, Overflow, IllegalInstr} then s.r[39] == 0
            else exists size, writing :: IsSize(size) && Resolve(m, s.r[39], size, writing) == Fault(s.e)
  {
    hide Decode, Fetch, Resolve;
    var s := Step(m, mem, r);
    if Resolve(m, r[34], 4, false).Fault? {
      assert IsSize(4) && s.r[39] == r[34];
      TranslationFaults(m, r[34], 4, false);
    } else {
      var i := Decode(Fetch(mem, Resolve(m, r[34], 4, false).address, 4));
      ExecutionFaults(m, mem, r, i);
    }
  }

  lemma TranslationFaults(m: Mmu, addr: int32, size: int, writing: bool)
    ensures Resolve(m, addr, size, writing).Fault? ==>
              Resolve(m, addr, size, writing).e in {PageFault, ReadOnly, BusError, AddressError}
  {
  }

  lemma ExecutionFaults(m: Mmu, mem: Memory, r: Registers, i: Instruction)
    requires Sound(r) && Execute(m, mem, r, i).Raised?
    ensures var s := Execute(m, mem, r, i);
            if s.e in {Syscall, Overflow, IllegalInstr} then s.r[39] == 0
            else exists size, writing :: IsSize(size) && Resolve(m, s.r[39], size, writing) == Fault(s.e)
  {
    hide Fetch, Resolve, Meaning, Stored;
    Traps(i, OperandsOf(i, r));
    match Meaning(i, OperandsOf(i, r))
    case Load(kind, addr, target) =>
      TranslationFaults(m, addr, kind.Size(), false);
      assert IsSize(kind.Size()) && Trapped(r, addr)[39] == addr;
    case Store(kind, addr, v) =>
      TranslationFaults(m, addr, kind.Size(), false);
      TranslationFaults(m, addr, kind.Size(), true);
      assert IsSize(kind.Size()) && Trapped(r, addr)[39] == addr;
    case _ =>
  }

  lemma Traps(i: Instruction, o: Operands)
    ensures Meaning(i, o).Trap? ==> Meaning(i, o).e in {Syscall, Overflow, IllegalInstr}
  {
    hide ShiftLeft, ShiftRightArithmetic, ShiftRightLogical, And, Or, Xor, Not, Wrap, Quotient, Remainder, JumpTo,
         Advance, InRange;
  }

  /** What DIV leaves is the quotient rounded toward zero and a remainder with the dividend's sign; the pair
      that has no 32-bit quotient is the one where C gives no result. */
  lemma DivisionIsExact(a: int32, b: int32)
    requires b != 0
    ensures a == b * Quotient(a, b) + Remainder(a, b) && Abs(Remainder(a, b)) < Abs(b)
    ensures Remainder(a, b) == 0 || (Remainder(a, b) < 0 <==> a < 0)
    ensures InRange(Remainder(a, b)) && (InRange(Quotient(a, b)) <==> !(a == -0x8000_0000 && b == -1))
  {
    hide Quotient, Remainder, Times;
    var q, m := Parts(a, b);
    SignedProduct(a, b, q, Quotient(a, b));
    Products(b, Quotient(a, b));
  }

  lemma Parts(a: int32, b: int32) returns (q: int, m: int)
    requires b != 0
    ensures Abs(a) == Times(Abs(b), q) + m && 0 <= m < Abs(b) && m <= Abs(a)
    ensures 0 <= q && if Abs(b) == 1 then q == Abs(a) else 2 * q <= Abs(a)
    ensures Quotient(a, b) == (if (a < 0) == (b < 0) then q else -q) && Remainder(a, b) == if a < 0 then -m else m
  {
    hide Divide, Modulo, Times;
    q, m := Divide(Abs(a), Abs(b)), Modulo(Abs(a), Abs(b));
    Divided(Abs(a), Abs(b), q, m);
  }

  lemma SignedProduct(a: int, b: int, q: int, k: int)
    requires k == if (a < 0) == (b < 0) then q else -q
    ensures Times(b, k) == if a < 0 then -Times(Abs(b), q) else Times(Abs(b), q)
  {
    var p := b * q;
    assert b * (-q) == -p && (-b) * q == -p;
  }

  lemma Divided(x: nat, y: nat, q: nat, m: nat)
    requires y > 0 && q == Divide(x, y) && m == Modulo(x, y)
    ensures x == Times(y, q) + m && m < y && m <= x
    ensures if y == 1 then q == x else 2 * q <= x
  {
    if y >= 2 {
      AtLeastTwice(y, q);
    }
  }

  lemma AtLeastTwice(y: nat, q: nat)
    requires y >= 2
    ensures y * q >= 2 * q
  {
  }

  /** The load delay slot, its end: whatever the next instruction is, the loaded value stands in the register
      after it, even if that instruction wrote the register itself. */
  lemma PendingLoadArrives(m: Mmu, mem: Memory, r: Registers)
    requires Sound(r) && r[37] != 0 && Step(m, mem, r).Retired?
    ensures Step(m, mem, r).r[r[37]] == r[38]
  {
    hide Meaning, Resolve, Decode, Fetch;
  }

  /** The load delay slot, its beginning: a load itself changes no general register but that of an earlier load. */
  lemma LoadsAreDelayed(m: Mmu, mem: Memory, r: Registers, k: nat)
    requires Sound(r) && Step(m, mem, r).Retired? && Step(m, mem, r).r[37] != 0 && k < 32 && k != r[37]
    ensures Step(m, mem, r).r[k] == r[k]
  {
    hide Meaning, Resolve, Decode, Fetch;
  }
}
