/** What each instruction does, told without reference to how the simulator or MachineSemantics computes it: products
    and quotients by the equations they satisfy, bitwise results bit by bit, addresses modulo 2^32, loads and stores by
    the bytes of memory. */
module InstructionLaws {
  import opened Bytes
  import opened BitOps
  import opened Multiplication
  import opened Translation
  import opened Instructions
  import opened MachineSemantics

  /** The word at the program counter is an instruction that can be fetched, and decodes to i. */
  ghost predicate Fetches(m: Mmu, mem: Memory, r: Registers, i: Instruction) {
    var t := Resolve(m, r[34], 4, false);
    t.Physical? && i == Decode(Fetch(mem, t.address, 4))
  }

  // ---- What an instruction can do to the registers ----

  /** The general registers after an instruction that puts value into register dest: the pending load has arrived,
      after the instruction's own write, and register 0 is 0. */
  ghost predicate Puts(r: Registers, r2: Registers, dest: int, value: int) {
    forall k :: 0 <= k < 32 ==>
      r2[k] == if k == 0 then 0 else if k == r[37] then r[38] else if k == dest then value else r[k]
  }

  /** The instruction after next is so many bytes past the next one. */
  ghost predicate Follows(r: Registers, r2: Registers, distance: int) {
    r2[34] == r[35] && r2[36] == r[34] && ToUnsigned(r2[35]) == (ToUnsigned(r[35]) + distance) % 0x1_0000_0000
  }

  /** A result in a general register, and nothing else. */
  ghost predicate Gives(r: Registers, mem: Memory, s: StepResult, dest: int, value: int) {
    && s.Retired? && s.mem == mem && Puts(r, s.r, dest, value) && s.r[37] == 0
    && s.r[32] == r[32] && s.r[33] == r[33] && Follows(r, s.r, 4)
  }

  /** A result in Hi and Lo, and nothing else. */
  ghost predicate SetsHiLo(r: Registers, mem: Memory, s: StepResult) {
    s.Retired? && s.mem == mem && Puts(r, s.r, 0, 0) && s.r[37] == 0 && Follows(r, s.r, 4)
  }

  /** A change of course, with the return address in register link if that is not 0. */
  ghost predicate Turns(r: Registers, mem: Memory, s: StepResult, link: int) {
    && s.Retired? && s.mem == mem && s.r[37] == 0 && s.r[32] == r[32] && s.r[33] == r[33]
    && Puts(r, s.r, link, Return(r))
    && s.r[34] == r[35] && s.r[36] == r[34]
  }

  /** The address of the instruction after the one in the delay slot. */
  function Return(r: Registers): int32 {
    FromUnsigned((ToUnsigned(r[35]) + 4) % 0x1_0000_0000)
  }

  /** An exception: nothing has happened but that the pending load has arrived. */
  ghost predicate Raises(r: Registers, mem: Memory, s: StepResult, e: ExceptionType, bad: int32) {
    && s.Raised? && s.e == e && s.mem == mem && Puts(r, s.r, 0, 0) && s.r[37] == 0 && s.r[39] == bad
    && forall k :: 32 <= k < 37 ==> s.r[k] == r[k]
  }

  /** A load has been issued: nothing but the earlier load arrives now, and this one is pending for its register. */
  ghost predicate Issues(r: Registers, mem: Memory, s: StepResult, target: int) {
    && s.Retired? && s.mem == mem && Puts(r, s.r, 0, 0) && s.r[37] == target
    && s.r[32] == r[32] && s.r[33] == r[33] && Follows(r, s.r, 4)
  }

  /** A store has gone through: mem2 is the memory after it. */
  ghost predicate Leaves(r: Registers, s: StepResult, mem2: Memory) {
    && s.Retired? && s.mem == mem2 && Puts(r, s.r, 0, 0) && s.r[37] == 0
    && s.r[32] == r[32] && s.r[33] == r[33] && Follows(r, s.r, 4)
  }

  /** The address of a load or a store. */
  function Address(r: Registers, i: Instruction): int32 {
    FromUnsigned((ToUnsigned(r[i.rs]) + i.extra) % 0x1_0000_0000)
  }

  function Half(mem: Memory, at: nat): nat
    requires at + 2 <= 0x8000
  {
    var low: int, high: int := mem[at], mem[at + 1];
    low + 0x100 * high
  }

  function Word(mem: Memory, at: nat): nat
    requires at + 4 <= 0x8000
  {
    var high: int := Half(mem, at + 2);
    Half(mem, at) + 0x1_0000 * high
  }

  // ---- The law of each instruction ----

  predicate Congruent(v: int, x: int) {
    (v - x) % 0x1_0000_0000 == 0
  }

  ghost predicate SumLaw(r: Registers, mem: Memory, i: Instruction, s: StepResult) {
    var a: int, b: int, c: int := r[i.rs], r[i.rt], i.extra;
    match i.opCode
    case ADD => if InRange(a + b) then Gives(r, mem, s, i.rd, a + b) else Raises(r, mem, s, Overflow, 0)
    case ADDI => if InRange(a + c) then Gives(r, mem, s, i.rt, a + c) else Raises(r, mem, s, Overflow, 0)
    case SUB => if InRange(a - b) then Gives(r, mem, s, i.rd, a - b) else Raises(r, mem, s, Overflow, 0)
    case _ => true
  }

  /** Sums that wrap: the result is congruent to the exact one, modulo 2^32. */
  ghost predicate WrapLaw(r: Registers, mem: Memory, i: Instruction, s: StepResult) {
    var a: int, b: int, c: int := r[i.rs], r[i.rt], i.extra;
    match i.opCode
    case ADDU => exists v: int32 :: Gives(r, mem, s, i.rd, v) && Congruent(v, a + b)
    case ADDIU => exists v: int32 :: Gives(r, mem, s, i.rt, v) && Congruent(v, a + c)
    case SUBU => exists v: int32 :: Gives(r, mem, s, i.rd, v) && Congruent(v, a - b)
    case _ => true
  }

  ghost predicate TestLaw(r: Registers, mem: Memory, i: Instruction, s: StepResult) {
    var a, b, c := r[i.rs], r[i.rt], i.extra;
    match i.opCode
    case SLT => Gives(r, mem, s, i.rd, if a < b then 1 else 0)
    case SLTI => Gives(r, mem, s, i.rt, if a < c then 1 else 0)
    case SLTU => Gives(r, mem, s, i.rd, if ToUnsigned(a) < ToUnsigned(b) then 1 else 0)
    case SLTIU => Gives(r, mem, s, i.rt, if ToUnsigned(a) < ToUnsigned(c) then 1 else 0)
    case _ => true
  }

  predicate BitAt(x: int32, j: nat) {
    Bit(ToUnsigned(x), j)
  }

  /** The bits of the immediate: the low 16 of the word, and zeros above. */
  predicate ImmediateBit(i: Instruction, j: nat) {
    j < 16 && BitAt(i.extra, j)
  }

  ghost predicate BitsLaw(r: Registers, mem: Memory, i: Instruction, s: StepResult) {
    var a, b := r[i.rs], r[i.rt];
    match i.opCode
    case AND => exists v: int32 :: Gives(r, mem, s, i.rd, v)
                                   && forall j: nat :: j < 32 ==> (BitAt(v, j) <==> BitAt(a, j) && BitAt(b, j))
    case OR => exists v: int32 :: Gives(r, mem, s, i.rd, v)
                                  && forall j: nat :: j < 32 ==> (BitAt(v, j) <==> BitAt(a, j) || BitAt(b, j))
    case XOR => exists v: int32 :: Gives(r, mem, s, i.rd, v)
                                   && forall j: nat :: j < 32 ==> (BitAt(v, j) <==> BitAt(a, j) != BitAt(b, j))
    case NOR => exists v: int32 :: Gives(r, mem, s, i.rd, v)
                                   && forall j: nat :: j < 32 ==> (BitAt(v, j) <==> !BitAt(a, j) && !BitAt(b, j))
    case ANDI => exists v: int32 :: Gives(r, mem, s, i.rt, v)
                                    && forall j: nat :: j < 32 ==> (BitAt(v, j) <==> BitAt(a, j) && ImmediateBit(i, j))
    case ORI => exists v: int32 :: Gives(r, mem, s, i.rt, v)
                                   && forall j: nat :: j < 32 ==> (BitAt(v, j) <==> BitAt(a, j) || ImmediateBit(i, j))
    case XORI => exists v: int32 :: Gives(r, mem, s, i.rt, v)
                                    && forall j: nat :: j < 32 ==> (BitAt(v, j) <==> BitAt(a, j) != ImmediateBit(i, j))
    case _ => true
  }

  /** v is x moved up by so many places. */
  ghost predicate MovedUp(v: int32, x: int32, places: nat) {
    forall j: nat :: j < 32 ==> (BitAt(v, j) <==> j >= places && BitAt(x, j - places))
  }

  /** v is x moved down by so many places, with copies of fill coming in. */
  ghost predicate MovedDown(v: int32, x: int32, places: nat, fill: bool) {
    forall j: nat :: j < 32 ==> (BitAt(v, j) <==> if j + places < 32 then BitAt(x, j + places) else fill)
  }

  ghost predicate ShiftLaw(r: Registers, mem: Memory, i: Instruction, s: StepResult) {
    var b, places, amount := r[i.rt], ToUnsigned(i.extra), ToUnsigned(r[i.rs]) % 32;
    match i.opCode
    case SLL => exists v: int32 :: Gives(r, mem, s, i.rd, v) && MovedUp(v, b, places)
    case SRA => exists v: int32 :: Gives(r, mem, s, i.rd, v) && MovedDown(v, b, places, b < 0)
    case SRL => exists v: int32 :: Gives(r, mem, s, i.rd, v) && MovedDown(v, b, places, false)
    case SLLV => exists v: int32 :: Gives(r, mem, s, i.rd, v) && MovedUp(v, b, amount)
    case SRAV => exists v: int32 :: Gives(r, mem, s, i.rd, v) && MovedDown(v, b, amount, b < 0)
    case SRLV => exists v: int32 :: Gives(r, mem, s, i.rd, v) && MovedDown(v, b, amount, false)
    case LUI =>
      exists v: int32 :: Gives(r, mem, s, i.rt, v) && ToUnsigned(v) == ToUnsigned(i.extra) % 0x1_0000 * 0x1_0000
    case _ => true
  }

  /** The quotient in Lo is rounded toward zero, and the remainder in Hi has the dividend's sign. */
  ghost predicate Divides(a: int, b: int, hi: int, lo: int) {
    a == b * lo + hi && Abs(hi) < Abs(b) && (hi == 0 || (hi < 0 <==> a < 0))
  }

  /** What Hi and Lo hold after an instruction that sets them. */
  ghost predicate HiLoHold(i: Instruction, r: Registers, hi: int32, lo: int32) {
    var a: int, b: int := r[i.rs], r[i.rt];
    var ua, ub := ToUnsigned(r[i.rs]), ToUnsigned(r[i.rt]);
    match i.opCode
    case MULT => a * b == hi * 0x1_0000_0000 + ToUnsigned(lo)
    case MULTU => ua * ub == ToUnsigned(hi) * 0x1_0000_0000 + ToUnsigned(lo)
    case DIV => if b == 0 then hi == 0 == lo else Divides(a, b, hi, lo)
    case DIVU => if ub == 0 then hi == 0 == lo else Divides(ua, ub, ToUnsigned(hi), ToUnsigned(lo))
    case MTHI => hi == r[i.rs] && lo == r[33]
    case MTLO => hi == r[32] && lo == r[i.rs]
    case _ => false
  }

  ghost predicate HiLoLaw(r: Registers, mem: Memory, i: Instruction, s: StepResult) {
    match i.opCode
    case MULT => SetsHiLo(r, mem, s) && HiLoHold(i, r, s.r[32], s.r[33])
    case MULTU => SetsHiLo(r, mem, s) && HiLoHold(i, r, s.r[32], s.r[33])
    case DIV =>
      if r[i.rs] == -0x8000_0000 && r[i.rt] == -1 then s.Stopped?
      else SetsHiLo(r, mem, s) && HiLoHold(i, r, s.r[32], s.r[33])
    case DIVU => SetsHiLo(r, mem, s) && HiLoHold(i, r, s.r[32], s.r[33])
    case MTHI => SetsHiLo(r, mem, s) && HiLoHold(i, r, s.r[32], s.r[33])
    case MTLO => SetsHiLo(r, mem, s) && HiLoHold(i, r, s.r[32], s.r[33])
    case MFHI => Gives(r, mem, s, i.rd, r[32])
    case MFLO => Gives(r, mem, s, i.rd, r[33])
    case _ => true
  }

  /** A branch: so many instructions past the delay slot's address if taken, otherwise straight on. */
  ghost predicate Goes(r: Registers, mem: Memory, s: StepResult, link: int, taken: bool, extra: int) {
    Turns(r, mem, s, link) && Follows(r, s.r, if taken then 4 * extra else 4)
  }

  ghost predicate BranchLaw(r: Registers, mem: Memory, i: Instruction, s: StepResult) {
    var a, b := r[i.rs], r[i.rt];
    var linked := if i.rs == 31 then Return(r) else a;
    match i.opCode
    case BEQ => Goes(r, mem, s, 0, a == b, i.extra)
    case BNE => Goes(r, mem, s, 0, a != b, i.extra)
    case BGEZ => Goes(r, mem, s, 0, a >= 0, i.extra)
    case BGTZ => Goes(r, mem, s, 0, a > 0, i.extra)
    case BLEZ => Goes(r, mem, s, 0, a <= 0, i.extra)
    case BLTZ => Goes(r, mem, s, 0, a < 0, i.extra)
    case BGEZAL => Goes(r, mem, s, 31, linked >= 0, i.extra)
    case BLTZAL => Goes(r, mem, s, 31, linked < 0, i.extra)
    case _ => true
  }

  /** A jump stays in the 256 megabytes of the instruction after the delay slot. */
  ghost predicate InRegion(r: Registers, s: StepResult, extra: int)
    requires s.Retired?
  {
    && ToUnsigned(s.r[35]) / 0x1000_0000 == ToUnsigned(Return(r)) / 0x1000_0000
    && ToUnsigned(s.r[35]) % 0x1000_0000 == 4 * extra
  }

  ghost predicate JumpLaw(r: Registers, mem: Memory, i: Instruction, s: StepResult) {
    match i.opCode
    case J => Turns(r, mem, s, 0) && InRegion(r, s, i.extra)
    case JAL => Turns(r, mem, s, 31) && InRegion(r, s, i.extra)
    case JR => Turns(r, mem, s, 0) && s.r[35] == r[i.rs]
    case JALR => Turns(r, mem, s, i.rd) && s.r[35] == if i.rs == i.rd then Return(r) else r[i.rs]
    case _ => true
  }

  /** v is the signed number that b is the unsigned one of, in so many bits. */
  predicate SignedIn(v: int, b: int, half: int)
    requires half > 0
  {
    -half <= v < half && (v == b || v == b - 2 * half)
  }

  /** A load goes through, or raises the exception that translation gives. */
  ghost predicate LoadsFrom(r: Registers, mem: Memory, i: Instruction, s: StepResult, t: Translated) {
    match t
    case Fault(e) => Raises(r, mem, s, e, Address(r, i))
    case Physical(_, _) => Issues(r, mem, s, i.rt)
  }

  /** LWR at an aligned address: the top byte of the word becomes the lowest of the register, as it stands or is about
      to. */
  ghost predicate LowestReplaced(v: int32, kept: int32, b: byte) {
    ToUnsigned(v) / 0x100 == ToUnsigned(kept) / 0x100 && ToUnsigned(v) % 0x100 == b
  }

  ghost predicate LoadLaw(m: Mmu, r: Registers, mem: Memory, i: Instruction, s: StepResult) {
    var va := Address(r, i);
    var one, two, four := Resolve(m, va, 1, false), Resolve(m, va, 2, false), Resolve(m, va, 4, false);
    var kept := if r[37] == i.rt then r[38] else r[i.rt];
    match i.opCode
    case LB => LoadsFrom(r, mem, i, s, one) && (one.Physical? ==> SignedIn(s.r[38], mem[one.address], 0x80))
    case LBU => LoadsFrom(r, mem, i, s, one) && (one.Physical? ==> s.r[38] == mem[one.address])
    case LH => LoadsFrom(r, mem, i, s, two) && (two.Physical? ==> SignedIn(s.r[38], Half(mem, two.address), 0x8000))
    case LHU => LoadsFrom(r, mem, i, s, two) && (two.Physical? ==> s.r[38] == Half(mem, two.address))
    case LW => LoadsFrom(r, mem, i, s, four) && (four.Physical? ==> ToUnsigned(s.r[38]) == Word(mem, four.address))
    case LWL =>
      if ToUnsigned(va) % 4 != 0 then s.Stopped?
      else LoadsFrom(r, mem, i, s, four) && (four.Physical? ==> ToUnsigned(s.r[38]) == Word(mem, four.address))
    case LWR =>
      if ToUnsigned(va) % 4 != 0 then s.Stopped?
      else LoadsFrom(r, mem, i, s, four) && (four.Physical? ==> LowestReplaced(s.r[38], kept, mem[four.address + 3]))
    case _ => true
  }

  /** The first byte of v is its lowest. */
  function WordBytes(v: int32): (b: seq<byte>)
    ensures |b| == 4
  {
    var u := ToUnsigned(v);
    [u % 0x100, u / 0x100 % 0x100, u / 0x1_0000 % 0x100, u / 0x100_0000]
  }

  /** Memory with the bytes of b from address at on, and otherwise as it was. */
  ghost predicate Overwritten(mem: Memory, mem2: Memory, at: nat, b: seq<byte>) {
    forall p :: 0 <= p < 0x8000 ==> mem2[p] == if at <= p < at + |b| then b[p - at] else mem[p]
  }

  /** A store of the bytes b goes through, or raises the exception that translation gives. */
  ghost predicate StoresTo(r: Registers, mem: Memory, i: Instruction, s: StepResult, t: Translated, b: seq<byte>) {
    match t
    case Fault(e) => Raises(r, mem, s, e, Address(r, i))
    case Physical(at, _) => s.Retired? && Leaves(r, s, s.mem) && Overwritten(mem, s.mem, at, b)
  }

  /** SWL and SWR read the word before they write it, and so meet the exceptions of a read first. */
  ghost predicate ReadThenWrite(r: Registers, mem: Memory, i: Instruction, s: StepResult, read: Translated,
                                write: Translated, b: seq<byte>) {
    if ToUnsigned(Address(r, i)) % 4 != 0 then s.Stopped?
    else if read.Fault? then Raises(r, mem, s, read.e, Address(r, i))
    else StoresTo(r, mem, i, s, write, b)
  }

  ghost predicate StoreLaw(m: Mmu, r: Registers, mem: Memory, i: Instruction, s: StepResult) {
    var va, b := Address(r, i), WordBytes(r[i.rt]);
    var read, write := Resolve(m, va, 4, false), Resolve(m, va, 4, true);
    match i.opCode
    case SB => StoresTo(r, mem, i, s, Resolve(m, va, 1, true), b[..1])
    case SH => StoresTo(r, mem, i, s, Resolve(m, va, 2, true), b[..2])
    case SW => StoresTo(r, mem, i, s, write, b)
    case SWL => ReadThenWrite(r, mem, i, s, read, write, b)
    case SWR =>
      var top := if write.Physical? then write.(address := write.address + 3) else write;
      ReadThenWrite(r, mem, i, s, read, top, b[..1])
    case _ => true
  }

  ghost predicate TrapLaw(r: Registers, mem: Memory, i: Instruction, s: StepResult) {
    match i.opCode
    case SYSCALL => Raises(r, mem, s, Syscall, 0)
    case RES | UNIMP => Raises(r, mem, s, IllegalInstr, 0)
    case _ => true
  }

  /** All of them: each opcode has its law in one of these, and is let through by the others. */
  ghost predicate Lawful(m: Mmu, mem: Memory, r: Registers, i: Instruction, s: StepResult) {
    && SumLaw(r, mem, i, s) && WrapLaw(r, mem, i, s) && TestLaw(r, mem, i, s) && BitsLaw(r, mem, i, s)
       && ShiftLaw(r, mem, i, s)
    && HiLoLaw(r, mem, i, s) && BranchLaw(r, mem, i, s) && JumpLaw(r, mem, i, s)
    && LoadLaw(m, r, mem, i, s) && StoreLaw(m, r, mem, i, s) && TrapLaw(r, mem, i, s)
  }

  // ---- Proofs ----

  lemma Wrapped(x: int32, d: int)
    ensures ToUnsigned(Wrap(x + d)) == (ToUnsigned(x) + d) % 0x1_0000_0000
    ensures Wrap(x + d) == FromUnsigned((ToUnsigned(x) + d) % 0x1_0000_0000)
    ensures (Wrap(x + d) - (x + d)) % 0x1_0000_0000 == 0
  {
  }

  /** An instruction that writes a register, Hi, Lo or the next address. */
  lemma Retires(m: Mmu, mem: Memory, r: Registers, i: Instruction, s: StepResult)
    requires Sound(r) && s == Execute(m, mem, r, i) && Meaning(i, OperandsOf(i, r)).Next?
    ensures var a := Meaning(i, OperandsOf(i, r));
            && s.Retired? && s.mem == mem && Puts(r, s.r, a.dest, a.value) && s.r[37] == 0
            && s.r[32] == a.hi && s.r[33] == a.lo && s.r[34] == r[35] && s.r[35] == a.pcAfter && s.r[36] == r[34]
  {
    hide Meaning;
  }

  lemma GivenBy(m: Mmu, mem: Memory, r: Registers, i: Instruction, s: StepResult, dest: Reg, value: int32)
    requires Sound(r) && s == Execute(m, mem, r, i)
    requires Meaning(i, OperandsOf(i, r)) == SetReg(OperandsOf(i, r), dest, value)
    ensures Gives(r, mem, s, dest, value)
  {
    hide Meaning, Execute, Puts, Wrap;
    Retires(m, mem, r, i, s);
    Wrapped(r[35], 4);
  }

  lemma HiLoBy(m: Mmu, mem: Memory, r: Registers, i: Instruction, s: StepResult, hi: int32, lo: int32)
    requires Sound(r) && s == Execute(m, mem, r, i)
    requires Meaning(i, OperandsOf(i, r)) == SetHiLo(OperandsOf(i, r), hi, lo)
    ensures SetsHiLo(r, mem, s) && s.r[32] == hi && s.r[33] == lo
  {
    hide Meaning, Execute, Puts, Wrap;
    Retires(m, mem, r, i, s);
    Wrapped(r[35], 4);
  }

  lemma RaisedBy(m: Mmu, mem: Memory, r: Registers, i: Instruction, s: StepResult, e: ExceptionType)
    requires Sound(r) && s == Execute(m, mem, r, i) && Meaning(i, OperandsOf(i, r)) == Trap(e)
    ensures Raises(r, mem, s, e, 0)
  {
    hide Meaning;
  }

  lemma SumsAreLawful(m: Mmu, mem: Memory, r: Registers, i: Instruction)
    requires Sound(r) && i.opCode in {ADD, ADDI, SUB}
    ensures SumLaw(r, mem, i, Execute(m, mem, r, i))
  {
    hide Meaning, Execute, Gives, Raises, InRange;
    var o, s := OperandsOf(i, r), Execute(m, mem, r, i);
    SumMeanings(i, o);
    var x: int := if i.opCode == ADD then o.a + o.b else if i.opCode == SUB then o.a - o.b else o.a + i.extra;
    if Meaning(i, o) == Trap(Overflow) {
      RaisedBy(m, mem, r, i, s, Overflow);
    } else {
      RangeFits(x);
      GivenBy(m, mem, r, i, s, if i.opCode == ADDI then i.rt else i.rd, x);
    }
  }

  lemma RangeFits(x: int)
    ensures InRange(x) <==> -0x8000_0000 <= x < 0x8000_0000
  {
  }

  lemma WrappedSumsAreLawful(m: Mmu, mem: Memory, r: Registers, i: Instruction)
    requires Sound(r) && i.opCode in {ADDU, ADDIU, SUBU}
    ensures WrapLaw(r, mem, i, Execute(m, mem, r, i))
  {
    hide Meaning, Execute, Gives, Raises, InRange, Wrap, Congruent, SetReg;
    var o, s := OperandsOf(i, r), Execute(m, mem, r, i);
    WrappedSumMeanings(i, o);
    var a: int, b: int, c: int := o.a, o.b, i.extra;
    var x := if i.opCode == ADDU then a + b else if i.opCode == SUBU then a - b else a + c;
    CongruentTo(x);
    GivenBy(m, mem, r, i, s, if i.opCode == ADDIU then i.rt else i.rd, Wrap(x));
  }

  lemma CongruentTo(x: int)
    ensures Congruent(Wrap(x), x)
  {
  }

  lemma TestsAreLawful(m: Mmu, mem: Memory, r: Registers, i: Instruction)
    requires Sound(r) && i.opCode in {SLT, SLTI, SLTU, SLTIU}
    ensures TestLaw(r, mem, i, Execute(m, mem, r, i))
  {
    hide Meaning, Execute, Gives, ToUnsigned;
    var o, s := OperandsOf(i, r), Execute(m, mem, r, i);
    TestMeanings(i, o);
    var v := if i.opCode == SLT then Boolean(o.a < o.b)
             else if i.opCode == SLTI then Boolean(o.a < i.extra)
             else if i.opCode == SLTU then Boolean(ToUnsigned(o.a) < ToUnsigned(o.b))
             else Boolean(ToUnsigned(o.a) < ToUnsigned(i.extra));
    GivenBy(m, mem, r, i, s, if i.opCode in {SLTI, SLTIU} then i.rt else i.rd, v);
  }

  lemma GateBits(g: Gate, x: int32, y: int32)
    ensures forall j: nat :: j < 32 ==> (BitAt(Combine(g, x, y), j) <==> g.Apply(BitAt(x, j), BitAt(y, j)))
  {
    hide Combine, Bit;
    forall j: nat | j < 32
      ensures BitAt(Combine(g, x, y), j) <==> g.Apply(BitAt(x, j), BitAt(y, j))
    {
      CombinedBits(g, x, y, j);
    }
  }

  lemma NotBits(x: int32)
    ensures forall j: nat :: j < 32 ==> (BitAt(Not(x), j) <==> !BitAt(x, j))
  {
    hide Combine, Bit;
    forall j: nat | j < 32
      ensures BitAt(Not(x), j) <==> !BitAt(x, j)
    {
      ConstantWords(x);
      CombinedBits(XorGate, -1, x, j);
      SmallPowers();
      AllOnes(32, j);
    }
  }

  /** The immediate's own low 16 bits are those of the mask. */
  lemma ImmediateBits(i: Instruction)
    ensures forall j: nat :: j < 32 ==> (BitAt(Low16(i.extra), j) <==> ImmediateBit(i, j))
  {
    hide Combine, Bit, Low16;
    HalfMasks(i.extra);
    LowIs(i.extra);
    forall j: nat | j < 32
      ensures BitAt(Low16(i.extra), j) <==> ImmediateBit(i, j)
    {
      CombinedBits(AndGate, i.extra, 0xffff, j);
      SmallPowers();
      if j < 16 {
        AllOnes(16, j);
      } else {
        NoBitAbove(0xffff, 16, j);
      }
    }
  }

  lemma LowIs(x: int32)
    ensures Low16(x) == ToUnsigned(x) % 0x1_0000
  {
  }

  lemma BitsAreLawful(m: Mmu, mem: Memory, r: Registers, i: Instruction)
    requires Sound(r) && i.opCode in {AND, OR, XOR, NOR}
    ensures BitsLaw(r, mem, i, Execute(m, mem, r, i))
  {
    hide Meaning, Execute, Gives, BitAt, Combine, Not, ImmediateBit;
    var o, s := OperandsOf(i, r), Execute(m, mem, r, i);
    LogicMeanings(i, o);
    var g := if i.opCode == AND then AndGate else if i.opCode == XOR then XorGate else OrGate;
    var c := Combine(g, o.a, o.b);
    GateBits(g, o.a, o.b);
    NotBits(c);
    GivenBy(m, mem, r, i, s, i.rd, if i.opCode == NOR then Not(c) else c);
  }

  lemma ImmediateBitsAreLawful(m: Mmu, mem: Memory, r: Registers, i: Instruction)
    requires Sound(r) && i.opCode in {ANDI, ORI, XORI}
    ensures BitsLaw(r, mem, i, Execute(m, mem, r, i))
  {
    hide Meaning, Execute, Gives, BitAt, Combine, Not, ImmediateBit, Low16;
    var o, s := OperandsOf(i, r), Execute(m, mem, r, i);
    LogicMeanings(i, o);
    var g := if i.opCode == ANDI then AndGate else if i.opCode == XORI then XorGate else OrGate;
    GateBits(g, o.a, Low16(i.extra));
    ImmediateBits(i);
    GivenBy(m, mem, r, i, s, i.rt, Combine(g, o.a, Low16(i.extra)));
  }

  lemma ShiftedBits(x: int32, k: nat)
    ensures MovedUp(ShiftLeft(x, k), x, k) && MovedDown(ShiftRightArithmetic(x, k), x, k, x < 0)
    ensures MovedDown(ShiftRightLogical(x, k), x, k, false)
  {
    hide ShiftLeft, ShiftRightArithmetic, ShiftRightLogical, Bit;
    forall j: nat | j < 32
      ensures BitAt(ShiftLeft(x, k), j) <==> j >= k && BitAt(x, j - k)
      ensures BitAt(ShiftRightArithmetic(x, k), j) <==> if j + k < 32 then BitAt(x, j + k) else x < 0
      ensures BitAt(ShiftRightLogical(x, k), j) <==> if j + k < 32 then BitAt(x, j + k) else false
    {
      ShiftLeftBits(x, k, j);
      ShiftRightArithmeticBits(x, k, j);
      ShiftRightLogicalBits(x, k, j);
    }
  }

  lemma ShiftsAreLawful(m: Mmu, mem: Memory, r: Registers, i: Instruction)
    requires Sound(r) && i.opCode in {SLL, SRA, SRL, SLLV, SRAV, SRLV}
    ensures ShiftLaw(r, mem, i, Execute(m, mem, r, i))
  {
    hide Meaning, Execute, Gives, MovedUp, MovedDown, ShiftLeft, ShiftRightArithmetic, ShiftRightLogical, ToUnsigned;
    var o, s := OperandsOf(i, r), Execute(m, mem, r, i);
    ShiftMeanings(i, o);
    var k := if i.opCode in {SLL, SRA, SRL} then ToUnsigned(i.extra) else ToUnsigned(o.a) % 32;
    ShiftedBits(o.b, k);
    var v := if i.opCode in {SLL, SLLV} then ShiftLeft(o.b, k)
             else if i.opCode in {SRA, SRAV} then ShiftRightArithmetic(o.b, k)
             else ShiftRightLogical(o.b, k);
    GivenBy(m, mem, r, i, s, i.rd, v);
  }

  lemma UpperIsLawful(m: Mmu, mem: Memory, r: Registers, i: Instruction)
    requires Sound(r) && i.opCode == LUI
    ensures ShiftLaw(r, mem, i, Execute(m, mem, r, i))
  {
    hide Meaning, Execute, Gives, MovedUp, MovedDown, Wrap, ToUnsigned;
    ShiftMeanings(i, OperandsOf(i, r));
    var x: int := i.extra;
    UpperHalf(i.extra);
    GivenBy(m, mem, r, i, Execute(m, mem, r, i), i.rt, Wrap(x * 0x1_0000));
  }

  lemma UpperHalf(x: int32)
    ensures ToUnsigned(Wrap(x * 0x1_0000)) == ToUnsigned(x) % 0x1_0000 * 0x1_0000
  {
    var high, low := x / 0x1_0000, x % 0x1_0000;
    assert x == 0x1_0000 * high + low && ToUnsigned(x) % 0x1_0000 == low;
    assert x * 0x1_0000 == 0x1_0000_0000 * high + 0x1_0000 * low;
  }

  /** The two words of a product. */
  lemma HalvesOfProduct(a: int32, b: int32)
    ensures Wrap(a * b / 0x1_0000_0000) * 0x1_0000_0000 + ToUnsigned(Wrap(a * b)) == a * b
  {
    ProductBounds(a, b);
    Halves(a * b);
  }

  lemma Halves(p: int)
    requires -0x8000_0000_0000_0000 <= p < 0x8000_0000_0000_0000
    ensures Wrap(p / 0x1_0000_0000) * 0x1_0000_0000 + ToUnsigned(Wrap(p)) == p
  {
  }

  lemma ProductBounds(a: int32, b: int32)
    ensures -0x4000_0000_0000_0000 <= a * b <= 0x4000_0000_0000_0000
  {
    Bounded(Abs(a), Abs(b), 0x8000_0000);
    SignsOfProduct(a, b);
  }

  lemma Bounded(x: nat, y: nat, most: nat)
    requires x <= most && y <= most
    ensures 0 <= x * y <= most * most
  {
    TimesGrows(x, most, y);
    TimesGrows(y, most, most);
  }

  lemma TimesGrows(x: int, y: int, z: int)
    requires 0 <= x <= y && 0 <= z
    ensures 0 <= x * z <= y * z
  {
  }

  lemma SignsOfProduct(a: int, b: int)
    ensures a * b == Abs(a) * Abs(b) || a * b == -(Abs(a) * Abs(b))
  {
  }

  lemma UnsignedHalvesOfProduct(a: uint32, b: uint32)
    ensures ToUnsigned(Wrap(a * b / 0x1_0000_0000)) * 0x1_0000_0000 + ToUnsigned(Wrap(a * b)) == a * b
  {
    Bounded(a, b, 0xffff_ffff);
    UnsignedHalves(a * b);
  }

  lemma UnsignedHalves(p: int)
    requires 0 <= p < 0x1_0000_0000_0000_0000
    ensures ToUnsigned(Wrap(p / 0x1_0000_0000)) * 0x1_0000_0000 + ToUnsigned(Wrap(p)) == p
  {
  }

  lemma ProductsHold(i: Instruction, r: Registers)
    requires i.opCode in {MULT, MULTU}
    ensures var a := Meaning(i, OperandsOf(i, r));
            a.Next? && a == SetHiLo(OperandsOf(i, r), a.hi, a.lo) && HiLoHold(i, r, a.hi, a.lo)
  {
    hide Meaning, Wrap, ToUnsigned, Divides, Advance;
    ProductMeanings(i, OperandsOf(i, r));
    HalvesOfProduct(r[i.rs], r[i.rt]);
    UnsignedHalvesOfProduct(ToUnsigned(r[i.rs]), ToUnsigned(r[i.rt]));
  }

  lemma WrapOf(x: int)
    ensures InRange(x) ==> Wrap(x) == x
    ensures 0 <= x < 0x1_0000_0000 ==> ToUnsigned(Wrap(x)) == x
  {
  }

  lemma UnsignedDivision(a: nat, b: nat)
    requires b > 0
    ensures Divides(a, b, Modulo(a, b), Divide(a, b)) && 0 <= Modulo(a, b) <= a && 0 <= Divide(a, b) <= a
  {
    Divided(a, b, Divide(a, b), Modulo(a, b));
    var q: int := Divide(a, b);
    assert q <= b * q;
  }

  lemma QuotientsHold(i: Instruction, r: Registers)
    requires i.opCode in {DIV, DIVU} && !(i.opCode == DIV && r[i.rs] == -0x8000_0000 && r[i.rt] == -1)
    ensures var a := Meaning(i, OperandsOf(i, r));
            a.Next? && a == SetHiLo(OperandsOf(i, r), a.hi, a.lo) && HiLoHold(i, r, a.hi, a.lo)
  {
    hide Meaning, Wrap, Quotient, Remainder, Divide, Modulo, InRange, Advance;
    var o := OperandsOf(i, r);
    QuotientMeanings(i, o);
    var ua, ub := ToUnsigned(o.a), ToUnsigned(o.b);
    if o.b != 0 && i.opCode == DIVU {
      UnsignedDivision(ua, ub);
      WrapOf(Modulo(ua, ub));
      WrapOf(Divide(ua, ub));
    } else if o.b != 0 {
      DivisionIsExact(o.a, o.b);
      WrapOf(Remainder(o.a, o.b));
      WrapOf(Quotient(o.a, o.b));
    }
  }

  lemma MovesHold(i: Instruction, r: Registers)
    requires i.opCode in {MTHI, MTLO}
    ensures var a := Meaning(i, OperandsOf(i, r));
            a.Next? && a == SetHiLo(OperandsOf(i, r), a.hi, a.lo) && HiLoHold(i, r, a.hi, a.lo)
  {
    hide Meaning, ToUnsigned, Advance;
    MoveMeanings(i, OperandsOf(i, r));
  }

  /** What HiLoHold says is so of every instruction that sets Hi and Lo. */
  lemma HiLoIsRight(i: Instruction, r: Registers)
    requires i.opCode in {MULT, MULTU, DIV, DIVU, MTHI, MTLO}
    requires !(i.opCode == DIV && r[i.rs] == -0x8000_0000 && r[i.rt] == -1)
    ensures var a := Meaning(i, OperandsOf(i, r));
            a.Next? && a == SetHiLo(OperandsOf(i, r), a.hi, a.lo) && HiLoHold(i, r, a.hi, a.lo)
  {
    hide Meaning, HiLoHold, SetHiLo;
    if i.opCode in {MULT, MULTU} {
      ProductsHold(i, r);
    } else if i.opCode in {DIV, DIVU} {
      QuotientsHold(i, r);
    } else {
      MovesHold(i, r);
    }
  }

  lemma WrittenParts(r: Registers, dest: Reg, value: int32, hi: int32, lo: int32)
    ensures var w := Written(r, dest, value, hi, lo);
            w[32] == hi && w[33] == lo && w[dest] == value
  {
  }

  /** What the instructions on Hi and Lo leave in the registers before the pending load arrives. */
  ghost predicate HiLoDone(i: Instruction, r: Registers, r2: Registers) {
    if i.opCode == MFHI then r2[i.rd] == r[32]
    else if i.opCode == MFLO then r2[i.rd] == r[33]
    else HiLoHold(i, r, r2[32], r2[33])
  }

  lemma HiLoIsDone(i: Instruction, r: Registers)
    requires i.opCode in {MFHI, MFLO, MULT, MULTU, DIV, DIVU, MTHI, MTLO}
    ensures match Meaning(i, OperandsOf(i, r))
            case Next(dest, value, hi, lo, pc) => HiLoDone(i, r, Written(r, dest, value, hi, lo))
            case a => a == Stop && i.opCode == DIV
  {
    hide Meaning, HiLoHold, Written, Quotient, Remainder, Divide, Modulo, Wrap, Advance;
    var o := OperandsOf(i, r);
    MoveMeanings(i, o);
    QuotientMeanings(i, o);
    if i.opCode !in {MFHI, MFLO} && !(i.opCode == DIV && r[i.rs] == -0x8000_0000 && r[i.rt] == -1) {
      HiLoIsRight(i, r);
    }
    if Meaning(i, o).Next? {
      var a := Meaning(i, o);
      WrittenParts(r, a.dest, a.value, a.hi, a.lo);
    }
  }

  lemma HiLoIsLawful(m: Mmu, mem: Memory, r: Registers, i: Instruction)
    requires Sound(r) && i.opCode in {MULT, MULTU, DIV, DIVU, MTHI, MTLO}
    ensures HiLoLaw(r, mem, i, Execute(m, mem, r, i))
  {
    hide Meaning, Execute, HiLoHold, SetsHiLo, SetHiLo, Gives;
    if i.opCode == DIV && r[i.rs] == -0x8000_0000 && r[i.rt] == -1 {
      QuotientMeanings(i, OperandsOf(i, r));
      StoppedBy(m, mem, r, i);
    } else {
      HiLoIsRight(i, r);
      var a := Meaning(i, OperandsOf(i, r));
      HiLoBy(m, mem, r, i, Execute(m, mem, r, i), a.hi, a.lo);
    }
  }

  lemma MovesAreLawful(m: Mmu, mem: Memory, r: Registers, i: Instruction)
    requires Sound(r) && i.opCode in {MFHI, MFLO}
    ensures HiLoLaw(r, mem, i, Execute(m, mem, r, i))
  {
    hide Meaning, Execute, SetsHiLo, Gives, HiLoHold;
    MoveMeanings(i, OperandsOf(i, r));
    GivenBy(m, mem, r, i, Execute(m, mem, r, i), i.rd, if i.opCode == MFHI then r[32] else r[33]);
  }

  /** A branch, with or without link. */
  lemma BranchedBy(m: Mmu, mem: Memory, r: Registers, i: Instruction, s: StepResult, link: Reg, taken: bool,
                   extra: int32)
    requires Sound(r) && s == Execute(m, mem, r, i)
    requires var o := OperandsOf(i, r);
             Meaning(i, o) == (if link == 0 then Branch(o, taken, extra) else BranchAndLink(o, taken, extra))
    requires link == 0 || link == 31
    ensures Goes(r, mem, s, link, taken, extra)
  {
    hide Meaning, Execute, Wrap;
    Retires(m, mem, r, i, s);
    var e: int := extra;
    Wrapped(r[35], 4);
    Wrapped(r[35], 4 * e);
  }

  lemma BranchesAreLawful(m: Mmu, mem: Memory, r: Registers, i: Instruction)
    requires Sound(r) && i.opCode in {BEQ, BNE, BGEZ, BGTZ, BLEZ, BLTZ}
    ensures BranchLaw(r, mem, i, Execute(m, mem, r, i))
  {
    hide Meaning, Execute, Goes, Branch;
    var o, s := OperandsOf(i, r), Execute(m, mem, r, i);
    BranchMeanings(i, o);
    match i.opCode
    case BEQ => BranchedBy(m, mem, r, i, s, 0, o.a == o.b, i.extra);
    case BNE => BranchedBy(m, mem, r, i, s, 0, o.a != o.b, i.extra);
    case BGEZ => BranchedBy(m, mem, r, i, s, 0, o.a >= 0, i.extra);
    case BGTZ => BranchedBy(m, mem, r, i, s, 0, o.a > 0, i.extra);
    case BLEZ => BranchedBy(m, mem, r, i, s, 0, o.a <= 0, i.extra);
    case BLTZ => BranchedBy(m, mem, r, i, s, 0, o.a < 0, i.extra);
  }

  lemma ReturnIs(r: Registers)
    ensures Advance(r[35]) == Return(r)
  {
    hide Wrap;
    Wrapped(r[35], 4);
  }

  lemma LinkingBranchesAreLawful(m: Mmu, mem: Memory, r: Registers, i: Instruction)
    requires Sound(r) && i.opCode in {BGEZAL, BLTZAL}
    ensures BranchLaw(r, mem, i, Execute(m, mem, r, i))
  {
    hide Meaning, Execute, Goes, BranchAndLink, Advance, Return;
    var o, s := OperandsOf(i, r), Execute(m, mem, r, i);
    BranchMeanings(i, o);
    ReturnIs(r);
    match i.opCode
    case BGEZAL => BranchedBy(m, mem, r, i, s, 31, Linked(o, i, 31) >= 0, i.extra);
    case BLTZAL => BranchedBy(m, mem, r, i, s, 31, Linked(o, i, 31) < 0, i.extra);
  }

  lemma Region(n: nat, extra: nat)
    requires n < 0x1_0000_0000 && extra < 0x400_0000
    ensures var t := ToUnsigned(Wrap(n - n % 0x1000_0000 + 4 * extra));
            t / 0x1000_0000 == n / 0x1000_0000 && t % 0x1000_0000 == 4 * extra
  {
    var top, low := n / 0x1000_0000, n % 0x1000_0000;
    assert n == 0x1000_0000 * top + low && top < 16;
    var t := 0x1000_0000 * top + 4 * extra;
    WrapOf(t);
    assert t / 0x1000_0000 == top && t % 0x1000_0000 == 4 * extra;
  }

  lemma NothingPut(r: Registers, r2: Registers, value: int)
    ensures Puts(r, r2, 0, 0) <==> Puts(r, r2, 0, value)
  {
  }

  lemma LandsInRegion(r: Registers, i: Instruction, s: StepResult)
    requires 0 <= i.extra < 0x400_0000 && s.Retired? && s.r[35] == JumpTo(OperandsOf(i, r), i.extra)
    ensures InRegion(r, s, i.extra)
  {
    hide Advance, Return, Wrap, ToUnsigned;
    ReturnIs(r);
    Region(ToUnsigned(Advance(r[35])), i.extra);
  }

  lemma JumpsAreLawful(m: Mmu, mem: Memory, r: Registers, i: Instruction)
    requires Sound(r) && i.opCode in {J, JAL} && 0 <= i.extra < 0x400_0000
    ensures JumpLaw(r, mem, i, Execute(m, mem, r, i))
  {
    hide Meaning, Execute, Advance, Return, Puts, Wrap, Linked, JumpTo, InRegion;
    var o, s := OperandsOf(i, r), Execute(m, mem, r, i);
    JumpMeanings(i, o);
    Retires(m, mem, r, i, s);
    ReturnIs(r);
    NothingPut(r, s.r, Return(r));
    LandsInRegion(r, i, s);
  }

  lemma RegisterJumpsAreLawful(m: Mmu, mem: Memory, r: Registers, i: Instruction)
    requires Sound(r) && i.opCode in {JR, JALR}
    ensures JumpLaw(r, mem, i, Execute(m, mem, r, i))
  {
    hide Meaning, Execute, Advance, Return, Puts, Wrap, InRegion;
    var o, s := OperandsOf(i, r), Execute(m, mem, r, i);
    JumpMeanings(i, o);
    Retires(m, mem, r, i, s);
    ReturnIs(r);
    NothingPut(r, s.r, Return(r));
  }

  lemma TrapsAreLawful(m: Mmu, mem: Memory, r: Registers, i: Instruction)
    requires Sound(r) && i.opCode in {SYSCALL, RES, UNIMP}
    ensures TrapLaw(r, mem, i, Execute(m, mem, r, i))
  {
    hide Meaning, Execute, Raises;
    TrapMeanings(i, OperandsOf(i, r));
    RaisedBy(m, mem, r, i, Execute(m, mem, r, i), if i.opCode == SYSCALL then Syscall else IllegalInstr);
  }

  lemma AddressIs(r: Registers, i: Instruction)
    ensures Wrap(r[i.rs] + i.extra) == Address(r, i)
    ensures ToUnsigned(Address(r, i)) % 4 == 0 <==> Address(r, i) % 4 == 0
  {
    Wrapped(r[i.rs], i.extra);
  }

  /** A load goes as translation says, and what is pending then is made of the bytes it found. */
  lemma LoadedBy(m: Mmu, mem: Memory, r: Registers, i: Instruction, s: StepResult, kind: LoadKind)
    requires Sound(r) && s == Execute(m, mem, r, i)
    requires Meaning(i, OperandsOf(i, r)) == Load(kind, Address(r, i), i.rt)
    ensures var t := Resolve(m, Address(r, i), kind.Size(), false);
            && LoadsFrom(r, mem, i, s, t)
            && (t.Physical? ==>
                  var kept := if r[37] == i.rt then r[38] else r[i.rt];
                  s.r[38] == kind.Value(Fetch(mem, t.address, kind.Size()), kept))
  {
    hide Meaning, Resolve, Fetch, Wrap, Address;
    Wrapped(r[35], 4);
  }

  lemma ByteValues(mem: Memory, at: nat, kept: int32)
    requires at + 1 <= 0x8000
    ensures SignedIn(SignedByte.Value(Fetch(mem, at, 1), kept), mem[at], 0x80)
    ensures UnsignedByte.Value(Fetch(mem, at, 1), kept) == mem[at]
  {
  }

  lemma HalfValues(mem: Memory, at: nat, kept: int32)
    requires at + 2 <= 0x8000
    ensures SignedIn(SignedHalf.Value(Fetch(mem, at, 2), kept), Half(mem, at), 0x8000)
    ensures UnsignedHalf.Value(Fetch(mem, at, 2), kept) == Half(mem, at)
  {
  }

  lemma WordValues(mem: Memory, at: nat, kept: int32)
    requires at + 4 <= 0x8000
    ensures ToUnsigned(FullWord.Value(Fetch(mem, at, 4), kept)) == Word(mem, at)
    ensures LowestReplaced(RightWord.Value(Fetch(mem, at, 4), kept), kept, mem[at + 3])
  {
  }

  lemma ByteLoadsAreLawful(m: Mmu, mem: Memory, r: Registers, i: Instruction)
    requires Sound(r) && i.opCode in {LB, LBU}
    ensures LoadLaw(m, r, mem, i, Execute(m, mem, r, i))
  {
    hide Meaning, Execute, Resolve, Address, Wrap, Fetch, LoadsFrom, SignedIn, LoadKind.Value;
    var s, t := Execute(m, mem, r, i), Resolve(m, Address(r, i), 1, false);
    AddressIs(r, i);
    LoadMeanings(i, OperandsOf(i, r), Address(r, i));
    LoadedBy(m, mem, r, i, s, if i.opCode == LB then SignedByte else UnsignedByte);
    if t.Physical? {
      ByteValues(mem, t.address, if r[37] == i.rt then r[38] else r[i.rt]);
    }
  }

  lemma HalfLoadsAreLawful(m: Mmu, mem: Memory, r: Registers, i: Instruction)
    requires Sound(r) && i.opCode in {LH, LHU}
    ensures LoadLaw(m, r, mem, i, Execute(m, mem, r, i))
  {
    hide Meaning, Execute, Resolve, Address, Wrap, Fetch, LoadsFrom, SignedIn, LoadKind.Value, Half;
    var s, t := Execute(m, mem, r, i), Resolve(m, Address(r, i), 2, false);
    AddressIs(r, i);
    LoadMeanings(i, OperandsOf(i, r), Address(r, i));
    LoadedBy(m, mem, r, i, s, if i.opCode == LH then SignedHalf else UnsignedHalf);
    if t.Physical? {
      HalfValues(mem, t.address, if r[37] == i.rt then r[38] else r[i.rt]);
    }
  }

  lemma StoppedBy(m: Mmu, mem: Memory, r: Registers, i: Instruction)
    requires Sound(r) && Meaning(i, OperandsOf(i, r)) == Stop
    ensures Execute(m, mem, r, i).Stopped?
  {
    hide Meaning;
  }

  lemma WordLoadsAreLawful(m: Mmu, mem: Memory, r: Registers, i: Instruction)
    requires Sound(r) && i.opCode in {LW, LWL, LWR}
    ensures LoadLaw(m, r, mem, i, Execute(m, mem, r, i))
  {
    hide Meaning, Execute, Resolve, Address, Wrap, Fetch, LoadsFrom, LowestReplaced, LoadKind.Value, Word, ToUnsigned;
    var s, t := Execute(m, mem, r, i), Resolve(m, Address(r, i), 4, false);
    AddressIs(r, i);
    LoadMeanings(i, OperandsOf(i, r), Address(r, i));
    PartLoadMeanings(i, OperandsOf(i, r), Address(r, i));
    if i.opCode != LW && Address(r, i) % 4 != 0 {
      StoppedBy(m, mem, r, i);
    } else {
      LoadedBy(m, mem, r, i, s, if i.opCode == LWR then RightWord else FullWord);
      if t.Physical? {
        WordValues(mem, t.address, if r[37] == i.rt then r[38] else r[i.rt]);
      }
    }
  }

  /** A store goes as translation says, and changes just its bytes. */
  lemma StoredBy(m: Mmu, mem: Memory, r: Registers, i: Instruction, s: StepResult, kind: StoreKind)
    requires Sound(r) && s == Execute(m, mem, r, i) && !kind.ReadsFirst()
    requires Meaning(i, OperandsOf(i, r)) == Store(kind, Address(r, i), r[i.rt])
    ensures StoresTo(r, mem, i, s, Resolve(m, Address(r, i), kind.Size(), true), WordBytes(r[i.rt])[..kind.Size()])
  {
    hide Meaning, Resolve, Fetch, Wrap, Address, Stored, ByteOf, WordBytes;
    Wrapped(r[35], 4);
    var t := Resolve(m, Address(r, i), kind.Size(), true);
    if t.Physical? {
      StoredBytes(mem, t.address, kind.Size(), r[i.rt]);
    }
  }

  lemma StoredBytes(mem: Memory, at: nat, size: nat, v: int32)
    requires IsSize(size) && at + size <= 0x8000
    ensures Overwritten(mem, Stored(mem, at, size, ToUnsigned(v)), at, WordBytes(v)[..size])
  {
    hide Stored, ByteOf, WordBytes;
    BytesOf(v);
  }

  lemma BytesOf(v: int32)
    ensures forall k :: 0 <= k < 4 ==> WordBytes(v)[k] == ByteOf(ToUnsigned(v), k)
  {
  }

  lemma StoresAreLawful(m: Mmu, mem: Memory, r: Registers, i: Instruction)
    requires Sound(r) && i.opCode in {SB, SH, SW}
    ensures StoreLaw(m, r, mem, i, Execute(m, mem, r, i))
  {
    hide Meaning, Execute, Resolve, Address, Wrap, StoresTo, WordBytes;
    var s := Execute(m, mem, r, i);
    AddressIs(r, i);
    StoreMeanings(i, OperandsOf(i, r), Address(r, i));
    assert WordBytes(r[i.rt])[..4] == WordBytes(r[i.rt]);
    StoredBy(m, mem, r, i, s, if i.opCode == SB then StoreByte else if i.opCode == SH then StoreHalf else StoreWord);
  }

  /** SWR puts the register's lowest byte at the top of the word, and leaves the other three as it read them. */
  lemma TopByteStored(mem: Memory, at: nat, v: int32)
    requires at + 4 <= 0x8000
    ensures Overwritten(mem, Stored(mem, at, 4, StoreKind.StoreRight.Value(v, Fetch(mem, at, 4))), at + 3,
                        WordBytes(v)[..1])
  {
    hide Stored, Fetch, ByteOf;
    var was := Fetch(mem, at, 4);
    FetchBytes(mem, at, 4, 0);
    FetchBytes(mem, at, 4, 1);
    FetchBytes(mem, at, 4, 2);
    TopByteReplaced(was, v);
  }

  lemma TopByteReplaced(was: uint32, v: int32)
    ensures var w := StoreKind.StoreRight.Value(v, was);
            && ByteOf(w, 0) == ByteOf(was, 0) && ByteOf(w, 1) == ByteOf(was, 1) && ByteOf(w, 2) == ByteOf(was, 2)
            && ByteOf(w, 3) == ToUnsigned(v) % 0x100
  {
    hide ByteOf, Assemble;
    BytesAssembled(was);
    var b0, b1, b2, b3 := ByteOf(was, 0), ByteOf(was, 1), ByteOf(was, 2), ByteOf(was, 3);
    LowThree(b0, b1, b2, b3);
    AssembledBytes(b0, b1, b2, ToUnsigned(v) % 0x100);
    LowThree(b0, b1, b2, ToUnsigned(v) % 0x100);
  }

  lemma LowThree(b0: byte, b1: byte, b2: byte, b3: byte)
    ensures Assemble(b0, b1, b2, b3) % 0x100_0000 == Assemble(b0, b1, b2, 0)
    ensures Assemble(b0, b1, b2, b3) == Assemble(b0, b1, b2, 0) + b3 * 0x100_0000
  {
    var low: int, b: int := Assemble(b0, b1, b2, 0), b3;
    assert Assemble(b0, b1, b2, b3) == low + 0x100_0000 * b && 0 <= low < 0x100_0000;
  }

  lemma PartStoredBy(m: Mmu, mem: Memory, r: Registers, i: Instruction, s: StepResult, kind: StoreKind)
    requires Sound(r) && s == Execute(m, mem, r, i) && kind.ReadsFirst()
    requires Meaning(i, OperandsOf(i, r)) == Store(kind, Address(r, i), r[i.rt])
    ensures var read, write := Resolve(m, Address(r, i), 4, false), Resolve(m, Address(r, i), 4, true);
            if read.Fault? then Raises(r, mem, s, read.e, Address(r, i))
            else if write.Fault? then Raises(r, mem, s, write.e, Address(r, i))
            else s.Retired? && Leaves(r, s, s.mem) && write.address == read.address
                 && s.mem == Stored(mem, write.address, 4, kind.Value(r[i.rt], Fetch(mem, read.address, 4)))
  {
    hide Meaning, Resolve, Fetch, Wrap, Address, Stored, StoreKind.Value;
    Wrapped(r[35], 4);
    SamePlace(m, Address(r, i));
  }

  lemma SamePlace(m: Mmu, va: int32)
    ensures var read, write := Resolve(m, va, 4, false), Resolve(m, va, 4, true);
            read.Physical? && write.Physical? ==> write.address == read.address
  {
    hide LookUp;
  }

  lemma PartStoresAreLawful(m: Mmu, mem: Memory, r: Registers, i: Instruction)
    requires Sound(r) && i.opCode in {SWL, SWR}
    ensures StoreLaw(m, r, mem, i, Execute(m, mem, r, i))
  {
    hide Meaning, Execute, Resolve, Address, Wrap, WordBytes, Stored, Fetch, Raises, Leaves, Overwritten, ToUnsigned;
    var s, write := Execute(m, mem, r, i), Resolve(m, Address(r, i), 4, true);
    AddressIs(r, i);
    PartStoreMeanings(i, OperandsOf(i, r), Address(r, i));
    if Address(r, i) % 4 != 0 {
      StoppedBy(m, mem, r, i);
    } else {
      PartStoredBy(m, mem, r, i, s, if i.opCode == SWL then StoreLeft else StoreRight);
      if write.Physical? {
        TopByteStored(mem, write.address, r[i.rt]);
        StoredBytes(mem, write.address, 4, r[i.rt]);
        assert WordBytes(r[i.rt])[..4] == WordBytes(r[i.rt]);
      }
    }
  }

  /** Every instruction that can be fetched does what its law says. */
  lemma EveryInstructionIsLawful(m: Mmu, mem: Memory, r: Registers, i: Instruction)
    requires Sound(r) && Fetches(m, mem, r, i)
    ensures Lawful(m, mem, r, i, Step(m, mem, r))
  {
    hide Execute, Resolve, Fetch, Decode, SumLaw, WrapLaw, TestLaw, BitsLaw, ShiftLaw, HiLoLaw, BranchLaw, JumpLaw,
         LoadLaw, StoreLaw,
         TrapLaw;
    assert Step(m, mem, r) == Execute(m, mem, r, i);
    LawsOfOthers(m, mem, r, i, Execute(m, mem, r, i));
    LawsOfOthersStill(m, mem, r, i, Execute(m, mem, r, i));
    match i.opCode
    case ADD | ADDI | SUB => SumsAreLawful(m, mem, r, i);
    case ADDU | ADDIU | SUBU => WrappedSumsAreLawful(m, mem, r, i);
    case SLT | SLTI | SLTU | SLTIU => TestsAreLawful(m, mem, r, i);
    case AND | OR | XOR | NOR => BitsAreLawful(m, mem, r, i);
    case ANDI | ORI | XORI => ImmediateBitsAreLawful(m, mem, r, i);
    case SLL | SRA | SRL | SLLV | SRAV | SRLV => ShiftsAreLawful(m, mem, r, i);
    case LUI => UpperIsLawful(m, mem, r, i);
    case MULT | MULTU | DIV | DIVU | MTHI | MTLO => HiLoIsLawful(m, mem, r, i);
    case MFHI | MFLO => MovesAreLawful(m, mem, r, i);
    case BEQ | BNE | BGEZ | BGTZ | BLEZ | BLTZ => BranchesAreLawful(m, mem, r, i);
    case BGEZAL | BLTZAL => LinkingBranchesAreLawful(m, mem, r, i);
    case JR | JALR => RegisterJumpsAreLawful(m, mem, r, i);
    case J | JAL =>
      DecodedJump(Fetch(mem, Resolve(m, r[34], 4, false).address, 4));
      JumpsAreLawful(m, mem, r, i);
    case LB | LBU => ByteLoadsAreLawful(m, mem, r, i);
    case LH | LHU => HalfLoadsAreLawful(m, mem, r, i);
    case LW | LWL | LWR => WordLoadsAreLawful(m, mem, r, i);
    case SB | SH | SW => StoresAreLawful(m, mem, r, i);
    case SWL | SWR => PartStoresAreLawful(m, mem, r, i);
    case SYSCALL | RES | UNIMP => TrapsAreLawful(m, mem, r, i);
    case RFE =>
  }

  lemma DecodedJump(v: uint32)
    ensures Decode(v).opCode in {J, JAL} ==> 0 <= Decode(v).extra < 0x400_0000
  {
    hide OpCode, Extra;
  }

  /** An opcode's law is in one place. */
  lemma LawsOfOthers(m: Mmu, mem: Memory, r: Registers, i: Instruction, s: StepResult)
    ensures i.opCode !in {ADD, ADDI, SUB} ==> SumLaw(r, mem, i, s)
    ensures i.opCode !in {ADDU, ADDIU, SUBU} ==> WrapLaw(r, mem, i, s)
    ensures i.opCode !in {SLT, SLTI, SLTU, SLTIU} ==> TestLaw(r, mem, i, s)
    ensures i.opCode !in {AND, OR, XOR, NOR, ANDI, ORI, XORI} ==> BitsLaw(r, mem, i, s)
    ensures i.opCode !in {SLL, SRA, SRL, SLLV, SRAV, SRLV, LUI} ==> ShiftLaw(r, mem, i, s)
    ensures i.opCode !in {MULT, MULTU, DIV, DIVU, MFHI, MFLO, MTHI, MTLO} ==> HiLoLaw(r, mem, i, s)
  {
    hide Gives, Raises, SetsHiLo, HiLoHold, MovedUp, MovedDown, BitAt, InRange, ToUnsigned;
  }

  lemma LawsOfOthersStill(m: Mmu, mem: Memory, r: Registers, i: Instruction, s: StepResult)
    ensures i.opCode !in {BEQ, BNE, BGEZ, BGTZ, BLEZ, BLTZ, BGEZAL, BLTZAL} ==> BranchLaw(r, mem, i, s)
    ensures i.opCode !in {J, JAL, JR, JALR} ==> JumpLaw(r, mem, i, s)
    ensures i.opCode !in {LB, LBU, LH, LHU, LW, LWL, LWR} ==> LoadLaw(m, r, mem, i, s)
    ensures i.opCode !in {SB, SH, SW, SWL, SWR} ==> StoreLaw(m, r, mem, i, s)
    ensures i.opCode !in {SYSCALL, RES, UNIMP} ==> TrapLaw(r, mem, i, s)
  {
    hide Raises, Turns, Goes, LoadsFrom, StoresTo, ReadThenWrite, Resolve, Address, ToUnsigned, WordBytes;
  }

  /** An instruction that cannot be fetched raises the exception of its fetch. */
  lemma FetchRaises(m: Mmu, mem: Memory, r: Registers)
    requires Sound(r)
    ensures var t := Resolve(m, r[34], 4, false);
            t.Fault? ==> Raises(r, mem, Step(m, mem, r), t.e, r[34])
  {
    hide Resolve, Execute, Decode, Fetch;
  }
}
