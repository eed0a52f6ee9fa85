/** The simulated machine: memory and registers in place, instruction by instruction, against MachineSemantics. */
module Machines {
  import opened Bytes
  import opened BitOps
  import opened Multiplication
  import opened Translation
  import opened TranslationLaws
  import opened Instructions
  import opened MachineSemantics
  import InstructionLaws

  /** How far an instruction got: to its end, to an exception (the kernel's handler has been called), or to an
      assertion of the simulator. */
  datatype Flow = Done | Excepted | Halted

  /** hi:lo holds the product p. */
  lemma ProductWords(a: int, b: int, hi: int32, lo: int32)
    requires a * b == SignedDoubleWord(hi, lo)
    ensures hi == Wrap(a * b / 0x1_0000_0000) && lo == Wrap(a * b)
  {
    hide Wrap, SignedDoubleWord;
    SignedWords(a * b, hi, lo);
  }

  lemma SignedWords(p: int, hi: int32, lo: int32)
    requires p == SignedDoubleWord(hi, lo)
    ensures hi == Wrap(p / 0x1_0000_0000) && lo == Wrap(p)
  {
  }

  lemma UnsignedProductWords(p: int, hi: int32, lo: int32)
    requires p == DoubleWord(ToUnsigned(hi), ToUnsigned(lo))
    ensures hi == Wrap(p / 0x1_0000_0000) && lo == Wrap(p)
  {
  }

  /** A jump's new address by masks is the one by arithmetic. */
  lemma JumpsThere(pcAfter: int32, extra: int32)
    requires 0 <= extra < 0x400_0000
    ensures var pc := ToUnsigned(pcAfter);
            Or(And(pcAfter, -0x1000_0000), 4 * extra) == Wrap(pc - pc % 0x1000_0000 + 4 * extra)
  {
    hide And, Or;
    JumpTarget(pcAfter, 4 * extra);
  }

  /** An access off its boundary is refused before anything else is looked at. */
  lemma Misaligned(m: Mmu, addr: int32, size: int)
    requires size == 2 || size == 4
    ensures ToUnsigned(addr) % size != 0 ==> Resolve(m, addr, size, false) == Fault(AddressError)
  {
  }

  lemma AlignedWord(addr: int32)
    ensures ToUnsigned(addr) % 4 == 0 <==> addr % 4 == 0
  {
  }

  lemma SameMappingSelf(m: Mmu)
    ensures SameMapping(m, m)
  {
  }

  /** What an instruction does does not depend on use and dirty bits. */
  lemma SameExecute(a: Mmu, b: Mmu, mem: Memory, r: Registers, i: Instruction)
    requires SameMapping(a, b) && 0 <= r[37] < 32
    ensures Execute(a, mem, r, i) == Execute(b, mem, r, i)
  {
    hide Meaning, Retire, Trapped, Resolve, Fetch, Stored, SameMapping, Written;
    match Meaning(i, OperandsOf(i, r))
    case Load(kind, addr, target) =>
      SameResolve(a, b, addr, kind.Size(), false);
    case Store(kind, addr, v) =>
      SameResolve(a, b, addr, kind.Size(), false);
      SameResolve(a, b, addr, kind.Size(), true);
    case _ =>
  }

  class Machine {
    const charIsSigned: bool
    const mainMemory: array<byte>
    const tlb: array?<TranslationEntry>
    var pageTable: array?<TranslationEntry>
    var pageTableSize: nat
    var registers: Registers
    ghost var handled: seq<ExceptionType>

    /** Just one of page table and TLB is there, as the kernel sets it up. */
    ghost predicate Valid()
      reads this
    {
      && mainMemory.Length == 0x8000
      && (tlb == null <==> pageTable != null)
      && (tlb != null ==> tlb.Length == 4)
      && (pageTable != null ==> pageTableSize <= pageTable.Length)
      && 0 <= registers[37] < 32
    }

    ghost function Translations(): Mmu
      requires Valid()
      reads this, tlb, pageTable
    {
      if tlb != null then Tlb(tlb[..]) else PageTable(pageTable[..pageTableSize])
    }

    ghost function Contents(): Memory
      requires Valid()
      reads this, mainMemory
    {
      mainMemory[..]
    }

    method DelayedLoad(nextReg: int32, nextValue: int32)
      requires 0 <= registers[37] < 32
      modifies this`registers
      ensures registers == MachineSemantics.DelayedLoad(old(registers), nextReg, nextValue)
    {
      registers := registers[registers[LoadReg] := registers[LoadValueReg]];
      registers := registers[LoadReg := nextReg];
      registers := registers[LoadValueReg := nextValue];
      registers := registers[0 := 0];
    }

    /** RaiseException, up to the kernel's handler, whose calls handled records. */
    method RaiseException(which: ExceptionType, badVAddr: int32)
      requires 0 <= registers[37] < 32
      modifies this`registers, this`handled
      ensures registers == Trapped(old(registers), badVAddr) && registers[37] == 0 && handled == old(handled) + [which]
    {
      registers := registers[BadVAddrReg := badVAddr];
      DelayedLoad(0, 0);
      handled := handled + [which];
    }

    /** Translate's search: the first valid entry for the page. */
    method SearchTlb(vpn: nat) returns (found: int)
      requires Valid() && tlb != null
      ensures found == FirstMatch(tlb[..], vpn, 0)
    {
      for i := 0 to TLB_SIZE
        invariant FirstMatch(tlb[..], vpn, 0) == FirstMatch(tlb[..], vpn, i)
      {
        if tlb[i].valid && tlb[i].virtualPage == vpn {
          return i;
        }
      }
      return -1;
    }

    method Translate(virtAddr: int32, size: int, writing: bool) returns (t: Translated)
      requires Valid()
      modifies tlb, pageTable
      ensures t == Resolve(old(Translations()), virtAddr, size, writing)
      ensures IsSize(size) ==> TranslatesTo(old(Translations()), ToUnsigned(virtAddr), size, writing, t)
      ensures SameMapping(old(Translations()), Translations())
      ensures t.Fault? ==> Translations() == old(Translations())
      ensures t.Physical? ==>
                var was := old(Translations()).entries;
                var e := was[t.index];
                Translations().entries == was[t.index := e.(use := true, dirty := e.dirty || writing)]
    {
      hide FirstMatch, SameMapping, TranslatesTo;
      ghost var m0 := Translations();
      SameMappingSelf(m0);
      if IsSize(size) {
        TranslatedExactly(m0, virtAddr, size, writing, Resolve(m0, virtAddr, size, writing));
      }
      var u := ToUnsigned(virtAddr);
      if (size == 4 && u % 4 != 0) || (size == 2 && u % 2 != 0) {
        return Fault(AddressError);
      }
      var vpn, offset := u / 128, u % 128;
      var entries: array<TranslationEntry>;
      var index: nat;
      if tlb == null {
        if vpn >= pageTableSize {
          return Fault(AddressError);
        } else if !pageTable[vpn].valid {
          return Fault(PageFault);
        }
        entries, index := pageTable, vpn;
      } else {
        var found := SearchTlb(vpn);
        if found == -1 {
          return Fault(PageFault);
        }
        entries, index := tlb, found;
      }
      var entry := entries[index];
      if entry.readOnly && writing {
        return Fault(ReadOnly);
      }
      var pageFrame := entry.physicalPage;
      if pageFrame >= NUM_PHYS_PAGES {
        return Fault(BusError);
      }
      entries[index] := entries[index].(use := true);
      if writing {
        entries[index] := entries[index].(dirty := true);
      }
      UsedEntry(m0, Translations(), index, writing);
      t := Physical(pageFrame * 128 + offset, index);
    }

    lemma UsedEntry(m: Mmu, m2: Mmu, index: nat, writing: bool)
      requires index < |m.entries| && (m.Tlb? <==> m2.Tlb?)
      requires var e := m.entries[index]; m2.entries == m.entries[index := e.(use := true, dirty := e.dirty || writing)]
      ensures SameMapping(m, m2)
    {
    }

    /** A C char, signed or not, as an int. */
    function FromChar(b: byte): int32 {
      if charIsSigned && b >= 0x80 then b - 0x100 else b
    }

    method ReadMem(addr: int32, size: int) returns (ok: bool, value: int32)
      requires Valid() && IsSize(size)
      modifies this`registers, this`handled, tlb, pageTable
      ensures Valid() && SameMapping(old(Translations()), Translations())
      ensures var t := Resolve(old(Translations()), addr, size, false);
              && (ok <==> t.Physical?)
              && (ok ==> registers == old(registers) && handled == old(handled))
              && (ok ==> var v := Fetch(Contents(), t.address, size);
                         if size == 1 then ToUnsigned(value) % 0x100 == v else ToUnsigned(value) == v)
              && (!ok ==> registers == Trapped(old(registers), addr) && handled == old(handled) + [t.e])
    {
      hide Resolve;
      value := 0;
      var t := Translate(addr, size, false);
      if t.Fault? {
        RaiseException(t.e, addr);
        return false, value;
      }
      var at := t.address;
      if size == 1 {
        value := FromChar(mainMemory[at]);
      } else if size == 2 {
        var low: int, high: int := mainMemory[at], mainMemory[at + 1];
        value := low + 0x100 * high;
      } else {
        AssembledBytes(mainMemory[at], mainMemory[at + 1], mainMemory[at + 2], mainMemory[at + 3]);
        value := FromUnsigned(Assemble(mainMemory[at], mainMemory[at + 1], mainMemory[at + 2], mainMemory[at + 3]));
      }
      ok := true;
    }

    /** The stores that end WriteMem, in three widths, on a little-endian host. */
    method PutBytes(at: nat, size: int, value: int32)
      requires Valid() && IsSize(size) && at + size <= 0x8000
      modifies mainMemory
      ensures Contents() == Stored(old(Contents()), at, size, ToUnsigned(value))
    {
      hide Resolve, And;
      var v := ToUnsigned(value);
      if size == 1 {
        ByteMasks(value);
        mainMemory[at] := And(value, 0xff);
      } else if size == 2 {
        mainMemory[at], mainMemory[at + 1] := ByteOf(v, 0), ByteOf(v, 1);
      } else {
        mainMemory[at], mainMemory[at + 1] := ByteOf(v, 0), ByteOf(v, 1);
        mainMemory[at + 2], mainMemory[at + 3] := ByteOf(v, 2), ByteOf(v, 3);
      }
    }

    method WriteMem(addr: int32, size: int, value: int32) returns (ok: bool)
      requires Valid() && IsSize(size)
      modifies this`registers, this`handled, mainMemory, tlb, pageTable
      ensures Valid() && SameMapping(old(Translations()), Translations())
      ensures var t := Resolve(old(Translations()), addr, size, true);
              && (ok <==> t.Physical?)
              && (ok ==> registers == old(registers) && handled == old(handled))
              && (ok ==> Contents() == Stored(old(Contents()), t.address, size, ToUnsigned(value)))
              && (!ok ==> registers == Trapped(old(registers), addr) && handled == old(handled) + [t.e])
              && (!ok ==> Contents() == old(Contents()))
      ensures forall x: uint32 :: DistinctFrames(old(Translations())) && ReadOnlyPage(old(Translations()), x) ==>
                VirtualByte(old(Translations()), Contents(), x) == VirtualByte(old(Translations()), old(Contents()), x)
    {
      hide Resolve, Stored, DistinctFrames, ReadOnlyPage, VirtualByte;
      var t := Translate(addr, size, true);
      if t.Fault? {
        RaiseException(t.e, addr);
        return false;
      }
      forall x: uint32 | DistinctFrames(old(Translations())) && ReadOnlyPage(old(Translations()), x)
        ensures VirtualByte(old(Translations()), Stored(old(Contents()), t.address, size, ToUnsigned(value)), x)
             == VirtualByte(old(Translations()), old(Contents()), x)
      {
        ReadOnlyKept(old(Translations()), old(Contents()), addr, size, ToUnsigned(value), x);
      }
      PutBytes(t.address, size, value);
      ok := true;
    }

    /** What the instruction must come to, if it neither loads nor stores. */
    ghost predicate Means(r0: Registers, handled0: seq<ExceptionType>, i: Instruction, flow: Flow, pcAfter: int32)
      requires 0 <= r0[37] < 32
      reads this`registers, this`handled
    {
      match Meaning(i, OperandsOf(i, r0))
      case Stop => flow == Halted
      case Trap(e) => flow == Excepted && registers == Trapped(r0, 0) && handled == handled0 + [e]
      case Next(dest, value, hi, lo, pc) =>
        flow == Done && registers == Written(r0, dest, value, hi, lo) && pcAfter == pc && handled == handled0
      case _ => false
    }

    /** registers[dest] = value. */
    method SetRegister(dest: Reg, value: int32)
      modifies this`registers
      ensures registers == Written(old(registers), dest, value, old(registers)[32], old(registers)[33])
      ensures registers[37] == old(registers)[37]
    {
      registers := registers[dest := value];
    }

    /** registers[HiReg] = hi and registers[LoReg] = lo. */
    method SetProduct(hi: int32, lo: int32)
      requires registers[0] == 0
      modifies this`registers
      ensures registers == Written(old(registers), 0, 0, hi, lo)
      ensures registers[37] == old(registers)[37]
    {
      registers := registers[HiReg := hi][LoReg := lo];
    }

    /** ADD, which traps on overflow. */
    method CheckedAdd(i: Instruction) returns (flow: Flow)
      requires Valid() && registers[0] == 0 && i.opCode == ADD
      modifies this`registers, this`handled
      ensures 0 <= registers[37] < 32
      ensures Means(old(registers), old(handled), i, flow, Advance(old(registers)[35]))
    {
      hide Meaning, Xor, Written, Trapped, Wrap;
      SumMeanings(i, OperandsOf(i, registers));
      var a: int, b: int := registers[i.rs], registers[i.rt];
      var sum := Wrap(a + b);
      AddOverflows(a, b);
      if !(Xor(a, b) < 0) && Xor(a, sum) < 0 {
        RaiseException(Overflow, 0);
        return Excepted;
      }
      SetRegister(i.rd, sum);
      flow := Done;
    }

    /** ADDI. */
    method CheckedAddImmediate(i: Instruction) returns (flow: Flow)
      requires Valid() && registers[0] == 0 && i.opCode == ADDI
      modifies this`registers, this`handled
      ensures 0 <= registers[37] < 32
      ensures Means(old(registers), old(handled), i, flow, Advance(old(registers)[35]))
    {
      hide Meaning, Xor, Written, Trapped, Wrap;
      SumMeanings(i, OperandsOf(i, registers));
      var a: int, b: int := registers[i.rs], i.extra;
      var sum := Wrap(a + b);
      AddOverflows(a, b);
      if !(Xor(a, b) < 0) && Xor(b, sum) < 0 {
        RaiseException(Overflow, 0);
        return Excepted;
      }
      SetRegister(i.rt, sum);
      flow := Done;
    }

    /** SUB. */
    method CheckedSub(i: Instruction) returns (flow: Flow)
      requires Valid() && registers[0] == 0 && i.opCode == SUB
      modifies this`registers, this`handled
      ensures 0 <= registers[37] < 32
      ensures Means(old(registers), old(handled), i, flow, Advance(old(registers)[35]))
    {
      hide Meaning, Xor, Written, Trapped, Wrap;
      SumMeanings(i, OperandsOf(i, registers));
      var a: int, b: int := registers[i.rs], registers[i.rt];
      var diff := Wrap(a - b);
      SubOverflows(a, b);
      if Xor(a, b) < 0 && Xor(a, diff) < 0 {
        RaiseException(Overflow, 0);
        return Excepted;
      }
      SetRegister(i.rd, diff);
      flow := Done;
    }

    /** Additions and subtractions that wrap. */
    method Arithmetic(i: Instruction) returns (flow: Flow)
      requires Valid() && registers[0] == 0
      requires i.opCode in {ADDIU, ADDU, SUBU}
      modifies this`registers, this`handled
      ensures 0 <= registers[37] < 32
      ensures Means(old(registers), old(handled), i, flow, Advance(old(registers)[35]))
    {
      hide ToUnsigned, Xor, Written, Trapped, Wrap;
      var a, b := registers[i.rs], registers[i.rt];
      match i.opCode {
        case ADDIU =>
          SetRegister(i.rt, Wrap(a + i.extra));
          return Done;
        case ADDU =>
          SetRegister(i.rd, Wrap(a + b));
          return Done;
        case SUBU =>
          SetRegister(i.rd, Wrap(a - b));
          return Done;
      }
    }

    /** Comparisons. */
    method Compare(i: Instruction) returns (flow: Flow)
      requires Valid() && registers[0] == 0
      requires i.opCode in {SLT, SLTI, SLTIU, SLTU}
      modifies this`registers, this`handled
      ensures 0 <= registers[37] < 32
      ensures Means(old(registers), old(handled), i, flow, Advance(old(registers)[35]))
    {
      hide Meaning, ToUnsigned, Xor, Written, Trapped, Wrap;
      TestMeanings(i, OperandsOf(i, registers));
      var a, b := registers[i.rs], registers[i.rt];
      match i.opCode {
        case SLT =>
          SetRegister(i.rd, if a < b then 1 else 0);
          return Done;
        case SLTI =>
          SetRegister(i.rt, if a < i.extra then 1 else 0);
          return Done;
        case SLTIU =>
          var rs, imm := ToUnsigned(a), ToUnsigned(i.extra);
          SetRegister(i.rt, if rs < imm then 1 else 0);
          return Done;
        case SLTU =>
          var rs, rt := ToUnsigned(a), ToUnsigned(b);
          SetRegister(i.rd, if rs < rt then 1 else 0);
          return Done;
      }
    }

    /** Bitwise operations on registers. */
    method Logic(i: Instruction) returns (flow: Flow)
      requires Valid() && registers[0] == 0
      requires i.opCode in {AND, OR, XOR, NOR}
      modifies this`registers
      ensures 0 <= registers[37] < 32
      ensures Means(old(registers), old(handled), i, flow, Advance(old(registers)[35]))
    {
      hide Meaning, And, Or, Xor, Not, ShiftLeft, ShiftRightArithmetic, ShiftRightLogical, Written, Trapped, Wrap;
      LogicMeanings(i, OperandsOf(i, registers));
      var a, b := registers[i.rs], registers[i.rt];
      match i.opCode {
        case AND =>
          SetRegister(i.rd, And(a, b));
          return Done;
        case OR =>
          SetRegister(i.rd, Or(a, b));
          return Done;
        case XOR =>
          SetRegister(i.rd, Xor(a, b));
          return Done;
        case NOR =>
          SetRegister(i.rd, Not(Or(a, b)));
          return Done;
      }
    }

    /** Bitwise operations with the 16 bits of the instruction. */
    method LogicImmediate(i: Instruction) returns (flow: Flow)
      requires Valid() && registers[0] == 0
      requires i.opCode in {ANDI, ORI, XORI}
      modifies this`registers
      ensures 0 <= registers[37] < 32
      ensures Means(old(registers), old(handled), i, flow, Advance(old(registers)[35]))
    {
      hide Meaning, And, Or, Xor, Not, ShiftLeft, ShiftRightArithmetic, ShiftRightLogical, Written, Trapped, Wrap;
      LogicMeanings(i, OperandsOf(i, registers));
      var a, b := registers[i.rs], registers[i.rt];
      match i.opCode {
        case ANDI =>
          HalfMasks(i.extra);
          SetRegister(i.rt, And(a, And(i.extra, 0xffff)));
          return Done;
        case ORI =>
          HalfMasks(i.extra);
          SetRegister(i.rt, Or(a, And(i.extra, 0xffff)));
          return Done;
        case XORI =>
          HalfMasks(i.extra);
          SetRegister(i.rt, Xor(a, And(i.extra, 0xffff)));
          return Done;
      }
    }

    /** Shifts by a constant. */
    method Shift(i: Instruction) returns (flow: Flow)
      requires Valid() && registers[0] == 0
      requires i.opCode in {SLL, SRA, SRL, LUI}
      modifies this`registers
      ensures 0 <= registers[37] < 32
      ensures Means(old(registers), old(handled), i, flow, Advance(old(registers)[35]))
    {
      hide Meaning, Amount, ToUnsigned, And, Or, Xor, Not, ShiftLeft, ShiftRightArithmetic, ShiftRightLogical, Written,
           Trapped, Wrap;
      ShiftMeanings(i, OperandsOf(i, registers));
      var a, b := registers[i.rs], registers[i.rt];
      match i.opCode {
        case SLL =>
          SetRegister(i.rd, ShiftLeft(b, ToUnsigned(i.extra)));
          return Done;
        case SRA =>
          SetRegister(i.rd, ShiftRightArithmetic(b, ToUnsigned(i.extra)));
          return Done;
        case SRL =>
          SetRegister(i.rd, ShiftRightLogical(b, ToUnsigned(i.extra)));
          return Done;
        case LUI =>
          SetRegister(i.rt, Wrap(i.extra * 0x1_0000));
          return Done;
      }
    }

    /** Shifts by the low five bits of a register. */
    method ShiftVariable(i: Instruction) returns (flow: Flow)
      requires Valid() && registers[0] == 0
      requires i.opCode in {SLLV, SRAV, SRLV}
      modifies this`registers
      ensures 0 <= registers[37] < 32
      ensures Means(old(registers), old(handled), i, flow, Advance(old(registers)[35]))
    {
      hide Meaning, Amount, ToUnsigned, And, Or, Xor, Not, ShiftLeft, ShiftRightArithmetic, ShiftRightLogical, Written,
           Trapped, Wrap;
      ShiftMeanings(i, OperandsOf(i, registers));
      var a, b := registers[i.rs], registers[i.rt];
      match i.opCode {
        case SLLV =>
          SetRegister(i.rd, ShiftLeft(b, Amount(a)));
          return Done;
        case SRAV =>
          SetRegister(i.rd, ShiftRightArithmetic(b, Amount(a)));
          return Done;
        case SRLV =>
          SetRegister(i.rd, ShiftRightLogical(b, Amount(a)));
          return Done;
      }
    }

    /** Multiplication, division, and moves to and from Hi and Lo. */
    method HiLo(i: Instruction) returns (flow: Flow)
      requires Valid() && registers[0] == 0
      requires i.opCode in {MFHI, MFLO, MTHI, MTLO, MULT, MULTU, DIV, DIVU}
      modifies this`registers
      ensures 0 <= registers[37] < 32
      ensures Means(old(registers), old(handled), i, flow, Advance(old(registers)[35]))
      ensures flow == Done ==> InstructionLaws.HiLoDone(i, old(registers), registers)
    {
      hide Quotient, Remainder, Divide, Modulo, SignedDoubleWord, DoubleWord, Written, Trapped, Wrap,
           InstructionLaws.HiLoDone;
      InstructionLaws.HiLoIsDone(i, registers);
      var a, b := registers[i.rs], registers[i.rt];
      match i.opCode {
        case MFHI =>
          SetRegister(i.rd, registers[HiReg]);
          return Done;
        case MFLO =>
          SetRegister(i.rd, registers[LoReg]);
          return Done;
        case MTHI =>
          SetProduct(a, registers[LoReg]);
          return Done;
        case MTLO =>
          SetProduct(registers[HiReg], a);
          return Done;
        case MULT =>
          var hi, lo := Mult(a, b, true);
          ProductWords(a, b, hi, lo);
          SetProduct(hi, lo);
          return Done;
        case MULTU =>
          var hi, lo := Mult(a, b, false);
          UnsignedProductWords(ToUnsigned(a) * ToUnsigned(b), hi, lo);
          SetProduct(hi, lo);
          return Done;
        case DIV =>
          if b == 0 {
            SetProduct(0, 0);
          } else if a == -0x8000_0000 && b == -1 {
            return Halted;
          } else {
            SetProduct(Wrap(Remainder(a, b)), Wrap(Quotient(a, b)));
          }
          return Done;
        case DIVU =>
          var rs, rt := ToUnsigned(a), ToUnsigned(b);
          if rt == 0 {
            SetProduct(0, 0);
          } else {
            SetProduct(Wrap(Modulo(rs, rt)), Wrap(Divide(rs, rt)));
          }
          return Done;
      }
    }

    lemma NothingWritten()
      requires registers[0] == 0
      ensures registers == Written(registers, 0, 0, registers[32], registers[33])
    {
    }

    /** Branches. */
    method Branches(i: Instruction) returns (pcAfter: int32)
      requires Valid() && registers[0] == 0
      requires i.opCode in {BEQ, BNE, BGEZAL, BGEZ, BGTZ, BLEZ, BLTZAL, BLTZ}
      requires i.opCode in {J, JAL} ==> 0 <= i.extra < 0x400_0000
      modifies this`registers
      ensures 0 <= registers[37] < 32
      ensures Means(old(registers), old(handled), i, Done, pcAfter)
    {
      hide And, Or, Trapped;
      NothingWritten();
      pcAfter := Advance(registers[NextPCReg]);
      var target := Wrap(registers[NextPCReg] + 4 * i.extra);
      match i.opCode {
        case BEQ =>
          if registers[i.rs] == registers[i.rt] {
            pcAfter := target;
          }
        case BNE =>
          if registers[i.rs] != registers[i.rt] {
            pcAfter := target;
          }
        case BGEZAL =>
          SetRegister(R31, Advance(registers[NextPCReg]));
          if !(registers[i.rs] < 0) {
            pcAfter := target;
          }
        case BGEZ =>
          if !(registers[i.rs] < 0) {
            pcAfter := target;
          }
        case BGTZ =>
          if registers[i.rs] > 0 {
            pcAfter := target;
          }
        case BLEZ =>
          if registers[i.rs] <= 0 {
            pcAfter := target;
          }
        case BLTZAL =>
          SetRegister(R31, Advance(registers[NextPCReg]));
          if registers[i.rs] < 0 {
            pcAfter := target;
          }
        case BLTZ =>
          if registers[i.rs] < 0 {
            pcAfter := target;
          }
      }
    }

    /** Jumps. */
    method Jumps(i: Instruction) returns (pcAfter: int32)
      requires Valid() && registers[0] == 0
      requires i.opCode in {JAL, J, JALR, JR}
      requires i.opCode in {J, JAL} ==> 0 <= i.extra < 0x400_0000
      modifies this`registers
      ensures 0 <= registers[37] < 32
      ensures Means(old(registers), old(handled), i, Done, pcAfter)
    {
      hide And, Or, Trapped, Wrap, ToUnsigned;
      NothingWritten();
      pcAfter := Advance(registers[NextPCReg]);
      var target := Wrap(registers[NextPCReg] + 4 * i.extra);
      match i.opCode {
        case JAL =>
          SetRegister(R31, Advance(registers[NextPCReg]));
          JumpsThere(pcAfter, i.extra);
          pcAfter := Or(And(pcAfter, -0x1000_0000), 4 * i.extra);
        case J =>
          JumpsThere(pcAfter, i.extra);
          pcAfter := Or(And(pcAfter, -0x1000_0000), 4 * i.extra);
        case JALR =>
          SetRegister(i.rd, Advance(registers[NextPCReg]));
          pcAfter := registers[i.rs];
        case JR =>
          pcAfter := registers[i.rs];
      }
    }

    /** What a load must come to. */
    ghost predicate Loads(m: Mmu, mem: Memory, r0: Registers, handled0: seq<ExceptionType>, i: Instruction,
                          flow: Flow, nextReg: int32, nextValue: int32)
      requires 0 <= r0[37] < 32
      reads this`registers, this`handled
    {
      match Meaning(i, OperandsOf(i, r0))
      case Stop => flow == Halted
      case Load(kind, addr, target) => LoadsFrom(m, mem, r0, handled0, kind, addr, target, flow, nextReg, nextValue)
      case _ => false
    }

    ghost predicate LoadsFrom(m: Mmu, mem: Memory, r0: Registers, handled0: seq<ExceptionType>, kind: LoadKind,
                              addr: int32, target: Reg, flow: Flow, nextReg: int32, nextValue: int32)
      requires 0 <= r0[37] < 32
      reads this`registers, this`handled
    {
      var t := Resolve(m, addr, kind.Size(), false);
      if t.Fault? then flow == Excepted && registers == Trapped(r0, addr) && handled == handled0 + [t.e]
      else
        && flow == Done && registers == r0 && handled == handled0 && nextReg == target
        && nextValue == kind.Value(Fetch(mem, t.address, kind.Size()), if r0[37] == target then r0[38] else r0[target])
    }

    /** LB and LBU. */
    method LoadByte(i: Instruction) returns (flow: Flow, nextLoadReg: int32, nextLoadValue: int32)
      requires Valid() && i.opCode in {LB, LBU}
      modifies this`registers, this`handled, tlb, pageTable
      ensures Valid() && SameMapping(old(Translations()), Translations())
      ensures nextLoadReg == i.rt
      ensures Loads(old(Translations()), Contents(), old(registers), old(handled), i, flow, nextLoadReg, nextLoadValue)
    {
      hide Resolve, Fetch, Trapped, And, Or, SameMapping;
      nextLoadReg, nextLoadValue := i.rt, 0;
      var tmp := Wrap(registers[i.rs] + i.extra);
      var ok, value := ReadMem(tmp, 1);
      if !ok {
        return Excepted, nextLoadReg, nextLoadValue;
      }
      ByteMasks(value);
      if And(value, 0x80) != 0 && i.opCode == LB {
        nextLoadValue := Or(value, -0x100);
      } else {
        nextLoadValue := And(value, 0xff);
      }
      flow := Done;
    }

    /** LH and LHU. */
    method LoadHalf(i: Instruction) returns (flow: Flow, nextLoadReg: int32, nextLoadValue: int32)
      requires Valid() && i.opCode in {LH, LHU}
      modifies this`registers, this`handled, tlb, pageTable
      ensures Valid() && SameMapping(old(Translations()), Translations())
      ensures nextLoadReg == i.rt
      ensures Loads(old(Translations()), Contents(), old(registers), old(handled), i, flow, nextLoadReg, nextLoadValue)
    {
      hide Resolve, Fetch, Trapped, And, Or, SameMapping;
      nextLoadReg, nextLoadValue := i.rt, 0;
      var tmp := Wrap(registers[i.rs] + i.extra);
      Misaligned(Translations(), tmp, 2);
      SameMappingSelf(Translations());
      if ToUnsigned(tmp) % 2 != 0 {
        RaiseException(AddressError, tmp);
        return Excepted, nextLoadReg, nextLoadValue;
      }
      var ok, value := ReadMem(tmp, 2);
      if !ok {
        return Excepted, nextLoadReg, nextLoadValue;
      }
      HalfMasks(value);
      if And(value, 0x8000) != 0 && i.opCode == LH {
        nextLoadValue := Or(value, -0x1_0000);
      } else {
        nextLoadValue := And(value, 0xffff);
      }
      flow := Done;
    }

    /** LW. */
    method LoadWord(i: Instruction) returns (flow: Flow, nextLoadReg: int32, nextLoadValue: int32)
      requires Valid() && i.opCode in {LW}
      modifies this`registers, this`handled, tlb, pageTable
      ensures Valid() && SameMapping(old(Translations()), Translations())
      ensures nextLoadReg == i.rt
      ensures Loads(old(Translations()), Contents(), old(registers), old(handled), i, flow, nextLoadReg, nextLoadValue)
    {
      hide Resolve, Fetch, Trapped, And, Or, SameMapping;
      nextLoadReg, nextLoadValue := i.rt, 0;
      var tmp := Wrap(registers[i.rs] + i.extra);
      Misaligned(Translations(), tmp, 4);
      SameMappingSelf(Translations());
      if ToUnsigned(tmp) % 4 != 0 {
        RaiseException(AddressError, tmp);
        return Excepted, nextLoadReg, nextLoadValue;
      }
      var ok, value := ReadMem(tmp, 4);
      if !ok {
        return Excepted, nextLoadReg, nextLoadValue;
      }
      nextLoadValue := value;
      flow := Done;
    }

    /** LWL and LWR, of which only the aligned case passes the assertion. */
    method LoadPart(i: Instruction) returns (flow: Flow, nextLoadReg: int32, nextLoadValue: int32)
      requires Valid() && i.opCode in {LWL, LWR}
      modifies this`registers, this`handled, tlb, pageTable
      ensures Valid() && SameMapping(old(Translations()), Translations())
      ensures nextLoadReg == i.rt
      ensures Loads(old(Translations()), Contents(), old(registers), old(handled), i, flow, nextLoadReg, nextLoadValue)
    {
      hide Meaning, Resolve, Fetch, Trapped, SameMapping, Wrap;
      nextLoadReg, nextLoadValue := i.rt, 0;
      var tmp := Wrap(registers[i.rs] + i.extra);
      PartLoadMeanings(i, OperandsOf(i, registers), tmp);
      SameMappingSelf(Translations());
      AlignedWord(tmp);
      if ToUnsigned(tmp) % 4 != 0 {
        return Halted, nextLoadReg, nextLoadValue;
      }
      var ok, value := ReadMem(tmp, 4);
      if !ok {
        return Excepted, nextLoadReg, nextLoadValue;
      }
      nextLoadValue := MergeLoad(i, value);
      flow := Done;
    }

    /** The end of LWL and LWR: what was read, or the register with its lowest byte replaced. */
    method MergeLoad(i: Instruction, value: int32) returns (merged: int32)
      requires Valid() && i.opCode in {LWL, LWR}
      ensures merged == (if i.opCode == LWL then FullWord else RightWord).Value(
                          ToUnsigned(value), if registers[37] == i.rt then registers[38] else registers[i.rt])
    {
      hide And, Or;
      if registers[LoadReg] == i.rt {
        merged := registers[LoadValueReg];
      } else {
        merged := registers[i.rt];
      }
      if i.opCode == LWL {
        merged := value;
      } else {
        ReplaceLowByte(merged, ToUnsigned(value) / 0x100_0000);
        merged := Or(And(merged, -0x100), ToUnsigned(value) / 0x100_0000);
      }
    }

    /** What a store must come to. */
    ghost predicate Stores(m: Mmu, mem: Memory, r0: Registers, handled0: seq<ExceptionType>, i: Instruction, flow: Flow,
                           mem2: Memory)
      requires 0 <= r0[37] < 32
      reads this`registers, this`handled
    {
      match Meaning(i, OperandsOf(i, r0))
      case Stop => flow == Halted
      case Store(kind, addr, v) => StoresTo(m, mem, r0, handled0, kind, addr, v, flow, mem2)
      case _ => false
    }

    ghost predicate StoresTo(m: Mmu, mem: Memory, r0: Registers, handled0: seq<ExceptionType>, kind: StoreKind,
                             addr: int32, v: int32, flow: Flow, mem2: Memory)
      requires 0 <= r0[37] < 32
      reads this`registers, this`handled
    {
      var before, t := Resolve(m, addr, kind.Size(), false), Resolve(m, addr, kind.Size(), true);
      if kind.ReadsFirst() && before.Fault? then
        flow == Excepted && registers == Trapped(r0, addr) && handled == handled0 + [before.e] && mem2 == mem
      else if t.Fault? then
        flow == Excepted && registers == Trapped(r0, addr) && handled == handled0 + [t.e] && mem2 == mem
      else
        && flow == Done && registers == r0 && handled == handled0
        && mem2 == Stored(mem, t.address, kind.Size(),
           kind.Value(v, if kind.ReadsFirst() then Fetch(mem, before.address, 4) else 0))
    }

    lemma StoreMeant(i: Instruction, o: Operands)
      requires i.opCode in {SB, SH, SW}
      ensures var kind := if i.opCode == SB then StoreByte else if i.opCode == SH then StoreHalf else StoreWord;
              Meaning(i, o) == Store(kind, Wrap(o.a + i.extra), o.b)
    {
      hide Wrap;
    }

    /** SB, SH and SW. */
    method StoreValue(i: Instruction) returns (flow: Flow)
      requires Valid() && i.opCode in {SB, SH, SW}
      modifies this`registers, this`handled, mainMemory, tlb, pageTable
      ensures Valid() && SameMapping(old(Translations()), Translations())
      ensures Stores(old(Translations()), old(Contents()), old(registers), old(handled), i, flow, Contents())
    {
      hide Resolve, Fetch, Stored, Trapped, SameMapping, Wrap, Meaning;
      StoreMeant(i, OperandsOf(i, registers));
      var tmp := Wrap(registers[i.rs] + i.extra);
      var size := if i.opCode == SB then 1 else if i.opCode == SH then 2 else 4;
      var ok := WriteMem(tmp, size, registers[i.rt]);
      flow := if ok then Done else Excepted;
    }

    /** The middle of SWL and SWR: the register, or what was read with its highest byte replaced. */
    method MergeStore(i: Instruction, was: int32) returns (value: int32)
      requires Valid() && i.opCode in {SWL, SWR}
      ensures var kind := if i.opCode == SWL then StoreLeft else StoreRight;
              ToUnsigned(value) == kind.Value(registers[i.rt], ToUnsigned(was))
    {
      hide And, Or, Wrap;
      if i.opCode == SWL {
        value := registers[i.rt];
      } else {
        ReplaceHighByte(was, registers[i.rt]);
        var top: int := registers[i.rt];
        value := Or(And(was, 0xff_ffff), Wrap(top * 0x100_0000));
      }
    }

    /** SWL and SWR, of which only the aligned case passes the assertion. */
    method StorePart(i: Instruction) returns (flow: Flow)
      requires Valid() && i.opCode in {SWL, SWR}
      modifies this`registers, this`handled, mainMemory, tlb, pageTable
      ensures Valid() && SameMapping(old(Translations()), Translations())
      ensures Stores(old(Translations()), old(Contents()), old(registers), old(handled), i, flow, Contents())
    {
      hide Meaning, Resolve, SameMapping, Wrap, Stores, StoresTo;
      var tmp := Wrap(registers[i.rs] + i.extra);
      ghost var m0, mem0, r0, handled0 := Translations(), Contents(), registers, handled;
      SameMappingSelf(m0);
      AlignedWord(tmp);
      if ToUnsigned(tmp) % 4 != 0 {
        flow := Halted;
      } else {
        flow := ReadMergeWrite(i, tmp);
      }
      AsPartStored(m0, mem0, r0, handled0, i, flow, Contents(), tmp);
    }

    /** Its aligned case: read, merge, write. */
    method ReadMergeWrite(i: Instruction, tmp: int32) returns (flow: Flow)
      requires Valid() && i.opCode in {SWL, SWR}
      modifies this`registers, this`handled, mainMemory, tlb, pageTable
      ensures Valid() && SameMapping(old(Translations()), Translations())
      ensures StoresTo(old(Translations()), old(Contents()), old(registers), old(handled),
                       if i.opCode == SWL then StoreLeft else StoreRight, tmp, old(registers[i.rt]), flow, Contents())
    {
      hide Resolve, Fetch, Stored, Trapped, SameMapping, StoreKind.Value, ToUnsigned;
      ghost var m0 := Translations();
      var ok, value := ReadMem(tmp, 4);
      if !ok {
        return Excepted;
      }
      value := MergeStore(i, value);
      ghost var m1 := Translations();
      SameResolve(m0, m1, tmp, 4, true);
      ok := WriteMem(tmp, 4, value);
      SameMappingTrans(m0, m1, Translations());
      flow := if ok then Done else Excepted;
    }

    lemma AsPartStored(m: Mmu, mem: Memory, r0: Registers, handled0: seq<ExceptionType>, i: Instruction, flow: Flow,
                       mem2: Memory, addr: int32)
      requires 0 <= r0[37] < 32 && i.opCode in {SWL, SWR} && addr == Wrap(r0[i.rs] + i.extra)
      requires var kind := if i.opCode == SWL then StoreLeft else StoreRight;
               if addr % 4 != 0 then flow == Halted
               else StoresTo(m, mem, r0, handled0, kind, addr, r0[i.rt], flow, mem2)
      ensures Stores(m, mem, r0, handled0, i, flow, mem2)
    {
      hide Meaning, StoresTo, Wrap;
      PartStoreMeanings(i, OperandsOf(i, r0), addr);
    }

    /** What an instruction must come to, but for the delayed load and the program counters. */
    ghost predicate Executes(s: StepResult, handled0: seq<ExceptionType>, flow: Flow, pcAfter: int32, nextReg: int32,
                             nextValue: int32, mem: Memory)
      reads this`registers, this`handled
    {
      match s
      case Stopped => flow == Halted
      case Retired(r, mem2) =>
        flow == Done && 0 <= registers[37] < 32 && r == Retire(registers, pcAfter, nextReg, nextValue) && mem == mem2
             && handled == handled0
      case Raised(e, r, mem2) => flow == Excepted && registers == r && mem == mem2 && handled == handled0 + [e]
    }

    lemma AsMeant(m: Mmu, mem: Memory, r0: Registers, handled0: seq<ExceptionType>, i: Instruction, flow: Flow,
                  pcAfter: int32)
      requires 0 <= r0[37] < 32 && Means(r0, handled0, i, flow, pcAfter)
      ensures Executes(Execute(m, mem, r0, i), handled0, flow, pcAfter, 0, 0, mem)
    {
      hide Meaning, Retire, Trapped;
    }

    lemma AsLoaded(m: Mmu, mem: Memory, r0: Registers, handled0: seq<ExceptionType>, i: Instruction, flow: Flow,
                   nextReg: int32, nextValue: int32)
      requires 0 <= r0[37] < 32 && Loads(m, mem, r0, handled0, i, flow, nextReg, nextValue)
      ensures Executes(Execute(m, mem, r0, i), handled0, flow, Advance(r0[35]), nextReg, nextValue, mem)
    {
      hide Meaning, Retire, Trapped, Resolve, Fetch;
    }

    lemma AsStored(m: Mmu, mem: Memory, r0: Registers, handled0: seq<ExceptionType>, i: Instruction, flow: Flow,
                   mem2: Memory)
      requires 0 <= r0[37] < 32 && Stores(m, mem, r0, handled0, i, flow, mem2)
      ensures Executes(Execute(m, mem, r0, i), handled0, flow, Advance(r0[35]), 0, 0, mem2)
    {
      hide Meaning, Retire, Trapped, Resolve, Fetch, Stored;
    }

    /** The big switch of OneInstruction. */
    method Dispatch(i: Instruction) returns (flow: Flow, pcAfter: int32, nextLoadReg: int32, nextLoadValue: int32)
      requires Valid() && registers[0] == 0 && i.opCode != RFE
      requires i.opCode in {J, JAL} ==> 0 <= i.extra < 0x400_0000
      modifies this`registers, this`handled, mainMemory, tlb, pageTable
      ensures Valid() && SameMapping(old(Translations()), Translations())
      ensures 0 <= nextLoadReg < 32
      ensures Executes(Execute(old(Translations()), old(Contents()), old(registers), i), old(handled),
                       flow, pcAfter, nextLoadReg, nextLoadValue, Contents())
    {
      hide Meaning, Execute, Executes, Means, Loads, Stores, SameMapping;
      ghost var m0, mem0, r0, handled0 := Translations(), Contents(), registers, handled;
      SameMappingSelf(m0);
      nextLoadReg, nextLoadValue, pcAfter := 0, 0, Advance(registers[NextPCReg]);
      if i.opCode in {LB, LBU, LH, LHU, LW, LWL, LWR} {
        if i.opCode in {LB, LBU} {
          flow, nextLoadReg, nextLoadValue := LoadByte(i);
        } else if i.opCode in {LH, LHU} {
          flow, nextLoadReg, nextLoadValue := LoadHalf(i);
        } else if i.opCode == LW {
          flow, nextLoadReg, nextLoadValue := LoadWord(i);
        } else {
          flow, nextLoadReg, nextLoadValue := LoadPart(i);
        }
        AsLoaded(m0, mem0, r0, handled0, i, flow, nextLoadReg, nextLoadValue);
      } else if i.opCode in {SB, SH, SW, SWL, SWR} {
        if i.opCode in {SB, SH, SW} {
          flow := StoreValue(i);
        } else {
          flow := StorePart(i);
        }
        AsStored(m0, mem0, r0, handled0, i, flow, Contents());
      } else {
        flow, pcAfter := InRegisters(i);
        AsMeant(m0, mem0, r0, handled0, i, flow, pcAfter);
      }
    }

    /** Those of its cases that touch no memory. */
    method InRegisters(i: Instruction) returns (flow: Flow, pcAfter: int32)
      requires Valid() && registers[0] == 0 && i.opCode != RFE
      requires i.opCode !in {LB, LBU, LH, LHU, LW, LWL, LWR, SB, SH, SW, SWL, SWR}
      requires i.opCode in {J, JAL} ==> 0 <= i.extra < 0x400_0000
      modifies this`registers, this`handled
      ensures 0 <= registers[37] < 32 && Means(old(registers), old(handled), i, flow, pcAfter)
    {
      hide Meaning, Written, Advance;
      pcAfter := Advance(registers[NextPCReg]);
      if i.opCode == ADD {
        flow := CheckedAdd(i);
      } else if i.opCode == ADDI {
        flow := CheckedAddImmediate(i);
      } else if i.opCode == SUB {
        flow := CheckedSub(i);
      } else if i.opCode in {ADDIU, ADDU, SUBU} {
        flow := Arithmetic(i);
      } else if i.opCode in {SLT, SLTI, SLTIU, SLTU} {
        flow := Compare(i);
      } else if i.opCode in {AND, OR, XOR, NOR} {
        flow := Logic(i);
      } else if i.opCode in {ANDI, ORI, XORI} {
        flow := LogicImmediate(i);
      } else if i.opCode in {SLL, SRA, SRL, LUI} {
        flow := Shift(i);
      } else if i.opCode in {SLLV, SRAV, SRLV} {
        flow := ShiftVariable(i);
      } else if i.opCode in {MFHI, MFLO, MTHI, MTLO, MULT, MULTU, DIV, DIVU} {
        flow := HiLo(i);
      } else if i.opCode in {BEQ, BNE, BGEZ, BGEZAL, BGTZ, BLEZ, BLTZ, BLTZAL} {
        pcAfter := Branches(i);
        flow := Done;
      } else if i.opCode in {J, JAL, JR, JALR} {
        pcAfter := Jumps(i);
        flow := Done;
      } else {
        flow := SystemCall(i);
      }
    }

    /** The instructions that are nothing but an exception. */
    method SystemCall(i: Instruction) returns (flow: Flow)
      requires Valid() && i.opCode in {SYSCALL, RES, UNIMP}
      modifies this`registers, this`handled
      ensures Means(old(registers), old(handled), i, flow, Advance(old(registers)[35])) && registers[37] == 0
    {
      hide Trapped;
      RaiseException(if i.opCode == SYSCALL then Syscall else IllegalInstr, 0);
      flow := Excepted;
    }

    /** How an instruction ended, and what it left. */
    ghost function Outcome(flow: Flow): StepResult
      requires Valid()
      reads this, mainMemory
    {
      match flow
      case Done => Retired(registers, Contents())
      case Excepted => if handled == [] then Stopped else Raised(handled[|handled| - 1], registers, Contents())
      case Halted => Stopped
    }

    /** OneInstruction: fetch, decode, execute, and advance the program counters, as Step says, and so as the law of
        the instruction that was fetched says; the handler is called once on an exception, and never otherwise. */
    method OneInstruction() returns (flow: Flow)
      requires Valid() && registers[0] == 0
      modifies this`registers, this`handled, mainMemory, tlb, pageTable
      ensures Valid() && SameMapping(old(Translations()), Translations())
      ensures if flow == Excepted then |handled| == |old(handled)| + 1 && old(handled) < handled
              else flow == Done ==> handled == old(handled)
      ensures Outcome(flow) == Step(old(Translations()), old(Contents()), old(registers))
      ensures forall i :: InstructionLaws.Fetches(old(Translations()), old(Contents()), old(registers), i) ==>
                InstructionLaws.Lawful(old(Translations()), old(Contents()), old(registers), i, Outcome(flow))
    {
      hide Resolve, Fetch, Trapped, SameMapping, Decode, Execute, Retire, InstructionLaws.Fetches,
           InstructionLaws.Lawful;
      ghost var m0, mem0, r0 := Translations(), Contents(), registers;
      StepIsLawful(m0, mem0, r0);
      var ok, raw := ReadMem(registers[PCReg], 4);
      if !ok {
        return Excepted;
      }
      ghost var m1 := Translations();
      var i := Decode(ToUnsigned(raw));
      SameExecute(m0, m1, mem0, r0, i);
      var pcAfter, nextLoadReg, nextLoadValue;
      flow, pcAfter, nextLoadReg, nextLoadValue := Dispatch(i);
      SameMappingTrans(m0, m1, Translations());
      if flow == Done {
        Finish(nextLoadReg, nextLoadValue, pcAfter);
      }
    }

    lemma StepIsLawful(m: Mmu, mem: Memory, r: Registers)
      requires Sound(r)
      ensures forall i :: InstructionLaws.Fetches(m, mem, r, i) ==>
                InstructionLaws.Lawful(m, mem, r, i, Step(m, mem, r))
    {
      hide Step, InstructionLaws.Fetches, InstructionLaws.Lawful;
      forall i | InstructionLaws.Fetches(m, mem, r, i)
        ensures InstructionLaws.Lawful(m, mem, r, i, Step(m, mem, r))
      {
        InstructionLaws.EveryInstructionIsLawful(m, mem, r, i);
      }
    }

    /** The end of an instruction that succeeded. */
    method Finish(nextLoadReg: int32, nextLoadValue: int32, pcAfter: int32)
      requires 0 <= registers[37] < 32
      modifies this`registers
      ensures registers == Retire(old(registers), pcAfter, nextLoadReg, nextLoadValue) && registers[37] == nextLoadReg
    {
      DelayedLoad(nextLoadReg, nextLoadValue);
      registers := registers[PrevPCReg := registers[PCReg]];
      registers := registers[PCReg := registers[NextPCReg]];
      registers := registers[NextPCReg := pcAfter];
    }
  }
}
