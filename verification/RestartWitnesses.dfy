/** For every instruction that neither leaves a register alone nor takes back what it reads of it, a program that
    can tell whether a load into that register was committed early. */
module RestartWitnesses {
  import opened Bytes
  import opened BitOps
  import opened Translation
  import opened Instructions
  import opened MachineSemantics
  import opened Restarts

  /** What decoding guarantees of the third operand. */
  predicate Ranged(i: Instruction) {
    && (i.opCode in {SLL, SRA, SRL} ==> 0 <= i.extra < 32)
    && (i.opCode !in {J, JAL} ==> -0x8000 <= i.extra < 0x8000)
  }

  /** What a load's register held, what was being loaded into it, and what the instruction's other operand holds. */
  datatype Witness = Witness(held: int32, loaded: int32, other: int32)

  function Operand(k: Reg, p: Reg, w: Witness, loaded: bool): int32 {
    if k == 0 then 0 else if k != p then w.other else if loaded then w.loaded else w.held
  }

  /** The operands before and after the load into p is committed. */
  function Seen(i: Instruction, p: Reg, w: Witness, loaded: bool): Operands {
    Operands(Operand(i.rs, p, w, loaded), Operand(i.rt, p, w, loaded), 0, 0, 0)
  }

  /** Such values make the two runs differ. */
  predicate Shows(i: Instruction, p: Reg, w: Witness) {
    Disagree(Meaning(i, Seen(i, p, w, false)), Meaning(i, Seen(i, p, w, true)), p, w.loaded)
  }

  /** The instruction reads p, and its form does not take that back. */
  predicate Exposes(i: Instruction, p: Reg) {
    p != 0 && Ranged(i) && ReadsReg(i, p) && !Cancels(i, p)
  }

  // ---- Arithmetic ----

  lemma ShowsInAdd(i: Instruction, p: Reg) returns (w: Witness)
    requires Exposes(i, p) && i.opCode in {ADD, ADDU}
    ensures Shows(i, p, w)
  {
    hide And, Or, Xor, Not, Quotient, Remainder, Divide, Modulo, ShiftLeft, ShiftRightArithmetic, ShiftRightLogical;
    w := if Dest(i) == 0 then Witness(0, 0x7fff_ffff, 1)
         else if i.rs == i.rt then Witness(0, 1, 0)
         else if Dest(i) == p then Witness(0, 0, 1)
         else Witness(0, -1, 0);
  }

  lemma ShowsInSub(i: Instruction, p: Reg) returns (w: Witness)
    requires Exposes(i, p) && i.opCode == SUB
    ensures Shows(i, p, w)
  {
    hide And, Or, Xor, Not, Quotient, Remainder, Divide, Modulo, ShiftLeft, ShiftRightArithmetic, ShiftRightLogical;
    w := if i.rs == i.rt then Witness(0, 1, 0)
         else if Dest(i) == 0 then Witness(0, -0x8000_0000, if p == i.rs then 1 else 0)
         else if Dest(i) == p then if p == i.rs then Witness(0, 0, 1) else Witness(0, 1, 0)
         else Witness(0, -1, 0);
  }

  lemma ShowsInSubUnsigned(i: Instruction, p: Reg) returns (w: Witness)
    requires Exposes(i, p) && i.opCode == SUBU
    ensures Shows(i, p, w)
  {
    hide And, Or, Xor, Not, Quotient, Remainder, Divide, Modulo, ShiftLeft, ShiftRightArithmetic, ShiftRightLogical;
    w := if i.rs == i.rt then Witness(0, 1, 0)
         else if Dest(i) == p then if p == i.rs then Witness(0, 0, 1) else Witness(0, 1, 0)
         else Witness(0, -1, 0);
  }

  lemma ShowsInAddImmediate(i: Instruction, p: Reg) returns (w: Witness)
    requires Exposes(i, p) && i.opCode in {ADDI, ADDIU}
    ensures Shows(i, p, w)
  {
    hide And, Or, Xor, Not, Quotient, Remainder, Divide, Modulo, ShiftLeft, ShiftRightArithmetic, ShiftRightLogical;
    w := if Dest(i) == 0 then Witness(0, if i.extra > 0 then 0x7fff_ffff else -0x8000_0000, 0)
         else if Dest(i) == p then Witness(0, 0, 0)
         else Witness(0, -1, 0);
  }

  lemma ShowsInTest(i: Instruction, p: Reg) returns (w: Witness)
    requires Exposes(i, p) && i.opCode == SLT
    ensures Shows(i, p, w)
  {
    hide Meaning, Advance;
    w := if Dest(i) == p then Witness(0, 2, 0) else if p == i.rt then Witness(0, 1, 0) else Witness(0, -1, 0);
    TestMeanings(i, Seen(i, p, w, false));
    TestMeanings(i, Seen(i, p, w, true));
  }

  lemma ShowsInTestUnsigned(i: Instruction, p: Reg) returns (w: Witness)
    requires Exposes(i, p) && i.opCode == SLTU
    ensures Shows(i, p, w)
  {
    hide Meaning, Advance;
    w := if Dest(i) == p then Witness(0, 2, 0) else if p == i.rt then Witness(0, 1, 0) else Witness(0, -1, -1);
    TestMeanings(i, Seen(i, p, w, false));
    TestMeanings(i, Seen(i, p, w, true));
  }

  lemma ShowsInTestsImmediate(i: Instruction, p: Reg) returns (w: Witness)
    requires Exposes(i, p) && i.opCode in {SLTI, SLTIU}
    ensures Shows(i, p, w)
  {
    hide Meaning, Advance;
    w := if Dest(i) == p then Witness(0, 2, 0) else Witness(i.extra, i.extra - 1, 0);
    TestMeanings(i, Seen(i, p, w, false));
    TestMeanings(i, Seen(i, p, w, true));
  }

  // ---- Bits ----

  lemma Masks(y: int32)
    ensures And(0, y) == 0 == And(y, 0) && Or(0, y) == y == Or(y, 0) && Xor(0, y) == y == Xor(y, 0)
    ensures And(-1, y) == y == And(y, -1) && Or(-1, y) == -1 == Or(y, -1) && Xor(-1, y) == Not(y) == Xor(y, -1)
    ensures And(y, y) == y == Or(y, y) && Xor(y, y) == 0
  {
    hide Combine;
    ConstantWords(y);
    CombineSelf(y);
    CombineCommutes(AndGate, y, -1);
    CombineCommutes(OrGate, y, -1);
    CombineCommutes(XorGate, y, -1);
    ZeroOrItself(y);
  }

  lemma ShowsInAnd(i: Instruction, p: Reg) returns (w: Witness)
    requires Exposes(i, p) && i.opCode == AND
    ensures Shows(i, p, w)
  {
    hide Meaning, And, Or, Xor, Not, Advance;
    Masks(0);
    Masks(-1);
    w := Witness(0, -1, if Dest(i) == p then 0 else -1);
    LogicMeanings(i, Seen(i, p, w, false));
    LogicMeanings(i, Seen(i, p, w, true));
  }

  lemma ShowsInOr(i: Instruction, p: Reg) returns (w: Witness)
    requires Exposes(i, p) && i.opCode == OR
    ensures Shows(i, p, w)
  {
    hide Meaning, And, Or, Xor, Not, Advance;
    Masks(0);
    Masks(-1);
    w := if Dest(i) == p then Witness(0, 0, -1) else Witness(0, -1, 0);
    LogicMeanings(i, Seen(i, p, w, false));
    LogicMeanings(i, Seen(i, p, w, true));
  }

  lemma ShowsInXor(i: Instruction, p: Reg) returns (w: Witness)
    requires Exposes(i, p) && i.opCode in {XOR, NOR}
    ensures Shows(i, p, w)
  {
    hide Meaning, And, Or, Xor, Advance;
    Masks(0);
    Masks(-1);
    w := if Dest(i) == p && i.opCode == XOR then Witness(0, -1, -1) else Witness(0, -1, 0);
    LogicMeanings(i, Seen(i, p, w, false));
    LogicMeanings(i, Seen(i, p, w, true));
  }

  lemma ShowsInAndImmediate(i: Instruction, p: Reg) returns (w: Witness)
    requires Exposes(i, p) && i.opCode == ANDI
    ensures Shows(i, p, w)
  {
    hide Meaning, And, Or, Xor, Not, Advance;
    Masks(Low16(i.extra));
    w := Witness(0, -1, 0);
    LogicMeanings(i, Seen(i, p, w, false));
    LogicMeanings(i, Seen(i, p, w, true));
  }

  lemma ShowsInOrImmediate(i: Instruction, p: Reg) returns (w: Witness)
    requires Exposes(i, p) && i.opCode == ORI
    ensures Shows(i, p, w)
  {
    hide Meaning, And, Or, Xor, Advance;
    Masks(Low16(i.extra));
    w := if Dest(i) == p then Witness(0, 0, 0) else Witness(0, -1, 0);
    LogicMeanings(i, Seen(i, p, w, false));
    LogicMeanings(i, Seen(i, p, w, true));
  }

  lemma ShowsInXorImmediate(i: Instruction, p: Reg) returns (w: Witness)
    requires Exposes(i, p) && i.opCode == XORI
    ensures Shows(i, p, w)
  {
    hide Meaning, And, Or, Xor, Advance;
    Masks(Low16(i.extra));
    w := Witness(0, -1, 0);
    LogicMeanings(i, Seen(i, p, w, false));
    LogicMeanings(i, Seen(i, p, w, true));
  }

  // ---- Shifts, products and quotients ----

  lemma ShowsInShifts(i: Instruction, p: Reg) returns (w: Witness)
    requires Exposes(i, p) && i.opCode in {SLL, SRA, SRL}
    ensures Shows(i, p, w)
  {
    hide Meaning, ShiftLeft, ShiftRightArithmetic, ShiftRightLogical, Advance, Wrap;
    ShiftsShow(i.extra);
    w := if Dest(i) == p then Witness(0, 1, 0) else Witness(0, -1, 0);
    ShiftMeanings(i, Seen(i, p, w, false));
    ShiftMeanings(i, Seen(i, p, w, true));
  }

  lemma SmallShifts()
    ensures ShiftLeft(2, 1) == 4 && ShiftRightArithmetic(2, 1) == 1 && ShiftRightLogical(2, 1) == 1
    ensures ShiftLeft(2, 2) == 8 && ShiftRightArithmetic(2, 2) == 0 && ShiftRightLogical(2, 2) == 0
    ensures ShiftLeft(1, 1) == 2 && ShiftRightArithmetic(1, 1) == 0 && ShiftRightLogical(1, 1) == 0
    ensures forall x: int32 :: ShiftLeft(x, 0) == x && ShiftRightArithmetic(x, 0) == x && ShiftRightLogical(x, 0) == x
    ensures ShiftLeft(0, 1) == 0 && ShiftRightArithmetic(0, 1) == 0 && ShiftRightLogical(0, 1) == 0
    ensures Amount(0) == 0 && Amount(1) == 1 && Amount(2) == 2 && Amount(32) == 0
  {
  }

  lemma ShowsInLeftShifts(i: Instruction, p: Reg) returns (w: Witness)
    requires Exposes(i, p) && i.opCode == SLLV
    ensures Shows(i, p, w)
  {
    hide Meaning, ShiftLeft, ShiftRightArithmetic, ShiftRightLogical, Advance, Wrap, Amount;
    SmallShifts();
    w := if i.rs == i.rt then Witness(0, if Dest(i) == p then 1 else 32, 0)
         else if p == i.rs then Witness(0, 1, if Dest(i) == p then 0 else 2)
         else if Dest(i) == p then Witness(0, 1, 1) else Witness(0, -1, 0);
    ShiftMeanings(i, Seen(i, p, w, false));
    ShiftMeanings(i, Seen(i, p, w, true));
  }

  lemma ShowsInRightShifts(i: Instruction, p: Reg) returns (w: Witness)
    requires Exposes(i, p) && i.opCode in {SRAV, SRLV}
    ensures Shows(i, p, w)
  {
    hide Meaning, ShiftLeft, ShiftRightArithmetic, ShiftRightLogical, Advance, Wrap, Amount;
    SmallShifts();
    w := if i.rs == i.rt then Witness(0, if Dest(i) == p then 1 else 32, 0)
         else if p == i.rs then Witness(0, 1, if Dest(i) == p then 0 else 2)
         else if Dest(i) == p then Witness(0, 1, 1) else Witness(0, -1, 0);
    ShiftMeanings(i, Seen(i, p, w, false));
    ShiftMeanings(i, Seen(i, p, w, true));
  }

  lemma SmallQuotients()
    ensures Quotient(0, 1) == 0 && Remainder(0, 1) == 0 && Quotient(-1, 1) == -1
    ensures Quotient(1, 1) == 1 && Divide(0, 1) == 0 && Divide(1, 1) == 1 && Divide(0xffff_ffff, 1) == 0xffff_ffff
  {
  }

  lemma ShowsInHiLo(i: Instruction, p: Reg) returns (w: Witness)
    requires Exposes(i, p) && i.opCode in {MTHI, MTLO, MULT, MULTU}
    ensures Shows(i, p, w)
  {
    hide And, Or, Xor, Not, Quotient, Remainder, Divide, Modulo, ShiftLeft, ShiftRightArithmetic, ShiftRightLogical;
    w := Witness(0, 1, 1);
  }

  lemma ShowsInDivision(i: Instruction, p: Reg) returns (w: Witness)
    requires Exposes(i, p) && i.opCode in {DIV, DIVU}
    ensures Shows(i, p, w)
  {
    hide And, Or, Xor, Not, Quotient, Remainder, Divide, Modulo, ShiftLeft, ShiftRightArithmetic, ShiftRightLogical;
    SmallQuotients();
    w := Witness(0, 1, 1);
  }

  // ---- Branches and jumps ----

  lemma BranchTargets(extra: int32)
    ensures -0x8000 <= extra < 0x8000 && extra != 1 ==> Wrap(0 + 4 * extra) != Advance(0)
  {
  }

  lemma ShowsInComparisons(i: Instruction, p: Reg) returns (w: Witness)
    requires Exposes(i, p) && i.opCode in {BEQ, BNE}
    ensures Shows(i, p, w)
  {
    hide And, Or, Xor, Not, Quotient, Remainder, Divide, Modulo, ShiftLeft, ShiftRightArithmetic, ShiftRightLogical;
    w := Witness(0, -1, 0);
  }

  lemma ShowsInSigns(i: Instruction, p: Reg) returns (w: Witness)
    requires Exposes(i, p) && i.opCode in {BGEZ, BGTZ, BLEZ, BLTZ}
    ensures Shows(i, p, w)
  {
    hide And, Or, Xor, Not, Quotient, Remainder, Divide, Modulo, ShiftLeft, ShiftRightArithmetic, ShiftRightLogical,
         Wrap, Advance;
    BranchTargets(i.extra);
    w := Witness(0, if i.opCode == BGTZ || i.opCode == BLEZ then 1 else -1, 0);
  }

  lemma ShowsInLinks(i: Instruction, p: Reg) returns (w: Witness)
    requires Exposes(i, p) && i.opCode in {BGEZAL, BLTZAL}
    ensures Shows(i, p, w)
  {
    hide And, Or, Xor, Not, Quotient, Remainder, Divide, Modulo, ShiftLeft, ShiftRightArithmetic, ShiftRightLogical,
         Wrap, Advance;
    BranchTargets(i.extra);
    w := Witness(0, -1, 0);
  }

  lemma ShowsInJumps(i: Instruction, p: Reg) returns (w: Witness)
    requires Exposes(i, p) && i.opCode in {JR, JALR}
    ensures Shows(i, p, w)
  {
    hide And, Or, Xor, Not, Quotient, Remainder, Divide, Modulo, ShiftLeft, ShiftRightArithmetic, ShiftRightLogical;
    w := Witness(0, -1, 0);
  }

  // ---- What is written at once ----

  /** A load that comes after a write to the same register loses the write. */
  lemma WriteShows(i: Instruction, p: Reg) returns (w: Witness)
    requires p != 0 && !ReadsReg(i, p) && p == Dest(i)
    ensures Shows(i, p, w)
  {
    hide And, Or, Xor, Not, Quotient, Remainder, Divide, ShiftLeft, ShiftRightArithmetic, ShiftRightLogical, Wrap,
         Linked;
    var a := Meaning(i, Seen(i, p, Witness(0, 0, 0), false));
    w := Witness(0, if a.value == 0 then 1 else 0, 0);
    ReadsSuffice(i, Seen(i, p, w, false), Seen(i, p, w, true));
    ReadsSuffice(i, Seen(i, p, w, false), Seen(i, p, Witness(0, 0, 0), false));
  }

  // ---- Loads and stores ----

  predicate Stores(i: Instruction) {
    i.opCode in {SB, SH, SW, SWL, SWR}
  }

  predicate Loads(i: Instruction) {
    i.opCode in {LB, LBU, LH, LHU, LW, LWL, LWR}
  }

  lemma LoadMeaning(i: Instruction, o: Operands)
    requires Loads(i) && Wrap(o.a + i.extra) % 4 == 0
    ensures var a := Meaning(i, o);
            a.Load? && a.loadKind == LoadKindOf(i) && a.loadAddr == Wrap(o.a + i.extra)
  {
    hide Wrap;
  }

  lemma StoreMeaning(i: Instruction, o: Operands)
    requires Stores(i) && ToUnsigned(Wrap(o.a + i.extra)) % StoreKindOf(i).Size() == 0
    ensures Meaning(i, o) == Store(StoreKindOf(i), Wrap(o.a + i.extra), o.b)
  {
    hide Wrap;
  }

  function LoadKindOf(i: Instruction): LoadKind {
    match i.opCode
    case LB => SignedByte
    case LBU => UnsignedByte
    case LH => SignedHalf
    case LHU => UnsignedHalf
    case LWR => RightWord
    case _ => FullWord
  }

  function StoreKindOf(i: Instruction): StoreKind {
    match i.opCode
    case SB => StoreByte
    case SH => StoreHalf
    case SWL => StoreLeft
    case SWR => StoreRight
    case _ => StoreWord
  }

  /** One page of virtual memory, in frame 0. */
  function OnePage(page: uint32): Mmu {
    Tlb([TranslationEntry(page, 0, true, false, false, false)])
  }

  function Zeros(): (m: Memory)
    ensures forall p :: 0 <= p < 0x8000 ==> m[p] == 0
  {
    seq(0x8000, _ => 0)
  }

  lemma OnePageResolves(va: int32, size: int, writing: bool)
    requires IsSize(size) && ToUnsigned(va) % size == 0
    ensures Resolve(OnePage(ToUnsigned(va) / 128), va, size, writing) == Physical(ToUnsigned(va) % 128, 0)
    ensures Resolve(OnePage(0), 128, size, writing) == Fault(PageFault)
  {
  }

  lemma Offsets(extra: int32)
    ensures var e: int := extra;
            Wrap(Wrap(-e) + e) == 0 && Wrap(Wrap(128 - e) + e) == 128
  {
  }

  /** A load or store that reaches memory through register rs goes elsewhere, out of the page. */
  lemma AddressShows(i: Instruction, r: Registers, r2: Registers)
    requires (Loads(i) || Stores(i)) && Committed(r, r2)
    requires var e: int := i.extra; r[i.rs] == Wrap(-e) && r2[i.rs] == Wrap(128 - e)
    ensures !SameResult(Execute(OnePage(0), Zeros(), r2, i), Execute(OnePage(0), Zeros(), r, i))
  {
    hide Resolve, Fetch, Stored, Retire, Meaning, OnePage, Zeros, Wrap, Loads, Stores;
    Offsets(i.extra);
    if Loads(i) {
      LoadMeaning(i, OperandsOf(i, r));
      LoadMeaning(i, OperandsOf(i, r2));
      OnePageResolves(0, LoadKindOf(i).Size(), false);
    } else {
      StoreMeaning(i, OperandsOf(i, r));
      StoreMeaning(i, OperandsOf(i, r2));
      OnePageResolves(0, StoreKindOf(i).Size(), false);
      OnePageResolves(0, StoreKindOf(i).Size(), true);
    }
  }

  lemma StoredValues(kind: StoreKind)
    ensures var k := if kind.StoreRight? then 3 else 0;
            ByteOf(kind.Value(0, 0), k) == 0 && ByteOf(kind.Value(-1, 0), k) == 0xff
  {
  }

  lemma MemoriesDiffer(kind: StoreKind, at: nat)
    requires at + kind.Size() <= 0x8000
    ensures kind.Size() == 4 ==> Fetch(Zeros(), at, 4) == 0
    ensures Stored(Zeros(), at, kind.Size(), kind.Value(0, 0)) != Stored(Zeros(), at, kind.Size(), kind.Value(-1, 0))
  {
    hide Stored, Zeros, ByteOf;
    StoredValues(kind);
    var v, v2, k := kind.Value(0, 0), kind.Value(-1, 0), if kind.StoreRight? then 3 else 0;
    var mem, mem2 := Stored(Zeros(), at, kind.Size(), v), Stored(Zeros(), at, kind.Size(), v2);
    assert mem[at + k] == ByteOf(v, k) && mem2[at + k] == ByteOf(v2, k);
  }

  /** A store of register rt stores something else. */
  lemma StoredShows(i: Instruction, r: Registers, r2: Registers, va: int32)
    requires Stores(i) && Committed(r, r2) && r[i.rs] == r2[i.rs] && r[i.rt] == 0 && r2[i.rt] == -1
    requires va == Wrap(r[i.rs] + i.extra) && ToUnsigned(va) % StoreKindOf(i).Size() == 0
    ensures var m := OnePage(ToUnsigned(va) / 128);
            !SameResult(Execute(m, Zeros(), r2, i), Execute(m, Zeros(), r, i))
  {
    hide Resolve, Retire, Stored, Meaning, Fetch, OnePage, Zeros, Wrap, Stores, StoreKindOf;
    var kind := StoreKindOf(i);
    StoreMeaning(i, OperandsOf(i, r));
    StoreMeaning(i, OperandsOf(i, r2));
    OnePageResolves(va, kind.Size(), false);
    OnePageResolves(va, kind.Size(), true);
    InFrame(0, ToUnsigned(va), kind.Size());
    MemoriesDiffer(kind, ToUnsigned(va) % 128);
  }

  lemma Alignment(i: Instruction, p: Reg, va: int32)
    requires Exposes(i, p) && Stores(i) && p != i.rs
    requires va == if i.rs == 0 then i.extra else 0
    ensures ToUnsigned(va) % StoreKindOf(i).Size() == 0
  {
    hide ToUnsigned;
    PatternRemainders(va);
  }

  lemma PatternRemainders(x: int32)
    ensures ToUnsigned(x) % 4 == x % 4 && ToUnsigned(x) % 2 == x % 2 && ToUnsigned(x) % 1 == 0
  {
  }

  // ---- All instructions ----

  /** Registers that hold w's values, with the load into p pending. */
  function Showing(p: Reg, w: Witness): (r: Registers)
    requires p != 0
    ensures Sound(r) && r[37] == p && r[38] == w.loaded && r[32] == r[33] == r[35] == 0
    ensures forall k: Reg :: r[k] == Operand(k, p, w, false)
  {
    seq(40, k => if k == 37 then p else if k == 38 then w.loaded
                 else if 0 < k < 32 then Operand(k, p, w, false) else 0)
  }

  lemma ShowingOperands(i: Instruction, p: Reg, w: Witness, r2: Registers)
    requires p != 0 && Committed(Showing(p, w), r2)
    ensures OperandsOf(i, Showing(p, w)) == Seen(i, p, w, false) && OperandsOf(i, r2) == Seen(i, p, w, true)
  {
    hide Showing;
    var r := Showing(p, w);
    assert r[i.rs] == Operand(i.rs, p, w, false) && r[i.rt] == Operand(i.rt, p, w, false);
  }

  lemma WitnessOutsideMemory(i: Instruction, p: Reg) returns (w: Witness)
    requires Ranged(i) && Touches(i, p) && !Cancels(i, p) && !Loads(i) && !Stores(i)
    ensures Shows(i, p, w)
  {
    hide Ranged, ReadsReg, Cancels, Shows, Dest;
    if !ReadsReg(i, p) {
      w := WriteShows(i, p);
    } else {
      w := ReadShows(i, p);
    }
  }

  lemma ReadShows(i: Instruction, p: Reg) returns (w: Witness)
    requires Exposes(i, p) && !Loads(i) && !Stores(i)
    ensures Shows(i, p, w)
  {
    hide Ranged, Cancels, Shows;
    match i.opCode
    case ADD | ADDU => w := ShowsInAdd(i, p);
    case SUB => w := ShowsInSub(i, p);
    case SUBU => w := ShowsInSubUnsigned(i, p);
    case ADDI | ADDIU => w := ShowsInAddImmediate(i, p);
    case SLT => w := ShowsInTest(i, p);
    case SLTU => w := ShowsInTestUnsigned(i, p);
    case SLTI | SLTIU => w := ShowsInTestsImmediate(i, p);
    case AND => w := ShowsInAnd(i, p);
    case OR => w := ShowsInOr(i, p);
    case XOR | NOR => w := ShowsInXor(i, p);
    case ANDI => w := ShowsInAndImmediate(i, p);
    case ORI => w := ShowsInOrImmediate(i, p);
    case XORI => w := ShowsInXorImmediate(i, p);
    case SLL | SRA | SRL => w := ShowsInShifts(i, p);
    case SLLV => w := ShowsInLeftShifts(i, p);
    case SRAV | SRLV => w := ShowsInRightShifts(i, p);
    case MTHI | MTLO | MULT | MULTU => w := ShowsInHiLo(i, p);
    case DIV | DIVU => w := ShowsInDivision(i, p);
    case BEQ | BNE => w := ShowsInComparisons(i, p);
    case BGEZ | BGTZ | BLEZ | BLTZ => w := ShowsInSigns(i, p);
    case BGEZAL | BLTZAL => w := ShowsInLinks(i, p);
    case JR | JALR => w := ShowsInJumps(i, p);
    case _ =>
  }

  /** A program can tell: run straight on, and with the load committed, it comes to something else. */
  ghost predicate Tells(i: Instruction, m: Mmu, mem: Memory, r: Registers) {
    Sound(r) && forall r2 :: Committed(r, r2) ==> !SameResult(Execute(m, mem, r2, i), Execute(m, mem, r, i))
  }

  lemma MemoryShows(i: Instruction, p: Reg) returns (m: Mmu, mem: Memory, r: Registers)
    requires Exposes(i, p) && (Loads(i) || Stores(i))
    ensures r[37] == p && Tells(i, m, mem, r)
  {
    hide Execute, SameResult, OnePage, Zeros, Wrap, StoreKindOf, Cancels, Loads, Stores, Showing;
    var e: int := i.extra;
    mem := Zeros();
    if p == i.rs {
      var w := Witness(Wrap(-e), Wrap(128 - e), 0);
      m, r := OnePage(0), Showing(p, w);
      forall r2 | Committed(r, r2)
        ensures !SameResult(Execute(m, mem, r2, i), Execute(m, mem, r, i))
      {
        ShowingOperands(i, p, w, r2);
        AddressShows(i, r, r2);
      }
    } else {
      var w, va := Witness(0, -1, Wrap(-e)), if i.rs == 0 then i.extra else 0;
      m, r := OnePage(ToUnsigned(va) / 128), Showing(p, w);
      LoadsReadRs(i);
      Alignment(i, p, va);
      Offsets(e);
      WrapFits(e);
      forall r2 | Committed(r, r2)
        ensures !SameResult(Execute(m, mem, r2, i), Execute(m, mem, r, i))
      {
        ShowingOperands(i, p, w, r2);
        StoredShows(i, r, r2, va);
      }
    }
  }

  lemma LoadsReadRs(i: Instruction)
    ensures Loads(i) ==> !ReadsRt(i)
    ensures Loads(i) || Stores(i) ==> ReadsRs(i) && Dest(i) == 0
  {
  }

  /** Whatever register an instruction touches, unless it takes back what it reads of it, a program can tell whether
      a load pending for that register was committed early. */
  lemma EarlyCommitShows(i: Instruction, p: Reg) returns (m: Mmu, mem: Memory, r: Registers)
    requires Ranged(i) && Touches(i, p) && !Cancels(i, p)
    ensures r[37] == p && Tells(i, m, mem, r)
  {
    hide Meaning, Execute, SameResult, Disagree, Ranged, Cancels, Loads, Stores, Showing, ReadsRs, ReadsRt, Dest;
    LoadsReadRs(i);
    if Loads(i) || Stores(i) {
      m, mem, r := MemoryShows(i, p);
    } else {
      var w := WitnessOutsideMemory(i, p);
      m, mem, r := OnePage(0), Zeros(), Showing(p, w);
      forall r2 | Committed(r, r2)
        ensures !SameResult(Execute(m, mem, r2, i), Execute(m, mem, r, i))
      {
        ShowingOperands(i, p, w, r2);
        DisagreeingRuns(m, mem, r, r2, i);
      }
    }
  }

  /** Committing a load into p early never shows when this instruction runs. */
  ghost predicate Transparent(i: Instruction, p: Reg) {
    forall m, mem, r, r2 :: Committed(r, r2) && r[37] == p ==>
      SameResult(Execute(m, mem, r2, i), Execute(m, mem, r, i))
  }

  lemma DecodedRanged(v: uint32)
    ensures Ranged(Decode(v))
  {
  }

  /** The exact condition, for every word of memory taken as an instruction. */
  lemma TransparentIffUntouched(v: uint32, p: Reg)
    ensures var i := Decode(v);
            Transparent(i, p) <==> !Touches(i, p) || Cancels(i, p)
  {
    hide Execute, SameResult, Touches, Cancels, Decode, Ranged;
    var i := Decode(v);
    if !Touches(i, p) {
      forall m, mem, r, r2 | Committed(r, r2) && r[37] == p
        ensures SameResult(Execute(m, mem, r2, i), Execute(m, mem, r, i))
      {
        RestartIsTransparent(m, mem, r, r2, i);
      }
    } else if Cancels(i, p) {
      TouchesSomething(i, p);
      forall m, mem, r, r2 | Committed(r, r2) && r[37] == p
        ensures SameResult(Execute(m, mem, r2, i), Execute(m, mem, r, i))
      {
        CancelledIsTransparent(m, mem, r, r2, i);
      }
    } else {
      DecodedRanged(v);
      var m, mem, r := EarlyCommitShows(i, p);
      TrapsCommit(r, 0);
      assert Committed(r, Trapped(r, 0));
    }
  }

  lemma TouchesSomething(i: Instruction, p: Reg)
    ensures Touches(i, p) ==> p != 0
  {
  }
}
