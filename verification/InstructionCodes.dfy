/** The instruction words, from the assembler's side: which code stands for which instruction, and that decoding an
    encoded instruction gives it back. */
module InstructionCodes {
  import opened Bytes
  import opened Instructions

  /** Where an instruction's code stands: in the upper six bits, in the lowest six under code 0, or in the field of rt
      under code 1. */
  datatype Code = Primary(n: nat) | Secondary(n: nat) | Condition(n: nat)

  predicate Coded(op: Op) {
    op !in {RES, UNIMP, RFE}
  }

  /** The code is where the tables have the instruction. */
  predicate InTables(op: Op, c: Code) {
    match c
    case Primary(n) => OpTable(n).Plain? && OpTable(n).op == op
    case Secondary(n) => SpecialTable(n) == op
    case Condition(n) => ConditionOp(n) == op
  }

  predicate CodeFits(c: Code) {
    match c
    case Primary(n) => 2 <= n < 64
    case Secondary(n) => n < 64
    case Condition(n) => n < 32
  }

  function ConditionOp(n: nat): Op {
    if n == 0 then BLTZ else if n == 1 then BGEZ else if n == 16 then BLTZAL else if n == 17 then BGEZAL else UNIMP
  }

  function CodeOf(op: Op): (c: Code)
    requires Coded(op)
    ensures InTables(op, c) && CodeFits(c)
    ensures op in {J, JAL} ==> c.Primary?
  {
    match op
    case J => Primary(2)
    case JAL => Primary(3)
    case BEQ => Primary(4)
    case BNE => Primary(5)
    case BLEZ => Primary(6)
    case BGTZ => Primary(7)
    case ADDI => Primary(8)
    case ADDIU => Primary(9)
    case SLTI => Primary(10)
    case SLTIU => Primary(11)
    case ANDI => Primary(12)
    case ORI => Primary(13)
    case XORI => Primary(14)
    case LUI => Primary(15)
    case LB => Primary(32)
    case LH => Primary(33)
    case LWL => Primary(34)
    case LW => Primary(35)
    case LBU => Primary(36)
    case LHU => Primary(37)
    case LWR => Primary(38)
    case SB => Primary(40)
    case SH => Primary(41)
    case SWL => Primary(42)
    case SW => Primary(43)
    case SWR => Primary(46)
    case SLL => Secondary(0)
    case SRL => Secondary(2)
    case SRA => Secondary(3)
    case SLLV => Secondary(4)
    case SRLV => Secondary(6)
    case SRAV => Secondary(7)
    case JR => Secondary(8)
    case JALR => Secondary(9)
    case SYSCALL => Secondary(12)
    case MFHI => Secondary(16)
    case MTHI => Secondary(17)
    case MFLO => Secondary(18)
    case MTLO => Secondary(19)
    case MULT => Secondary(24)
    case MULTU => Secondary(25)
    case DIV => Secondary(26)
    case DIVU => Secondary(27)
    case ADD => Secondary(32)
    case ADDU => Secondary(33)
    case SUB => Secondary(34)
    case SUBU => Secondary(35)
    case AND => Secondary(36)
    case OR => Secondary(37)
    case XOR => Secondary(38)
    case NOR => Secondary(39)
    case SLT => Secondary(42)
    case SLTU => Secondary(43)
    case BLTZ => Condition(0)
    case BGEZ => Condition(1)
    case BLTZAL => Condition(16)
    case BGEZAL => Condition(17)
  }

  predicate HasCode(v: uint32, c: Code) {
    match c
    case Primary(n) => v / 0x400_0000 == n
    case Secondary(n) => v / 0x400_0000 == 0 && v % 0x40 == n
    case Condition(n) => v / 0x400_0000 == 1 && v / 0x1_0000 % 0x20 == n
  }

  lemma PrimaryCodes(k: nat)
    ensures OpTable(k).Plain? && Coded(OpTable(k).op) ==> CodeOf(OpTable(k).op) == Primary(k)
  {
    hide *;
    LowPrimaryCodes(k);
    HighPrimaryCodes(k);
  }

  lemma LowPrimaryCodes(k: nat)
    ensures k < 32 && OpTable(k).Plain? && Coded(OpTable(k).op) ==> CodeOf(OpTable(k).op) == Primary(k)
  {
    hide InTables, CodeFits;
  }

  lemma HighPrimaryCodes(k: nat)
    ensures k >= 32 && OpTable(k).Plain? && Coded(OpTable(k).op) ==> CodeOf(OpTable(k).op) == Primary(k)
  {
    hide InTables, CodeFits;
  }

  lemma OtherTables(k: nat)
    ensures (OpTable(k) == SPECIAL <==> k == 0) && (OpTable(k) == BCOND <==> k == 1)
  {
  }

  lemma SecondaryCodes(k: nat)
    ensures Coded(SpecialTable(k)) ==> CodeOf(SpecialTable(k)) == Secondary(k)
  {
    hide InTables, CodeFits;
  }

  lemma ConditionCodes(k: nat)
    ensures Coded(ConditionOp(k)) ==> CodeOf(ConditionOp(k)) == Condition(k)
  {
  }

  /** A word decodes to an instruction exactly if it has the instruction's code. */
  lemma DecodesByCode(v: uint32, op: Op)
    requires Coded(op)
    ensures Decode(v).opCode == op <==> HasCode(v, CodeOf(op))
  {
    hide OpTable, SpecialTable, CodeOf, Extra, ConditionOp;
    PrimaryCodes(v / 0x400_0000);
    OtherTables(v / 0x400_0000);
    SecondaryCodes(v % 0x40);
    ConditionCodes(v / 0x1_0000 % 0x20);
    OpCodeCases(v);
  }

  lemma OpCodeCases(v: uint32)
    ensures var k := v / 0x400_0000;
            OpCode(v) == if k == 0 then SpecialTable(v % 0x40)
                         else if k == 1 then ConditionOp(v / 0x1_0000 % 0x20)
                         else OpTable(k).op
  {
    hide SpecialTable, OpTable;
    OtherTables(v / 0x400_0000);
  }

  /** The words that mean nothing to the machine: unassigned codes give RES, codes of coprocessors, traps and unknown
      conditions UNIMP. */
  lemma DecodesToNothing(v: uint32)
    ensures var k := v / 0x400_0000;
            Decode(v).opCode == UNIMP <==>
            || 16 <= k < 20 || 48 <= k < 52 || 56 <= k < 60
            || (k == 0 && v % 0x40 == 13)
            || (k == 1 && v / 0x1_0000 % 0x20 !in {0, 1, 16, 17})
  {
    hide Extra;
  }

  /** The word for an instruction. */
  function Encode(i: Instruction): uint32
    requires Coded(i.opCode) && Encodable(i)
  {
    var rs: int, rt: int, rd: int, extra: int := i.rs, i.rt, i.rd, i.extra;
    match CodeOf(i.opCode)
    case Primary(n) =>
      if i.opCode in {J, JAL} then 0x400_0000 * n + extra
      else 0x400_0000 * n + 0x20_0000 * rs + 0x1_0000 * rt + extra % 0x1_0000
    case Secondary(n) =>
      0x20_0000 * rs + 0x1_0000 * rt + 0x800 * rd + 0x40 * extra + n
    case Condition(n) =>
      0x400_0000 + 0x20_0000 * rs + 0x1_0000 * n + extra % 0x1_0000
  }

  /** The third operand fits its field. */
  predicate Encodable(i: Instruction)
    requires Coded(i.opCode)
  {
    if i.opCode in {J, JAL} then 0 <= i.extra < 0x400_0000
    else if CodeOf(i.opCode).Secondary? then 0 <= i.extra < 32
    else -0x8000 <= i.extra < 0x8000
  }

  lemma FieldsOf(a: nat, b: nat, c: nat, d: nat)
    requires a < 64 && b < 32 && c < 32 && d < 0x1_0000
    ensures var v := 0x400_0000 * a + 0x20_0000 * b + 0x1_0000 * c + d;
            v / 0x400_0000 == a && v / 0x20_0000 % 0x20 == b && v / 0x1_0000 % 0x20 == c && v % 0x1_0000 == d
  {
    var v := 0x400_0000 * a + 0x20_0000 * b + 0x1_0000 * c + d;
    assert v / 0x20_0000 == 0x20 * a + b;
    assert v / 0x1_0000 == 0x20 * (0x20 * a + b) + c;
  }

  lemma LowFieldsOf(v: uint32, rd: nat, extra: nat, n: nat)
    requires rd < 32 && extra < 32 && n < 64 && v % 0x1_0000 == 0x800 * rd + 0x40 * extra + n
    ensures v / 0x800 % 0x20 == rd && v / 0x40 % 0x20 == extra && v % 0x40 == n
  {
    var high: int := v / 0x1_0000;
    assert v == 0x1_0000 * high + 0x800 * rd + 0x40 * extra + n;
    assert v / 0x800 == 0x20 * high + rd && v / 0x40 == 0x20 * (0x20 * high + rd) + extra;
  }

  /** Decoding an encoded instruction gives back the opcode and every field that the format has. */
  lemma EncodedDecodes(i: Instruction)
    requires Coded(i.opCode) && Encodable(i)
    ensures var d, c := Decode(Encode(i)), CodeOf(i.opCode);
            && d.opCode == i.opCode && d.extra == i.extra
            && (i.opCode !in {J, JAL} ==> d.rs == i.rs)
            && (i.opCode !in {J, JAL} && !c.Condition? ==> d.rt == i.rt)
            && (c.Secondary? ==> d.rd == i.rd)
  {
    hide CodeOf, InTables, CodeFits, HasCode, OpCode, Extra, Encode, Decode, SignExtend16;
    var v := Encode(i);
    EncodedParts(i);
    DecodesByCode(v, i.opCode);
    DecodedFields(v);
    ExtraByCode(v, i.opCode);
    if -0x8000 <= i.extra < 0x8000 {
      SignExtendedBack(i.extra);
    }
  }

  lemma DecodedFields(v: uint32)
    ensures var d := Decode(v);
            && d.rs == v / 0x20_0000 % 0x20 && d.rt == v / 0x1_0000 % 0x20 && d.rd == v / 0x800 % 0x20
            && d.extra == Extra(v)
  {
    hide OpCode, Extra;
  }

  lemma ExtraByCode(v: uint32, op: Op)
    requires Coded(op) && HasCode(v, CodeOf(op))
    ensures CodeOf(op).Secondary? ==> Extra(v) == v / 0x40 % 0x20
    ensures op in {J, JAL} ==> Extra(v) == v % 0x400_0000
    ensures !CodeOf(op).Secondary? && op !in {J, JAL} ==> Extra(v) == SignExtend16(v % 0x1_0000)
  {
    hide OpTable, SpecialTable, CodeOf, SignExtend16, ConditionOp;
    OtherTables(v / 0x400_0000);
  }

  /** What stands where in an encoded instruction. */
  lemma EncodedParts(i: Instruction)
    requires Coded(i.opCode) && Encodable(i)
    ensures var v, c, jump := Encode(i), CodeOf(i.opCode), i.opCode in {J, JAL};
            && HasCode(v, c)
            && (!jump ==> v / 0x20_0000 % 0x20 == i.rs)
            && (!jump && !c.Condition? ==> v / 0x1_0000 % 0x20 == i.rt)
            && (c.Secondary? ==> v / 0x800 % 0x20 == i.rd && v / 0x40 % 0x20 == i.extra)
            && (jump ==> v % 0x400_0000 == i.extra)
            && (!jump && !c.Secondary? ==> v % 0x1_0000 == i.extra % 0x1_0000)
  {
    hide CodeOf, InTables;
    match CodeOf(i.opCode)
    case Primary(n) =>
      if i.opCode !in {J, JAL} {
        FieldsOf(n, i.rs, i.rt, i.extra % 0x1_0000);
      }
    case Secondary(n) =>
      FieldsOf(0, i.rs, i.rt, 0x800 * (i.rd as int) + 0x40 * (i.extra as int) + n);
      LowFieldsOf(Encode(i), i.rd, i.extra, n);
    case Condition(n) =>
      FieldsOf(1, i.rs, n, i.extra % 0x1_0000);
  }

  lemma SignExtendedBack(x: int)
    requires -0x8000 <= x < 0x8000
    ensures SignExtend16(x % 0x1_0000) == x
  {
  }
}
