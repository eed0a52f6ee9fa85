/** MIPS instructions: the tables and the decoding of a word. */
module Instructions {
  import opened Bytes

  datatype Op =
    | ADD | ADDI | ADDIU | ADDU | AND | ANDI | BEQ | BGEZ | BGEZAL | BGTZ | BLEZ | BLTZ | BLTZAL | BNE
    | DIV | DIVU | J | JAL | JALR | JR | LB | LBU | LH | LHU | LUI | LW | LWL | LWR | MFHI | MFLO | MTHI | MTLO
    | MULT | MULTU | NOR | OR | ORI | RFE | SB | SH | SLL | SLLV | SLT | SLTI | SLTIU | SLTU | SRA | SRAV | SRL | SRLV
    | SUB | SUBU | SW | SWL | SWR | XOR | XORI | SYSCALL | UNIMP | RES

  datatype Format = IFMT | JFMT | RFMT

  /** A primary opcode is an instruction, or says where else to look. */
  datatype OpInfo = Plain(op: Op, format: Format) | SPECIAL | BCOND

  type Reg = x: int | 0 <= x < 32

  datatype Instruction = Instruction(opCode: Op, rs: Reg, rt: Reg, rd: Reg, extra: int32)

  /** Jumps alone have the jump format, and the remaining primary opcodes are neither shifts nor RFE. */
  predicate PrimaryOk(info: OpInfo) {
    info.Plain? ==> (info.format == JFMT <==> info.op == J || info.op == JAL) && info.op !in {SLL, SRL, SRA, RFE}
  }

  predicate SecondaryOk(op: Op) {
    op !in {RFE, J, JAL, ADDI, ADDIU, BEQ, BNE, LB, LBU, LH, LHU, LW, SB, SH, SW}
  }

  function OpTable(k: nat): (info: OpInfo)
    ensures PrimaryOk(info)
  {
    match k
    case 0 => SPECIAL
    case 1 => BCOND
    case 2 => Plain(J, JFMT)
    case 3 => Plain(JAL, JFMT)
    case 4 => Plain(BEQ, IFMT)
    case 5 => Plain(BNE, IFMT)
    case 6 => Plain(BLEZ, IFMT)
    case 7 => Plain(BGTZ, IFMT)
    case 8 => Plain(ADDI, IFMT)
    case 9 => Plain(ADDIU, IFMT)
    case 10 => Plain(SLTI, IFMT)
    case 11 => Plain(SLTIU, IFMT)
    case 12 => Plain(ANDI, IFMT)
    case 13 => Plain(ORI, IFMT)
    case 14 => Plain(XORI, IFMT)
    case 15 => Plain(LUI, IFMT)
    case 32 => Plain(LB, IFMT)
    case 33 => Plain(LH, IFMT)
    case 34 => Plain(LWL, IFMT)
    case 35 => Plain(LW, IFMT)
    case 36 => Plain(LBU, IFMT)
    case 37 => Plain(LHU, IFMT)
    case 38 => Plain(LWR, IFMT)
    case 40 => Plain(SB, IFMT)
    case 41 => Plain(SH, IFMT)
    case 42 => Plain(SWL, IFMT)
    case 43 => Plain(SW, IFMT)
    case 46 => Plain(SWR, IFMT)
    case _ => if 16 <= k < 20 || 48 <= k < 52 || 56 <= k < 60 then Plain(UNIMP, IFMT) else Plain(RES, IFMT)
  }

  function SpecialTable(k: nat): (op: Op)
    ensures SecondaryOk(op)
  {
    match k
    case 0 => SLL
    case 2 => SRL
    case 3 => SRA
    case 4 => SLLV
    case 6 => SRLV
    case 7 => SRAV
    case 8 => JR
    case 9 => JALR
    case 12 => SYSCALL
    case 13 => UNIMP
    case 16 => MFHI
    case 17 => MTHI
    case 18 => MFLO
    case 19 => MTLO
    case 24 => MULT
    case 25 => MULTU
    case 26 => DIV
    case 27 => DIVU
    case 32 => ADD
    case 33 => ADDU
    case 34 => SUB
    case 35 => SUBU
    case 36 => AND
    case 37 => OR
    case 38 => XOR
    case 39 => NOR
    case 42 => SLT
    case 43 => SLTU
    case _ => RES
  }

  function SignExtend16(x: nat): int32
    requires x < 0x1_0000
  {
    if x >= 0x8000 then x - 0x1_0000 else x
  }

  function OpCode(value: uint32): Op {
    var info := OpTable(value / 0x400_0000);
    if info.SPECIAL? then SpecialTable(value % 0x40)
    else if info.BCOND? then
      var i := value / 0x1_0000 % 0x20;
      if i == 0 then BLTZ else if i == 1 then BGEZ else if i == 0x10 then BLTZAL else if i == 0x11 then BGEZAL
           else UNIMP
    else info.op
  }

  function Extra(value: uint32): int32 {
    var info := OpTable(value / 0x400_0000);
    if info.SPECIAL? then value / 0x40 % 0x20
    else if info.Plain? && info.format == JFMT then value % 0x400_0000
    else SignExtend16(value % 0x1_0000)
  }

  function Rs(value: uint32): Reg {
    value / 0x20_0000 % 0x20
  }

  function Rt(value: uint32): Reg {
    value / 0x1_0000 % 0x20
  }

  function Rd(value: uint32): Reg {
    value / 0x800 % 0x20
  }

  /** The three register fields, with the opcode above and the 16 low bits below, are the whole word; rd is the top of
      the low bits. */
  predicate HasFields(value: uint32, rs: Reg, rt: Reg, rd: Reg) {
    && value == value / 0x400_0000 * 0x400_0000 + rs * 0x20_0000 + rt * 0x1_0000 + value % 0x1_0000
    && rd == value % 0x1_0000 / 0x800
  }

  /** The third operand: the 26 low bits of a jump, a shift's amount, otherwise 16 low bits with their sign or five
      bits. */
  predicate HasExtra(value: uint32, op: Op, extra: int32) {
    && (op == J || op == JAL ==> extra == value % 0x400_0000)
    && (op == SLL || op == SRL || op == SRA ==> extra == value % 0x800 / 0x40)
    && (op != J && op != JAL ==> -0x8000 <= extra < 0x8000)
    && (op in {ADDI, ADDIU, BEQ, BNE, LB, LBU, LH, LHU, LW, SB, SH, SW} ==> (extra - value) % 0x1_0000 == 0)
  }

  /** Instruction::Decode. No word decodes to an opcode that the interpreter's switch does not handle. */
  function Decode(value: uint32): (i: Instruction)
    ensures HasFields(value, i.rs, i.rt, i.rd) && HasExtra(value, i.opCode, i.extra)
    ensures i.opCode != RFE
  {
    hide OpCode, Extra, Rs, Rt, Rd, HasFields, HasExtra;
    OpCodes(value);
    Fields(value);
    Instruction(OpCode(value), Rs(value), Rt(value), Rd(value), Extra(value))
  }

  lemma Fields(value: uint32)
    ensures HasFields(value, Rs(value), Rt(value), Rd(value))
  {
    var u: int := value;
    assert u / 0x20_0000 == u / 0x1_0000 / 0x20 && u / 0x400_0000 == u / 0x20_0000 / 0x20;
    assert u / 0x1_0000 == u / 0x800 / 0x20;
  }

  lemma ShiftField(value: uint32)
    ensures value / 0x40 % 0x20 == value % 0x800 / 0x40
  {
    var u: int := value;
    assert u / 0x800 == u / 0x40 / 0x20;
  }

  lemma SignExtended(value: uint32)
    ensures var x := SignExtend16(value % 0x1_0000);
            (x - value) % 0x1_0000 == 0 && -0x8000 <= x < 0x8000
  {
  }

  /** The tables name only what the switch handles, and each format only where its operand is used so. */
  lemma OpCodes(value: uint32)
    ensures OpCode(value) != RFE && HasExtra(value, OpCode(value), Extra(value))
  {
    hide OpTable, SpecialTable, SignExtend16;
    assert PrimaryOk(OpTable(value / 0x400_0000)) && SecondaryOk(SpecialTable(value % 0x40));
    ShiftField(value);
    SignExtended(value);
  }
}
