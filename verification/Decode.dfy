/** Instruction decoding: the two opcode tables and the fields of an instruction word. */
module Decoding {
  import opened LittleEndian

  /** The simulator's opcodes.  SPECIAL and BCOND only steer the decoder; RFE is numbered but no
      table produces it and the simulator's switch has no case for it. */
  datatype Op =
    | ADD | ADDI | ADDIU | ADDU | AND | ANDI | BEQ | BGEZ | BGEZAL | BGTZ | BLEZ | BLTZ | BLTZAL | BNE
    | DIV | DIVU | J | JAL | JALR | JR | LB | LBU | LH | LHU | LUI | LW | LWL | LWR
    | MFHI | MFLO | MTHI | MTLO | MULT | MULTU | NOR | OR | ORI | RFE | SB | SH
    | SLL | SLLV | SLT | SLTI | SLTIU | SLTU | SRA | SRAV | SRL | SRLV | SUB | SUBU
    | SW | SWL | SWR | XOR | XORI | SYSCALL | UNIMP | RES | SPECIAL | BCOND

  datatype Format = IFMT | JFMT | RFMT

  datatype Instruction = Instruction(op: Op, rs: nat, rt: nat, rd: nat, extra: Word)

  predicate IsJump(op: Op) {
    op.J? || op.JAL?
  }

  predicate IsFixedShift(op: Op) {
    op.SLL? || op.SRL? || op.SRA?
  }

  /** The opcode table, by its first quarter, its third quarter, and the rest. */
  function OpTable(i: nat): (e: (Op, Format))
    requires i < 64
    ensures e.1.JFMT? <==> IsJump(e.0)
    ensures e.1.RFMT? <==> e.0.SPECIAL?
    ensures !e.0.RFE? && !IsFixedShift(e.0)
  {
    if i < 16 then FirstOps(i)
    else if 32 <= i < 48 then (MemoryOps(i), IFMT)
    else if i in {16, 17, 18, 19, 48, 49, 50, 51, 56, 57, 58, 59} then (UNIMP, IFMT)
    else (RES, IFMT)
  }

  function FirstOps(i: nat): (e: (Op, Format))
    requires i < 16
    ensures e.1.JFMT? <==> IsJump(e.0)
    ensures e.1.RFMT? <==> e.0.SPECIAL?
    ensures !e.0.RFE? && !IsFixedShift(e.0)
  {
    match i
    case 0 => (SPECIAL, RFMT) case 1 => (BCOND, IFMT) case 2 => (J, JFMT) case 3 => (JAL, JFMT)
    case 4 => (BEQ, IFMT) case 5 => (BNE, IFMT) case 6 => (BLEZ, IFMT) case 7 => (BGTZ, IFMT)
    case 8 => (ADDI, IFMT) case 9 => (ADDIU, IFMT) case 10 => (SLTI, IFMT) case 11 => (SLTIU, IFMT)
    case 12 => (ANDI, IFMT) case 13 => (ORI, IFMT) case 14 => (XORI, IFMT) case 15 => (LUI, IFMT)
  }

  function MemoryOps(i: nat): (op: Op)
    requires 32 <= i < 48
    ensures !IsJump(op) && !op.SPECIAL? && !op.BCOND? && !op.RFE? && !IsFixedShift(op)
  {
    match i
    case 32 => LB case 33 => LH case 34 => LWL case 35 => LW case 36 => LBU case 37 => LHU case 38 => LWR
    case 40 => SB case 41 => SH case 42 => SWL case 43 => SW case 46 => SWR
    case _ => RES
  }

  function SpecialTable(i: nat): (op: Op)
    requires i < 64
    ensures !op.SPECIAL? && !op.BCOND? && !op.RFE? && !IsJump(op)
  {
    match i
    case 0 => SLL case 2 => SRL case 3 => SRA case 4 => SLLV case 6 => SRLV case 7 => SRAV
    case 8 => JR case 9 => JALR case 12 => SYSCALL case 13 => UNIMP
    case 16 => MFHI case 17 => MTHI case 18 => MFLO case 19 => MTLO
    case 24 => MULT case 25 => MULTU case 26 => DIV case 27 => DIVU
    case 32 => ADD case 33 => ADDU case 34 => SUB case 35 => SUBU
    case 36 => AND case 37 => OR case 38 => XOR case 39 => NOR
    case 42 => SLT case 43 => SLTU
    case _ => RES
  }

  /** The opcode proper, given the table's entry, the rt field and the function code. */
  function Selected(op: Op, rt: nat, funct: nat): (r: Op)
    requires funct < 64
    ensures !r.SPECIAL? && !r.BCOND? && (r.RFE? ==> op.RFE?)
    ensures IsJump(r) ==> r == op
    ensures IsFixedShift(r) ==> op.SPECIAL? || r == op
  {
    match op
    case SPECIAL => SpecialTable(funct)
    case BCOND =>
      if rt == 0 then BLTZ else if rt == 1 then BGEZ else if rt == 16 then BLTZAL else if rt == 17 then BGEZAL
      else UNIMP
    case _ => op
  }

  function Extra(format: Format, value: Word): (extra: Word) {
    match format
    case IFMT => SignExtend16(value % 0x1_0000)
    case RFMT => value / 64 % 32
    case JFMT => value % 0x400_0000
  }

  /** Every word decodes to an opcode that execution has a case for. */
  function Decode(value: Word): (i: Instruction)
    ensures i.rs < 32 && i.rt < 32 && i.rd < 32
    ensures !i.op.SPECIAL? && !i.op.BCOND? && !i.op.RFE?
    ensures i.op.J? || i.op.JAL? ==> i.extra < 0x400_0000
    ensures i.op.SLL? || i.op.SRL? || i.op.SRA? ==> i.extra < 32
  {
    var rs, rt, rd := value / 0x20_0000 % 32, value / 0x1_0000 % 32, value / 0x800 % 32;
    var (op, format) := OpTable(value / 0x400_0000);
    Instruction(Selected(op, rt, value % 64), rs, rt, rd, Extra(format, value))
  }

  function SignExtend16(x: nat): (w: Word)
    requires x < 0x1_0000
    ensures Signed(w) == if x < 0x8000 then x else x - 0x1_0000
  {
    if x < 0x8000 then x else 0xffff_0000 + x
  }
}
