/** The MIPS I instruction encodings, mnemonic by mnemonic, and the proof that decoding inverts
    them: the fields and the number of every instruction, and nothing else. */
module Encoding {
  import opened LittleEndian
  import opened Decoding

  /** How a mnemonic is encoded: a function code under opcode 0, a branch code in the rt field under
      opcode 1, or an opcode of its own. */
  datatype Code = Special(funct: nat) | Branch(code: nat) | Immediate(opcode: nat) | Jump(opcode: nat) | Nothing

  function CodeOf(op: Op): (c: Code) {
    if SpecialCode(op).Special? then SpecialCode(op) else OwnCode(op)
  }

  function SpecialCode(op: Op): (c: Code)
    ensures c.Special? || c == Nothing
    ensures c.Special? ==> c.funct < 64
  {
    match op
    case SLL => Special(0x00) case SRL => Special(0x02) case SRA => Special(0x03)
    case SLLV => Special(0x04) case SRLV => Special(0x06) case SRAV => Special(0x07)
    case JR => Special(0x08) case JALR => Special(0x09) case SYSCALL => Special(0x0c)
    case MFHI => Special(0x10) case MTHI => Special(0x11) case MFLO => Special(0x12) case MTLO => Special(0x13)
    case MULT => Special(0x18) case MULTU => Special(0x19) case DIV => Special(0x1a) case DIVU => Special(0x1b)
    case ADD => Special(0x20) case ADDU => Special(0x21) case SUB => Special(0x22) case SUBU => Special(0x23)
    case AND => Special(0x24) case OR => Special(0x25) case XOR => Special(0x26) case NOR => Special(0x27)
    case SLT => Special(0x2a) case SLTU => Special(0x2b)
    case _ => Nothing
  }

  function OwnCode(op: Op): (c: Code)
    ensures !c.Special?
    ensures (c.Immediate? || c.Jump? ==> c.opcode < 64) && (c.Branch? ==> c.code < 32)
  {
    match op
    case BLTZ => Branch(0x00) case BGEZ => Branch(0x01) case BLTZAL => Branch(0x10) case BGEZAL => Branch(0x11)
    case J => Jump(0x02) case JAL => Jump(0x03)
    case BEQ => Immediate(0x04) case BNE => Immediate(0x05) case BLEZ => Immediate(0x06) case BGTZ => Immediate(0x07)
    case ADDI => Immediate(0x08) case ADDIU => Immediate(0x09) case SLTI => Immediate(0x0a)
    case SLTIU => Immediate(0x0b) case ANDI => Immediate(0x0c) case ORI => Immediate(0x0d)
    case XORI => Immediate(0x0e) case LUI => Immediate(0x0f)
    case LB => Immediate(0x20) case LH => Immediate(0x21) case LWL => Immediate(0x22) case LW => Immediate(0x23)
    case LBU => Immediate(0x24) case LHU => Immediate(0x25) case LWR => Immediate(0x26)
    case SB => Immediate(0x28) case SH => Immediate(0x29) case SWL => Immediate(0x2a) case SW => Immediate(0x2b)
    case SWR => Immediate(0x2e)
    case _ => Nothing
  }

  // The three layouts

  function RWord(opcode: nat, rs: nat, rt: nat, rd: nat, shamt: nat, funct: nat): (w: Word)
    requires opcode < 64 && rs < 32 && rt < 32 && rd < 32 && shamt < 32 && funct < 64
  {
    opcode * 0x400_0000 + rs * 0x20_0000 + rt * 0x1_0000 + rd * 0x800 + shamt * 0x40 + funct
  }

  function IWord(opcode: nat, rs: nat, rt: nat, imm: nat): (w: Word)
    requires opcode < 64 && rs < 32 && rt < 32 && imm < 0x1_0000
  {
    opcode * 0x400_0000 + rs * 0x20_0000 + rt * 0x1_0000 + imm
  }

  function JWord(opcode: nat, index: nat): (w: Word)
    requires opcode < 64 && index < 0x400_0000
  {
    opcode * 0x400_0000 + index
  }

  // Reading the fields back

  lemma CutWord(value: nat, high: nat, low: nat, p: nat)
    requires p == 0x40 || p == 0x800 || p == 0x1_0000 || p == 0x20_0000 || p == 0x400_0000
    requires value == high * p + low && low < p
    ensures value / p == high && value % p == low
  {
  }

  lemma FieldOf(n: nat, high: nat, low: nat)
    requires n == high * 32 + low && low < 32
    ensures n % 32 == low
  {
  }

  lemma IFields(opcode: nat, rs: nat, rt: nat, imm: nat)
    requires opcode < 64 && rs < 32 && rt < 32 && imm < 0x1_0000
    ensures var w := IWord(opcode, rs, rt, imm);
            && w / 0x400_0000 == opcode && w / 0x20_0000 % 32 == rs && w / 0x1_0000 % 32 == rt && w % 0x1_0000 == imm
  {
    var w := IWord(opcode, rs, rt, imm);
    CutWord(w, opcode, rs * 0x20_0000 + rt * 0x1_0000 + imm, 0x400_0000);
    CutWord(w, opcode * 32 + rs, rt * 0x1_0000 + imm, 0x20_0000);
    FieldOf(opcode * 32 + rs, opcode, rs);
    CutWord(w, (opcode * 32 + rs) * 32 + rt, imm, 0x1_0000);
    FieldOf((opcode * 32 + rs) * 32 + rt, opcode * 32 + rs, rt);
  }

  lemma RFields(opcode: nat, rs: nat, rt: nat, rd: nat, shamt: nat, funct: nat)
    requires opcode < 64 && rs < 32 && rt < 32 && rd < 32 && shamt < 32 && funct < 64
    ensures var w := RWord(opcode, rs, rt, rd, shamt, funct);
            && w / 0x400_0000 == opcode && w / 0x20_0000 % 32 == rs && w / 0x1_0000 % 32 == rt
            && w / 0x800 % 32 == rd && w / 0x40 % 32 == shamt && w % 0x40 == funct
  {
    var w := RWord(opcode, rs, rt, rd, shamt, funct);
    IFields(opcode, rs, rt, rd * 0x800 + shamt * 0x40 + funct);
    var high := (opcode * 32 + rs) * 32 + rt;
    CutWord(w, high * 32 + rd, shamt * 0x40 + funct, 0x800);
    FieldOf(high * 32 + rd, high, rd);
    CutWord(w, (high * 32 + rd) * 32 + shamt, funct, 0x40);
    FieldOf((high * 32 + rd) * 32 + shamt, high * 32 + rd, shamt);
  }

  lemma AnyWord(value: Word)
    ensures value == RWord(value / 0x400_0000, value / 0x20_0000 % 32, value / 0x1_0000 % 32, value / 0x800 % 32,
                           value / 0x40 % 32, value % 0x40)
    ensures value == IWord(value / 0x400_0000, value / 0x20_0000 % 32, value / 0x1_0000 % 32, value % 0x1_0000)
    ensures value == JWord(value / 0x400_0000, value % 0x400_0000)
  {
    var a := value / 0x40;
    var b := a / 32;
    var c := b / 32;
    var d := c / 32;
    assert b == value / 0x800 && c == value / 0x1_0000 && d == value / 0x20_0000 && d / 32 == value / 0x400_0000;
  }

  // The tables

  lemma SpecialNumber(op: Op)
    requires CodeOf(op).Special?
    ensures CodeOf(op).funct < 64 && SpecialTable(CodeOf(op).funct) == op
  {
  }

  lemma OpcodeNumber(op: Op)
    requires CodeOf(op).Immediate?
    ensures CodeOf(op).opcode < 64 && OpTable(CodeOf(op).opcode) == (op, IFMT)
  {
  }

  lemma JumpNumber(op: Op)
    requires CodeOf(op).Jump?
    ensures CodeOf(op).opcode < 64 && OpTable(CodeOf(op).opcode) == (op, JFMT)
  {
  }

  lemma BranchNumber(op: Op, funct: nat)
    requires CodeOf(op).Branch? && funct < 64
    ensures CodeOf(op).code < 32 && Selected(BCOND, CodeOf(op).code, funct) == op
  {
  }

  /** The other way round: a table entry is the mnemonic of its index, or none. */
  lemma SpecialEntry(i: nat)
    requires i < 64
    ensures SpecialCode(SpecialTable(i)) == Special(i) || SpecialTable(i).UNIMP? || SpecialTable(i).RES?
  {
  }

  lemma OpcodeEntry(i: nat)
    requires i < 64
    ensures var op := OpTable(i).0;
            || (op.SPECIAL? && i == 0) || (op.BCOND? && i == 1) || op.UNIMP? || op.RES?
            || CodeOf(op) == Immediate(i) || CodeOf(op) == Jump(i)
  {
  }

  // Decoding inverts encoding

  /** Register instructions: the number, the three registers and the shift amount. */
  lemma DecodesSpecial(op: Op, rs: nat, rt: nat, rd: nat, shamt: nat)
    requires CodeOf(op).Special? && rs < 32 && rt < 32 && rd < 32 && shamt < 32
    ensures Decode(RWord(0, rs, rt, rd, shamt, CodeOf(op).funct)) == Instruction(op, rs, rt, rd, shamt)
  {
    SpecialNumber(op);
    RFields(0, rs, rt, rd, shamt, CodeOf(op).funct);
  }

  /** Immediate instructions: the number, two registers, and the immediate sign-extended. */
  lemma DecodesImmediate(op: Op, rs: nat, rt: nat, imm: nat)
    requires CodeOf(op).Immediate? && rs < 32 && rt < 32 && imm < 0x1_0000
    ensures var i := Decode(IWord(CodeOf(op).opcode, rs, rt, imm));
            && i.op == op && i.rs == rs && i.rt == rt
            && Signed(i.extra) == if imm < 0x8000 then imm else imm - 0x1_0000
  {
    OpcodeNumber(op);
    IFields(CodeOf(op).opcode, rs, rt, imm);
    NotSteering(op, rt, IWord(CodeOf(op).opcode, rs, rt, imm) % 64);
  }

  lemma NotSteering(op: Op, rt: nat, funct: nat)
    requires CodeOf(op) != Nothing && funct < 64
    ensures Selected(op, rt, funct) == op
  {
  }

  /** Branches on the sign of a register. */
  lemma DecodesBranch(op: Op, rs: nat, imm: nat)
    requires CodeOf(op).Branch? && rs < 32 && imm < 0x1_0000
    ensures var i := Decode(IWord(1, rs, CodeOf(op).code, imm));
            && i.op == op && i.rs == rs
            && Signed(i.extra) == if imm < 0x8000 then imm else imm - 0x1_0000
  {
    BranchNumber(op, IWord(1, rs, CodeOf(op).code, imm) % 64);
    IFields(1, rs, CodeOf(op).code, imm);
  }

  lemma DecodesJump(op: Op, index: nat)
    requires CodeOf(op).Jump? && index < 0x400_0000
    ensures Decode(JWord(CodeOf(op).opcode, index)).op == op
    ensures Decode(JWord(CodeOf(op).opcode, index)).extra == index
  {
    JumpNumber(op);
    var w := JWord(CodeOf(op).opcode, index);
    CutWord(w, CodeOf(op).opcode, index, 0x400_0000);
    NotSteering(op, w / 0x1_0000 % 32, w % 64);
  }

  /** The words of a mnemonic. */
  ghost predicate IsWordOf(value: Word, op: Op) {
    match CodeOf(op)
    case Special(f) =>
      exists rs, rt, rd, shamt ::
        0 <= rs < 32 && 0 <= rt < 32 && 0 <= rd < 32 && 0 <= shamt < 32 && value == RWord(0, rs, rt, rd, shamt, f)
    case Branch(c) => exists rs, imm :: 0 <= rs < 32 && 0 <= imm < 0x1_0000 && value == IWord(1, rs, c, imm)
    case Immediate(o) =>
      exists rs, rt, imm :: 0 <= rs < 32 && 0 <= rt < 32 && 0 <= imm < 0x1_0000 && value == IWord(o, rs, rt, imm)
    case Jump(o) => exists index :: 0 <= index < 0x400_0000 && value == JWord(o, index)
    case Nothing => false
  }

  /** Every word of a mnemonic decodes to it ... */
  lemma WordDecodes(value: Word, op: Op)
    requires IsWordOf(value, op)
    ensures Decode(value).op == op
  {
    match CodeOf(op) {
      case Special(f) => SpecialWordDecodes(value, op, f);
      case Branch(c) =>
        var rs, imm :| 0 <= rs < 32 && 0 <= imm < 0x1_0000 && value == IWord(1, rs, c, imm);
        DecodesBranch(op, rs, imm);
      case Immediate(o) => ImmediateWordDecodes(value, op, o);
      case Jump(o) =>
        var index :| 0 <= index < 0x400_0000 && value == JWord(o, index);
        DecodesJump(op, index);
    }
  }

  lemma SpecialWordDecodes(value: Word, op: Op, f: nat)
    requires CodeOf(op) == Special(f) && f < 64
    requires exists rs, rt, rd, shamt ::
               && 0 <= rs < 32 && 0 <= rt < 32 && 0 <= rd < 32 && 0 <= shamt < 32
               && value == RWord(0, rs, rt, rd, shamt, f)
    ensures Decode(value).op == op
  {
    var rs, rt, rd, shamt :| 0 <= rs < 32 && 0 <= rt < 32 && 0 <= rd < 32 && 0 <= shamt < 32
                             && value == RWord(0, rs, rt, rd, shamt, f);
    DecodesSpecial(op, rs, rt, rd, shamt);
  }

  lemma ImmediateWordDecodes(value: Word, op: Op, o: nat)
    requires CodeOf(op) == Immediate(o) && o < 64
    requires exists rs, rt, imm ::
               0 <= rs < 32 && 0 <= rt < 32 && 0 <= imm < 0x1_0000 && value == IWord(o, rs, rt, imm)
    ensures Decode(value).op == op
  {
    var rs, rt, imm :| 0 <= rs < 32 && 0 <= rt < 32 && 0 <= imm < 0x1_0000 && value == IWord(o, rs, rt, imm);
    DecodesImmediate(op, rs, rt, imm);
  }

  /** The number of a decoded instruction is the one in its word. */
  lemma DecodedNumber(value: Word)
    ensures match CodeOf(Decode(value).op)
            case Special(f) => value / 0x400_0000 == 0 && value % 0x40 == f
            case Branch(c) => value / 0x400_0000 == 1 && value / 0x1_0000 % 32 == c
            case Immediate(o) => value / 0x400_0000 == o
            case Jump(o) => value / 0x400_0000 == o
            case Nothing => Decode(value).op.UNIMP? || Decode(value).op.RES?
  {
    OpcodeEntry(value / 0x400_0000);
    SpecialEntry(value % 64);
    SelectedNumber(OpTable(value / 0x400_0000).0, value / 0x400_0000, value / 0x1_0000 % 32, value % 64);
  }

  lemma SelectedNumber(entry: Op, opcode: nat, rt: nat, funct: nat)
    requires funct < 64
    requires || SpecialCode(SpecialTable(funct)) == Special(funct)
             || SpecialTable(funct).UNIMP? || SpecialTable(funct).RES?
    requires || (entry.SPECIAL? && opcode == 0) || (entry.BCOND? && opcode == 1) || entry.UNIMP? || entry.RES?
             || CodeOf(entry) == Immediate(opcode) || CodeOf(entry) == Jump(opcode)
    ensures var op := Selected(entry, rt, funct);
            match CodeOf(op)
            case Special(f) => opcode == 0 && funct == f
            case Branch(c) => opcode == 1 && rt == c
            case Immediate(o) => opcode == o
            case Jump(o) => opcode == o
            case Nothing => op.UNIMP? || op.RES?
  {
  }

  /** ... and a word that decodes to a mnemonic is one of its words; all others are UNIMP or RES. */
  lemma DecodedIsWord(value: Word)
    ensures var op := Decode(value).op; IsWordOf(value, op) || op.UNIMP? || op.RES?
  {
    DecodedNumber(value);
    AnyWord(value);
  }
}
