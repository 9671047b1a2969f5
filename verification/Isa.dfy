/** What each instruction means, in the arithmetic of the MIPS I instruction set, and what one
    step of the machine does.  The simulator computes these meanings with C bit operations. */
module Isa {
  import opened LittleEndian
  import opened Bits
  import opened Translation
  import opened Unaligned
  import opened Decoding

  const NUM_REGS := 40
  const R31 := 31
  const HI := 32
  const LO := 33
  const PC := 34
  const NEXT_PC := 35
  const PREV_PC := 36
  const LOAD_REG := 37
  const LOAD_VALUE := 38
  const BAD_VADDR := 39

  type Registers = r: seq<Word> | |r| == NUM_REGS witness seq(NUM_REGS, _ => 0)

  /** How an instruction ends.  HostFault is the division the host language leaves undefined. */
  datatype Outcome = Done | Trap(which: Exception, badVAddr: Word) | HostFault

  datatype Meaning =
    | Sets(reg: nat, value: Word)
    | SetsHiLo(hi: Word, lo: Word)
    | Continues(pcAfter: Word, link: nat)   // a jump or branch; link 0: no return address kept
    | Raises(exception: Exception)
    | Undefined

  predicate IsInt(v: int) {
    -0x8000_0000 <= v < 0x8000_0000
  }

  function Trapping(d: nat, v: int): (m: Meaning) {
    if IsInt(v) then Sets(d, Unsigned(v)) else Raises(Overflow)
  }

  /** 32-bit wrapping addition. */
  function Plus(a: Word, b: Word): (w: Word) {
    (a as int + b as int) % 0x1_0000_0000
  }

  /** The address after the delay slot. */
  function Following(r: Registers): (w: Word) {
    Plus(r[NEXT_PC], 4)
  }

  function Truth(b: bool): (w: Word) {
    if b then 1 else 0
  }

  /** C division, truncating toward zero. */
  function Quotient(a: int, b: int): (q: int)
    requires b != 0
  {
    var q := Magnitude(a) / Magnitude(b);
    if (a < 0) == (b < 0) then q else -q
  }

  function Magnitude(a: int): (m: nat) {
    if a < 0 then -a else a
  }

  function Remainder(a: int, b: int): (r: int)
    requires b != 0
    ensures a == b * Quotient(a, b) + r
    ensures Magnitude(r) < Magnitude(b)
    ensures a >= 0 ==> r >= 0
    ensures a <= 0 ==> r <= 0
  {
    var r := Magnitude(a) % Magnitude(b);
    DivisionSigns(a, b, Magnitude(a) / Magnitude(b), r);
    if a >= 0 then r else -r
  }

  lemma DivisionSigns(a: int, b: int, q: int, r: int)
    requires Magnitude(a) == Magnitude(b) * q + r
    ensures a == b * (if (a < 0) == (b < 0) then q else -q) + if a >= 0 then r else -r
  {
    if b < 0 {
      assert b * q == -(-b * q);
    }
  }

  /** The only quotient of two ints that is not an int is the one the host leaves undefined. */
  lemma QuotientFits(a: int, b: int)
    requires IsInt(a) && IsInt(b) && b != 0
    ensures IsInt(Quotient(a, b)) <==> !(a == -0x8000_0000 && b == -1)
  {
    QuotientShrinks(Magnitude(a), Magnitude(b), Magnitude(a) / Magnitude(b), Magnitude(a) % Magnitude(b));
  }

  lemma QuotientShrinks(a: nat, b: nat, q: nat, r: nat)
    requires b > 0 && a == b * q + r && r < b
    ensures q <= a
    ensures b >= 2 && a > 0 ==> q < a
    ensures b == 1 ==> q == a
  {
    if b >= 2 {
      assert b * q == 2 * q + (b - 2) * q;
      assert (b - 2) * q >= 0;
    }
  }

  function Divided(a: int, b: int): (m: Meaning) {
    if b == 0 then SetsHiLo(0, 0)
    else if a == -0x8000_0000 && b == -1 then Undefined
    else SetsHiLo(Unsigned(Remainder(a, b)), Unsigned(Quotient(a, b)))
  }

  function Product(p: int): (m: Meaning) {
    SetsHiLo(p / 0x1_0000_0000 % 0x1_0000_0000, p % 0x1_0000_0000)
  }

  predicate IsLoad(op: Op) {
    op.LB? || op.LBU? || op.LH? || op.LHU? || op.LW? || op.LWL? || op.LWR?
  }

  predicate IsStore(op: Op) {
    op.SB? || op.SH? || op.SW? || op.SWL? || op.SWR?
  }

  predicate IsBranch(op: Op) {
    || op.BEQ? || op.BNE? || op.BGEZ? || op.BGEZAL? || op.BGTZ? || op.BLEZ? || op.BLTZ? || op.BLTZAL?
    || op.J? || op.JAL? || op.JR? || op.JALR?
  }

  predicate Handled(op: Op) {
    !op.SPECIAL? && !op.BCOND? && !op.RFE?
  }

  /** Register `k` as a branch reads it, once the return address is in register `link`: the
      simulator writes the link first. */
  function Linked(r: Registers, k: nat, link: nat): (w: Word)
    requires k < 32 && link < 32
  {
    if k == link then Following(r) else r[k]
  }

  /** A jump target: a word index within the 256 megabytes around the program counter. */
  function InRegion(next: Word, index: Word): (w: Word)
    requires index < 0x400_0000
  {
    next / 0x1000_0000 * 0x1000_0000 + 4 * index
  }

  /** Where a branch or jump goes after its delay slot. */
  function Target(i: Instruction, r: Registers): (m: Meaning)
    requires i.rs < 32 && i.rt < 32 && i.rd < 32 && IsBranch(i.op)
    requires i.op.J? || i.op.JAL? ==> i.extra < 0x400_0000
  {
    var s, next := Signed(r[i.rs]), Following(r);
    var away := Plus(r[NEXT_PC], Shl(i.extra, 2));
    match i.op
    case BEQ => Continues(if r[i.rs] == r[i.rt] then away else next, 0)
    case BNE => Continues(if r[i.rs] != r[i.rt] then away else next, 0)
    case BGEZ => Continues(if s >= 0 then away else next, 0)
    case BGTZ => Continues(if s > 0 then away else next, 0)
    case BLEZ => Continues(if s <= 0 then away else next, 0)
    case BLTZ => Continues(if s < 0 then away else next, 0)
    case BGEZAL => Continues(if Signed(Linked(r, i.rs, R31)) >= 0 then away else next, R31)
    case BLTZAL => Continues(if Signed(Linked(r, i.rs, R31)) < 0 then away else next, R31)
    case J => Continues(InRegion(next, i.extra), 0)
    case JAL => Continues(InRegion(next, i.extra), R31)
    case JR => Continues(r[i.rs], 0)
    case JALR => Continues(Linked(r, i.rs, i.rd), i.rd)
  }

  predicate WellDecoded(i: Instruction) {
    && i.rs < 32 && i.rt < 32 && i.rd < 32 && Handled(i.op)
    && (i.op.J? || i.op.JAL? ==> i.extra < 0x400_0000)
    && (i.op.SLL? || i.op.SRL? || i.op.SRA? ==> i.extra < 32)
  }

  predicate IsArithmetic(op: Op) {
    || op.ADD? || op.ADDI? || op.SUB? || op.ADDIU? || op.ADDU? || op.SUBU? || op.SLT? || op.SLTI?
    || op.SLTU? || op.SLTIU?
  }

  function Arithmetic(i: Instruction, r: Registers): (m: Meaning)
    requires WellDecoded(i) && IsArithmetic(i.op)
    ensures m.Sets? ==> m.reg < 32
    ensures m.Sets? || m == Raises(Overflow)
  {
    var s, t, x := r[i.rs], r[i.rt], i.extra;
    match i.op
    case ADD => Trapping(i.rd, Signed(s) + Signed(t))
    case ADDI => Trapping(i.rt, Signed(s) + Signed(x))
    case SUB => Trapping(i.rd, Signed(s) - Signed(t))
    case ADDIU => Sets(i.rt, Plus(s, x))
    case ADDU => Sets(i.rd, Plus(s, t))
    case SUBU => Sets(i.rd, Unsigned(s as int - t as int))
    case SLT => Sets(i.rd, Truth(Signed(s) < Signed(t)))
    case SLTI => Sets(i.rt, Truth(Signed(s) < Signed(x)))
    case SLTU => Sets(i.rd, Truth(s < t))
    case SLTIU => Sets(i.rt, Truth(s < x))
  }

  predicate IsLogical(op: Op) {
    op.AND? || op.ANDI? || op.OR? || op.ORI? || op.XOR? || op.XORI? || op.NOR? || op.LUI?
  }

  function Logical(i: Instruction, r: Registers): (m: Meaning)
    requires WellDecoded(i) && IsLogical(i.op)
    ensures m.Sets? && m.reg < 32
  {
    var s, t, imm := r[i.rs], r[i.rt], i.extra % 0x1_0000;
    match i.op
    case AND => Sets(i.rd, And(s, t))
    case ANDI => Sets(i.rt, And(s, imm))
    case OR => Sets(i.rd, Or(s, t))
    case ORI => Sets(i.rt, Or(s, imm))
    case XOR => Sets(i.rd, Xor(s, t))
    case XORI => Sets(i.rt, Xor(s, imm))
    case NOR => Sets(i.rd, Not(Or(s, t)))
    case LUI => Sets(i.rt, imm * 0x1_0000)
  }

  predicate IsShift(op: Op) {
    op.SLL? || op.SLLV? || op.SRL? || op.SRLV? || op.SRA? || op.SRAV?
  }

  function Shifting(i: Instruction, r: Registers): (m: Meaning)
    requires WellDecoded(i) && IsShift(i.op)
    ensures m.Sets? && m.reg < 32
  {
    var t, k := r[i.rt], r[i.rs] % 32;
    match i.op
    case SLL => Sets(i.rd, Shl(t, i.extra))
    case SLLV => Sets(i.rd, Shl(t, k))
    case SRL => Sets(i.rd, Shr(t, i.extra))
    case SRLV => Sets(i.rd, Shr(t, k))
    case SRA => Sets(i.rd, Sar(t, i.extra))
    case SRAV => Sets(i.rd, Sar(t, k))
  }

  /** How far a shift goes. */
  function Amount(i: Instruction, r: Registers): (k: nat)
    requires WellDecoded(i) && IsShift(i.op)
    ensures k < 32
  {
    if i.op.SLL? || i.op.SRL? || i.op.SRA? then i.extra else r[i.rs] % 32
  }

  /** Left shifts fill with zeros, logical right shifts with zeros, arithmetic ones with the sign. */
  lemma ShiftBits(i: Instruction, r: Registers, j: nat)
    requires WellDecoded(i) && IsShift(i.op) && j < 32
    ensures var t, k, v := r[i.rt], Amount(i, r), Shifting(i, r).value;
            && (i.op.SLL? || i.op.SLLV? ==> (Bit(v, j) <==> j >= k && Bit(t, j - k)))
            && (i.op.SRL? || i.op.SRLV? ==> (Bit(v, j) <==> j + k < 32 && Bit(t, j + k)))
            && (i.op.SRA? || i.op.SRAV? ==> (Bit(v, j) <==> Bit(t, if j + k < 32 then j + k else 31)))
  {
    var t, k := r[i.rt], Amount(i, r);
    WordSize();
    ShlBit(t, k, j);
    SarBit(t, k, j);
    if j + k >= 32 {
      NoHighBit(t, 32, j + k);
    }
  }

  predicate IsHiLo(op: Op) {
    op.MFHI? || op.MFLO? || op.MTHI? || op.MTLO? || op.MULT? || op.MULTU? || op.DIV? || op.DIVU?
  }

  function HiLo(i: Instruction, r: Registers): (m: Meaning)
    requires WellDecoded(i) && IsHiLo(i.op)
    ensures m.Sets? ==> m.reg <= LO
    ensures m.Sets? || m.SetsHiLo? || m.Undefined?
  {
    var s, t := r[i.rs], r[i.rt];
    match i.op
    case MFHI => Sets(i.rd, r[HI])
    case MFLO => Sets(i.rd, r[LO])
    case MTHI => Sets(HI, s)
    case MTLO => Sets(LO, s)
    case MULT => Product(Signed(s) * Signed(t))
    case MULTU => Product(s as int * t as int)
    case DIV => Divided(Signed(s), Signed(t))
    case DIVU => if t == 0 then SetsHiLo(0, 0) else SetsHiLo(s % t, UnsignedQuotient(s, t))
  }

  /** Everything but loads and stores. */
  function MeaningOf(i: Instruction, r: Registers): (m: Meaning)
    requires WellDecoded(i) && !IsLoad(i.op) && !IsStore(i.op)
    ensures m.Sets? ==> m.reg <= LO
    ensures m.Continues? ==> m.link < 32
  {
    if IsBranch(i.op) then Target(i, r)
    else if IsArithmetic(i.op) then Arithmetic(i, r)
    else if IsLogical(i.op) then Logical(i, r)
    else if IsShift(i.op) then Shifting(i, r)
    else if IsHiLo(i.op) then HiLo(i, r)
    else if i.op.SYSCALL? then Raises(Syscall)
    else Raises(IllegalInstr)
  }

  function UnsignedQuotient(s: Word, t: Word): (q: Word)
    requires t != 0
  {
    QuotientShrinks(s, t, s / t, s % t);
    s / t
  }

  // The register file

  /** The pending load arrives, a new one may start, and register 0 stays zero. */
  function Delayed(r: Registers, nextReg: Word, nextValue: Word): (r': Registers)
    requires r[LOAD_REG] < 32
  {
    r[r[LOAD_REG] := r[LOAD_VALUE]][LOAD_REG := nextReg][LOAD_VALUE := nextValue][0 := 0]
  }

  function Trapped(r: Registers, badVAddr: Word): (r': Registers)
    requires r[LOAD_REG] < 32
  {
    Delayed(r[BAD_VADDR := badVAddr], 0, 0)
  }

  function Retired(r: Registers, nextReg: Word, nextValue: Word, pcAfter: Word): (r': Registers)
    requires r[LOAD_REG] < 32
  {
    var d := Delayed(r, nextReg, nextValue);
    d[PREV_PC := d[PC]][PC := d[NEXT_PC]][NEXT_PC := pcAfter]
  }

  // Memory access

  function Address(i: Instruction, r: Registers): (a: Word)
    requires i.rs < 32
  {
    Plus(r[i.rs], i.extra)
  }

  function Aligned(a: Word): (b: Word)
    ensures b <= a < b + 4
  {
    a - a % 4
  }

  /** How many bytes of memory an instruction touches, and where. */
  function Width(op: Op): (size: nat)
    requires IsLoad(op) || IsStore(op)
    ensures Size(size)
  {
    if op.LB? || op.LBU? || op.SB? then 1 else if op.LH? || op.LHU? || op.SH? then 2 else 4
  }

  function Base(op: Op, a: Word): (b: Word) {
    if op.LWL? || op.LWR? || op.SWL? || op.SWR? then Aligned(a) else a
  }

  /** SWL and SWR read the word before they write it. */
  function Access(m: Mapping, op: Op, a: Word): (t: Translated)
    requires IsLoad(op) || IsStore(op)
    ensures t.Mapped? ==> t.physAddr + Width(op) <= MEMORY_SIZE
  {
    var b, size := Base(op, a), Width(op);
    if IsLoad(op) then Translate(m, b, size, false)
    else if (op.SWL? || op.SWR?) && Translate(m, b, size, false).Fault? then Translate(m, b, size, false)
    else Translate(m, b, size, true)
  }

  function Extended(v: int, half: int, full: int): (w: Word) {
    Unsigned(if v < half then v else v - full)
  }

  /** The value a load delivers: from the bytes `b` found, and for LWL and LWR the bytes `n` of the
      register as it will be once the pending load arrives. */
  function LoadedValue(op: Op, b: seq<Byte>, n: seq<Byte>, k: nat): (w: Word)
    requires IsLoad(op) && |b| == Width(op) && |n| == 4 && k < 4
  {
    match op
    case LB => Extended(b[0], 0x80, 0x100)
    case LBU => b[0]
    case LH => Extended(b[0] as int + 0x100 * b[1] as int, 0x8000, 0x1_0000)
    case LHU => b[0] as int + 0x100 * b[1] as int
    case LW => BytesWord(b)
    case LWL => BytesWord(LeftBytes(b, n, k))
    case LWR => BytesWord(RightBytes(b, n, k))
  }

  function Forwarded(r: Registers, k: nat): (w: Word)
    requires k < 32
  {
    if r[LOAD_REG] == k then r[LOAD_VALUE] else r[k]
  }

  /** The address and the bytes a store leaves in virtual memory. */
  function StoredAt(op: Op, a: Word): (b: Word)
    requires IsStore(op)
  {
    if op.SWL? then Aligned(a) else a
  }

  /** How far into its access a store begins. */
  function StoredFrom(op: Op, a: Word): (from: nat)
    requires IsStore(op)
    ensures StoredAt(op, a) == Base(op, a) + from
  {
    if op.SWR? then a % 4 else 0
  }

  function StoredBytes(op: Op, a: Word, w: Word): (b: seq<Byte>)
    requires IsStore(op)
    ensures b != [] && StoredFrom(op, a) + |b| <= Width(op)
  {
    match op
    case SB => WordBytes(w)[..1]
    case SH => WordBytes(w)[..2]
    case SW => WordBytes(w)
    case SWR => WordBytes(w)[..4 - a % 4]
    case SWL => WordBytes(w)[3 - a % 4..]
  }

  // One step

  datatype Cpu = Cpu(r: Registers, mem: seq<Byte>, m: Mapping)

  ghost predicate Sane(s: Cpu) {
    |s.mem| == MEMORY_SIZE && s.r[0] == 0 && s.r[LOAD_REG] < 32
  }

  ghost predicate TrapTaken(s: Cpu, s': Cpu, o: Outcome, e: Exception, badVAddr: Word)
    requires Sane(s)
  {
    o == Trap(e, badVAddr) && s'.mem == s.mem && s'.r == Trapped(s.r, badVAddr)
  }

  ghost predicate MeaningTaken(meaning: Meaning, s: Cpu, s': Cpu, o: Outcome)
    requires Sane(s)
  {
    var next := Following(s.r);
    match meaning
    case Sets(d, v) => d <= LO && o == Done && s'.mem == s.mem && s'.r == Retired(s.r[d := v], 0, 0, next)
    case SetsHiLo(hi, lo) => o == Done && s'.mem == s.mem && s'.r == Retired(s.r[HI := hi][LO := lo], 0, 0, next)
    case Continues(pcAfter, link) => link < 32 && o == Done && s'.mem == s.mem
        && s'.r == Retired(s.r[link := next], 0, 0, pcAfter)
    case Raises(e) => TrapTaken(s, s', o, e, 0)
    case Undefined => o == HostFault
  }

  /** The load pends with the value of the bytes `b` that the program sees at its address. */
  ghost predicate LoadDelivers(i: Instruction, a: Word, s: Cpu, r': Registers, b: seq<Byte>)
    requires Sane(s) && WellDecoded(i) && IsLoad(i.op) && |b| == Width(i.op)
  {
    && Shows(s.mem, s.m, Base(i.op, a), b)
    && r' == Retired(s.r, i.rt, LoadedValue(i.op, b, WordBytes(Forwarded(s.r, i.rt)), a % 4), Following(s.r))
  }

  ghost predicate LoadTaken(i: Instruction, s: Cpu, s': Cpu, o: Outcome)
    requires Sane(s) && WellDecoded(i) && IsLoad(i.op)
  {
    var a := Address(i, s.r);
    match Access(s.m, i.op, a)
    case Fault(e) => TrapTaken(s, s', o, e, Base(i.op, a))
    case Mapped(p, _) =>
      o == Done && s'.mem == s.mem && LoadDelivers(i, a, s, s'.r, s.mem[p..p + Width(i.op)])
  }

  ghost predicate StoreTaken(i: Instruction, s: Cpu, s': Cpu, o: Outcome)
    requires Sane(s) && WellDecoded(i) && IsStore(i.op)
  {
    var a := Address(i, s.r);
    match Access(s.m, i.op, a)
    case Fault(e) => TrapTaken(s, s', o, e, Base(i.op, a))
    case Mapped(p, _) =>
      && o == Done
      && s'.mem == Patched(s.mem, p + StoredFrom(i.op, a), StoredBytes(i.op, a, s.r[i.rt]))
      && s'.r == Retired(s.r, 0, 0, Following(s.r))
  }

  ghost predicate Executed(i: Instruction, s: Cpu, s': Cpu, o: Outcome)
    requires Sane(s) && WellDecoded(i)
  {
    if IsLoad(i.op) then LoadTaken(i, s, s', o)
    else if IsStore(i.op) then StoreTaken(i, s, s', o)
    else MeaningTaken(MeaningOf(i, s.r), s, s', o)
  }

  /** One instruction is fetched and executed as the instruction set says. */
  ghost predicate Conforms(s: Cpu, s': Cpu, o: Outcome)
    requires Sane(s)
  {
    && SameEntries(s.m, s'.m)
    && match Translate(s.m, s.r[PC], 4, false)
       case Fault(e) => TrapTaken(s, s', o, e, s.r[PC])
       case Mapped(p, _) => Executed(Fetched(s.mem, p), s, s', o)
  }

  function Fetched(mem: seq<Byte>, p: nat): (i: Instruction)
    requires p + 4 <= |mem|
    ensures WellDecoded(i)
  {
    Decode(BytesWord(mem[p..p + 4]))
  }

  // What holds of every step

  /** On any trap no memory byte, program counter or HI/LO register has changed, and the general
      registers change only by the arrival of the pending load. */
  ghost predicate Precise(s: Cpu, s': Cpu) {
    && s'.mem == s.mem
    && (forall k :: HI <= k <= PREV_PC ==> s'.r[k] == s.r[k])
    && (forall k :: 0 < k < 32 ==> s'.r[k] == Forwarded(s.r, k))
  }

  lemma TrappedPrecise(r: Registers, badVAddr: Word)
    requires r[LOAD_REG] < 32
    ensures var r' := Trapped(r, badVAddr);
            && (forall k :: HI <= k <= PREV_PC ==> r'[k] == r[k])
            && (forall k :: 0 < k < 32 ==> r'[k] == Forwarded(r, k))
            && r'[0] == 0 && r'[LOAD_REG] == 0 && r'[BAD_VADDR] == badVAddr
  {
  }

  lemma RetiredLaw(r: Registers, nextReg: Word, nextValue: Word, pcAfter: Word)
    requires r[LOAD_REG] < 32
    ensures var r' := Retired(r, nextReg, nextValue, pcAfter);
            && r'[0] == 0 && r'[LOAD_REG] == nextReg && r'[LOAD_VALUE] == nextValue
            && r'[PC] == r[NEXT_PC] && r'[PREV_PC] == r[PC] && r'[NEXT_PC] == pcAfter
            && r'[HI] == r[HI] && r'[LO] == r[LO] && r'[BAD_VADDR] == r[BAD_VADDR]
            && forall k :: 0 < k < 32 ==> r'[k] == Forwarded(r, k)
  {
  }

  /** Every step, trapping or not, keeps R0 zero and the pending load's target a general register;
      a trap is precise; otherwise the program counters advance through the delay slot. */
  lemma StepLaw(s: Cpu, s': Cpu, o: Outcome)
    requires Sane(s) && Conforms(s, s', o)
    ensures !o.HostFault? ==> Sane(s')
    ensures o.Trap? ==> Precise(s, s') && s'.r[BAD_VADDR] == o.badVAddr && s'.r[LOAD_REG] == 0
    ensures o.Done? ==> s'.r[PC] == s.r[NEXT_PC] && s'.r[PREV_PC] == s.r[PC]
  {
    if o.Trap? {
      TrappedPrecise(s.r, o.badVAddr);
      TrapIsTaken(s, s', o);
    } else if o.Done? {
      var u, reg, v, after := DoneRetires(s, s', o);
      RetiredLaw(u, reg, v, after);
    }
  }

  lemma TrapIsTaken(s: Cpu, s': Cpu, o: Outcome)
    requires Sane(s) && Conforms(s, s', o) && o.Trap?
    ensures TrapTaken(s, s', o, o.which, o.badVAddr)
  {
  }

  /** A completed instruction retires from registers that agree with the old ones on the counters. */
  lemma DoneRetires(s: Cpu, s': Cpu, o: Outcome) returns (u: Registers, reg: Word, v: Word, after: Word)
    requires Sane(s) && Conforms(s, s', o) && o.Done?
    ensures |s'.mem| == MEMORY_SIZE
    ensures u[LOAD_REG] < 32 && reg < 32 && u[PC] == s.r[PC] && u[NEXT_PC] == s.r[NEXT_PC]
    ensures s'.r == Retired(u, reg, v, after)
  {
    var i := Fetched(s.mem, Translate(s.m, s.r[PC], 4, false).physAddr);
    u, reg, v, after := s.r, 0, 0, Following(s.r);
    if IsLoad(i.op) {
      reg, v := i.rt, s'.r[LOAD_VALUE];
      LoadRetires(i, s, s', o);
    } else if !IsStore(i.op) {
      var meaning := MeaningOf(i, s.r);
      if meaning.Sets? {
        u := s.r[meaning.reg := meaning.value];
      } else if meaning.SetsHiLo? {
        u := s.r[HI := meaning.hi][LO := meaning.lo];
      } else {
        u, after := s.r[meaning.link := after], meaning.pcAfter;
      }
    }
  }

  lemma LoadRetires(i: Instruction, s: Cpu, s': Cpu, o: Outcome)
    requires Sane(s) && WellDecoded(i) && IsLoad(i.op) && LoadTaken(i, s, s', o) && o.Done?
    ensures s'.mem == s.mem && s'.r == Retired(s.r, i.rt, s'.r[LOAD_VALUE], Following(s.r))
  {
  }

  // The unaligned store

  /** SWR at A and SWL at A + 3, neither trapping, leave exactly the four bytes of the word at A to
      A + 3 (addresses wrap) and change no other byte, whatever A's alignment and pages. */
  lemma StorePair(s0: Cpu, s1: Cpu, s2: Cpu, i: Instruction, j: Instruction)
    requires Sane(s0) && Sane(s1) && Injective(s0.m) && SameEntries(s0.m, s1.m) && SameEntries(s1.m, s2.m)
    requires WellDecoded(i) && WellDecoded(j)
    requires i.op.SWR? && StoreTaken(i, s0, s1, Done) && j.op.SWL? && StoreTaken(j, s1, s2, Done)
    requires Address(j, s1.r) == Plus(Address(i, s0.r), 3) && s1.r[j.rt] == s0.r[i.rt]
    ensures WordStored(Memory(s0.mem, s0.m), Memory(s2.mem, s2.m), Address(i, s0.r), s0.r[i.rt])
  {
    PairStored(s0, s1, s2, i, j, Address(i, s0.r), s0.r[i.rt]);
    PairSeen(Memory(s0.mem, s0.m), Memory(s1.mem, s1.m), Memory(s2.mem, s2.m), Address(i, s0.r), s0.r[i.rt]);
  }

  /** The four bytes of a word are seen from `a` on, addresses wrapping, and nothing else changed. */
  ghost predicate WordStored(s: Memory, s': Memory, a: Word, w: Word) {
    && |s.mem| == |s'.mem| == MEMORY_SIZE
    && forall x: Word :: View(s'.mem, s'.m, x) ==
         if Unsigned(x - a) < 4 then Seen(WordBytes(w)[Unsigned(x - a)]) else View(s.mem, s.m, x)
  }

  lemma PairStored(s0: Cpu, s1: Cpu, s2: Cpu, i: Instruction, j: Instruction, a: Word, w: Word)
    requires Sane(s0) && Sane(s1) && Injective(s0.m) && SameEntries(s0.m, s1.m) && SameEntries(s1.m, s2.m)
    requires WellDecoded(i) && WellDecoded(j)
    requires i.op.SWR? && StoreTaken(i, s0, s1, Done) && j.op.SWL? && StoreTaken(j, s1, s2, Done)
    requires a == Address(i, s0.r) && Address(j, s1.r) == Plus(a, 3) && s1.r[j.rt] == s0.r[i.rt] == w
    ensures |s2.mem| == MEMORY_SIZE
    ensures Stored(s0.mem, s0.m, s1.mem, s1.m, StoredAt(SWR, a), StoredBytes(SWR, a, w))
    ensures Stored(s1.mem, s1.m, s2.mem, s2.m, StoredAt(SWL, Plus(a, 3)), StoredBytes(SWL, Plus(a, 3), w))
  {
    SameInjective(s0.m, s1.m);
    StoreSeen(i, s0, s1);
    StoreSeen(j, s1, s2);
  }

  lemma PairSeen(s0: Memory, s1: Memory, s2: Memory, a: Word, w: Word)
    requires |s0.mem| == |s1.mem| == |s2.mem| == MEMORY_SIZE
    requires Stored(s0.mem, s0.m, s1.mem, s1.m, StoredAt(SWR, a), StoredBytes(SWR, a, w))
    requires Stored(s1.mem, s1.m, s2.mem, s2.m, StoredAt(SWL, Plus(a, 3)), StoredBytes(SWL, Plus(a, 3), w))
    ensures WordStored(s0, s2, a, w)
  {
    forall x: Word
      ensures View(s2.mem, s2.m, x) ==
                if Unsigned(x - a) < 4 then Seen(WordBytes(w)[Unsigned(x - a)]) else View(s0.mem, s0.m, x)
    {
      ByteOfRight(s0.mem, s0.m, s1.mem, s1.m, a, w, x);
      ByteOfLeft(s1.mem, s1.m, s2.mem, s2.m, Plus(a, 3), w, x);
      ByteOfPair(View(s0.mem, s0.m, x), View(s1.mem, s1.m, x), View(s2.mem, s2.m, x), a, w, x);
    }
  }

  /** Through an injective mapping, a completed store stores its bytes in the flat view and changes
      nothing else there. */
  lemma StoreSeen(i: Instruction, s: Cpu, s': Cpu)
    requires Sane(s) && WellDecoded(i) && IsStore(i.op) && Injective(s.m) && SameEntries(s.m, s'.m)
    requires StoreTaken(i, s, s', Done)
    ensures |s'.mem| == MEMORY_SIZE
    ensures var a := Address(i, s.r);
            Stored(s.mem, s.m, s'.mem, s'.m, StoredAt(i.op, a), StoredBytes(i.op, a, s.r[i.rt]))
  {
    var a := Address(i, s.r);
    StoreFlat(s.mem, s.m, s'.mem, s'.m, i.op, a, Access(s.m, i.op, a).physAddr, StoredBytes(i.op, a, s.r[i.rt]));
  }

  lemma StoreFlat(mem: seq<Byte>, m: Mapping, mem': seq<Byte>, m': Mapping, op: Op, a: Word, p: nat, b: seq<Byte>)
    requires |mem| == |mem'| == MEMORY_SIZE && Injective(m) && SameEntries(m, m') && IsStore(op)
    requires Access(m, op, a).Mapped? && Access(m, op, a).physAddr == p && StoredFrom(op, a) + |b| <= Width(op)
    requires mem' == Patched(mem, p + StoredFrom(op, a), b)
    ensures Stored(mem, m, mem', m', StoredAt(op, a), b)
  {
    StoreAccess(m, op, a);
    WriteStores(mem, m, mem', m', Base(op, a), Width(op), p, StoredAt(op, a), b);
  }

  lemma StoreAccess(m: Mapping, op: Op, a: Word)
    requires IsStore(op) && Access(m, op, a).Mapped?
    ensures Translate(m, Base(op, a), Width(op), true) == Access(m, op, a)
  {
  }

  lemma ByteOfRight(mem: seq<Byte>, m: Mapping, mem': seq<Byte>, m': Mapping, a: Word, w: Word, x: Word)
    requires |mem| == |mem'| == MEMORY_SIZE && Stored(mem, m, mem', m', a, StoredBytes(SWR, a, w))
    ensures View(mem', m', x) == if a <= x < a + (4 - a % 4) then Seen(WordBytes(w)[x - a]) else View(mem, m, x)
  {
  }

  lemma ByteOfLeft(mem: seq<Byte>, m: Mapping, mem': seq<Byte>, m': Mapping, a: Word, w: Word, x: Word)
    requires |mem| == |mem'| == MEMORY_SIZE && Stored(mem, m, mem', m', Aligned(a), StoredBytes(SWL, a, w))
    ensures View(mem', m', x) ==
              if Aligned(a) <= x < Aligned(a) + (a % 4 + 1) then Seen(WordBytes(w)[3 - a % 4 + (x - Aligned(a))])
              else View(mem, m, x)
  {
  }

  /** The same at one address, on what is seen before, between and after. */
  lemma ByteOfPair(v0: Seen, v1: Seen, v2: Seen, a: Word, w: Word, x: Word)
    requires v1 == if a <= x < a + (4 - a % 4) then Seen(WordBytes(w)[x - a]) else v0
    requires var a3 := Plus(a, 3);
             var base, k := Aligned(a3), a3 % 4;
             v2 == if base <= x < base + (k + 1) then Seen(WordBytes(w)[3 - k + (x - base)]) else v1
    ensures v2 == if Unsigned(x - a) < 4 then Seen(WordBytes(w)[Unsigned(x - a)]) else v0
  {
    ThreeFurther(a);
    Distance(x, a);
  }

  lemma Distance(x: Word, a: Word)
    ensures Unsigned(x - a) == if x >= a then x - a else x - a + 0x1_0000_0000
  {
  }

  // The unaligned load

  /** LWR at A and LWL at A + 3 into the same register, neither trapping: what pends at the end is
      the pair's merge of the two words seen there with the register. */
  lemma LoadPairDelivers(s0: Cpu, s1: Cpu, s2: Cpu, i: Instruction, j: Instruction)
    returns (low: seq<Byte>, high: seq<Byte>)
    requires Sane(s0) && Sane(s1) && SameEntries(s0.m, s1.m) && WellDecoded(i) && WellDecoded(j)
    requires i.op.LWR? && LoadTaken(i, s0, s1, Done) && j.op.LWL? && LoadTaken(j, s1, s2, Done)
    requires Address(j, s1.r) == Plus(Address(i, s0.r), 3) && j.rt == i.rt
    ensures |low| == 4 && Shows(s0.mem, s0.m, Aligned(Address(i, s0.r)), low)
    ensures |high| == 4 && Shows(s1.mem, s1.m, Aligned(Address(j, s1.r)), high)
    ensures s2.r[LOAD_REG] == i.rt
    ensures WordBytes(s2.r[LOAD_VALUE])
            == LoadPair(low, high, WordBytes(Forwarded(s0.r, i.rt)), Address(i, s0.r) % 4)
  {
    low := LoadFound(i, s0, s1);
    high := LoadFound(j, s1, s2);
    PairPends(s0, s1, s2.r, i, j, Address(i, s0.r), low, high);
  }

  /** The bytes a completed load finds. */
  lemma LoadFound(i: Instruction, s: Cpu, s': Cpu) returns (b: seq<Byte>)
    requires Sane(s) && WellDecoded(i) && IsLoad(i.op) && LoadTaken(i, s, s', Done)
    ensures |b| == Width(i.op) && s'.mem == s.mem && LoadDelivers(i, Address(i, s.r), s, s'.r, b)
  {
    var p := Access(s.m, i.op, Address(i, s.r)).physAddr;
    b := s.mem[p..p + Width(i.op)];
  }

  lemma PairPends(s0: Cpu, s1: Cpu, r2: Registers, i: Instruction, j: Instruction, a: Word, low: seq<Byte>,
                  high: seq<Byte>)
    requires Sane(s0) && Sane(s1) && s1.mem == s0.mem && SameEntries(s0.m, s1.m) && WellDecoded(i) && WellDecoded(j)
    requires i.op.LWR? && j.op.LWL? && j.rt == i.rt && |low| == 4 && |high| == 4
    requires LoadDelivers(i, a, s0, s1.r, low) && LoadDelivers(j, Plus(a, 3), s1, r2, high)
    ensures r2[LOAD_REG] == i.rt
    ensures WordBytes(r2[LOAD_VALUE]) == LoadPair(low, high, WordBytes(Forwarded(s0.r, i.rt)), a % 4)
  {
    MergedPends(i, a, s0, s1.r, low);
    MergedPends(j, Plus(a, 3), s1, r2, high);
    if a % 4 == 0 {
      OneWord(s0, s1, a, low, high);
    }
    PairMerged(low, high, WordBytes(Forwarded(s0.r, i.rt)), WordBytes(s1.r[LOAD_VALUE]), a);
  }

  /** What a merging load leaves pending, in bytes. */
  lemma MergedPends(i: Instruction, a: Word, s: Cpu, r': Registers, b: seq<Byte>)
    requires Sane(s) && WellDecoded(i) && (i.op.LWL? || i.op.LWR?) && |b| == 4 && LoadDelivers(i, a, s, r', b)
    ensures Shows(s.mem, s.m, Aligned(a), b) && r'[LOAD_REG] == i.rt
    ensures var n := WordBytes(Forwarded(s.r, i.rt));
            WordBytes(r'[LOAD_VALUE]) == if i.op.LWR? then RightBytes(b, n, a % 4) else LeftBytes(b, n, a % 4)
  {
    var n := WordBytes(Forwarded(s.r, i.rt));
    WordOfBytes(if i.op.LWR? then RightBytes(b, n, a % 4) else LeftBytes(b, n, a % 4));
    RetiredLaw(s.r, i.rt, LoadedValue(i.op, b, n, a % 4), Following(s.r));
  }

  lemma PairMerged(low: seq<Byte>, high: seq<Byte>, n: seq<Byte>, first: seq<Byte>, a: Word)
    requires |low| == 4 && |high| == 4 && |n| == 4 && first == RightBytes(low, n, a % 4)
    requires a % 4 == 0 ==> high == low
    ensures LeftBytes(high, first, Plus(a, 3) % 4) == LoadPair(low, high, n, a % 4)
  {
    ThreeFurther(a);
  }

  lemma ThreeFurther(a: Word)
    ensures Plus(a, 3) % 4 == if a % 4 == 0 then 3 else a % 4 - 1
    ensures Aligned(Plus(a, 3)) ==
              if a % 4 == 0 then a else if a - a % 4 + 4 == 0x1_0000_0000 then 0 else a - a % 4 + 4
  {
    var q, k := a / 4, a % 4;
    assert a == 4 * q + k;
    if k > 0 {
      assert a + 3 == 4 * (q + 1) + (k - 1);
    }
  }

  /** From an aligned address, both loads find the same word. */
  lemma OneWord(s: Cpu, s': Cpu, a: Word, b: seq<Byte>, c: seq<Byte>)
    requires Sane(s) && s'.mem == s.mem && SameEntries(s.m, s'.m) && |b| == 4 && |c| == 4 && a % 4 == 0
    requires Shows(s.mem, s.m, Aligned(a), b) && Shows(s'.mem, s'.m, Aligned(Plus(a, 3)), c)
    ensures b == c
  {
    ThreeFurther(a);
    var a3 := Aligned(Plus(a, 3));
    assert a3 == a && Aligned(a) == a;
    SameWord(s, s', a, b, c);
  }

  lemma SameWord(s: Cpu, s': Cpu, a: Word, b: seq<Byte>, c: seq<Byte>)
    requires Sane(s) && s'.mem == s.mem && SameEntries(s.m, s'.m) && |b| == 4 && |c| == 4
    requires Shows(s.mem, s.m, a, b) && Shows(s'.mem, s'.m, a, c)
    ensures b == c
  {
    forall i | 0 <= i < 4
      ensures b[i] == c[i]
    {
      SameTranslation(s.m, s'.m, a + i, 1, false);
      assert View(s.mem, s.m, a + i) == Seen(b[i]) && View(s'.mem, s'.m, a + i) == Seen(c[i]);
    }
  }

  // The delay slot of a load

  /** The result of the instruction in a load's delay slot is in its register afterwards exactly
      when the load is for another register, or for the same value. */
  lemma DelaySlotResult(i: Instruction, s: Cpu, s': Cpu, o: Outcome)
    requires Sane(s) && WellDecoded(i) && !IsLoad(i.op) && !IsStore(i.op) && Executed(i, s, s', o)
    ensures var m := MeaningOf(i, s.r);
            && (m.Sets? && 0 < m.reg < 32 ==>
                  (s'.r[m.reg] == m.value <==> s.r[LOAD_REG] != m.reg || s.r[LOAD_VALUE] == m.value))
            && (m.Continues? && m.link > 0 ==>
                  (s'.r[m.link] == Following(s.r) <==>
                   s.r[LOAD_REG] != m.link || s.r[LOAD_VALUE] == Following(s.r)))
  {
    var m := MeaningOf(i, s.r);
    assert MeaningTaken(m, s, s', o);
    if m.Sets? {
      RetiredLaw(s.r[m.reg := m.value], 0, 0, Following(s.r));
    } else if m.Continues? {
      RetiredLaw(s.r[m.link := Following(s.r)], 0, 0, m.pcAfter);
    }
  }

  /** A result that is lost: 5 is added into register 1 while a load of 7 into it is pending. */
  lemma DelaySlotResultLost() returns (i: Instruction, s: Cpu, s': Cpu)
    ensures Sane(s) && WellDecoded(i) && i.op.ADDIU? && Executed(i, s, s', Done)
    ensures MeaningOf(i, s.r) == Sets(1, 5) && s'.r[1] == 7
  {
    i := Instruction(ADDIU, 0, 1, 0, 5);
    var r: Registers := seq(NUM_REGS, _ => 0);
    s := Cpu(r[LOAD_REG := 1][LOAD_VALUE := 7], seq(MEMORY_SIZE, _ => 0), PageTable([]));
    s' := s.(r := Retired(s.r[1 := 5], 0, 0, Following(s.r)));
    RetiredLaw(s.r[1 := 5], 0, 0, Following(s.r));
  }

  // The linking branches

  /** Where a linking branch goes if it reads its register before it writes the return address. */
  function TargetReadFirst(i: Instruction, r: Registers): (pc: Word)
    requires WellDecoded(i) && (i.op.JALR? || i.op.BGEZAL? || i.op.BLTZAL?)
  {
    var away := Plus(r[NEXT_PC], Shl(i.extra, 2));
    match i.op
    case JALR => r[i.rs]
    case BGEZAL => if Signed(r[i.rs]) >= 0 then away else Following(r)
    case BLTZAL => if Signed(r[i.rs]) < 0 then away else Following(r)
  }

  /** The return address does not get in the way: it goes to another register, or has the same value
      or sign as what it overwrites, or the branch leads to the next instruction anyhow. */
  predicate LinkHarmless(i: Instruction, r: Registers)
    requires WellDecoded(i) && (i.op.JALR? || i.op.BGEZAL? || i.op.BLTZAL?)
  {
    if i.op.JALR? then i.rd != i.rs || Following(r) == r[i.rs]
    else i.rs != R31 || (Signed(Following(r)) < 0) == (Signed(r[R31]) < 0) || Shl(i.extra, 2) == 4
  }

  lemma LinkedTargetExactly(i: Instruction, r: Registers)
    requires WellDecoded(i) && (i.op.JALR? || i.op.BGEZAL? || i.op.BLTZAL?)
    ensures Target(i, r).pcAfter == TargetReadFirst(i, r) <==> LinkHarmless(i, r)
  {
    PlusInjective(r[NEXT_PC], Shl(i.extra, 2), 4);
  }

  lemma PlusInjective(a: Word, b: Word, c: Word)
    ensures Plus(a, b) == Plus(a, c) <==> b == c
  {
  }

  /** JALR with one register for both, holding 100: the jump goes to the return address 4. */
  lemma LinkInTheWay() returns (i: Instruction, r: Registers)
    ensures WellDecoded(i) && i.op.JALR? && TargetReadFirst(i, r) == 100 && Target(i, r) == Continues(4, 1)
  {
    i := Instruction(JALR, 1, 0, 1, 0);
    var zero: Registers := seq(NUM_REGS, _ => 0);
    r := zero[1 := 100];
  }

  // Read-only pages

  /** No step of the machine changes a byte in the frame of a read-only page. */
  lemma StepKeepsReadOnly(s: Cpu, s': Cpu, o: Outcome, vpn: nat, frame: nat, x: nat)
    requires Sane(s) && Conforms(s, s', o) && !o.HostFault? && Injective(s.m) && ReadOnlyFrame(s.m, vpn, frame)
    requires frame * PAGE_SIZE <= x < (frame + 1) * PAGE_SIZE && x < MEMORY_SIZE
    ensures |s'.mem| == MEMORY_SIZE && s'.mem[x] == s.mem[x]
  {
    if o.Trap? {
      TrapIsTaken(s, s', o);
    } else {
      var i := Fetched(s.mem, Translate(s.m, s.r[PC], 4, false).physAddr);
      if IsStore(i.op) {
        StoreElsewhere(i, s, s', vpn, frame, x);
      } else {
        OnlyStoresWrite(i, s, s', o);
      }
    }
  }

  lemma OnlyStoresWrite(i: Instruction, s: Cpu, s': Cpu, o: Outcome)
    requires Sane(s) && WellDecoded(i) && Executed(i, s, s', o) && !IsStore(i.op) && o.Done?
    ensures s'.mem == s.mem
  {
    if IsLoad(i.op) {
      LoadRetires(i, s, s', o);
    }
  }

  lemma StoreElsewhere(i: Instruction, s: Cpu, s': Cpu, vpn: nat, frame: nat, x: nat)
    requires Sane(s) && WellDecoded(i) && IsStore(i.op) && StoreTaken(i, s, s', Done)
    requires Injective(s.m) && ReadOnlyFrame(s.m, vpn, frame)
    requires frame * PAGE_SIZE <= x < (frame + 1) * PAGE_SIZE && x < MEMORY_SIZE
    ensures |s'.mem| == MEMORY_SIZE && s'.mem[x] == s.mem[x]
  {
    var a := Address(i, s.r);
    StoreAccess(s.m, i.op, a);
    WritesElsewhere(s.m, Base(i.op, a), Width(i.op), vpn, frame);
    var p, b := Access(s.m, i.op, a).physAddr, StoredBytes(i.op, a, s.r[i.rt]);
    PatchedAt(s.mem, p + StoredFrom(i.op, a), b, x);
  }
}
