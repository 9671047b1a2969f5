/** Laws of single instructions, each on the register values alone: what a result is in bits, in
    integers, or together with the instruction that undoes it. */
module IsaLaws {
  import opened LittleEndian
  import opened Bits
  import opened Translation
  import opened Unaligned
  import opened Decoding
  import opened Encoding
  import Multiply
  import opened Isa

  /** Congruence modulo 2^32. */
  predicate Congruent(a: int, b: int) {
    (a - b) % 0x1_0000_0000 == 0
  }

  lemma PlusCongruent(a: Word, b: Word)
    ensures Congruent(Plus(a, b), a as int + b as int)
  {
    var s: int := a as int + b as int;
    assert s - s % 0x1_0000_0000 == 0x1_0000_0000 * (s / 0x1_0000_0000);
  }

  // Fetching

  /** An encoded register instruction in memory, least significant byte first, is what is fetched. */
  lemma FetchesSpecial(mem: seq<Byte>, p: nat, op: Op, rs: nat, rt: nat, rd: nat, shamt: nat)
    requires p + 4 <= |mem| && CodeOf(op).Special? && rs < 32 && rt < 32 && rd < 32 && shamt < 32
    requires mem[p..p + 4] == WordBytes(RWord(0, rs, rt, rd, shamt, CodeOf(op).funct))
    ensures Fetched(mem, p) == Instruction(op, rs, rt, rd, shamt)
  {
    BytesOfWord(RWord(0, rs, rt, rd, shamt, CodeOf(op).funct));
    DecodesSpecial(op, rs, rt, rd, shamt);
  }

  lemma FetchesImmediate(mem: seq<Byte>, p: nat, op: Op, rs: nat, rt: nat, imm: nat)
    requires p + 4 <= |mem| && CodeOf(op).Immediate? && rs < 32 && rt < 32 && imm < 0x1_0000
    requires mem[p..p + 4] == WordBytes(IWord(CodeOf(op).opcode, rs, rt, imm))
    ensures var i := Fetched(mem, p);
            && i.op == op && i.rs == rs && i.rt == rt
            && Signed(i.extra) == if imm < 0x8000 then imm else imm - 0x1_0000
  {
    BytesOfWord(IWord(CodeOf(op).opcode, rs, rt, imm));
    DecodesImmediate(op, rs, rt, imm);
  }

  // Branches

  /** When a conditional branch is taken, from the two registers as integers. */
  predicate Taken(op: Op, s: int, t: int) {
    match op
    case BEQ => s == t
    case BNE => s != t
    case BLEZ => s < 0 || s == 0
    case BGTZ => !(s < 0 || s == 0)
    case BLTZ => s < 0
    case BGEZ => !(s < 0)
    case _ => false
  }

  predicate IsConditional(op: Op) {
    op.BEQ? || op.BNE? || op.BLEZ? || op.BGTZ? || op.BLTZ? || op.BGEZ?
  }

  /** Where a branch lands: as many words beyond its delay slot as its immediate says, backwards if
      that is negative, or past the delay slot. */
  ghost predicate Lands(pc: Word, next: Word, extra: Word, taken: bool) {
    if taken then Congruent(pc, next as int + 4 * Signed(extra)) else Congruent(pc, next as int + 4)
  }

  lemma LandsThere(pc: Word, next: Word, extra: Word, taken: bool)
    requires pc == if taken then Plus(next, Shl(extra, 2)) else Plus(next, 4)
    ensures Lands(pc, next, extra, taken)
  {
    Displacement(next, extra);
    PlusCongruent(next, 4);
  }

  /** A conditional branch is taken exactly when its condition holds. */
  lemma BranchExactly(i: Instruction, r: Registers)
    requires WellDecoded(i) && IsConditional(i.op)
    ensures Target(i, r).link == 0
    ensures Lands(Target(i, r).pcAfter, r[NEXT_PC], i.extra, Taken(i.op, Signed(r[i.rs]), Signed(r[i.rt])))
  {
    BranchForm(i, r);
    LandsThere(Target(i, r).pcAfter, r[NEXT_PC], i.extra, Taken(i.op, Signed(r[i.rs]), Signed(r[i.rt])));
  }

  lemma BranchForm(i: Instruction, r: Registers)
    requires WellDecoded(i) && IsConditional(i.op)
    ensures Target(i, r).link == 0
    ensures Target(i, r).pcAfter
            == if Taken(i.op, Signed(r[i.rs]), Signed(r[i.rt])) then Plus(r[NEXT_PC], Shl(i.extra, 2))
               else Plus(r[NEXT_PC], 4)
  {
  }

  lemma Displacement(next: Word, extra: Word)
    ensures Congruent(Plus(next, Shl(extra, 2)), next as int + 4 * Signed(extra))
  {
    assert Pow2(2) == 4;
    var x: int := 4 * extra;
    var q, p := x / 0x1_0000_0000, (next + x % 0x1_0000_0000) / 0x1_0000_0000;
    var high := if extra < 0x8000_0000 then 0 else 4;
    assert Plus(next, Shl(extra, 2)) == next + x - q * 0x1_0000_0000 - p * 0x1_0000_0000;
    assert next + 4 * Signed(extra) == next + x - high * 0x1_0000_0000;
    Multiple(high - q - p);
  }

  lemma Multiple(n: int)
    ensures n * 0x1_0000_0000 % 0x1_0000_0000 == 0
  {
  }

  // Logic

  /** One bit of a logical result, from the bits of the operands: `x` of the immediate, which has
      none above the sixteenth, and `u` of the immediate moved to the upper half. */
  predicate LogicalBit(op: Op, s: bool, t: bool, x: bool, u: bool) {
    match op
    case AND => s && t
    case OR => s || t
    case XOR => s != t
    case NOR => !(s || t)
    case ANDI => s && x
    case ORI => s || x
    case XORI => s != x
    case LUI => u
    case _ => false
  }

  lemma LogicalBits(i: Instruction, r: Registers, j: nat)
    requires WellDecoded(i) && IsLogical(i.op) && j < 32
    ensures Bit(Logical(i, r).value, j)
            == LogicalBit(i.op, Bit(r[i.rs], j), Bit(r[i.rt], j), j < 16 && Bit(i.extra, j),
                          j >= 16 && Bit(i.extra, j - 16))
    ensures Logical(i, r).reg == if i.op.AND? || i.op.OR? || i.op.XOR? || i.op.NOR? then i.rd else i.rt
  {
    var low: Word := i.extra % 0x1_0000;
    var v := LogicalValue(i, r, low);
    LowHalfBit(i.extra, j);
    if i.op.LUI? {
      UpperHalfBit(i.extra, j);
    } else {
      BitOfLogical(i.op, r[i.rs], r[i.rt], low, v, j);
    }
  }

  /** The value of a logical instruction is one operation on its operands. */
  ghost predicate IsLogicalOf(op: Op, s: Word, t: Word, low: Word, v: Word) {
    match op
    case AND => v == And(s, t)
    case OR => v == Or(s, t)
    case XOR => v == Xor(s, t)
    case NOR => v == Not(Or(s, t))
    case ANDI => v == And(s, low)
    case ORI => v == Or(s, low)
    case XORI => v == Xor(s, low)
    case _ => false
  }

  lemma LogicalValue(i: Instruction, r: Registers, low: Word) returns (v: Word)
    requires WellDecoded(i) && IsLogical(i.op) && low == i.extra % 0x1_0000
    ensures v == Logical(i, r).value
    ensures Logical(i, r).reg == if i.op.AND? || i.op.OR? || i.op.XOR? || i.op.NOR? then i.rd else i.rt
    ensures if i.op.LUI? then v == low as int * 0x1_0000 else IsLogicalOf(i.op, r[i.rs], r[i.rt], low, v)
  {
    v := Logical(i, r).value;
  }

  lemma BitOfLogical(op: Op, s: Word, t: Word, low: Word, v: Word, j: nat)
    requires j < 32 && IsLogicalOf(op, s, t, low, v)
    ensures Bit(v, j) == LogicalBit(op, Bit(s, j), Bit(t, j), Bit(low, j), false)
  {
    match op {
      case AND => AndBit(s, t, j);
      case OR => OrBit(s, t, j);
      case XOR => XorBit(s, t, j);
      case NOR =>
        OrBit(s, t, j);
        NotBit(Or(s, t), j);
      case ANDI => AndBit(s, low, j);
      case ORI => OrBit(s, low, j);
      case XORI => XorBit(s, low, j);
    }
  }

  lemma AndBit(x: Word, y: Word, j: nat)
    requires j < WORD_BITS
    ensures Bit(And(x, y), j) == (Bit(x, j) && Bit(y, j))
  {
  }

  lemma OrBit(x: Word, y: Word, j: nat)
    requires j < WORD_BITS
    ensures Bit(Or(x, y), j) == (Bit(x, j) || Bit(y, j))
  {
  }

  lemma XorBit(x: Word, y: Word, j: nat)
    requires j < WORD_BITS
    ensures Bit(Xor(x, y), j) == (Bit(x, j) != Bit(y, j))
  {
  }

  lemma NotBit(x: Word, j: nat)
    requires j < WORD_BITS
    ensures Bit(Not(x), j) == !Bit(x, j)
  {
  }

  lemma LowHalfBit(x: Word, j: nat)
    ensures Bit(x % 0x1_0000, j) <==> j < 16 && Bit(x, j)
  {
    Powers();
    if j < 16 {
      BitOfMod(x, 16, j);
    } else {
      NoHighBit(x % 0x1_0000, 16, j);
    }
  }

  lemma UpperHalfBit(x: Word, j: nat)
    requires j < 32
    ensures Bit(x % 0x1_0000 * 0x1_0000, j) <==> j >= 16 && Bit(x, j - 16)
  {
    Powers();
    BitOfProduct(x % 0x1_0000, 16, j);
    if j >= 16 {
      LowHalfBit(x, j - 16);
    }
  }

  // Arithmetic

  predicate Wraps(op: Op) {
    op.ADDU? || op.SUBU? || op.ADDIU?
  }

  predicate Compares(op: Op) {
    op.SLT? || op.SLTI? || op.SLTU? || op.SLTIU?
  }

  /** ADD, SUB and ADDI, when they do not trap, give the exact sum or difference. */
  lemma ExactArithmetic(i: Instruction, r: Registers)
    requires WellDecoded(i) && (i.op.ADD? || i.op.SUB? || i.op.ADDI?) && Arithmetic(i, r).Sets?
    ensures var s, t, x, m := Signed(r[i.rs]), Signed(r[i.rt]), Signed(i.extra), Arithmetic(i, r);
            && (i.op.ADD? ==> m.reg == i.rd && Signed(m.value) == s + t)
            && (i.op.SUB? ==> m.reg == i.rd && Signed(m.value) == s - t)
            && (i.op.ADDI? ==> m.reg == i.rt && Signed(m.value) == s + x)
  {
  }

  /** ADDU, SUBU and ADDIU give it modulo 2^32. */
  lemma WrappingArithmetic(i: Instruction, r: Registers)
    requires WellDecoded(i) && Wraps(i.op)
    ensures Arithmetic(i, r) == Sets(if i.op.ADDIU? then i.rt else i.rd, Wrapped(i, r[i.rs], r[i.rt]))
    ensures Congruent(Wrapped(i, r[i.rs], r[i.rt]), Intended(i, Signed(r[i.rs]), Signed(r[i.rt])))
  {
    SumCongruent(r[i.rs], if i.op.ADDIU? then i.extra else r[i.rt]);
    DifferenceCongruent(r[i.rs], r[i.rt]);
  }

  function Wrapped(i: Instruction, s: Word, t: Word): (v: Word)
    requires Wraps(i.op)
  {
    match i.op
    case ADDU => Plus(s, t)
    case SUBU => Unsigned(s as int - t as int)
    case ADDIU => Plus(s, i.extra)
  }

  function Intended(i: Instruction, s: int, t: int): (v: int)
    requires Wraps(i.op)
  {
    match i.op
    case ADDU => s + t
    case SUBU => s - t
    case ADDIU => s + Signed(i.extra)
  }

  /** The comparisons give 1 or 0, for the sign of the difference of the operands as they read them. */
  lemma ComparesExactly(i: Instruction, r: Registers)
    requires WellDecoded(i) && Compares(i.op)
    ensures var s, t, x, m := r[i.rs], r[i.rt], i.extra, Arithmetic(i, r);
            && m.Sets? && m.value <= 1
            && (i.op.SLT? ==> m.reg == i.rd && (m.value == 1 <==> Signed(s) - Signed(t) < 0))
            && (i.op.SLTI? ==> m.reg == i.rt && (m.value == 1 <==> Signed(s) - Signed(x) < 0))
            && (i.op.SLTU? ==> m.reg == i.rd && (m.value == 1 <==> s as int - t as int < 0))
            && (i.op.SLTIU? ==> m.reg == i.rt && (m.value == 1 <==> s as int - x as int < 0))
  {
  }

  lemma SumCongruent(a: Word, b: Word)
    ensures Congruent(Plus(a, b), Signed(a) + Signed(b))
  {
    var s: int := a as int + b as int;
    var n := s / 0x1_0000_0000 - (if a < 0x8000_0000 then 0 else 1) - (if b < 0x8000_0000 then 0 else 1);
    assert Plus(a, b) - (Signed(a) + Signed(b)) == -n * 0x1_0000_0000;
    Multiple(-n);
  }

  lemma DifferenceCongruent(a: Word, b: Word)
    ensures Congruent(Unsigned(a as int - b as int), Signed(a) - Signed(b))
  {
    var d: int := a as int - b as int;
    var n := d / 0x1_0000_0000 - (if a < 0x8000_0000 then 0 else 1) + (if b < 0x8000_0000 then 0 else 1);
    assert Unsigned(d) - (Signed(a) - Signed(b)) == -n * 0x1_0000_0000;
    Multiple(-n);
  }

  // HI and LO

  /** HI is the upper half of a product and LO the lower; of a division, HI the remainder and LO the
      quotient. */
  lemma HiLoExactly(i: Instruction, r: Registers)
    requires WellDecoded(i) && (i.op.MULT? || i.op.MULTU? || i.op.DIVU? || i.op.DIV?) && HiLo(i, r).SetsHiLo?
    ensures var s, t, hi, lo := r[i.rs], r[i.rt], HiLo(i, r).hi, HiLo(i, r).lo;
            && (i.op.MULTU? ==> 0x1_0000_0000 * hi + lo == s as int * t as int)
            && (i.op.MULT? ==> 0x1_0000_0000 * Signed(hi) + lo == Signed(s) * Signed(t))
            && (i.op.DIVU? && t != 0 ==> t as int * lo as int + hi == s && hi < t)
            && (i.op.DIV? && t != 0 ==>
                  && Signed(t) * Signed(lo) + Signed(hi) == Signed(s)
                  && Magnitude(Signed(hi)) < Magnitude(Signed(t))
                  && (Signed(s) >= 0 ==> Signed(hi) >= 0) && (Signed(s) <= 0 ==> Signed(hi) <= 0))
            && ((i.op.DIV? || i.op.DIVU?) && t == 0 ==> hi == 0 && lo == 0)
  {
    var s, t := r[i.rs], r[i.rt];
    if i.op.MULTU? {
      ProductRange(s, t);
      UnsignedHalves(s as int * t as int);
    } else if i.op.MULT? {
      SignedProductRange(Signed(s), Signed(t));
      SignedHalves(Signed(s) * Signed(t));
    } else if t != 0 {
      if i.op.DIVU? {
        DivisionLaw(s, t, s / t, s % t);
      } else {
        SignedDivision(Signed(s), Signed(t));
      }
    }
  }

  lemma DivisionLaw(s: nat, t: nat, q: nat, m: nat)
    requires t > 0 && q == s / t && m == s % t
    ensures t * q + m == s && m < t
  {
  }

  lemma SignedDivision(a: int, b: int)
    requires IsInt(a) && IsInt(b) && b != 0 && !(a == -0x8000_0000 && b == -1)
    ensures b * Signed(Unsigned(Quotient(a, b))) + Signed(Unsigned(Remainder(a, b))) == a
    ensures Signed(Unsigned(Remainder(a, b))) == Remainder(a, b)
  {
    QuotientFits(a, b);
    assert IsInt(Remainder(a, b));
  }

  lemma ProductRange(s: nat, t: nat)
    requires s < 0x1_0000_0000 && t < 0x1_0000_0000
    ensures 0 <= s * t < 0x1_0000_0000 * 0x1_0000_0000
  {
    Multiply.ProductBound(s, t, 0xffff_ffff, 0xffff_ffff);
    NonNegative(s, t);
  }

  lemma SignedProductRange(s: int, t: int)
    requires IsInt(s) && IsInt(t)
    ensures -0x8000_0000 * 0x1_0000_0000 <= s * t < 0x8000_0000 * 0x1_0000_0000
  {
    var a, b := Magnitude(s), Magnitude(t);
    Multiply.ProductBound(a, b, 0x8000_0000, 0x8000_0000);
    NonNegative(a, b);
    SignedProduct(s, t);
  }

  lemma NonNegative(a: nat, b: nat)
    ensures a * b >= 0
  {
  }

  lemma SignedProduct(s: int, t: int)
    ensures s * t == if (s < 0) == (t < 0) then Magnitude(s) * Magnitude(t) else -(Magnitude(s) * Magnitude(t))
  {
    if s < 0 && t < 0 {
      assert (-s) * (-t) == s * t;
    } else if s < 0 {
      assert (-s) * t == -(s * t);
    } else if t < 0 {
      assert s * (-t) == -(s * t);
    }
  }

  lemma UnsignedHalves(p: nat)
    requires p < 0x1_0000_0000 * 0x1_0000_0000
    ensures Product(p).hi * 0x1_0000_0000 + Product(p).lo == p
  {
  }

  lemma SignedHalves(p: int)
    requires -0x8000_0000 * 0x1_0000_0000 <= p < 0x8000_0000 * 0x1_0000_0000
    ensures Signed(Product(p).hi) * 0x1_0000_0000 + Product(p).lo == p
  {
    var q := p / 0x1_0000_0000;
    assert p == q * 0x1_0000_0000 + p % 0x1_0000_0000;
    assert -0x8000_0000 <= q < 0x8000_0000;
  }

  /** The moves to HI and LO name the one they say, and the moves from them read it. */
  lemma HiLoMoves(i: Instruction, r: Registers)
    requires WellDecoded(i) && (i.op.MFHI? || i.op.MFLO? || i.op.MTHI? || i.op.MTLO?)
    ensures var m := HiLo(i, r);
            match i.op
            case MTHI => m == Sets(32, r[i.rs])
            case MTLO => m == Sets(33, r[i.rs])
            case MFHI => m == Sets(i.rd, r[32])
            case MFLO => m == Sets(i.rd, r[33])
            case _ => false
  {
  }

  /** What raises an exception: a system call, an unassigned word, and a sum or difference beyond
      32 bits. */
  lemma RaisesExactly(i: Instruction, r: Registers)
    requires WellDecoded(i) && !IsLoad(i.op) && !IsStore(i.op)
    ensures var m, s, t, x := MeaningOf(i, r), Signed(r[i.rs]), Signed(r[i.rt]), Signed(i.extra);
            && (m == Raises(Syscall) <==> i.op.SYSCALL?)
            && (m == Raises(IllegalInstr) <==> i.op.UNIMP? || i.op.RES?)
            && (m == Raises(Overflow) <==>
                  || (i.op.ADD? && !(-0x8000_0000 <= s + t < 0x8000_0000))
                  || (i.op.ADDI? && !(-0x8000_0000 <= s + x < 0x8000_0000))
                  || (i.op.SUB? && !(-0x8000_0000 <= s - t < 0x8000_0000)))
            && (m.Raises? ==> m.exception.Syscall? || m.exception.IllegalInstr? || m.exception.Overflow?)
  {
  }

  // Memory addresses and loads

  /** The address is the base register plus the signed displacement. */
  lemma AddressCongruent(i: Instruction, r: Registers)
    requires WellDecoded(i)
    ensures Congruent(Address(i, r), r[i.rs] + Signed(i.extra))
  {
    var a, x := r[i.rs], i.extra;
    var s: int := a as int + x as int;
    var n := s / 0x1_0000_0000 - if x < 0x8000_0000 then 0 else 1;
    assert Plus(a, x) - (a + Signed(x)) == -n * 0x1_0000_0000;
    Multiple(-n);
  }

  /** Loads keep the bytes they find; what fills the rest is the sign for LB and LH and zero for LBU
      and LHU. */
  lemma LoadFills(op: Op, b: seq<Byte>, n: seq<Byte>, k: nat)
    requires IsLoad(op) && |b| == Width(op) && |n| == 4 && k < 4
    ensures var v := LoadedValue(op, b, n, k);
            match op
            case LB => v % 0x100 == b[0] && -0x80 <= Signed(v) < 0x80
            case LBU => v % 0x100 == b[0] && 0 <= Signed(v) < 0x100
            case LH => v % 0x1_0000 == b[0] as int + 0x100 * b[1] as int && -0x8000 <= Signed(v) < 0x8000
            case LHU => v % 0x1_0000 == b[0] as int + 0x100 * b[1] as int && 0 <= Signed(v) < 0x1_0000
            case LW => WordBytes(v) == b
            case LWL => WordBytes(v) == LeftBytes(b, n, k)
            case LWR => WordBytes(v) == RightBytes(b, n, k)
            case _ => false
  {
    match op {
      case LW => WordOfBytes(b);
      case LWL => WordOfBytes(LeftBytes(b, n, k));
      case LWR => WordOfBytes(RightBytes(b, n, k));
      case _ =>
    }
  }

  // Jumps

  /** A jump stays in the 256-megabyte region of the instruction after its delay slot, and within it
      goes to the word its index names; JAL and JALR keep the address after the delay slot. */
  lemma JumpExactly(i: Instruction, r: Registers)
    requires WellDecoded(i) && (i.op.J? || i.op.JAL? || i.op.JR? || i.op.JALR?)
    ensures var m := Target(i, r);
            && (i.op.J? || i.op.JAL? ==>
                  && m.pcAfter / 0x1000_0000 == Following(r) / 0x1000_0000
                  && m.pcAfter % 0x1000_0000 == 4 * i.extra)
            && (i.op.JR? ==> m.pcAfter == r[i.rs])
            && m.link == (if i.op.JAL? then 31 else if i.op.JALR? then i.rd else 0)
  {
    if i.op.J? || i.op.JAL? {
      InItsRegion(Following(r) / 0x1000_0000, 4 * i.extra);
    }
  }

  lemma InItsRegion(region: nat, low: nat)
    requires low < 0x1000_0000
    ensures (region * 0x1000_0000 + low) / 0x1000_0000 == region && (region * 0x1000_0000 + low) % 0x1000_0000 == low
  {
  }
}
