/** The simulated MIPS machine: registers, main memory and one instruction at a time. */
module Machines {
  import opened LittleEndian
  import opened Bits
  import opened Translation
  import opened Unaligned
  import opened Multiply
  import opened Decoding
  import opened Isa
  import opened Idioms

  /** The registers when an instruction other than a load or store has done its work, before the
      pending load arrives and the program counters advance. */
  ghost predicate Applied(meaning: Meaning, r: Registers, r': Registers, o: Outcome)
    requires r[LOAD_REG] < 32
  {
    match meaning
    case Sets(d, v) => d <= LO && o == Done && r' == r[d := v]
    case SetsHiLo(hi, lo) => o == Done && r' == r[HI := hi][LO := lo]
    case Continues(_, link) => link < 32 && o == Done && (r' == r[link := Following(r)] || (link == 0 && r' == r))
    case Raises(e) => o == Trap(e, 0) && r' == Trapped(r, 0)
    case Undefined => o == HostFault
  }

  /** A load, before it retires. */
  ghost predicate Loaded(t: Translated, i: Instruction, a: Word, mem: seq<Byte>, r: Registers, r': Registers,
                         o: Outcome, value: Word)
    requires |mem| == MEMORY_SIZE && r[LOAD_REG] < 32 && WellDecoded(i) && IsLoad(i.op)
    requires t.Mapped? ==> t.physAddr + Width(i.op) <= MEMORY_SIZE
  {
    match t
    case Fault(e) => o == Trap(e, Base(i.op, a)) && r' == Trapped(r, Base(i.op, a))
    case Mapped(p, _) =>
      var b := mem[p..p + Width(i.op)];
      && o == Done && r' == r
      && value == LoadedValue(i.op, b, WordBytes(Forwarded(r, i.rt)), a % 4)
  }

  /** A store, before it retires. */
  ghost predicate Written(t: Translated, base: Word, from: nat, b: seq<Byte>, s: Cpu, s': Cpu, o: Outcome)
    requires Sane(s) && (t.Mapped? ==> t.physAddr + from + |b| <= MEMORY_SIZE)
  {
    match t
    case Fault(e) => TrapTaken(s, s', o, e, base)
    case Mapped(p, _) => o == Done && s'.r == s.r && s'.mem == Patched(s.mem, p + from, b)
  }

  class Machine {
    const registers: array<Word>
    const mainMemory: array<Byte>
    var mapping: Mapping

    ghost predicate Shape()
      reads registers
    {
      registers.Length == NUM_REGS && mainMemory.Length == MEMORY_SIZE && registers[LOAD_REG] < 32
    }

    ghost predicate Valid()
      reads registers
    {
      Shape() && registers[0] == 0
    }

    ghost function Snapshot(): (s: Cpu)
      reads this, registers, mainMemory
      requires Shape()
    {
      Cpu(registers[..], mainMemory[..], mapping)
    }

    constructor (mapping: Mapping)
      ensures Valid() && fresh(registers) && fresh(mainMemory)
      ensures this.mapping == mapping
    {
      registers := new Word[NUM_REGS](_ => 0);
      mainMemory := new Byte[MEMORY_SIZE](_ => 0);
      this.mapping := mapping;
    }

    // Traps and delayed loads

    method SetRegister(k: nat, value: Word)
      requires Shape() && k <= LO
      modifies registers
      ensures Shape() && registers[..] == old(registers[..])[k := value]
    {
      registers[k] := value;
    }

    method DelayedLoad(nextReg: Word, nextValue: Word)
      requires Shape() && nextReg < 32
      modifies registers
      ensures Valid() && registers[..] == Delayed(old(registers[..]), nextReg, nextValue)
    {
      registers[registers[LOAD_REG]] := registers[LOAD_VALUE];
      registers[LOAD_REG] := nextReg;
      registers[LOAD_VALUE] := nextValue;
      registers[0] := 0;
    }

    /** Up to the call of the kernel's exception handler. */
    method RaiseException(which: Exception, badVAddr: Word) returns (o: Outcome)
      requires Shape()
      modifies registers
      ensures Valid() && registers[..] == Trapped(old(registers[..]), badVAddr)
      ensures o == Trap(which, badVAddr)
    {
      registers[BAD_VADDR] := badVAddr;
      assert registers[..] == old(registers[..])[BAD_VADDR := badVAddr];
      DelayedLoad(0, 0);
      o := Trap(which, badVAddr);
    }

    method AdvanceCounters(nextReg: Word, nextValue: Word, pcAfter: Word)
      requires Shape() && nextReg < 32
      modifies registers
      ensures Valid() && registers[..] == Retired(old(registers[..]), nextReg, nextValue, pcAfter)
    {
      DelayedLoad(nextReg, nextValue);
      registers[PREV_PC] := registers[PC];
      registers[PC] := registers[NEXT_PC];
      registers[NEXT_PC] := pcAfter;
    }

    // Memory

    method TranslateAddress(virtAddr: Word, size: nat, writing: bool) returns (t: Translated)
      requires Size(size)
      modifies this`mapping
      ensures t == Translate(old(mapping), virtAddr, size, writing)
      ensures mapping == if t.Mapped? then Touched(old(mapping), t.entry, writing) else old(mapping)
    {
      AlignmentMasks(virtAddr);
      if (size == 4 && And(virtAddr, 3) != 0) || (size == 2 && And(virtAddr, 1) != 0) {
        return Fault(AddressError);
      }
      var vpn, offset := virtAddr / PAGE_SIZE, virtAddr % PAGE_SIZE;
      var i := 0;
      if mapping.PageTable? {
        if vpn >= |mapping.entries| {
          return Fault(AddressError);
        } else if !mapping.entries[vpn].valid {
          return Fault(PageFault);
        }
        i := vpn;
      } else {
        while i < |mapping.entries| && !(mapping.entries[i].valid && mapping.entries[i].virtualPage == vpn)
          invariant i <= |mapping.entries|
          invariant SearchTlb(mapping.entries, vpn, 0) == SearchTlb(mapping.entries, vpn, i)
        {
          i := i + 1;
        }
        if i == |mapping.entries| {
          return Fault(PageFault);
        }
      }
      var entry := mapping.entries[i];
      if entry.readOnly && writing {
        return Fault(ReadOnly);
      }
      if entry.physicalPage >= NUM_PHYS_PAGES {
        return Fault(BusError);
      }
      t := Mapped(entry.physicalPage * PAGE_SIZE + offset, i);
      entry := entry.(use := true);
      if writing {
        entry := entry.(dirty := true);
      }
      mapping := mapping.(entries := mapping.entries[i := entry]);
    }

    /** A read shows the bytes the program sees at the address, or traps. */
    method ReadMem(addr: Word, size: nat) returns (o: Outcome, value: Word)
      requires Valid() && Size(size)
      modifies this`mapping, registers
      ensures Valid() && SameEntries(old(mapping), mapping)
      ensures match Translate(old(mapping), addr, size, false)
              case Fault(e) => o == Trap(e, addr) && registers[..] == Trapped(old(registers[..]), addr)
              case Mapped(p, _) =>
                && o == Done && registers[..] == old(registers[..])
                && value == Assemble(mainMemory[..][p..p + size])
                && Shows(mainMemory[..], old(mapping), addr, mainMemory[..][p..p + size])
    {
      ghost var t;
      o, value, t := FetchMem(addr, size);
      if o.Done? {
        ReadShows(mainMemory[..], old(mapping), addr, size, false);
      }
    }

    /** ReadMem, without what it means for the flat view. */
    method FetchMem(addr: Word, size: nat) returns (o: Outcome, value: Word, ghost t: Translated)
      requires Valid() && Size(size)
      modifies this`mapping, registers
      ensures Valid() && SameEntries(old(mapping), mapping)
      ensures t == Translate(old(mapping), addr, size, false)
      ensures t.Fault? ==> o == Trap(t.exception, addr) && registers[..] == Trapped(old(registers[..]), addr)
      ensures t.Mapped? ==> o == Done && registers[..] == old(registers[..])
      ensures t.Mapped? ==> value == Assemble(mainMemory[..][t.physAddr..t.physAddr + size])
    {
      var u := TranslateAddress(addr, size, false);
      value, t := 0, u;
      if u.Fault? {
        o := RaiseException(u.exception, addr);
        return;
      }
      o := Done;
      assert mainMemory[..][u.physAddr..u.physAddr + size] == mainMemory[u.physAddr..u.physAddr + size];
      value := Assemble(mainMemory[u.physAddr..u.physAddr + size]);
    }

    method StoreBytes(p: nat, b: seq<Byte>)
      requires mainMemory.Length == MEMORY_SIZE && Size(|b|) && p + |b| <= MEMORY_SIZE
      modifies mainMemory
      ensures mainMemory[..] == Patched(old(mainMemory[..]), p, b)
    {
      ghost var was := mainMemory[..];
      mainMemory[p] := b[0];
      if |b| >= 2 {
        mainMemory[p + 1] := b[1];
      }
      if |b| == 4 {
        mainMemory[p + 2], mainMemory[p + 3] := b[2], b[3];
      }
      forall i | 0 <= i < MEMORY_SIZE
        ensures mainMemory[..][i] == Patched(was, p, b)[i]
      {
        PatchedAt(was, p, b, i);
      }
    }

    /** A write is a splice into the flat memory the program sees, or traps. */
    method WriteMem(addr: Word, size: nat, value: Word) returns (o: Outcome)
      requires Valid() && Size(size)
      modifies this`mapping, registers, mainMemory
      ensures Valid() && SameEntries(old(mapping), mapping)
      ensures match Translate(old(mapping), addr, size, true)
              case Fault(e) =>
                o == Trap(e, addr) && registers[..] == Trapped(old(registers[..]), addr)
                    && mainMemory[..] == old(mainMemory[..])
              case Mapped(p, _) =>
                && o == Done && registers[..] == old(registers[..])
                && mainMemory[..] == Patched(old(mainMemory[..]), p, WordBytes(value)[..size])
                && (Injective(old(mapping)) ==>
                      Stored(old(mainMemory[..]), old(mapping), mainMemory[..], mapping, addr,
                          WordBytes(value)[..size]))
    {
      ghost var t;
      o, t := StoreMem(addr, size, value);
      if o.Done? {
        StoresIfInjective(old(mainMemory[..]), old(mapping), addr, WordBytes(value)[..size], mainMemory[..], mapping);
      }
    }

    /** WriteMem, without what it means for the flat view. */
    method StoreMem(addr: Word, size: nat, value: Word) returns (o: Outcome, ghost t: Translated)
      requires Valid() && Size(size)
      modifies this`mapping, registers, mainMemory
      ensures Valid() && SameEntries(old(mapping), mapping)
      ensures t == Translate(old(mapping), addr, size, true)
      ensures t.Fault? ==> o == Trap(t.exception, addr) && registers[..] == Trapped(old(registers[..]), addr)
      ensures t.Fault? ==> mainMemory[..] == old(mainMemory[..])
      ensures t.Mapped? ==> o == Done && registers[..] == old(registers[..])
      ensures t.Mapped? ==> mainMemory[..] == Patched(old(mainMemory[..]), t.physAddr, WordBytes(value)[..size])
    {
      var u := TranslateAddress(addr, size, true);
      t := u;
      if u.Fault? {
        o := RaiseException(u.exception, addr);
        return;
      }
      o := Done;
      StoreBytes(u.physAddr, WordBytes(value)[..size]);
    }

    // Instructions

    method ExecArithmetic(i: Instruction) returns (o: Outcome)
      requires Valid() && WellDecoded(i) && IsArithmetic(i.op)
      modifies registers
      ensures Shape() && Applied(Arithmetic(i, old(registers[..])), old(registers[..]), registers[..], o)
      ensures o.Trap? ==> Valid()
    {
      o := Done;
      var s, t, x := registers[i.rs], registers[i.rt], i.extra;
      match i.op {
        case ADD =>
          var sum := Plus(s, t);
          var overflow := SumOverflows(s, t, sum, s);
          if overflow {
            o := RaiseException(Overflow, 0);
            return;
          }
          SetRegister(i.rd, sum);
        case ADDI =>
          var sum := Plus(s, x);
          var overflow := SumOverflows(s, x, sum, x);
          if overflow {
            o := RaiseException(Overflow, 0);
            return;
          }
          SetRegister(i.rt, sum);
        case SUB =>
          var diff := Unsigned(s as int - t as int);
          var overflow := DifferenceOverflows(s, t, diff);
          if overflow {
            o := RaiseException(Overflow, 0);
            return;
          }
          SetRegister(i.rd, diff);
        case ADDIU => SetRegister(i.rt, Plus(s, x));
        case ADDU => SetRegister(i.rd, Plus(s, t));
        case SUBU => SetRegister(i.rd, Unsigned(s as int - t as int));
        case SLT => SetRegister(i.rd, if Signed(s) < Signed(t) then 1 else 0);
        case SLTI => SetRegister(i.rt, if Signed(s) < Signed(x) then 1 else 0);
        case SLTU => SetRegister(i.rd, if s < t then 1 else 0);
        case SLTIU => SetRegister(i.rt, if s < x then 1 else 0);
      }
    }

    method ExecLogical(i: Instruction)
      requires Valid() && WellDecoded(i) && IsLogical(i.op)
      modifies registers
      ensures Shape() && Applied(Logical(i, old(registers[..])), old(registers[..]), registers[..], Done)
    {
      var s, t := registers[i.rs], registers[i.rt];
      var imm := Immediate(i.extra);
      match i.op {
        case AND => SetRegister(i.rd, And(s, t));
        case ANDI => SetRegister(i.rt, And(s, imm));
        case OR => SetRegister(i.rd, Or(s, t));
        case ORI => SetRegister(i.rt, Or(s, imm));
        case XOR => SetRegister(i.rd, Xor(s, t));
        case XORI => SetRegister(i.rt, Xor(s, imm));
        case NOR => SetRegister(i.rd, Not(Or(s, t)));
        case LUI =>
          UpperImmediate(i.extra);
          SetRegister(i.rt, Shl(i.extra, 16));
      }
    }

    method ExecShift(i: Instruction)
      requires Valid() && WellDecoded(i) && IsShift(i.op)
      modifies registers
      ensures Shape() && Applied(Shifting(i, old(registers[..])), old(registers[..]), registers[..], Done)
    {
      var t := registers[i.rt];
      var k := ShiftAmount(registers[i.rs]);
      match i.op {
        case SLL => SetRegister(i.rd, Shl(t, i.extra));
        case SLLV => SetRegister(i.rd, Shl(t, k));
        case SRL => SetRegister(i.rd, Shr(t, i.extra));
        case SRLV => SetRegister(i.rd, Shr(t, k));
        case SRA => SetRegister(i.rd, Sar(t, i.extra));
        case SRAV => SetRegister(i.rd, Sar(t, k));
      }
    }

    method SetHiLo(hi: Word, lo: Word)
      requires Shape()
      modifies registers
      ensures Shape() && registers[..] == old(registers[..])[HI := hi][LO := lo]
    {
      registers[LO] := lo;
      registers[HI] := hi;
    }

    method ExecHiLo(i: Instruction) returns (o: Outcome)
      requires Valid() && WellDecoded(i) && IsHiLo(i.op)
      modifies registers
      ensures Shape() && Applied(HiLo(i, old(registers[..])), old(registers[..]), registers[..], o)
    {
      o := Done;
      var s, t := registers[i.rs], registers[i.rt];
      match i.op {
        case MFHI => SetRegister(i.rd, registers[HI]);
        case MFLO => SetRegister(i.rd, registers[LO]);
        case MTHI => SetRegister(HI, s);
        case MTLO => SetRegister(LO, s);
        case MULT =>
          var hi, lo := Multiplied(s, t, true);
          SetHiLo(hi, lo);
        case MULTU =>
          var hi, lo := Multiplied(s, t, false);
          SetHiLo(hi, lo);
        case DIV =>
          if Signed(s) == -0x8000_0000 && Signed(t) == -1 {
            return HostFault;
          }
          var hi, lo := DividedSigned(Signed(s), Signed(t));
          SetHiLo(hi, lo);
        case DIVU =>
          if t == 0 {
            SetHiLo(0, 0);
          } else {
            SetHiLo(s % t, UnsignedQuotient(s, t));
          }
      }
    }

    method ExecBranch(i: Instruction) returns (pcAfter: Word)
      requires Valid() && WellDecoded(i) && IsBranch(i.op)
      modifies registers
      ensures Shape() && Applied(Target(i, old(registers[..])), old(registers[..]), registers[..], Done)
      ensures pcAfter == Target(i, old(registers[..])).pcAfter
    {
      pcAfter := Plus(registers[NEXT_PC], 4);
      var away := Plus(registers[NEXT_PC], Shl(i.extra, 2));
      if i.op.JAL? || i.op.BGEZAL? || i.op.BLTZAL? {
        SetRegister(R31, pcAfter);
      } else if i.op.JALR? {
        SetRegister(i.rd, pcAfter);
      }
      var s := registers[i.rs];
      var negative := IsNegative(s);
      match i.op {
        case BEQ => if s == registers[i.rt] { pcAfter := away; }
        case BNE => if s != registers[i.rt] { pcAfter := away; }
        case BGEZAL => if !negative { pcAfter := away; }
        case BGEZ => if !negative { pcAfter := away; }
        case BLTZAL => if negative { pcAfter := away; }
        case BLTZ => if negative { pcAfter := away; }
        case BGTZ => if Signed(s) > 0 { pcAfter := away; }
        case BLEZ => if Signed(s) <= 0 { pcAfter := away; }
        case J => pcAfter := JumpTarget(pcAfter, i.extra);
        case JAL => pcAfter := JumpTarget(pcAfter, i.extra);
        case JR => pcAfter := s;
        case JALR => pcAfter := s;
      }
    }

    /** LB, LBU, LH, LHU, LW. */
    method LoadPlain(i: Instruction, a: Word) returns (o: Outcome, value: Word)
      requires Valid() && WellDecoded(i) && IsLoad(i.op) && !i.op.LWL? && !i.op.LWR?
      modifies this`mapping, registers
      ensures Valid() && SameEntries(old(mapping), mapping)
      ensures Loaded(Access(old(mapping), i.op, a), i, a, mainMemory[..], old(registers[..]), registers[..], o, value)
    {
      value := 0;
      var size := Width(i.op);
      if size > 1 {
        var misaligned := Misaligned(a, size);
        if misaligned {
          o := RaiseException(AddressError, a);
          return;
        }
      }
      ghost var t;
      o, value, t := FetchMem(a, size);
      if !o.Done? {
        return;
      }
      ghost var b, n := mainMemory[..][t.physAddr..t.physAddr + size], WordBytes(Forwarded(registers[..], i.rt));
      value := ExtendLoaded(i.op, b, n, a % 4, value);
    }

    /** LWL, LWR. */
    method LoadMerged(i: Instruction, a: Word) returns (o: Outcome, value: Word)
      requires Valid() && WellDecoded(i) && (i.op.LWL? || i.op.LWR?)
      modifies this`mapping, registers
      ensures Valid() && SameEntries(old(mapping), mapping)
      ensures Loaded(Access(old(mapping), i.op, a), i, a, mainMemory[..], old(registers[..]), registers[..], o, value)
    {
      var base, k := WordOffset(a);
      ghost var t;
      o, value, t := FetchMem(base, 4);
      if !o.Done? {
        return;
      }
      var next := if registers[LOAD_REG] == i.rt then registers[LOAD_VALUE] else registers[i.rt];
      value := MergeLoaded(i.op, mainMemory[..][t.physAddr..t.physAddr + 4], value, next, k);
    }

    /** SWL, SWR: read the word, merge, write it back. */
    method StoreMerged(op: Op, a: Word, w: Word) returns (o: Outcome)
      requires Valid() && (op.SWL? || op.SWR?)
      modifies this`mapping, registers, mainMemory
      ensures Valid() && SameEntries(old(mapping), mapping)
      ensures Written(Access(old(mapping), op, a), Base(op, a), StoredFrom(op, a), StoredBytes(op, a, w),
                      old(Snapshot()), Snapshot(), o)
    {
      var base, k := WordOffset(a);
      AccessOfWord(mapping, op, a, base);
      o := RewriteWord(base, op.SWR?, w, k, StoredFrom(op, a), StoredBytes(op, a, w));
    }

    /** The same on plain values: the word at `base`, and the bytes `b` to put from `from` on. */
    method RewriteWord(base: Word, right: bool, w: Word, k: nat, ghost from: nat, ghost b: seq<Byte>)
      returns (o: Outcome)
      requires Valid() && k < 4
      requires if right then from == k && b == WordBytes(w)[..4 - k] else from == 0 && b == WordBytes(w)[3 - k..]
      modifies this`mapping, registers, mainMemory
      ensures Valid() && SameEntries(old(mapping), mapping)
      ensures from + |b| <= 4
      ensures Written(ReadThenWrite(old(mapping), base), base, from, b, old(Snapshot()), Snapshot(), o)
    {
      ghost var t;
      o, t := ReadAndWrite(base, right, w, k, from, b);
    }

    method ReadAndWrite(base: Word, right: bool, w: Word, k: nat, ghost from: nat, ghost b: seq<Byte>)
      returns (o: Outcome, ghost t: Translated)
      requires Valid() && k < 4
      requires if right then from == k && b == WordBytes(w)[..4 - k] else from == 0 && b == WordBytes(w)[3 - k..]
      modifies this`mapping, registers, mainMemory
      ensures Valid() && SameEntries(old(mapping), mapping)
      ensures t == ReadThenWrite(old(mapping), base)
      ensures t.Fault? ==> o == Trap(t.exception, base) && registers[..] == Trapped(old(registers[..]), base)
      ensures t.Fault? ==> mainMemory[..] == old(mainMemory[..])
      ensures t.Mapped? ==> o == Done && registers[..] == old(registers[..])
      ensures t.Mapped? ==> mainMemory[..] == Patched(old(mainMemory[..]), t.physAddr + from, b)
    {
      var value;
      o, value, t := FetchMem(base, 4);
      if !o.Done? {
        return;
      }
      ReadBeforeWrite(old(mapping), mapping, base);
      var merged := MergeWord(right, value, w, k, from, b);
      WordInPlace(mainMemory[..], t.physAddr, value, from, b, WordBytes(merged));
      o, t := StoreMem(base, 4, merged);
    }

    method ExecStore(i: Instruction) returns (o: Outcome)
      requires Valid() && WellDecoded(i) && IsStore(i.op)
      modifies this`mapping, registers, mainMemory
      ensures Valid() && SameEntries(old(mapping), mapping)
      ensures var a := Address(i, old(registers[..]));
              Written(Access(old(mapping), i.op, a), Base(i.op, a), StoredFrom(i.op, a),
                      StoredBytes(i.op, a, old(registers[i.rt])), old(Snapshot()), Snapshot(), o)
    {
      var a, w := Plus(registers[i.rs], i.extra), registers[i.rt];
      if i.op.SWL? || i.op.SWR? {
        o := StoreMerged(i.op, a, w);
      } else {
        ghost var t;
        o, t := StoreMem(a, Width(i.op), w);
        assert WordBytes(w)[..4] == WordBytes(w);
      }
    }

    /** Everything but loads and stores. */
    method ExecOther(i: Instruction) returns (o: Outcome, pcAfter: Word)
      requires Valid() && WellDecoded(i) && !IsLoad(i.op) && !IsStore(i.op)
      modifies registers
      ensures Shape() && Applied(MeaningOf(i, old(registers[..])), old(registers[..]), registers[..], o)
      ensures o.Trap? ==> Valid()
      ensures var m := MeaningOf(i, old(registers[..]));
              pcAfter == if m.Continues? then m.pcAfter else Following(old(registers[..]))
    {
      o, pcAfter := Done, Plus(registers[NEXT_PC], 4);
      if IsBranch(i.op) {
        pcAfter := ExecBranch(i);
      } else if IsArithmetic(i.op) {
        o := ExecArithmetic(i);
      } else if IsLogical(i.op) {
        ExecLogical(i);
      } else if IsShift(i.op) {
        ExecShift(i);
      } else if IsHiLo(i.op) {
        o := ExecHiLo(i);
      } else if i.op.SYSCALL? {
        o := RaiseException(Syscall, 0);
      } else {
        o := RaiseException(IllegalInstr, 0);
      }
    }

    method ExecuteLoad(i: Instruction, ghost s: Cpu) returns (o: Outcome)
      requires Valid() && WellDecoded(i) && IsLoad(i.op)
      requires Sane(s) && SameEntries(s.m, mapping) && s == Snapshot().(m := s.m)
      modifies this`mapping, registers
      ensures Valid() && SameEntries(s.m, mapping)
      ensures LoadTaken(i, s, Snapshot(), o)
    {
      ghost var m1 := mapping;
      var a, value := Plus(registers[i.rs], i.extra), 0;
      if i.op.LWL? || i.op.LWR? {
        o, value := LoadMerged(i, a);
      } else {
        o, value := LoadPlain(i, a);
      }
      ghost var r := registers[..];
      if o.Done? {
        AdvanceCounters(i.rt, value, Plus(registers[NEXT_PC], 4));
      }
      LoadRetired(i, s, m1, r, Snapshot(), o, value);
    }

    method ExecuteStore(i: Instruction, ghost s: Cpu) returns (o: Outcome)
      requires Valid() && WellDecoded(i) && IsStore(i.op)
      requires Sane(s) && SameEntries(s.m, mapping) && s == Snapshot().(m := s.m)
      modifies this`mapping, registers, mainMemory
      ensures Valid() && SameEntries(s.m, mapping)
      ensures StoreTaken(i, s, Snapshot(), o)
    {
      ghost var s1 := Snapshot();
      o := ExecStore(i);
      ghost var s2 := Snapshot();
      if o.Done? {
        AdvanceCounters(0, 0, Plus(registers[NEXT_PC], 4));
      }
      StoreRetired(i, s, s1, s2, Snapshot(), o);
    }

    /** Execute a fetched instruction. */
    method Execute(i: Instruction, ghost s: Cpu) returns (o: Outcome)
      requires Valid() && WellDecoded(i)
      requires Sane(s) && SameEntries(s.m, mapping) && s == Snapshot().(m := s.m)
      modifies this`mapping, registers, mainMemory
      ensures Shape() && SameEntries(s.m, mapping)
      ensures Executed(i, s, Snapshot(), o)
    {
      if IsLoad(i.op) {
        o := ExecuteLoad(i, s);
      } else if IsStore(i.op) {
        o := ExecuteStore(i, s);
      } else {
        var pcAfter;
        o, pcAfter := ExecOther(i);
        ghost var r := registers[..];
        if o.Done? {
          AdvanceCounters(0, 0, pcAfter);
        }
        MeaningRetired(MeaningOf(i, s.r), s, r, Snapshot(), o);
      }
    }

    /** One step of the simulated machine is one step of the instruction set. */
    method OneInstruction() returns (o: Outcome)
      requires Valid()
      modifies this`mapping, registers, mainMemory
      ensures Shape() && (!o.HostFault? ==> Valid())
      ensures Conforms(old(Snapshot()), Snapshot(), o)
    {
      ghost var s := Snapshot();
      var raw;
      o, raw := ReadMem(registers[PC], 4);
      if !o.Done? {
        return;
      }
      ghost var p := Translate(s.m, s.r[PC], 4, false).physAddr;
      assert s.mem[p..p + 4] == mainMemory[p..p + 4];
      o := Execute(Decode(raw), s);
      StepLaw(s, Snapshot(), o);
    }
  }

  // Loads and stores on values

  lemma StoresIfInjective(mem: seq<Byte>, m: Mapping, addr: Word, b: seq<Byte>, mem': seq<Byte>, m': Mapping)
    requires |mem| == |mem'| == MEMORY_SIZE && Size(|b|) && Translate(m, addr, |b|, true).Mapped?
    requires SameEntries(m, m') && mem' == Patched(mem, Translate(m, addr, |b|, true).physAddr, b)
    ensures Injective(m) ==> Stored(mem, m, mem', m', addr, b)
  {
    if Injective(m) {
      WriteStores(mem, m, mem', m', addr, |b|, Translate(m, addr, |b|, true).physAddr, addr, b);
    }
  }

  /** Rewriting a word in place with some of its own bytes replaces just the others. */
  lemma PatchWithin(mem: seq<Byte>, p: nat, v: seq<Byte>, from: nat, b: seq<Byte>)
    requires p + 4 <= |mem| && v == mem[p..p + 4] && from + |b| <= 4
    ensures Patched(mem, p, v[..from] + b + v[from + |b|..]) == Patched(mem, p + from, b)
  {
    var c := v[..from] + b + v[from + |b|..];
    forall i | 0 <= i < |mem|
      ensures Patched(mem, p, c)[i] == Patched(mem, p + from, b)[i]
    {
      PatchedAt(mem, p, c, i);
      PatchedAt(mem, p + from, b, i);
    }
  }

  method ExtendLoaded(op: Op, ghost b: seq<Byte>, ghost n: seq<Byte>, ghost k: nat, value: Word) returns (w: Word)
    requires IsLoad(op) && !op.LWL? && !op.LWR? && |b| == Width(op) && |n| == 4 && k < 4 && value == Assemble(b)
    ensures w == LoadedValue(op, b, n, k)
  {
    w := value;
    if op.LB? || op.LBU? {
      w := ExtendByte(value, op.LB?);
    } else if op.LH? || op.LHU? {
      w := ExtendHalf(value, op.LH?);
    }
  }

  method MergeLoaded(op: Op, ghost b: seq<Byte>, value: Word, next: Word, k: nat) returns (w: Word)
    requires (op.LWL? || op.LWR?) && |b| == 4 && value == BytesWord(b) && k < 4
    ensures w == LoadedValue(op, b, WordBytes(next), k)
  {
    WordOfBytes(b);
    if op.LWR? {
      LoadRightBytes(value, next, k);
      w := LoadRight(value, next, k);
    } else {
      LoadLeftBytes(value, next, k);
      w := LoadLeft(value, next, k);
    }
    BytesOfWord(w);
  }

  /** The merge of SWR or SWL, in bytes: those from `from` on are replaced. */
  method MergeWord(right: bool, value: Word, w: Word, k: nat, ghost from: nat, ghost b: seq<Byte>)
    returns (merged: Word)
    requires k < 4
    requires if right then from == k && b == WordBytes(w)[..4 - k] else from == 0 && b == WordBytes(w)[3 - k..]
    ensures from + |b| <= 4
    ensures WordBytes(merged) == WordBytes(value)[..from] + b + WordBytes(value)[from + |b|..]
  {
    if right {
      MergeRightBytes(value, w, k);
      merged := MergeRight(value, w, k);
    } else {
      MergeLeftBytes(value, w, k);
      merged := MergeLeft(value, w, k);
    }
  }

  /** Writing a word over itself with some bytes replaced is storing those bytes. */
  lemma WordInPlace(mem: seq<Byte>, p: nat, value: Word, from: nat, b: seq<Byte>, c: seq<Byte>)
    requires p + 4 <= |mem| && value == BytesWord(mem[p..p + 4]) && from + |b| <= 4
    requires c == WordBytes(value)[..from] + b + WordBytes(value)[from + |b|..]
    ensures |c| == 4 && Patched(mem, p, c[..4]) == Patched(mem, p + from, b)
  {
    WordOfBytes(mem[p..p + 4]);
    assert c[..4] == c;
    PatchWithin(mem, p, mem[p..p + 4], from, b);
  }

  lemma SameAccess(m: Mapping, m': Mapping, op: Op, a: Word)
    requires SameEntries(m, m') && (IsLoad(op) || IsStore(op))
    ensures Access(m', op, a) == Access(m, op, a)
  {
    SameTranslation(m, m', Base(op, a), Width(op), false);
    SameTranslation(m, m', Base(op, a), Width(op), true);
  }

  /** The translation of a word that is read and then written. */
  function ReadThenWrite(m: Mapping, base: Word): (t: Translated)
    ensures t.Mapped? ==> t.physAddr + 4 <= MEMORY_SIZE
  {
    if Translate(m, base, 4, false).Fault? then Translate(m, base, 4, false) else Translate(m, base, 4, true)
  }

  lemma ReadBeforeWrite(m: Mapping, m1: Mapping, base: Word)
    requires SameEntries(m, m1) && Translate(m, base, 4, false).Mapped?
    ensures Translate(m1, base, 4, true) == ReadThenWrite(m, base)
    ensures ReadThenWrite(m, base).Mapped? ==> ReadThenWrite(m, base).physAddr == Translate(m, base, 4, false).physAddr
  {
    SameTranslation(m, m1, base, 4, true);
  }

  lemma AccessOfWord(m: Mapping, op: Op, a: Word, base: Word)
    requires (op.SWL? || op.SWR?) && base == Aligned(a)
    ensures Access(m, op, a) == ReadThenWrite(m, base) && Base(op, a) == base
  {
  }

  // From the work of an instruction to the whole step

  /** Register 0 may hold anything just before an instruction retires. */
  lemma RetiredAnyZero(r: Registers, zero: Word, nextReg: Word, nextValue: Word, pcAfter: Word)
    requires r[LOAD_REG] < 32
    ensures Retired(r[0 := zero], nextReg, nextValue, pcAfter) == Retired(r, nextReg, nextValue, pcAfter)
  {
    assert Delayed(r[0 := zero], nextReg, nextValue) == Delayed(r, nextReg, nextValue);
  }

  /** An instruction's work, retired, is its meaning. */
  lemma MeaningRetired(meaning: Meaning, s: Cpu, r: Registers, s': Cpu, o: Outcome)
    requires Sane(s) && Applied(meaning, s.r, r, o) && s'.mem == s.mem
    requires o.Done? ==>
               && r[LOAD_REG] < 32
               && s'.r == Retired(r, 0, 0, if meaning.Continues? then meaning.pcAfter else Following(s.r))
    requires o.Trap? ==> s'.r == r
    ensures MeaningTaken(meaning, s, s', o)
  {
    if meaning.Continues? {
      RetiredAnyZero(s.r, Following(s.r), 0, 0, meaning.pcAfter);
    }
  }

  lemma LoadRetired(i: Instruction, s: Cpu, m1: Mapping, r: Registers, s': Cpu, o: Outcome, value: Word)
    requires Sane(s) && WellDecoded(i) && IsLoad(i.op) && SameEntries(s.m, m1) && s'.mem == s.mem
    requires var a := Address(i, s.r); Loaded(Access(m1, i.op, a), i, a, s.mem, s.r, r, o, value)
    requires o.Done? ==> s'.r == Retired(s.r, i.rt, value, Following(s.r))
    requires o.Trap? ==> s'.r == r
    ensures LoadTaken(i, s, s', o)
  {
    var a := Address(i, s.r);
    SameAccess(s.m, m1, i.op, a);
    if Access(s.m, i.op, a).Mapped? {
      ReadShows(s.mem, s.m, Base(i.op, a), Width(i.op), false);
    }
  }

  lemma StoreRetired(i: Instruction, s: Cpu, s1: Cpu, s2: Cpu, s': Cpu, o: Outcome)
    requires Sane(s) && WellDecoded(i) && IsStore(i.op) && SameEntries(s.m, s1.m) && s1 == s.(m := s1.m)
    requires s'.mem == s2.mem && s'.m == s2.m
    requires var a := Address(i, s.r);
             Written(Access(s1.m, i.op, a), Base(i.op, a), StoredFrom(i.op, a), StoredBytes(i.op, a, s.r[i.rt]),
                     s1, s2, o)
    requires o.Done? ==> s'.r == Retired(s.r, 0, 0, Following(s.r))
    requires o.Trap? ==> s'.r == s2.r
    ensures StoreTaken(i, s, s', o)
  {
    SameAccess(s.m, s1.m, i.op, Address(i, s.r));
  }

  method Multiplied(s: Word, t: Word, signedArith: bool) returns (hi: Word, lo: Word)
    ensures SetsHiLo(hi, lo) == Product(if signedArith then Signed(s) * Signed(t) else s as int * t as int)
  {
    hi, lo := Mult(Signed(s), Signed(t), signedArith);
    Halves(hi, lo, if signedArith then Signed(s) * Signed(t) else s as int * t as int);
  }

  method DividedSigned(a: int, b: int) returns (hi: Word, lo: Word)
    requires IsInt(a) && IsInt(b) && !(a == -0x8000_0000 && b == -1)
    ensures SetsHiLo(hi, lo) == Divided(a, b)
  {
    if b == 0 {
      return 0, 0;
    }
    lo := Unsigned(Quotient(a, b));
    hi := Unsigned(Remainder(a, b));
  }

  lemma Halves(hi: Word, lo: Word, p: int)
    requires Double(hi, lo) == p % TWO64
    ensures p / TWO32 % TWO32 == hi && p % TWO32 == lo
  {
    var q := p / TWO64;
    assert p == q * TWO64 + hi * TWO32 + lo;
    assert p == (q * TWO32 + hi) * TWO32 + lo;
  }
}
