/** Virtual memory of the simulated machine: address translation through a linear page table or
    a TLB, and byte, half-word and word access to main memory through it. */
module Translation {
  import opened LittleEndian

  const PAGE_SIZE := 128
  const NUM_PHYS_PAGES := 4096
  const MEMORY_SIZE := NUM_PHYS_PAGES * PAGE_SIZE

  datatype Exception =
    | Syscall | PageFault | ReadOnly | BusError | AddressError | Overflow | IllegalInstr

  datatype TranslationEntry = TranslationEntry(
    virtualPage: nat, physicalPage: nat, valid: bool, readOnly: bool, use: bool, dirty: bool)

  /** There is either a page table or a TLB, never both. */
  datatype Mapping = PageTable(entries: seq<TranslationEntry>) | Tlb(entries: seq<TranslationEntry>)

  datatype Translated = Fault(exception: Exception) | Mapped(physAddr: nat, entry: nat)

  predicate Size(size: nat) {
    size == 1 || size == 2 || size == 4
  }

  /** The first TLB entry at or after `i` that is valid for the page; |entries| if none is. */
  function SearchTlb(entries: seq<TranslationEntry>, vpn: nat, i: nat): (r: nat)
    requires i <= |entries|
    ensures i <= r <= |entries|
    ensures r < |entries| ==> entries[r].valid && entries[r].virtualPage == vpn
    ensures forall j :: i <= j < r ==> !(entries[j].valid && entries[j].virtualPage == vpn)
    decreases |entries| - i
  {
    if i == |entries| then i
    else if entries[i].valid && entries[i].virtualPage == vpn then i
    else SearchTlb(entries, vpn, i + 1)
  }

  /** Which entry maps a virtual page. */
  function Lookup(m: Mapping, vpn: nat): (r: Translated)
    ensures r.Mapped? ==> r.entry < |m.entries| && m.entries[r.entry].valid
  {
    match m
    case PageTable(entries) =>
      if vpn >= |entries| then Fault(AddressError)
      else if !entries[vpn].valid then Fault(PageFault)
      else Mapped(0, vpn)
    case Tlb(entries) =>
      var i := SearchTlb(entries, vpn, 0);
      if i == |entries| then Fault(PageFault) else Mapped(0, i)
  }

  function Translate(m: Mapping, virtAddr: Word, size: nat, writing: bool): (r: Translated)
    requires Size(size)
    ensures r.Mapped? ==> r.entry < |m.entries|
    ensures r.Mapped? ==> r.physAddr + size <= MEMORY_SIZE
  {
    if !AlignedTo(virtAddr, size) then Fault(AddressError)
    else
      var vpn, offset := virtAddr / PAGE_SIZE, virtAddr % PAGE_SIZE;
      OffsetFits(virtAddr, size);
      match Lookup(m, vpn)
      case Fault(e) => Fault(e)
      case Mapped(_, i) =>
        var entry := m.entries[i];
        if entry.readOnly && writing then Fault(ReadOnly)
        else if entry.physicalPage >= NUM_PHYS_PAGES then Fault(BusError)
        else Mapped(entry.physicalPage * PAGE_SIZE + offset, i)
  }

  predicate AlignedTo(addr: Word, size: nat) {
    (size == 4 ==> addr % 4 == 0) && (size == 2 ==> addr % 2 == 0)
  }

  /** An aligned access stays on its page. */
  lemma OffsetFits(addr: Word, size: nat)
    requires Size(size) && AlignedTo(addr, size)
    ensures addr % PAGE_SIZE + size <= PAGE_SIZE
  {
    if size == 4 {
      BelowMultiple(addr / 4, 4, addr / PAGE_SIZE, 32, addr % PAGE_SIZE);
    } else if size == 2 {
      BelowMultiple(addr / 2, 2, addr / PAGE_SIZE, 64, addr % PAGE_SIZE);
    }
  }

  lemma BelowMultiple(n: nat, size: nat, q: nat, k: nat, r: nat)
    requires (size == 4 && k == 32) || (size == 2 && k == 64)
    requires size * n == PAGE_SIZE * q + r && r < PAGE_SIZE
    ensures r + size <= PAGE_SIZE
  {
    if size == 4 {
      assert r == 4 * (n - 32 * q);
    } else {
      assert r == 2 * (n - 64 * q);
    }
  }

  /** The entry that stands for a page: its own in a page table, the first valid one in a TLB. */
  ghost predicate EntryFor(m: Mapping, vpn: nat, i: nat) {
    && i < |m.entries| && m.entries[i].valid
    && if m.PageTable? then i == vpn
       else m.entries[i].virtualPage == vpn
            && forall j :: 0 <= j < i ==> !(m.entries[j].valid && m.entries[j].virtualPage == vpn)
  }

  /** With an entry for the page, an aligned access is refused exactly if it writes to a read-only
      page or the frame does not exist; otherwise it goes to its offset in that frame. */
  lemma TranslateWithEntry(m: Mapping, addr: Word, size: nat, writing: bool, i: nat)
    requires Size(size) && AlignedTo(addr, size) && EntryFor(m, addr / PAGE_SIZE, i)
    ensures var t, e := Translate(m, addr, size, writing), m.entries[i];
            && (writing && e.readOnly <==> t == Fault(ReadOnly))
            && (!(writing && e.readOnly) && e.physicalPage >= NUM_PHYS_PAGES <==> t == Fault(BusError))
            && (!(writing && e.readOnly) && e.physicalPage < NUM_PHYS_PAGES <==> t.Mapped?)
            && (t.Mapped? ==> t.entry == i && t.physAddr / 128 == e.physicalPage && t.physAddr % 128 == addr % 128)
  {
    OnlyEntry(m, addr / PAGE_SIZE, i);
  }

  lemma OnlyEntry(m: Mapping, vpn: nat, i: nat)
    requires EntryFor(m, vpn, i)
    ensures Lookup(m, vpn).Mapped? && Lookup(m, vpn).entry == i
  {
  }

  /** A misaligned access and one beyond the page table are address errors; any other without an
      entry is a page fault. */
  lemma TranslateWithoutEntry(m: Mapping, addr: Word, size: nat, writing: bool)
    requires Size(size) && (AlignedTo(addr, size) ==> forall i: nat :: !EntryFor(m, addr / PAGE_SIZE, i))
    ensures Translate(m, addr, size, writing)
            == Fault(if !AlignedTo(addr, size) || (m.PageTable? && addr / PAGE_SIZE >= |m.entries|) then AddressError
                     else PageFault)
  {
    if AlignedTo(addr, size) && Lookup(m, addr / PAGE_SIZE).Mapped? {
      assert EntryFor(m, addr / PAGE_SIZE, Lookup(m, addr / PAGE_SIZE).entry);
    }
  }

  /** The mapping after a successful access: use, and for a write dirty, set. */
  function Touched(m: Mapping, i: nat, writing: bool): (m': Mapping)
    requires i < |m.entries|
  {
    var e := m.entries[i];
    m.(entries := m.entries[i := e.(use := true, dirty := e.dirty || writing)])
  }

  /** A successful access marks its entry used, a write marks it dirty as well, and nothing else in
      the mapping changes. */
  lemma TouchedExactly(m: Mapping, i: nat, writing: bool)
    requires i < |m.entries|
    ensures var m', e := Touched(m, i, writing), m.entries[i];
            && m'.PageTable? == m.PageTable? && |m'.entries| == |m.entries|
            && (forall j :: 0 <= j < |m.entries| && j != i ==> m'.entries[j] == m.entries[j])
            && m'.entries[i]
               == TranslationEntry(e.virtualPage, e.physicalPage, e.valid, e.readOnly, true, writing || e.dirty)
  {
  }

  /** The same translations, use and dirty bits apart. */
  ghost predicate SameEntries(m: Mapping, m': Mapping) {
    && m.PageTable? == m'.PageTable? && |m.entries| == |m'.entries|
    && forall j :: 0 <= j < |m.entries| ==>
         m'.entries[j] == m.entries[j].(use := m'.entries[j].use, dirty := m'.entries[j].dirty)
  }

  lemma TouchedSame(m: Mapping, i: nat, writing: bool)
    requires i < |m.entries|
    ensures SameEntries(m, Touched(m, i, writing))
  {
  }

  /** Use and dirty bits do not affect translation. */
  lemma SameTranslation(m: Mapping, m': Mapping, addr: Word, size: nat, writing: bool)
    requires SameEntries(m, m') && Size(size)
    ensures Translate(m', addr, size, writing) == Translate(m, addr, size, writing)
  {
    SameLookup(m, m', addr / PAGE_SIZE);
  }

  lemma SameLookup(m: Mapping, m': Mapping, vpn: nat)
    requires SameEntries(m, m')
    ensures Lookup(m', vpn) == Lookup(m, vpn)
  {
    if m.Tlb? {
      SameSearch(m.entries, m'.entries, vpn, 0);
    }
  }

  lemma {:induction false} SameSearch(a: seq<TranslationEntry>, b: seq<TranslationEntry>, vpn: nat, i: nat)
    requires |a| == |b| && i <= |a|
    requires forall j :: 0 <= j < |a| ==> a[j].valid == b[j].valid && a[j].virtualPage == b[j].virtualPage
    ensures SearchTlb(a, vpn, i) == SearchTlb(b, vpn, i)
    decreases |a| - i
  {
    if i < |a| {
      SameSearch(a, b, vpn, i + 1);
    }
  }

  lemma SameInjective(m: Mapping, m': Mapping)
    requires SameEntries(m, m') && Injective(m)
    ensures Injective(m')
  {
    forall v: nat, w: nat | Lookup(m', v).Mapped? && Lookup(m', w).Mapped?
                            && m'.entries[Lookup(m', v).entry].physicalPage
                                == m'.entries[Lookup(m', w).entry].physicalPage
      ensures v == w
    {
      SameLookup(m, m', v);
      SameLookup(m, m', w);
    }
  }

  // The flat view

  /** Where a virtual byte lives, whether or not it may be written. */
  function Home(m: Mapping, a: Word): (r: Translated) {
    Translate(m, a, 1, false)
  }

  /** The byte a program sees at a virtual address, if any. */
  datatype Seen = Nothing | Seen(byte: Byte)

  function View(mem: seq<Byte>, m: Mapping, a: Word): (b: Seen)
    requires |mem| == MEMORY_SIZE
  {
    match Home(m, a)
    case Fault(_) => Nothing
    case Mapped(p, _) => Seen(mem[p])
  }

  /** No two pages of a program share a frame. */
  ghost predicate Injective(m: Mapping) {
    forall v: nat, w: nat :: (
      && Lookup(m, v).Mapped? && Lookup(m, w).Mapped?
      && m.entries[Lookup(m, v).entry].physicalPage == m.entries[Lookup(m, w).entry].physicalPage) ==> v == w
  }

  /** An aligned access stays on its page: its bytes are consecutive in main memory too. */
  lemma AccessIsContiguous(m: Mapping, addr: Word, size: nat, writing: bool, i: nat)
    requires Size(size) && Translate(m, addr, size, writing).Mapped? && i < size
    ensures addr + size <= 0x1_0000_0000
    ensures var t := Translate(m, addr, size, writing);
            Home(m, addr + i) == Mapped(t.physAddr + i, t.entry)
  {
    SamePage(addr, size, i);
  }

  lemma SamePage(addr: Word, size: nat, i: nat)
    requires Size(size) && AlignedTo(addr, size) && i < size
    ensures addr + size <= 0x1_0000_0000
    ensures (addr + i) / PAGE_SIZE == addr / PAGE_SIZE && (addr + i) % PAGE_SIZE == addr % PAGE_SIZE + i
  {
    var q, r := addr / PAGE_SIZE, addr % PAGE_SIZE;
    OffsetFits(addr, size);
    assert addr + i == PAGE_SIZE * q + (r + i);
  }

  /** Distinct virtual bytes have distinct homes. */
  lemma HomesApart(m: Mapping, a: Word, b: Word)
    requires Injective(m) && Home(m, a).Mapped? && Home(m, b).Mapped? && a != b
    ensures Home(m, a).physAddr != Home(m, b).physAddr
  {
    var p, q := Home(m, a).physAddr, Home(m, b).physAddr;
    assert p / PAGE_SIZE == m.entries[Lookup(m, a / PAGE_SIZE).entry].physicalPage;
    assert q / PAGE_SIZE == m.entries[Lookup(m, b / PAGE_SIZE).entry].physicalPage;
    assert p % PAGE_SIZE == a % PAGE_SIZE && q % PAGE_SIZE == b % PAGE_SIZE;
  }

  // Access

  /** What ReadMem makes of the bytes: a lone byte is a (signed) char, sign-extended. */
  function Assemble(b: seq<Byte>): (w: Word)
    requires Size(|b|)
    ensures WordBytes(w)[..|b|] == b
  {
    if |b| == 1 then
      if b[0] < 0x80 then b[0] else 0xffff_ff00 + b[0] as int
    else if |b| == 2 then
      SplitByte(b[0], b[1]);
      b[0] as int + 0x100 * b[1] as int
    else
      WordOfBytes(b);
      BytesWord(b)
  }

  /** The bytes of virtual memory an access covers. */
  ghost predicate Shows(mem: seq<Byte>, m: Mapping, addr: Word, b: seq<Byte>)
    requires |mem| == MEMORY_SIZE
  {
    addr + |b| <= 0x1_0000_0000 && forall i :: 0 <= i < |b| ==> View(mem, m, addr + i) == Seen(b[i])
  }

  /** Virtual memory after storing bytes: they are seen there, and every other address shows what it did. */
  ghost predicate Stored(mem: seq<Byte>, m: Mapping, mem': seq<Byte>, m': Mapping, addr: Word, b: seq<Byte>)
    requires |mem| == |mem'| == MEMORY_SIZE
  {
    forall a: Word ::
      View(mem', m', a) == if addr <= a < addr + |b| then Seen(b[a - addr]) else View(mem, m, a)
  }

  lemma ReadShows(mem: seq<Byte>, m: Mapping, addr: Word, size: nat, writing: bool)
    requires |mem| == MEMORY_SIZE && Size(size) && Translate(m, addr, size, writing).Mapped?
    ensures var p := Translate(m, addr, size, writing).physAddr;
            Shows(mem, m, addr, mem[p..p + size])
  {
    var p := Translate(m, addr, size, writing).physAddr;
    var b := mem[p..p + size];
    SamePage(addr, size, size - 1);
    forall i | 0 <= i < |b|
      ensures View(mem, m, addr + i) == Seen(b[i])
    {
      AccessIsContiguous(m, addr, size, writing, i);
    }
  }

  /** Main memory with some bytes replaced. */
  function Patched(mem: seq<Byte>, at: nat, b: seq<Byte>): (mem': seq<Byte>)
    requires at + |b| <= |mem|
    ensures |mem'| == |mem|
    decreases |b|
  {
    if b == [] then mem else Patched(mem[at := b[0]], at + 1, b[1..])
  }

  lemma {:induction false} PatchedAt(mem: seq<Byte>, at: nat, b: seq<Byte>, i: nat)
    requires at + |b| <= |mem| && i < |mem|
    ensures Patched(mem, at, b)[i] == if at <= i < at + |b| then b[i - at] else mem[i]
    decreases |b|
  {
    if b != [] {
      PatchedAt(mem[at := b[0]], at + 1, b[1..], i);
    }
  }

  /** Through an injective mapping, replacing some or all bytes of a writable access in main memory
      is storing them in the flat view, whatever happens to use and dirty bits. */
  lemma WriteStores(mem: seq<Byte>, m: Mapping, mem': seq<Byte>, m': Mapping, addr: Word, size: nat, p: nat,
                    at: Word, b: seq<Byte>)
    requires |mem| == |mem'| == MEMORY_SIZE && Injective(m) && SameEntries(m, m') && Size(size)
    requires Translate(m, addr, size, true).Mapped? && Translate(m, addr, size, true).physAddr == p
    requires addr <= at && at + |b| <= addr + size && mem' == Patched(mem, p + (at - addr), b)
    ensures Stored(mem, m, mem', m', at, b)
  {
    forall a: Word
      ensures View(mem', m', a) == if at <= a < at + |b| then Seen(b[a - at]) else View(mem, m, a)
    {
      SameTranslation(m, m', a, 1, false);
      ByteAfterWrite(mem, m, mem', addr, size, p, at, b, a);
    }
  }

  lemma ByteAfterWrite(mem: seq<Byte>, m: Mapping, mem': seq<Byte>, addr: Word, size: nat, p: nat, at: Word,
                       b: seq<Byte>, a: Word)
    requires |mem| == |mem'| == MEMORY_SIZE && Injective(m) && Size(size)
    requires Translate(m, addr, size, true).Mapped? && Translate(m, addr, size, true).physAddr == p
    requires addr <= at && at + |b| <= addr + size && mem' == Patched(mem, p + (at - addr), b)
    ensures View(mem', m, a) == if at <= a < at + |b| then Seen(b[a - at]) else View(mem, m, a)
  {
    match Home(m, a)
    case Fault(_) =>
      if addr <= a < addr + size {
        AccessIsContiguous(m, addr, size, true, a - addr);
      }
    case Mapped(h, _) =>
      WhereInMemory(m, addr, size, a);
      PatchedAt(mem, p + (at - addr), b, h);
  }

  /** A byte of the access lies in its place in main memory; every other byte lies elsewhere. */
  lemma WhereInMemory(m: Mapping, addr: Word, size: nat, a: Word)
    requires Injective(m) && Size(size) && Translate(m, addr, size, true).Mapped? && Home(m, a).Mapped?
    ensures var p, h := Translate(m, addr, size, true).physAddr, Home(m, a).physAddr;
            if addr <= a < addr + size then h == p + (a - addr) else !(p <= h < p + size)
  {
    if addr <= a < addr + size {
      AccessIsContiguous(m, addr, size, true, a - addr);
    } else {
      ElsewhereInMemory(m, addr, size, a);
    }
  }

  lemma ElsewhereInMemory(m: Mapping, addr: Word, size: nat, a: Word)
    requires Injective(m) && Size(size) && Translate(m, addr, size, true).Mapped? && Home(m, a).Mapped?
    requires !(addr <= a < addr + size)
    ensures var p := Translate(m, addr, size, true).physAddr;
            !(p <= Home(m, a).physAddr < p + size)
  {
    NotAt(m, addr, size, a, 0);
    if size >= 2 {
      NotAt(m, addr, size, a, 1);
    }
    if size == 4 {
      NotAt(m, addr, size, a, 2);
      NotAt(m, addr, size, a, 3);
    }
  }

  lemma NotAt(m: Mapping, addr: Word, size: nat, a: Word, i: nat)
    requires Injective(m) && Size(size) && Translate(m, addr, size, true).Mapped? && Home(m, a).Mapped?
    requires i < size && a != addr + i
    ensures Home(m, a).physAddr != Translate(m, addr, size, true).physAddr + i
  {
    AccessIsContiguous(m, addr, size, true, i);
    HomesApart(m, a, addr + i);
  }

  // Runs of reads and writes

  datatype Memory = Memory(mem: seq<Byte>, m: Mapping)
  datatype MemoryOp = Read(addr: Word, size: nat) | Write(addr: Word, bytes: seq<Byte>)

  predicate WellSized(op: MemoryOp) {
    Size(if op.Read? then op.size else |op.bytes|)
  }

  function TranslateOp(m: Mapping, op: MemoryOp): (t: Translated)
    requires WellSized(op)
  {
    if op.Read? then Translate(m, op.addr, op.size, false) else Translate(m, op.addr, |op.bytes|, true)
  }

  /** What ReadMem and WriteMem do to main memory and to the mapping; a fault does nothing. */
  function Performed(s: Memory, op: MemoryOp): (s': Memory)
    requires |s.mem| == MEMORY_SIZE && WellSized(op)
    ensures |s'.mem| == MEMORY_SIZE
  {
    match TranslateOp(s.m, op)
    case Fault(_) => s
    case Mapped(p, i) => Memory(if op.Write? then Patched(s.mem, p, op.bytes) else s.mem, Touched(s.m, i, op.Write?))
  }

  function PerformedAll(s: Memory, ops: seq<MemoryOp>): (s': Memory)
    requires |s.mem| == MEMORY_SIZE && forall k :: 0 <= k < |ops| ==> WellSized(ops[k])
    ensures |s'.mem| == MEMORY_SIZE
  {
    if ops == [] then s else Performed(PerformedAll(s, ops[..|ops| - 1]), ops[|ops| - 1])
  }

  /** A flat byte array: the last write to succeed that covers an address decides what is there. */
  function Latest(m: Mapping, ops: seq<MemoryOp>, a: Word, before: Seen): (b: Seen)
    requires forall k :: 0 <= k < |ops| ==> WellSized(ops[k])
  {
    if ops == [] then before
    else
      var op := ops[|ops| - 1];
      if op.Write? && TranslateOp(m, op).Mapped? && op.addr <= a < op.addr + |op.bytes| then Seen(op.bytes[a - op.addr])
      else Latest(m, ops[..|ops| - 1], a, before)
  }

  lemma PerformedSame(s: Memory, op: MemoryOp)
    requires |s.mem| == MEMORY_SIZE && WellSized(op)
    ensures SameEntries(s.m, Performed(s, op).m)
  {
    var t := TranslateOp(s.m, op);
    if t.Mapped? {
      TouchedSame(s.m, t.entry, op.Write?);
    }
  }

  lemma SameTrans(m: Mapping, m1: Mapping, m2: Mapping)
    requires SameEntries(m, m1) && SameEntries(m1, m2)
    ensures SameEntries(m, m2)
  {
  }

  lemma {:induction false} PerformedAllSame(s: Memory, ops: seq<MemoryOp>)
    requires |s.mem| == MEMORY_SIZE && forall k :: 0 <= k < |ops| ==> WellSized(ops[k])
    ensures SameEntries(s.m, PerformedAll(s, ops).m)
  {
    if ops != [] {
      var n := |ops| - 1;
      PerformedAllSame(s, ops[..n]);
      PerformedSame(PerformedAll(s, ops[..n]), ops[n]);
      SameTrans(s.m, PerformedAll(s, ops[..n]).m, PerformedAll(s, ops).m);
    }
  }

  /** One operation changes the byte seen at an address only if it is a write that succeeds there. */
  lemma ByteAfterOp(s: Memory, op: MemoryOp, a: Word)
    requires |s.mem| == MEMORY_SIZE && WellSized(op) && Injective(s.m)
    ensures var s' := Performed(s, op);
            View(s'.mem, s'.m, a)
            == if op.Write? && TranslateOp(s.m, op).Mapped? && op.addr <= a < op.addr + |op.bytes|
               then Seen(op.bytes[a - op.addr]) else View(s.mem, s.m, a)
  {
    var t := TranslateOp(s.m, op);
    if t.Mapped? {
      TouchedSame(s.m, t.entry, op.Write?);
      SameTranslation(s.m, Performed(s, op).m, a, 1, false);
      if op.Write? {
        ByteAfterWrite(s.mem, s.m, Performed(s, op).mem, op.addr, |op.bytes|, t.physAddr, op.addr, op.bytes, a);
      }
    }
  }

  lemma {:induction false} LatestByte(s: Memory, ops: seq<MemoryOp>, a: Word)
    requires |s.mem| == MEMORY_SIZE && Injective(s.m) && forall k :: 0 <= k < |ops| ==> WellSized(ops[k])
    ensures View(PerformedAll(s, ops).mem, PerformedAll(s, ops).m, a) == Latest(s.m, ops, a, View(s.mem, s.m, a))
  {
    if ops != [] {
      var n := |ops| - 1;
      var op, s1 := ops[n], PerformedAll(s, ops[..n]);
      LatestByte(s, ops[..n], a);
      PerformedAllSame(s, ops[..n]);
      SameInjective(s.m, s1.m);
      SameOp(s.m, s1.m, op);
      ByteAfterOp(s1, op, a);
    }
  }

  lemma SameOp(m: Mapping, m': Mapping, op: MemoryOp)
    requires SameEntries(m, m') && WellSized(op)
    ensures TranslateOp(m', op) == TranslateOp(m, op)
  {
    SameTranslation(m, m', op.addr, if op.Read? then op.size else |op.bytes|, op.Write?);
  }

  /** Through an injective mapping, after any run of reads and writes of any sizes and overlaps,
      faulting or not, a read that succeeds finds in main memory at each of its addresses the latest
      byte written there. */
  lemma ReadsSeeLatest(s: Memory, ops: seq<MemoryOp>, read: MemoryOp, i: nat)
    requires |s.mem| == MEMORY_SIZE && Injective(s.m) && forall k :: 0 <= k < |ops| ==> WellSized(ops[k])
    requires read.Read? && WellSized(read) && i < read.size && TranslateOp(PerformedAll(s, ops).m, read).Mapped?
    ensures read.addr + i < 0x1_0000_0000
    ensures var p := TranslateOp(PerformedAll(s, ops).m, read).physAddr;
            Seen(PerformedAll(s, ops).mem[p + i])
            == Latest(s.m, ops, read.addr + i, View(s.mem, s.m, read.addr + i))
  {
    AccessIsContiguous(PerformedAll(s, ops).m, read.addr, read.size, false, i);
    LatestByte(s, ops, read.addr + i);
  }

  // Read-only pages

  /** The page is mapped read-only to a frame. */
  ghost predicate ReadOnlyFrame(m: Mapping, vpn: nat, frame: nat) {
    exists i: nat :: EntryFor(m, vpn, i) && m.entries[i].readOnly && m.entries[i].physicalPage == frame
  }

  /** An access that may write lies outside the frame of a read-only page. */
  lemma WritesElsewhere(m: Mapping, addr: Word, size: nat, vpn: nat, frame: nat)
    requires Size(size) && Injective(m) && ReadOnlyFrame(m, vpn, frame) && Translate(m, addr, size, true).Mapped?
    ensures var p := Translate(m, addr, size, true).physAddr;
            p + size <= frame * PAGE_SIZE || (frame + 1) * PAGE_SIZE <= p
  {
    var i: nat :| EntryFor(m, vpn, i) && m.entries[i].readOnly && m.entries[i].physicalPage == frame;
    OnlyEntry(m, vpn, i);
    WriteGoesTo(m, addr, size);
    OffsetFits(addr, size);
    InFrame(m.entries[Lookup(m, addr / PAGE_SIZE).entry].physicalPage, addr % PAGE_SIZE, size, frame);
  }

  lemma WriteGoesTo(m: Mapping, addr: Word, size: nat)
    requires Size(size) && Translate(m, addr, size, true).Mapped?
    ensures AlignedTo(addr, size) && Lookup(m, addr / PAGE_SIZE).Mapped?
    ensures var e := m.entries[Lookup(m, addr / PAGE_SIZE).entry];
            !e.readOnly && Translate(m, addr, size, true).physAddr == e.physicalPage * PAGE_SIZE + addr % PAGE_SIZE
  {
  }

  lemma InFrame(f: nat, offset: nat, size: nat, frame: nat)
    requires f != frame && offset + size <= PAGE_SIZE
    ensures f * PAGE_SIZE + offset + size <= frame * PAGE_SIZE || (frame + 1) * PAGE_SIZE <= f * PAGE_SIZE + offset
  {
  }

  lemma SameFrame(m: Mapping, m': Mapping, vpn: nat, frame: nat)
    requires SameEntries(m, m') && ReadOnlyFrame(m, vpn, frame)
    ensures ReadOnlyFrame(m', vpn, frame)
  {
    var i: nat :| EntryFor(m, vpn, i) && m.entries[i].readOnly && m.entries[i].physicalPage == frame;
    assert EntryFor(m', vpn, i);
  }

  lemma OpKeepsReadOnly(s: Memory, op: MemoryOp, vpn: nat, frame: nat, x: nat)
    requires |s.mem| == MEMORY_SIZE && WellSized(op) && Injective(s.m) && ReadOnlyFrame(s.m, vpn, frame)
    requires frame * PAGE_SIZE <= x < (frame + 1) * PAGE_SIZE && x < MEMORY_SIZE
    ensures Performed(s, op).mem[x] == s.mem[x]
  {
    var t := TranslateOp(s.m, op);
    if op.Write? && t.Mapped? {
      WritesElsewhere(s.m, op.addr, |op.bytes|, vpn, frame);
      PatchedAt(s.mem, t.physAddr, op.bytes, x);
    }
  }

  /** Over any run of reads and writes, no byte in the frame of a read-only page ever changes. */
  lemma {:induction false} ReadOnlyNeverChanges(s: Memory, ops: seq<MemoryOp>, vpn: nat, frame: nat, x: nat)
    requires |s.mem| == MEMORY_SIZE && Injective(s.m) && forall k :: 0 <= k < |ops| ==> WellSized(ops[k])
    requires ReadOnlyFrame(s.m, vpn, frame) && frame * PAGE_SIZE <= x < (frame + 1) * PAGE_SIZE && x < MEMORY_SIZE
    ensures PerformedAll(s, ops).mem[x] == s.mem[x]
  {
    if ops != [] {
      var n := |ops| - 1;
      var s1 := PerformedAll(s, ops[..n]);
      ReadOnlyNeverChanges(s, ops[..n], vpn, frame, x);
      PerformedAllSame(s, ops[..n]);
      SameInjective(s.m, s1.m);
      SameFrame(s.m, s1.m, vpn, frame);
      OpKeepsReadOnly(s1, ops[n], vpn, frame, x);
    }
  }

  // A TLB is a cache of the page table

  ghost predicate CacheOf(tlb: seq<TranslationEntry>, table: seq<TranslationEntry>) {
    forall i :: 0 <= i < |tlb| && tlb[i].valid ==>
      && tlb[i].virtualPage < |table|
      && table[tlb[i].virtualPage].valid
      && table[tlb[i].virtualPage].physicalPage == tlb[i].physicalPage
      && table[tlb[i].virtualPage].readOnly == tlb[i].readOnly
  }

  ghost predicate Cached(tlb: seq<TranslationEntry>, vpn: nat) {
    exists i :: 0 <= i < |tlb| && tlb[i].valid && tlb[i].virtualPage == vpn
  }

  /** A misaligned access faults either way; otherwise a hit gives what the page table gives and a
      miss faults. */
  lemma TlbAgrees(tlb: seq<TranslationEntry>, table: seq<TranslationEntry>, addr: Word, size: nat, writing: bool)
    requires CacheOf(tlb, table) && Size(size)
    ensures var t, p := Translate(Tlb(tlb), addr, size, writing), Translate(PageTable(table), addr, size, writing);
            if !AlignedTo(addr, size) then t == Fault(AddressError) && p == t
            else if Cached(tlb, addr / PAGE_SIZE)
            then t.Mapped? == p.Mapped? && (t.Mapped? ==> t.physAddr == p.physAddr) && (t.Fault? ==> t == p)
            else t == Fault(PageFault)
  {
    var i := SearchTlb(tlb, addr / PAGE_SIZE, 0);
  }
}
