# Nachos in Dafny

This project models the hard core of the Nachos teaching operating system and proves what it is
for. Five parts of the system are covered, and they share their pieces: one bitmap for sectors and
stack slots, one sorted insertion for the list and the pending interrupts, and the kernel's own
semaphores under the device protocols.

* **The on-disk file system** (`DiskImage`, `FileHeader`, `OpenFile`, `BitMap`,
  `FileHeaderObject`, `Directory`, `FileSystemImage`, `AbstractFiles`, `FileSystem`,
  `FileSystemRun`). The disk is 1024 sectors of 128 bytes. The free map and the directory are
  themselves files on it, with headers in sectors 0 and 1, so the invariant `Consistent` is stated
  about what is decoded from the image alone. From any disk whatever, formatting it and running any
  sequence of operations, with any number of files open across them, keeps the invariant, and every
  reply, the final contents and every seek position are those of a finite map from nine-character
  names to byte strings.
* **The thread kernel** (`Kernel`, `KernelLaws`, `KernelEffects`) as a step machine: each stretch of code that runs
  with interrupts off is one step, `SWITCH` is the change of the current thread. In every
  interleaving: no lost wakeup, exact semaphore accounts, every thread in exactly one place, safe
  destruction of finished threads, first-come-first-served dispatch.
* **The devices** (`SynchDevice`, `Interrupt`, `DiskTiming`, `List`): the lock-and-completion
  protocol shared by `SynchDisk` and `SynchConsole`, run on the kernel's own semaphores; the
  interrupt simulation; the disk's rotation, seek and track buffer; and the pointer-linked list
  behind all the queues.
* **The MIPS simulator** (`LittleEndian`, `Bits`, `Multiply`, `Translation`, `Unaligned`, `Decode`,
  `Encode`, `Isa`, `IsaLaws`, `Idioms`, `Machine`). `Encode` gives the number and the layout of every
  mnemonic and shows that decoding inverts them; `Isa` says what every instruction means in integer
  arithmetic, and `IsaLaws` what that comes to in bits and integers;
  `Machine` executes instructions with the simulator's own bit operations on a register array and a
  byte memory, and is proved to conform for every instruction word and every machine state.
* **User threads** (`UserThreads`): the stack-slot table, the termination counter, and the placement
  of the stacks, over every interleaving.

Words are integers in 0..2^32-1; bitwise operations are defined bit by bit in `Bits`, and
wrap-around is written out.

## Where the code differs from what it promises

* `disk.cc:225-229` describes the track buffer as holding what has been read. The test at
  `disk.cc:241-243` rounds the clock up to the next sector boundary first, so a read is also served
  from the buffer while its sector is still passing under the head. `DiskTiming.HitBeforeFullyPassed`
  is a concrete case, and `DiskTiming.HitMeansFullyPassedExactly` the exact condition: the buffer
  serves a read if and only if the sector has fully passed, unless the sector is passing right now
  for the first time since the buffer began to fill.
* `mipssim.cc:338-351`: the LWL merge has the cases for offsets 0 and 2 exchanged with respect to
  SWL. An unaligned load by LWR at A and LWL at A + 3 is right for every memory exactly when A is
  even (`Unaligned.LoadPairExactlyAtEven`; failing bytes in `Unaligned.OddPair`), and for one memory
  and register exactly as `Unaligned.LoadPairExactly` says. The store pair is right at every
  alignment.
* `mipssim.cc:598-601`: a pending load arrives after the instruction in its delay slot has written
  its result, so that result can be lost (`Isa.DelaySlotResultLost`). It survives exactly when the
  load is for another register or brings the same value (`Isa.DelaySlotResult`).
* `userthread.cc:120` reads the counter without the lock. Every thread that reads it after the last
  exit halts the machine, so the one that halts need not be the last that exited
  (`UserThreads.AnotherMayHalt` is such a run). The last to exit is the one that halts, in every
  continuation, exactly when every other thread has finished before it exits
  (`UserThreads.LastHaltsExactlyWhenAlone`).

One more order of steps shows, though nothing promises otherwise: JALR and the linking branches
(`mipssim.cc:240-243`, `181-187`, `198-203`) write the return address before they read their source
register. The instruction set forbids the operands for which this matters.
`Isa.LinkedTargetExactly` says for which of them the target is what it would be if the register were
read first, and `Isa.LinkInTheWay` is a case where it is not.

## Model

| member | source | states |
|---|---|---|
| `FileSystemRuns.Run` | code/filesys/filesys.cc:81-289 | from any disk, format and then any sequence of Create, Remove, Open, Close, Seek, Read, Write and remount, with any number of files open across them: the image stays consistent, and every reply, the final files and every handle are explained by an abstract map of names to byte strings and a list of positions |
| `FileSystemRuns.CarryOn` | code/filesys/filesys.cc:175-289 | the same from any state of a session |
| `FileSystemRuns.Step` | code/filesys/filesys.cc:175-289 | each single operation answers and acts as the abstract map and handles say, error replies included |
| `FileSystemRuns.Session.WriteLive` | code/filesys/openfile.cc:81-87 | a sequential write through one of many open files: its file and its position change, every other handle and file stays |
| `FileSystemRuns.BackedRemoved` | code/filesys/filesys.cc:258-289 | removing a file leaves every handle on another file good |
| `FileSystemRuns.CreateThenRemove` | code/filesys/filesys.cc:175-289 | whenever a file is admitted, creating and removing it restores both the free map and the name map exactly |
| `FileSystemRuns.RemoveUndoesCreate` | code/filesys/filesys.cc:258-289 | on images: the removal's free map and files are those before the creation, whatever the new file held |
| `FileSystemRuns.LayoutDeterminesMap` | code/filesys/filehdr.cc:41-68 | the free map is a function of who owns which sector |
| `FileSystems.FileSystem.Format` | code/filesys/filesys.cc:81-144 | whatever the disk held, it becomes a consistent, empty file system |
| `FileSystems.FileSystem.Create` | code/filesys/filesys.cc:175-216 | succeeds exactly when the abstract map admits the file; takes exactly 1 + ceil(size/128) distinct, previously clear sectors; adds one name of the requested length; failure leaves the disk unchanged |
| `FileSystems.FileSystem.Reserve` | code/filesys/filesys.cc:194-203 | in memory: succeeds exactly when an entry is free and enough sectors are clear, and what it then planned |
| `FileSystems.FileSystem.Remove` | code/filesys/filesys.cc:258-289 | succeeds exactly when the name exists, deletes exactly that name and frees exactly its sectors; Deallocate's assertion holds |
| `FileSystems.FileSystem.Open` | code/filesys/filesys.cc:228-242 | finds a file exactly when its nine-character name exists, and it reads as that file |
| `FileSystems.FileSystem.WriteOpened` | code/filesys/openfile.cc:145-185 | a user's write splices its own file and changes no other file, the directory or the free map |
| `FileSystems.CreateCondition` | code/filesys/filesys.cc:186-203 | the abstract admission test equals the one on disk: name absent, entry free, 1 + ceil(size/128) sectors clear |
| `FileSystems.OwnedAreMarked` | code/filesys/filehdr.cc:61-68 | every data sector of a listed file is marked, so the assertion in Deallocate never fails |
| `FileSystemImage.CreateOutcome` | code/filesys/filesys.cc:205-209 | after the write-backs of a Create the image is consistent and its map is the old one with one name more |
| `FileSystemImage.RemoveOutcome` | code/filesys/filesys.cc:279-284 | the same for Remove: exactly one name gone |
| `FileSystemImage.WriteOutcome` | code/filesys/openfile.cc:145-185 | writing inside one file keeps consistency, metadata and every other file |
| `FileSystemImage.FormatOutcome` | code/filesys/filesys.cc:84-128 | an image laid out by formatting is consistent and empty |
| `FileSystemImage.MetadataFrames` | code/filesys/filesys.cc:205-209 | rewriting the self-hosted metadata files disturbs no header and no user file |
| `FileSystemImage.ExtentAdded` | code/filesys/filehdr.cc:41-52 | giving clear sectors to an unused entry keeps marks and owners in exact agreement and owners disjoint |
| `FileSystemImage.ExtentDropped` | code/filesys/filehdr.cc:61-68 | clearing one file's marks keeps that agreement |
| `FileSystemImage.SectorsConserved` | code/filesys/filehdr.cc:41-68 | clear sectors plus all headers and data blocks make 1024 |
| `FileSystemImage.ListedNames` | code/filesys/directory.cc:90-97 | the directory lists a name exactly when the abstract map has it |
| `AbstractFiles.SpaceLeft` | code/filesys/filehdr.cc:41-52 | the clear sectors are what the abstract files' total cost leaves over |
| `AbstractFiles.RoomLeft` | code/filesys/directory.cc:129-143 | an entry is free exactly when fewer than ten files exist |
| `AbstractFiles.SlotsAsMap` | code/filesys/directory.cc:90-97 | cost and number of the files, counted over entries and over the map, agree |
| `OpenFiles.OpenFile.ReadAt` | code/filesys/openfile.cc:115-143 | returns k = max(0, min(n, length - position)) and exactly that slice of the file |
| `OpenFiles.OpenFile.WriteAt` | code/filesys/openfile.cc:145-185 | the file becomes old[..p] + data[..k] + old[p+k..], no sector outside it changes |
| `OpenFiles.TransferredExactly` | code/filesys/openfile.cc:121-124 | the count k is max(0, min(n, length - position)) |
| `OpenFiles.OpenFile.LoadEdges` | code/filesys/openfile.cc:166-174 | after reading in the partial edge sectors, every byte the write will not cover is already the file's |
| `OpenFiles.OpenFile.StoreBuffer` | code/filesys/openfile.cc:179-182 | the sector loop leaves exactly the wanted bytes and touches only the file's sectors |
| `OpenFiles.OpenFile.Read` | code/filesys/openfile.cc:73-79 | successive reads walk through the file |
| `OpenFiles.OpenFile.Write` | code/filesys/openfile.cc:81-87 | successive writes walk through the file |
| `FileHeaders.HeaderRoundTrip` | code/filesys/filehdr.cc:77-94 | a header written to its sector decodes to itself |
| `LittleEndian.WordValue` | code/machine/translate.cc:104-117 | the first byte of a word is the least significant |
| `FileHeaders.HeaderLayout` | code/filesys/filehdr.cc:77-81 | the k-th field of a header lies in the k-th four bytes of its sector |
| `FileHeaders.ByteOfFile` | code/filesys/filehdr.cc:106-110 | byte i lives at offset i mod 128 of data sector i / 128 |
| `FileHeaders.ContentsFrame` | code/filesys/filehdr.cc:106-110 | a file's contents depend on its own sectors only |
| `FileHeaderObjects.FileHeader.Allocate` | code/filesys/filehdr.cc:41-52 | succeeds exactly when enough sectors are clear; takes distinct clear ones; on failure the map is untouched |
| `FileHeaderObjects.FileHeader.Deallocate` | code/filesys/filehdr.cc:61-68 | clears exactly the data sectors, each of them marked before |
| `FileHeaderObjects.FileHeader.WriteBack` | code/filesys/filehdr.cc:90-94 | the sector then decodes to the header, no other sector changes |
| `Directories.Directory.FindIndex` | code/filesys/directory.cc:90-97 | -1 exactly when no entry in use agrees on the first nine characters |
| `Directories.Directory.Add` | code/filesys/directory.cc:129-143 | succeeds exactly when there is room and the name is new; one entry changes, to that key and sector |
| `Directories.Directory.Remove` | code/filesys/directory.cc:153-162 | succeeds exactly when the name is listed; one entry, which had that name, is dropped |
| `Directories.SameKeyExactly` | code/filesys/directory.cc:90-97 | two names share a key exactly when their first nine characters agree, as far as neither has ended |
| `Directories.NamesExactly` | code/filesys/directory.cc:90-97 | an entry in use answers to exactly the names that share its first nine characters |
| `Directories.SameNameIsSameKey` | code/filesys/directory.cc:90-97 | strncmp is equality of keys and agreement of the characters |
| `Directories.KeyOfCopy` | code/filesys/directory.cc:129-143 | a name stored by strncpy is found again under the same key, whatever follows it |
| `BitMaps.BitMap.Find` | code/userprog/bitmap.cc:101-111 | allocates the lowest clear bit; -1 exactly when there is none |
| `BitMaps.BitMap.NumClear` | code/userprog/bitmap.cc:119-128 | counts the clear bits |
| `BitMaps.BitMap.WriteBack` | code/userprog/bitmap.cc:170-174 | the file then decodes to the marks, and no sector outside it changes |
| `BitMaps.BitMap.FetchFrom` | code/userprog/bitmap.cc:157-161 | the marks become those the file decodes to |
| `BitMaps.OneMarkChanged` | code/userprog/bitmap.cc:53-72 | changing one bit of one word changes that mark alone |
| `Kernel.StepSafe` | code/threads/thread.cc:103-315 | every step keeps every thread in exactly one place with its status agreeing |
| `KernelEffects.RunEffects` | code/threads/thread.cc:103-315 | in every step of every run, each operation has exactly its effect, read off the states: who becomes ready and where in the list, who runs, who waits, what stays |
| `KernelEffects.StartedThreadRuns` | code/threads/thread.cc:103-115 | a thread that is started runs once those ahead of it in the ready list have been dispatched |
| `KernelLaws.RunLawful` | code/threads/synch.cc:64-97 | in every state of every run: no lost wakeup, value = initial + Vs - Ps >= 0, queues and ready list agree with their histories, every thread placed |
| `KernelLaws.StepLawful` | code/threads/synch.cc:64-97 | each step of any interleaving keeps those laws |
| `KernelLaws.StepCovered` | code/threads/synch.cc:64-97 | while threads wait on a semaphore its value is at most the number of woken threads still to recheck |
| `KernelLaws.NothingLeftToWake` | code/threads/synch.cc:64-97 | when the machine idles with nothing ready, no semaphore with waiters has a positive value |
| `KernelLaws.ExactlyOnePlace` | code/threads/scheduler.cc:65-156 | a live thread is running, ready, in one queue, new or dying, at exactly one position; anything else is nowhere |
| `KernelLaws.SafeDestruction` | code/threads/thread.cc:158-173 | Finish's assertion holds whenever a thread can call it; a thread about to be deleted is not running and in no queue |
| `KernelLaws.DispatchOrder` | code/threads/scheduler.cc:65-88 | the thread at position k of the ready list is chosen at exactly the (k+1)-th dispatch from then on |
| `KernelLaws.WakeOrder` | code/threads/synch.cc:87-97 | V wakes waiters in the order they queued up |
| `KernelLaws.ValueChange` | code/threads/synch.cc:64-97 | a semaphore's value changes only by the P and V calls that complete |
| `SynchDevice.NextSane` | code/filesys/synchdisk.cc:72-109 | every move keeps lock value plus holders at 1 and completion value plus active at 1 exactly between a request and its finished P; the device is idle at each request |
| `SynchDevice.RunSane` | code/filesys/synchdisk.cc:72-109 | that holds in every state of every run, with any number of threads |
| `SynchDevice.OneRequestAtATime` | code/machine/disk.cc:115-153 | the assertions `!active` and `putBusy == FALSE` never fail |
| `SynchDevice.WaitsForItsOwn` | code/filesys/synchdisk.cc:72-97 | a wait returns only once its own request has completed, also when the interrupt comes before P |
| `SynchDevice.CallsNotInterleaved` | code/userprog/synchconsole.cc:33-60 | the device has seen whole calls one after another and at most a prefix of the call in progress |
| `SynchDevice.CallDeliversItsItems` | code/userprog/synchconsole.cc:33-60 | over every run, a call that returns has had the device see exactly the items it was entered with, whole, after those of the calls that returned before |
| `SynchDevice.HolderSendsWhatItWasGiven` | code/userprog/synchconsole.cc:33-60 | while a call is in progress, what the device has seen beyond the finished calls is a prefix of the items the holder entered with |
| `SynchDevice.NobodyStuck` | code/userprog/synchconsole.cc:33-60 | no deadlock: with nothing ready and the device idle, no call is in progress |
| `Lists.List.SortedInsert` | code/threads/list.cc:185-216 | the linked nodes stand for the old sequence with the new element before the first strictly bigger key; chain acyclic, last final |
| `Lists.List.Append` | code/threads/list.cc:76-91 | the sequence with the element at the end |
| `Lists.List.Prepend` | code/threads/list.cc:105-120 | the sequence with the element in front |
| `Lists.List.SortedRemove` | code/threads/list.cc:231-254 | removes exactly the first element, if any |
| `Lists.InsertedSorted` | code/threads/list.cc:185-216 | insertion keeps the list sorted and comes after equal keys |
| `Lists.InsertedMultiset` | code/threads/list.cc:185-216 | insertion loses and invents nothing |
| `Interrupts.Interrupt.Schedule` | code/machine/interrupt.cc:272-283 | one interrupt more, in order, never due at once |
| `Interrupts.Interrupt.CheckIfDue` | code/machine/interrupt.cc:298-348 | fires exactly the head, exactly if it is due or the clock may advance to it, and not a lone timer while idle; its handler's interrupts are scheduled; otherwise nothing happens to the history |
| `Interrupts.Interrupt.OneTick` | code/machine/interrupt.cc:158-187 | whatever the handlers do, the clock advances by the tick of the mode, the loop terminates, every interrupt left is due later, and a yield is due exactly if one was asked for |
| `Interrupts.Interrupt.Idle` | code/machine/interrupt.cc:218-242 | fires the earliest interrupt, idle time alone advancing the clock; halts exactly if nothing or only the timer is pending |
| `Interrupts.Interrupt.RunHandler` | code/machine/interrupt.cc:339-345 | exactly the interrupts the handler asks for are scheduled, each with its time and kind |
| `Interrupts.RanOn` | code/machine/interrupt.cc:158-187 | what handlers leave behind over any stretch is what each firing's handler adds, in order |
| `Interrupts.TimesIsMultiplicity` | code/machine/interrupt.cc:272-283 | the account of scheduled, fired and pending interrupts is one of multisets |
| `Interrupts.Interrupt.SetLevel` | code/machine/interrupt.cc:122-135 | the clock advances, by one tick of the mode, exactly when interrupts go from off to on |
| `Interrupts.FiringOne` | code/machine/interrupt.cc:298-348 | firing keeps scheduled = fired + pending, order of due times, and nothing early |
| `Interrupts.Scheduling` | code/machine/interrupt.cc:272-283 | scheduling keeps the same account |
| `Interrupts.PuttingBack` | code/machine/interrupt.cc:321-331 | putting the head back changes at most the order of ties |
| `Interrupts.ChronicleInOrder` | code/machine/interrupt.cc:298-348 | over a whole run, none fires before its time and due times of fired interrupts never decrease |
| `DiskTiming.HitExactly` | code/machine/disk.cc:232-247 | the track buffer serves a read exactly when it stays on the track and the target has rotated past by the next sector boundary |
| `DiskTiming.HitOnceBegun` | code/machine/disk.cc:232-247 | equivalently, exactly when the target has begun to pass since the buffer began to fill |
| `DiskTiming.HitMeansFullyPassedExactly` | code/machine/disk.cc:225-247 | on the same track, the buffer serves a read if and only if its sector has fully passed, exactly when the sector is not passing for the first time right now |
| `DiskTiming.RunTimely` | code/machine/disk.cc:115-271 | in every state of every run of requests and completions the buffer's start is a sector boundary, no later than the clock when idle |
| `DiskTiming.ReadsInRun` | code/machine/disk.cc:115-271 | over every run, a read is served from the buffer exactly when no seek is needed and its sector has begun to pass since the buffer's start, and every request is due 500 to 31999 ticks later |
| `DiskTiming.FillingSinceLastSeek` | code/machine/disk.cc:261-271 | over every run, the buffer has been filling since the first boundary after the last change of track |
| `DiskTiming.HitBeforeFullyPassed` | code/machine/disk.cc:225-247 | a request served from the buffer before its sector has fully passed |
| `DiskTiming.TransferAtFirstChance` | code/machine/disk.cc:249-252 | otherwise the transfer starts at the earliest boundary after the seek with the head on the target |
| `DiskTiming.SlotsAway` | code/machine/disk.cc:202-209 | ModuloDiff is the number of slots to the next time the target is under the head |
| `DiskTiming.SeekPerTrack` | code/machine/disk.cc:179-194 | a seek takes 500 ticks for each track crossed |
| `DiskTiming.LatencyRange` | code/machine/disk.cc:232-253 | every latency is between 500 and 31999 ticks |
| `DiskTiming.LatencyExtremes` | code/machine/disk.cc:232-253 | both bounds are reached |
| `DiskTiming.Disk.Request` | code/machine/disk.cc:115-153 | a request makes the step of the runs above, and its latency lies in the range |
| `DiskTiming.Disk.HandleInterrupt` | code/machine/disk.cc:161-166 | when the disk is idle again the buffer's start is no later than the clock |
| `Multiply.Mult` | code/machine/mipssim.cc:678-735 | hi:lo is the exact 64-bit product, signed (two's complement, -2^31 included) and unsigned |
| `Multiply.ShiftAdd` | code/machine/mipssim.cc:700-721 | the shift-and-add loop, with its arithmetic shift and early break, computes the product of the unsigned operands |
| `Translation.Translate` | code/machine/translate.cc:189-272 | no access leaves main memory |
| `Translation.TranslateWithEntry` | code/machine/translate.cc:248-271 | with an entry for the page, an aligned access is ReadOnly exactly if it writes to a read-only page, else BusError exactly if the frame does not exist, else goes to its offset in that frame |
| `Translation.TranslateWithoutEntry` | code/machine/translate.cc:199-246 | misaligned accesses and those beyond the page table are address errors, any other without an entry a page fault |
| `Translation.ReadOnlyNeverChanges` | code/machine/translate.cc:248-255 | over any run of reads and writes through an injective mapping, no byte in the frame of a read-only page changes |
| `Isa.StepKeepsReadOnly` | code/machine/mipssim.cc:396-575 | no step of the machine changes a byte in the frame of a read-only page |
| `Translation.TouchedExactly` | code/machine/translate.cc:265-267 | a successful access sets use, and a write dirty, in its entry and changes nothing else |
| `Translation.AccessIsContiguous` | code/machine/translate.cc:199-213 | an aligned access stays on its page and is contiguous in memory |
| `Translation.WriteStores` | code/machine/translate.cc:140-172 | through an injective mapping, replacing bytes of a writable access in main memory splices the flat virtual memory and changes no other address |
| `Translation.ReadShows` | code/machine/translate.cc:88-125 | a read delivers the bytes the program sees at the address |
| `Translation.ReadsSeeLatest` | code/machine/translate.cc:88-172 | from an injective mapping, after any run of reads and writes to main memory through translation, of any sizes and overlaps, faulting or not, a read finds at each address the latest byte written there |
| `Translation.TlbAgrees` | code/machine/translate.cc:231-246 | for a TLB consistent with the page table, every hit gives the page table's result, every miss faults, and a misaligned access faults alike |
| `Translation.SameTranslation` | code/machine/translate.cc:265-267 | use and dirty bits affect no translation |
| `Decoding.Decode` | code/machine/mipssim.cc:632-669 | every word decodes to an opcode the simulator handles, with register fields below 32 |
| `Encoding.DecodesSpecial` | code/machine/mipssim.cc:632-669 | the word of a register instruction decodes to it, with its three registers and shift amount |
| `Encoding.DecodesImmediate` | code/machine/mipssim.cc:632-669 | the word of an immediate instruction decodes to it, with its two registers and the immediate sign-extended |
| `Encoding.DecodesBranch` | code/machine/mipssim.cc:654-667 | the same for branches on the sign of a register |
| `Encoding.DecodesJump` | code/machine/mipssim.cc:649-651 | the same for jumps, with their word index |
| `Encoding.DecodedIsWord` | code/machine/mipssim.h:117-229 | a word that decodes to a mnemonic is one of that mnemonic's words; every other word is UNIMP or RES |
| `Encoding.WordDecodes` | code/machine/mipssim.h:117-229 | every word of a mnemonic decodes to it |
| `Bits.SignTest` | code/machine/mipssim.cc:140-146 | the XOR-and-mask test says exactly whether two signs differ |
| `Idioms.AddOverflow` | code/machine/mipssim.cc:140-158 | the overflow test of ADD and ADDI holds exactly when the integer sum leaves 32 bits |
| `Idioms.SubOverflow` | code/machine/mipssim.cc:508-516 | the same for SUB |
| `Idioms.ByteMasks` | code/machine/mipssim.cc:252-255 | test, fill and mask of LB and LBU are sign and zero extension |
| `Idioms.HalfMasks` | code/machine/mipssim.cc:270-273 | the same for LH and LHU |
| `Idioms.JumpMask` | code/machine/mipssim.cc:234-238 | a jump goes to its word index in the current 256-megabyte region |
| `Isa.Remainder` | code/machine/mipssim.cc:210-218 | DIV truncates toward zero: a = bq + r, r smaller than b and with the sign of a |
| `Isa.QuotientFits` | code/machine/mipssim.cc:210-218 | the only quotient that is not an int is -2^31 / -1 |
| `IsaLaws.FetchesSpecial` | code/machine/mipssim.cc:113-117 | an encoded instruction in memory, least significant byte first, is what is fetched |
| `IsaLaws.FetchesImmediate` | code/machine/mipssim.cc:113-117 | the same for immediate instructions |
| `IsaLaws.BranchExactly` | code/machine/mipssim.cc:176-208 | a branch goes four times its signed immediate beyond its delay slot exactly when its condition holds of the registers as integers |
| `IsaLaws.JumpExactly` | code/machine/mipssim.cc:234-244 | the target of a jump, its region and index, and where the return address goes |
| `IsaLaws.LogicalBits` | code/machine/mipssim.cc:168-174 | the logical instructions bit by bit, immediates zero-extended |
| `IsaLaws.ExactArithmetic` | code/machine/mipssim.cc:140-158 | ADD, SUB and ADDI, when they do not trap, give the exact integer result, in the register they name |
| `IsaLaws.WrappingArithmetic` | code/machine/mipssim.cc:160-166 | ADDU, SUBU and ADDIU give it modulo 2^32 |
| `IsaLaws.ComparesExactly` | code/machine/mipssim.cc:417-447 | comparisons give 1 or 0 for the sign of the difference, signed or unsigned |
| `IsaLaws.HiLoExactly` | code/machine/mipssim.cc:210-232 | HI and LO hold the upper and lower half of the product, remainder and quotient of the division |
| `IsaLaws.HiLoMoves` | code/machine/mipssim.cc:355-369 | the moves to and from HI and LO reach the register they name |
| `IsaLaws.AddressCongruent` | code/machine/mipssim.cc:246-353 | an address is the base register plus the signed displacement, modulo 2^32 |
| `IsaLaws.RaisesExactly` | code/machine/mipssim.cc:577-592 | what raises which exception |
| `IsaLaws.LoadFills` | code/machine/mipssim.cc:246-293 | loads keep the bytes they find and fill with the sign or with zeros |
| `Isa.StepLaw` | code/machine/mipssim.cc:105-608 | every step keeps R0 = 0 and LoadReg < 32; on any trap no memory byte, PC, NextPC, PrevPC, HI or LO has changed and general registers change only by the pending load; otherwise the counters advance through the delay slot |
| `Isa.RetiredLaw` | code/machine/mipssim.cc:598-625 | what a completed instruction leaves in every register: the pending load arrives last |
| `Isa.TrappedPrecise` | code/machine/machine.cc:100-110 | what a trap leaves in every register |
| `Isa.StoreSeen` | code/machine/mipssim.cc:396-575 | through an injective mapping every completed store splices exactly its bytes into the flat memory |
| `Isa.ShiftBits` | code/machine/mipssim.cc:408-506 | bit by bit: left and logical right shifts fill with zeros, arithmetic ones with the sign, amounts modulo 32 |
| `Isa.DelaySlotResult` | code/machine/mipssim.cc:598-625 | the result of an instruction in a load's delay slot, or its return address, survives exactly when the load is for another register or brings the same value |
| `Isa.DelaySlotResultLost` | code/machine/mipssim.cc:598-625 | a concrete result that is lost |
| `Isa.LinkedTargetExactly` | code/machine/mipssim.cc:181-243 | a linking branch goes where it would if it read its register first, exactly when the return address does not get in the way |
| `Isa.LinkInTheWay` | code/machine/mipssim.cc:240-243 | a concrete JALR that jumps to its own return address |
| `Isa.LoadPairDelivers` | code/machine/mipssim.cc:295-353 | two steps LWR at A, LWL at A + 3, neither trapping, leave pending exactly the byte merge that `LoadPairExactly` is about |
| `Isa.StorePair` | code/machine/mipssim.cc:528-575 | SWR at A and SWL at A + 3, neither trapping, store exactly the word's four little-endian bytes at A..A+3 and change no other byte, at every alignment and across pages |
| `Machines.Machine.OneInstruction` | code/machine/mipssim.cc:105-608 | one simulated instruction is one step of the instruction set, for every word and state: result, traps, memory, delayed load and counters |
| `Machines.Machine.ExecArithmetic` | code/machine/mipssim.cc:140-166 | integer meaning of the additions, subtractions and comparisons; ADD, ADDI and SUB trap exactly when the result leaves 32 bits |
| `Machines.Machine.ExecLogical` | code/machine/mipssim.cc:168-174 | bitwise meaning, immediates zero-extended |
| `Machines.Machine.ExecShift` | code/machine/mipssim.cc:408-506 | the masked shift amount and operand give the shift that `Isa.ShiftBits` describes |
| `Machines.Machine.ExecHiLo` | code/machine/mipssim.cc:210-232 | products and quotients in HI and LO, division by zero giving zeros |
| `Machines.Machine.ExecBranch` | code/machine/mipssim.cc:176-208 | the target after the delay slot and the link register |
| `Machines.Machine.LoadPlain` | code/machine/mipssim.cc:246-293 | loads deliver the extended bytes seen at the address, misaligned ones trap |
| `Machines.Machine.LoadMerged` | code/machine/mipssim.cc:295-353 | LWL and LWR merge bytes into the register as the pending load will leave it |
| `Machines.Machine.StoreMerged` | code/machine/mipssim.cc:528-575 | SWL and SWR replace exactly their bytes of the word in main memory, whatever the mapping |
| `Machines.Machine.ReadMem` | code/machine/translate.cc:88-125 | the bytes seen at the address, or the translation's trap with nothing read |
| `Machines.Machine.WriteMem` | code/machine/translate.cc:140-172 | a splice of flat memory, or the translation's trap with nothing written |
| `Machines.Machine.TranslateAddress` | code/machine/translate.cc:189-272 | the search loop finds what the specification finds; only use and dirty bits change, and only on success |
| `Machines.Machine.DelayedLoad` | code/machine/mipssim.cc:618-625 | commits the pending load, starts the next, keeps R0 zero |
| `Machines.Machine.RaiseException` | code/machine/machine.cc:100-106 | the faulting address and the pending load are recorded before the kernel runs |
| `Unaligned.MergeRightBytes` | code/machine/mipssim.cc:533-546 | SWR's masks and shifts keep the low k bytes and put the word's low bytes above them |
| `Unaligned.MergeLeftBytes` | code/machine/mipssim.cc:556-572 | SWL's put the word's high bytes below the bytes they keep |
| `Unaligned.LoadPairExactlyAtEven` | code/machine/mipssim.cc:295-353 | LWR at A and LWL at A + 3 load the four bytes at A, whatever memory and register hold, if and only if A is even |
| `Unaligned.LoadPairExactly` | code/machine/mipssim.cc:295-353 | for any bytes: the pair loads the four bytes at A exactly when A is even or the misplaced bytes happen to agree |
| `Unaligned.SarBit` | code/machine/mipssim.cc:449-456 | an arithmetic shift moves bits down and fills with the sign |
| `Unaligned.OddPair` | code/machine/mipssim.cc:338-351 | concrete bytes for which the pair loads something else at odd A |
| `UserThreads.ThreadTable.Create` | code/userprog/userthread.cc:79-103 | takes the lowest clear slot and counts up, or fails with nothing changed |
| `UserThreads.ThreadTable.Exit` | code/userprog/userthread.cc:110-118 | gives back the caller's slot, if it has one, and counts down |
| `UserThreads.ThreadTable.GetStackIdFromThread` | code/userprog/userthread.cc:20-30 | -1 exactly when the thread has no slot |
| `UserThreads.StepKeeps` | code/userprog/userthread.cc:75-128 | every step keeps: a slot is marked exactly when it names its one unexited owner, counter + 1 is the number of unexited threads, the lock has one holder |
| `UserThreads.RunInv` | code/userprog/userthread.cc:75-128 | that holds in every state of every run |
| `UserThreads.CreationFails` | code/userprog/userthread.cc:80-103 | creation fails exactly when all ten slots are held, which is when ten threads besides main have not exited |
| `UserThreads.HaltOnlyAtTheEnd` | code/userprog/userthread.cc:120-127 | the machine is halted only after every thread, main included, has exited |
| `UserThreads.LastHaltsExactlyWhenAlone` | code/userprog/userthread.cc:110-127 | the last thread to exit is the one that halts, in every continuation, if and only if no other thread is left when it exits |
| `UserThreads.LateReadersHalt` | code/userprog/userthread.cc:120-127 | once all have exited that stays so, and every thread that reads the counter then halts |
| `UserThreads.HaltIsReached` | code/userprog/userthread.cc:110-128 | nobody is stranded: as long as all have exited and the machine runs, some thread can move on to the halt |
| `UserThreads.AnotherMayHalt` | code/userprog/userthread.cc:117-127 | a concrete run in which main, not the thread that exited last, halts the machine |
| `UserThreads.SlotIsKept` | code/userprog/userthread.cc:106-118 | a thread keeps its slot exactly until it exits |
| `UserThreads.OneSlotEach` | code/userprog/userthread.cc:80-97 | every unexited thread but main has exactly one slot |
| `UserThreads.StacksApart` | code/userprog/userthread.cc:60-62 | the stack windows of two unexited threads never share a byte |
| `UserThreads.StackPlaces` | code/userprog/userthread.cc:60-62 | initial stack pointers: main's 16 bytes below the top, slot 0's 272 lower, each further slot 256 lower |
| `UserThreads.WindowsInArea` | code/userprog/addrspace.cc:75-79 | all stack windows, main's included, lie in the stack area above the program, and main's is apart from the threads' |

## Left out

- Crash consistency of the file system, which the source disclaims (`filesys.cc:38-40`).
- `Print`, `List`, `DumpState`, debug output, `sysdep.cc`, the `FILESYS_STUB` variants and all host I/O; the disk is its sectors.
- `Condition`, `SynchList`, the post office and the network: `Condition` is a stub that always fails.
- `switch.S`, thread stacks of the host, `CheckOverflow` and `Scheduler::Halt`; `SWITCH` is a change of the current thread, and `new Thread` never fails.
- The system-call dispatch in `exception.cc`, `copyStringFromMachine` and `copyStringToMachine`.
- Console input, the UTF-8 encoding of a displayed character, and the `SynchConsole` destructor. A displayed character is one item.
- The tools in `code/bin`.
- Kernel: semaphores, threads and the scheduler are steps on values rather than objects updated in place, because P and Sleep span a switch to other threads; in-place update of their queues is what `Lists` proves.
- `Lock::Release` has no owner check; the device and user-thread protocols assume, as their callers ensure, that only a holder releases.
- `P` does not serve its callers in order: a running thread may take the value before a woken one rechecks. Only the wake-up order is claimed.
- Interrupts.Interrupt.Schedule: the pending list is a sequence changed by the insertion that `Lists.List.SortedInsert` implements, not the linked nodes themselves; ticks are unbounded where the source has a 64-bit counter.
- Interrupts.Interrupt.RunHandler: what the devices' handlers do is a parameter of every run, any function from the interrupt to what it schedules for later and whether it asks for a yield; the call of DelayedLoad before a handler in user mode is not part of this class.
- Interrupts.Interrupt.OneTick: the yield it makes on a handler's request is returned to the caller.
- OpenFiles.OpenFile.constructor: the header an open file holds is a value, fixed when the file is opened.
- OpenFiles.OpenFile.WriteAt: using a file after it has been removed is excluded, as are a negative position and an overflow of position + numBytes; the contents of a new file and the bytes past the end of a file's last sector are unspecified.
- FileSystemRuns.Run: a call the source forbids its callers (a size no header can hold, a handle that is closed or whose file is gone, an offset beyond an int) is refused before it is made.
- UserThreads.StepKeeps: the lock is a free-or-held flag; that a Lock built on a semaphore excludes is proved of the device protocols.
- FileSystems.FileSystem.Create: sizes outside 0..3840 are excluded, as the source relies on.
- Machines.Machine.OneInstruction: the quotient -2^31 / -1 is undefined in the host language; the outcome is then `HostFault` and nothing else is said. The kernel's exception handler, which runs after a trap, is not part of this model.
- DiskTiming.Disk.Request: assumes that ticks fit in an `int`, as the source does.
- UserThreads.StacksApart: a window is what lies between one initial stack pointer and the next; nothing in the source stops a program from running past its window. A thread's identity is its address, taken to be distinct from those of all threads that exist.
