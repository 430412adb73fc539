# simctty

simctty simulates an OpenRISC 1000 system: a processor with delay slots, exceptions, a tick timer
and an interrupt controller, an instruction and a data MMU with software-loaded TLBs, RAM, a UART,
a bus, and an assembler that makes the words the processor decodes. Three shortcuts make it fast:
RAM keeps words in host order and swizzles byte addresses, each MMU remembers one translated page,
and the processor remembers the page it fetches from. The project models all of it and proves where
the shortcuts are invisible and exactly where they are not.

## Layers

1. **Objects** (`Ram`, `Uart`, `Bus`, `Mmu`, `Cpu`, `Assembler`, `System`). Classes with the
   fields of the source, updated in place by methods with its branches and loops. Each method's
   postcondition gives the whole new state as a function of the old one.
2. **The simulator as a state machine** (`Machine`, `Translation`, `Registers`, `Isa`). The same
   behaviour as functions on values, page caches and all, so that runs can be reasoned about.
3. **The reference machine** (`Reference`). The simulator without its shortcuts: every access
   translated afresh, enables read from SR, the program counter kept as the pair of this and the
   next instruction, and one flat big-endian memory (`Memory`).

`Refinement` and `Runs` connect 2 and 3: instruction by instruction with an if-and-only-if, then for
fetches, cycles, runs and whole sessions of host actions. `Timer`, `Interrupts`, `Restart`,
`Flushing`, `Alignment`, `Aliases`, `Programs` and `Definedness` prove what such runs promise. `Stepping` and
`Witnesses` run small programs on both machines.

The three layers share the tables and formulas of the instruction set, so agreement between them says
nothing about those. `Meaning`, `Permissions` and `Formats` pin them to descriptions of their own: what
each operation and comparison answers, which bit of a TLB entry grants which access, which word is which
instruction. `Effects`, `Causes` and `Specials` carry that to what an instruction, a fetch or an exception
leaves behind, with every address, weight and constant written out.

## Where the simulator and the reference machine part

They part in four situations, and in no others (`Refinement.Deviates`, `Refinement.ExecExact`).
`Witnesses` has a program for each that, loaded into any system and run from reset, ends differently
on the two:

1. A jump in a delay slot overwrites the first target (unless that was the next word anyway).
2. The data page cache ignores the kind of access: a page that has been written and may be written
   but not read answers a word load.
3. `Store16` picks the RAM path by the virtual address, so a page at a low virtual address that maps
   outside RAM sends the store out of the array.
4. A write to an ITLB register leaves the processor's fetch cache alone, so remapping the executing
   page takes effect late. (Unless a timer exception follows at once and empties the caches.)

`Refinement.Conforms` is the condition without the caches, for programs that want to stay clear: it
holds exactly if no cache that fits the state makes the instruction deviate (`ConformsExactly`).
Nothing is assumed about alignment, fetches from device addresses or arithmetic: what C++ leaves
undefined, and what ends the process, is the outcome `Stuck` of a step. The machines share it except
in deviations 2 and 3. `Definedness` says exactly when an instruction or a fetch gets there. The
object methods require that their step is not `Stuck`.

## Rules the reference machine keeps

The reference machine is not the OpenRISC 1000 Architecture Manual. It has these rules from the
simulator, which have nothing to do with caching, so agreement with it says nothing about them:

- `l.sys` in a delay slot saves its own address, not that of its jump: the return runs `l.sys`
  again and the jump is lost (`Restart.SystemCallReturns` says exactly when the return is right).
- Instruction translation permits a page that grants either of the two execute bits in either mode;
  data translation lets a supervisor use the user bits too.
- A fetch that translates outside RAM executes the word 0, since the source ignores the exception of
  the bus read.
- An unaligned word load, and a fetch at an unaligned program counter, take no alignment exception;
  from RAM they are undefined.
- The timer counts in every mode; only mode 3 with interrupts enabled matches.
- r0 is an ordinary register. There are no carry and overflow flags and no range exception.
- A pending tick timer interrupt is taken only at the tick that matches and after an `l.mtspr`, and
  external interrupts only at the start of a run.
- `ESR` gets DSX on a slot exception and `l.rfe` copies it back to SR; the restart theorems say so.
- Reading a special register gives 0 when SR is 0, which is what the source's supervisor test comes
  to; there is no other privilege check.

## Conventions

- The host is little-endian and `char` is signed. Integers are written as ranges of `int`
  (`uint8`, `uint16`, `uint32`) with every wrap-around explicit.
- What C++ defines is read as follows. A signed product or quotient that does not fit `int` is
  undefined. Shifting a bit into the sign position (`k << 16`, `1 << 31`), converting an unsigned
  value to a signed type and shifting a negative value right give the two's complement result, as
  C++20 has it and compilers before it had it. Reading and writing aligned halfwords and words in the
  byte array through cast pointers accesses those bytes; an unaligned access is undefined.
- Ending the process is modelled as undefined: access to an MMU register index that does not exist,
  for reading and for writing, and loading an image that fits and is not a whole number of words.
- A file is the sequence of blocks read from it; None is a file that cannot be opened.
- Registers and RAM that the source leaves uninitialised have arbitrary values.

Verify with `dafny verify dfyconfig.toml` (Dafny 4.11).

## Model

| member | source | states |
|---|---|---|
| Refinement.ExecExact | simctty/cpu.cc:393-843 | For every instruction and every coherent state: the simulated step equals the step of the cache-free reference machine and leaves the three page caches right, if and only if it is none of four named things (a jump in a slot bound elsewhere, a word load on a remembered write-only page, a halfword store at a RAM-like virtual address mapped outside RAM, an ITLB write remapping the remembered fetch page) |
| Refinement.ConformsIsEnough | simctty/cpu.cc:393-843 | The same four stated on the reference state alone (no cache mentioned) are sufficient, whatever happens to be cached |
| Refinement.ConformsExactly | simctty/cpu.cc:393-843 | And they are necessary: the reference-level condition holds if and only if the instruction does none of the four in any coherent state that the reference machine cannot tell apart, whatever it has cached |
| Refinement.JumpExact | simctty/cpu.cc:352-365 | The pair (in_delay_slot_, delayed_next_pc_) is the pc/npc machine: a jump agrees exactly if it is not in a slot whose target is not the next word; the second jump overwrites the first target |
| Refinement.IncrementRefines | simctty/cpu.cc:352-359 | IncrementPC is "pc := npc, npc := npc + 4" |
| Refinement.ThrowRefines | simctty/cpu.cc:328-350 | An exception is the reference one (EPCR of the jump for a slot, ESR with DSX, EEAR by vector table) and leaves all three page caches empty |
| Refinement.SystemCallRefines | simctty/cpu.cc:455-458 | l.sys saves the next program counter, or inside a slot its own, and enters the system call vector |
| Refinement.ReturnRefines | simctty/cpu.cc:467-471 | l.rfe enters EPCR outside any slot with SR from ESR and leaves all three page caches empty |
| Refinement.ControlExact | simctty/cpu.cc:412-480 | Jumps, branches, l.nop, l.sys, l.trap, l.rfe, l.jr, l.jalr and illegal words agree with the reference machine exactly if they do not jump from a slot bound elsewhere |
| Refinement.LoadExact | simctty/cpu.cc:481-546 | The five load instructions agree with "translate, then read that physical address" and keep the caches right, exactly but for l.lwz on a remembered page that this mode may not read; what the register then holds is Effects.LoadLeaves |
| Refinement.StoreDiffers | simctty/mmu.cc:121-146 | The stray halfword store writes outside the RAM array (undefined) where the reference machine reaches a device or faults |
| Refinement.StoreRefines | simctty/cpu.cc:667-702 | Every other store is the reference one, to RAM, to the UART or as an exception, and keeps the caches right |
| Refinement.ItlbWriteExact | simctty/cpu.cc:286-290 | After an ITLB register write the fetch cache, which is not cleared, is still right if and only if the write leaves the entry of the remembered page as it was |
| Refinement.WriteSprInstrExact | simctty/cpu.cc:655-666 | l.mtspr always computes the reference state, including a timer exception raised right after the write, and leaves the caches right exactly if it does not remap the remembered fetch page |
| Runs.FetchRefines | simctty/cpu.cc:98-122 | Every fetch from a coherent state, cached, refilled or from a device address, is the fresh translation and read of the reference machine, same word or same exception, and keeps the caches right |
| Runs.CycleExact | simctty/cpu.cc:81-127 | One pass of the loop (tick, timer exception, fetch, instruction) tracks the reference machine exactly if its instruction is none of the four |
| Runs.TracksExactly | simctty/cpu.cc:81-127 | For every number of cycles: every cycle agrees and keeps the caches right, if and only if none of them does one of the four |
| Runs.CyclesRefine | simctty/cpu.cc:81-129 | Then the loop ends in the reference end state with the same return value |
| Runs.CheckRefines | simctty/cpu.cc:850-861 | Sampling and delivering external interrupts refines the reference machine |
| Runs.RunRefines | simctty/cpu.cc:78-130 | A whole Run of any number of cycles of any program is a run of the reference machine, to the same registers, pc/npc, TLBs, memory, UART and return value |
| Runs.SessionRefines | simctty/cpu.cc:78-130 | The same over every interleaving of runs, keypresses, display reads and image loads by the host; caches right throughout |
| Runs.ResetSessionRefines | simctty/cpu.cc:41-76 | The same from reset, under a hypothesis about the reference session only |
| Runs.ConformingSessionIsFaithful | simctty/cpu.cc:78-130 | A session that the reference machine can see to avoid the four is one that the caches never spoil |
| Flushing.SrChangeEmptiesCaches | simctty/cpu.cc:258-269 | For every instruction: SR changes in more than the flag F only together with all three page caches being emptied |
| Flushing.SrWriteEmptiesCaches | simctty/cpu.cc:258-269 | Every l.mtspr to SR, l.rfe, l.sys, illegal instruction and faulting load or store leaves all three page caches empty |
| Flushing.CycleEmptiesCaches | simctty/cpu.cc:81-127 | So does every tick and fetch exception; and no cycle changes more of SR than F without emptying them |
| Flushing.InterruptEmptiesCaches | simctty/cpu.cc:850-861 | So does taking an external interrupt; a sample that takes none leaves SR alone |
| Runs.ResetValid | simctty/cpu.cc:41-76 | Reset is the reference reset and leaves all three page caches empty |
| Registers.FlagOnly | simctty/cpu.cc:367-373 | A compare changes F and no other bit of SR, in particular none of SM, TEE, IEE, DME, IME |
| Machine.ExecValid | simctty/cpu.cc:258-269 | For every instruction: the MMU enables keep equal to SR.IME and SR.DME, cached frames stay page-aligned and inside RAM, the register file keeps its size |
| Machine.CycleValid | simctty/cpu.cc:81-127 | The same for every cycle, hence (Machine.MachineRun) for every reachable state |
| Machine.MachineRun | simctty/cpu.cc:78-130 | Every state a run reaches satisfies those invariants |
| Translation.CachedLoadExact | simctty/mmu.cc:148-180 | With a sound cache, a load of any width answers as a fresh translation and physical read, if and only if it is not a word on the remembered page that this mode may not read |
| Translation.MapKeepsSound | simctty/mmu.cc:239-304 | Translating any address, in either direction, keeps the remembered page enabled, tag-matched, permitted to some access in this mode, mapped to the remembered frame |
| Translation.UsesKeepSound | simctty/mmu.cc:36-39 | So does every interleaving of register writes, enable changes, loads and stores in one mode |
| Translation.LoadAfterUsesExact | simctty/mmu.cc:148-154 | After every such interleaving from an empty cache, Load32 equals the uncached answer if and only if it does not hit an unreadable remembered page |
| Translation.LoadAfterUses | simctty/mmu.cc:148-154 | With entries that grant reading wherever they grant writing, Load32 always equals the uncached answer |
| Translation.WriteOnlyPageAnswers | simctty/mmu.cc:148-154 | The excluded case exists: a write-only page answers a load after a store where a fresh translation faults |
| Translation.StoreExact | simctty/mmu.cc:72-92 | Stores of all widths equal "translate, then store at that physical address", if and only if not a halfword whose virtual address is below the RAM size and whose page maps outside RAM |
| Translation.AliasesAgree | simctty/mmu.cc:49-207 | What is stored through one virtual address is what a load of that width through any other address of the same RAM reads |
| Aliases.StoresArePhysical | simctty/mmu.cc:72-207 | Any run of aligned stores to RAM, of mixed widths through any mappings and page caches, is the run of the physical stores they translate to |
| Aliases.LoadReadsLatest | simctty/mmu.cc:49-180 | After any such run, a load of any width through any other readable mapping of RAM, page cache used or not, reads the big-endian value of the latest bytes stored at its physical address |
| Translation.BusReadBack | simctty/bus.cc:20-32 | A physical store to RAM is read back by the next load of that width as the low bytes of the value |
| Programs.StaleFetch | simctty/cpu.cc:655-666 | From every coherent state that fetches from its page: the l.mtspr that points the page at another RAM frame does what the reference machine does, but the next fetch in the page reads the old frame where the reference machine reads the new one |
| Witnesses.JumpInSlotDiffers | simctty/cpu.cc:361-365 | Deviation 1 happens: on any system, loading two jumps and running two cycles ends at 8 on the simulator and at 16 on the reference machine |
| Witnesses.WriteOnlyLoadDiffers | simctty/mmu.cc:148-154 | Deviation 2 happens: a nine-instruction program that maps a page for writing only, stores and loads goes on to the next instruction on the simulator and takes a data page fault on the reference machine |
| Witnesses.StrayHalfwordDiffers | simctty/mmu.cc:121-146 | Deviation 3 happens: an eight-instruction program that maps page 0 to the serial device and stores a halfword leaves the array (undefined) on the simulator and takes a bus error on the reference machine |
| Witnesses.RemapDiffers | simctty/cpu.cc:98-122 | Deviation 4 happens: an eleven-instruction program that remaps the page it runs from executes an addition from the old frame on the simulator and a jump from the new one on the reference machine |
| Definedness.StuckExactly | simctty/cpu.cc:393-843 | For every instruction and state: behaviour leaves what C++ defines (as read under Conventions), or the process ends, if and only if it is an unaligned word load from RAM, a stray halfword store, an l.div or l.mul whose signed result does not fit 32 bits, or an access to an MMU register index that does not exist |
| Definedness.FetchUndefinedExactly | simctty/cpu.cc:98-122 | From every state: a fetch is undefined if and only if pc is unaligned and the fetch reads RAM, through the remembered page or a translation (or the cache of an IMMU that is off, which no run leaves) |
| Definedness.LoadUndefinedExactly | simctty/mmu.cc:148-171 | The same for loads: exactly unaligned words on the remembered page or translating into RAM |
| Definedness.StoreUndefinedExactly | simctty/mmu.cc:121-146 | The same for stores: exactly the stray halfword |
| Memory.LatestByteWins | simctty/ram.cc:63-98 | After every sequence of aligned 8-, 16- and 32-bit stores each address holds the byte of the latest store covering it, most significant byte first, or its original byte |
| Memory.ByteLane | simctty/ram.cc:63-72 | The host byte at address ^ 3 is the big-endian byte at the address, in bounds, for loads and stores |
| Memory.HalfLane | simctty/ram.cc:74-84 | The host halfword at address ^ 2 is the big-endian halfword at an even address, in bounds, for loads and stores |
| Memory.WordLane | simctty/ram.cc:86-91 | The host word at a 4-aligned address is the big-endian word there |
| Memory.StoreWordLane | simctty/ram.cc:93-98 | Storing a host word stores the four big-endian bytes |
| Memory.ImageLanes | simctty/ram.cc:36-42 | Filling host words lane by lane with an image is overlaying the image on the big-endian memory, unchanged elsewhere |
| Memory.GetPut | simctty/ram.cc:63-98 | A value read back at the width it was stored with is its low bytes |
| Ram.Ram.Load8 | simctty/ram.cc:63-66 | In place on the host array: reads the big-endian memory that the array represents, and stays inside it |
| Ram.Ram.Store8 | simctty/ram.cc:69-72 | In place on the host array: writes the big-endian memory that the array represents, and stays inside it |
| Ram.Ram.Load16 | simctty/ram.cc:74-78 | In place on the host array: reads the big-endian memory that the array represents, and stays inside it |
| Ram.Ram.Store16 | simctty/ram.cc:80-84 | In place on the host array: writes the big-endian memory that the array represents, and stays inside it |
| Ram.Ram.Load32 | simctty/ram.cc:86-91 | In place on the host array: reads the big-endian memory that the array represents, and stays inside it |
| Ram.Ram.Store32 | simctty/ram.cc:93-98 | In place on the host array: writes the big-endian memory that the array represents, and stays inside it |
| Ram.Ram.LoadImage | simctty/ram.cc:29-61 | Refuses an image that does not fit, changing nothing; otherwise, at any offset, writes exactly its range of host bytes, the bytes of each word reversed; at a multiple of 4 that is overlaying the image on the big-endian memory |
| Ram.Ram.CopyWords | simctty/ram.cc:36-42 | The loop, in place: every byte of the range is the byte of the image in the reversed lane, every other byte as it was |
| Mmu.Mmu.Reset | simctty/mmu.cc:25-30 | Clears all match registers and the page cache |
| Mmu.Mmu.SetIsEnabled | simctty/mmu.cc:36-39 | Sets the enable and forgets the remembered page |
| Mmu.Mmu.SetReg | simctty/mmu.cc:209-224 | Writes the control, match or translate register of a known index and forgets the remembered page |
| Mmu.Mmu.Reg | simctty/mmu.cc:226-237 | Reads the register of a known index |
| Mmu.Mmu.MapAddress | simctty/mmu.cc:239-304 | In place: answers the pure translation, refills or drops the cache as specified, says whether the result is RAM; which entries translate and which bits grant what is Permissions.MapsExactly |
| Mmu.Mmu.Load8 | simctty/mmu.cc:49-70 | Object code equals the value-level access: same value or exception, same new cache, same memory and UART |
| Mmu.Mmu.Store8 | simctty/mmu.cc:72-92 | Object code equals the value-level access: same value or exception, same new cache, same memory and UART |
| Mmu.Mmu.Load16 | simctty/mmu.cc:94-119 | Object code equals the value-level access: same value or exception, same new cache, same memory and UART |
| Mmu.Mmu.Store16 | simctty/mmu.cc:121-146 | Object code equals the value-level access: same value or exception, same new cache, same memory and UART |
| Mmu.Mmu.Load32 | simctty/mmu.cc:148-180 | Object code equals the value-level access: same value or exception, same new cache, same memory and UART |
| Mmu.Mmu.Store32 | simctty/mmu.cc:182-207 | Object code equals the value-level access: same value or exception, same new cache, same memory and UART |
| Uart.BytesConserved | simctty/uart.cc:23-143 | Over every interleaving of CPU accesses and host calls: display queue plus bytes sent equals bytes shown plus display queue, in order; likewise keys pressed and received |
| Uart.InterruptLine | simctty/uart.cc:113-128 | After every interleaving from power-on the line is (keys waiting and IER bit 0) or (IER bit 1 and the latest of transmit writes and IIR reads was a write made with IER bit 1 set) |
| Uart.ThrFlag | simctty/uart.cc:88-95 | The transmit flag is exactly that history, from any state |
| Uart.Uart.Load8 | simctty/uart.cc:23-70 | Register reads: value and side effects (receive queue popped, transmit flag cleared by IIR), DLAB included |
| Uart.Uart.Store8 | simctty/uart.cc:72-111 | Register writes, DLAB included |
| Uart.Uart.Keypress | simctty/uart.cc:130-132 | Appends a key |
| Uart.Uart.Read | simctty/uart.cc:134-143 | Takes the oldest display byte, or answers 0 and changes nothing |
| Uart.Uart.CanRead | simctty/uart.cc:145-147 | Whether the display queue has a byte |
| Uart.Uart.IsInterruptAsserted | simctty/uart.cc:113-120 | The interrupt line of the abstract state |
| Bus.Bus.Interrupts | simctty/bus.cc:48-50 | Line 2 exactly while the UART asserts its interrupt |
| Isa.DecodeEncode | simctty/assembler.cc:346-459 | For every mnemonic with in-range operands the assembled word selects that mnemonic and decodes to the same d, a, b, k, i, n, split immediates and signed offsets included |
| Isa.DecodeEncodeMasked | simctty/assembler.cc:346-459 | Whatever the operands: the assembled word decodes to the same mnemonic with registers and shift amounts modulo 32 and the displacement reduced to its 26-bit field |
| Isa.DecodedFields | simctty/cpu.cc:379-391 | Conversely every decoded legal word has in-range operands, so it is one the assembler can make and never leaves the register file |
| Assembler.SwappedBytes | simctty/bitwise.h:17-25 | The bytes of the swapped word in host order are the bytes of the word, most significant first |
| Assembler.LoadedProgramDecodes | simctty/assembler.cc:461-468 | Assemble, load, fetch, decode: every word of a loaded program decodes to the instruction it was assembled from |
| Assembler.ImageWord | simctty/assembler.cc:461-468 | Word k of an image, read big-endian, is the encoding of instruction k |
| Assembler.Assembler.AppendInstruction | simctty/assembler.cc:461-468 | The byte loop appends exactly the four big-endian bytes |
| Assembler.Assembler.Emit | simctty/assembler.cc:30-333 | A mnemonic appends the bytes of its encoding, for any register numbers, shift amounts and displacements its types admit (l.movhi, which does not mask: registers below 32) |
| Assembler.Assembler.Clear | simctty/assembler.cc:26-28 | Forgets everything assembled so far |
| Assembler.Assembler.Data | simctty/assembler.cc:341-343 | Appends a raw word |
| Assembler.Assembler.SetAddress | simctty/assembler.cc:335-339 | Appends the least number of l.nop that reaches the address, none if already there |
| System.ChunksAreOneImage | simctty/system.cc:53-60 | For every chunking: the loop leaves RAM as loading at once the concatenation of the leading chunks that fit, the rest untouched |
| System.FileLoadedWhole | simctty/system.cc:53-60 | If the file fits, as loading the whole file at once |
| System.System.LoadImage | simctty/system.cc:69-75 | Resets, sets the start address, overlays the image if it fits, returns the length; an image that fits must be whole words, since the source ends the process on others |
| System.System.LoadImageFile | simctty/system.cc:43-67 | The same in chunks, each whole words if it fits; a file that cannot be opened leaves a reset processor and RAM as it was |
| System.System.CopyChunks | simctty/system.cc:53-60 | The loop over the chunks, in place, computes the chunk function and leaves the processor alone |
| System.System.CopyNext | simctty/system.cc:57-59 | One pass: the chunk is copied at the offset or refused, and the offset moves past it either way |
| System.System.Run | simctty/system.cc:77-79 | Running the object is the reference run whenever no cycle does one of the four |
| Programs.LoadedProgramRuns | simctty/cpu.cc:98-127 | With translation off and no timer exception, a cycle at word k of a loaded program executes instruction k |
| Programs.FirstInstruction | simctty/system.cc:69-79 | After loading a program and starting it at word k, whatever came before, the first simulated cycle is the reference execution of instruction k |
| Programs.BranchReach | simctty/cpu.cc:412-437 | From any pc to any target within 2^27 bytes: the assembled l.j, l.jal or taken l.bf/l.bnf, followed by any slot instruction that completes without taking a jump or entering or leaving an exception (l.mfspr and l.mtspr included), arrives there modulo 2^32, with pc + 8 in r9 for l.jal |
| Programs.AdvanceGoes | simctty/cpu.cc:352-359 | Every instruction of any kind that lets the run go on, is not a taken jump or l.rfe and enters no exception goes on to the next instruction: in a slot to the target, with the slot over |
| Cpu.Cpu.constructor | simctty/cpu.cc:29-36 | A new processor is in the reset state of some machine on its bus |
| Cpu.Cpu.Reset | simctty/cpu.cc:41-76 | In place: the reset state |
| Cpu.Cpu.Run | simctty/cpu.cc:78-130 | In place: interrupts sampled, then the loop; end state and return value are those of the machine function |
| Cpu.Cpu.Cycle | simctty/cpu.cc:81-127 | In place: one pass of the loop |
| Cpu.Cpu.FetchInstruction | simctty/cpu.cc:98-122 | In place: cached, refilled and device fetch |
| Cpu.Cpu.SpReg | simctty/cpu.cc:148-247 | In place: the read of every special register; that it gives what was written, and after an exception what was saved, is Specials.WriteThenRead and Specials.HandlerReads |
| Cpu.Cpu.SetSpReg | simctty/cpu.cc:249-326 | In place: every writable special register, SR with its cache effects |
| Cpu.Cpu.ThrowException | simctty/cpu.cc:328-350 | In place: the exception entry |
| Cpu.Cpu.IncrementPC | simctty/cpu.cc:352-359 | In place: the next instruction |
| Cpu.Cpu.Jump | simctty/cpu.cc:361-365 | In place: the pending jump |
| Cpu.Cpu.SetCompareFlag | simctty/cpu.cc:367-373 | In place: only F |
| Cpu.Cpu.RunInstruction | simctty/cpu.cc:393-843 | In place, branch for branch: every word does what its decoded instruction does; false exactly where the source returns false. What each instruction does is said by Effects and Causes, which words it has by Formats |
| Cpu.Cpu.CheckInterrupts | simctty/cpu.cc:850-861 | In place: sampling and delivery |
| Cpu.FindFirstOne | simctty/cpu.cc:733-743 | The upward scan computes FirstOne |
| Cpu.FindLastOne | simctty/cpu.cc:752-762 | The downward scan computes LastOne |
| Permissions.MapsExactly | simctty/mmu.cc:256-281 | With the tag, an access maps if and only if its bits are set in the entry: a user load 0x40, a user store 0x80, a supervisor load 0x100 or 0x40, a supervisor store 0x200 or 0x80, a fetch in either mode 0x40 or 0x80 |
| Permissions.TaggedMapsOrFaults | simctty/mmu.cc:283-296 | With the tag, the answer is the offset in the frame of the entry or the page fault of the MMU, and no other exception |
| Permissions.UntaggedMisses | simctty/mmu.cc:253-300 | Without the tag (valid bit and page number in the match register of the page set) the answer is the miss exception of the MMU, whatever the entry permits |
| Permissions.SupervisorCoversUser | simctty/mmu.cc:265-281 | Whatever the user may access the supervisor may, at the same physical address; fetches do not depend on the mode |
| Permissions.UserBitsAlone | simctty/mmu.cc:274-280 | Two entries with the same tag, frame and 0x40 bit answer every user load alike, and with the same 0x80 bit every user store: no other bit matters to the user |
| Meaning.AluExactly | simctty/cpu.cc:709-782 | Each operation computes the one and only word that meets its description, stated without computing it: congruences modulo 2^32 for add, sub and sll, bit by bit for and, or and xor, floors for srl, sra and divu, the least or greatest set bit for ff1 and fl1, the exact signed product, the quotient toward zero; 0 for a zero divisor |
| Meaning.AddSubtract | simctty/cpu.cc:709-716 | Subtracting undoes adding, and adding undoes subtracting, for all words |
| Meaning.HoldsExactly | simctty/cpu.cc:793-832 | Each of the ten comparisons holds if and only if its answer does: equality, or a positive distance from one operand to the other (unsigned), or the same after adding 2^31 to both (signed) |
| Meaning.Trichotomy | simctty/cpu.cc:793-832 | Exactly one of below, equal and above holds, in the unsigned and in the signed order, and the other comparisons are their negations |
| Meaning.ExtendExactly | simctty/cpu.cc:508-545 | The register value is the only one with the low bits of what was read and in the range of the instruction: signed bytes and halfwords for l.lbs and l.lhs, unsigned for l.lbz and l.lhz |
| Effects.AluLeaves | simctty/cpu.cc:703-787 | A register operation that is defined leaves in its destination the answer described, changes no other register, no memory and no device, and goes on to the next instruction |
| Effects.ImmediateLeaves | simctty/cpu.cc:547-604 | An immediate operation does so for its operand: sign-extended for l.addi and l.xori, zero-extended for l.andi and l.ori, the shift amount for the shifts |
| Effects.MovHiLeaves | simctty/cpu.cc:446-451 | l.movhi: the constant in the high half, zero in the low one |
| Effects.CompareLeaves | simctty/cpu.cc:788-837 | A comparison leaves the answer in the bit of weight 0x200 of SR and every other bit and everything else as it was |
| Effects.CompareImmLeaves | simctty/cpu.cc:605-654 | So does a comparison with a constant, sign-extended for the unsigned comparisons as well |
| Effects.CompareThenBranch | simctty/cpu.cc:422-437 | l.bf or l.bnf after a comparison jumps if and only if the answer is the one it asks for |
| Effects.JumpLeaves | simctty/cpu.cc:413-421 | l.j and l.jal: the slot is next, the target pc + n modulo 2^32 is pending, and l.jal leaves the address after the slot in r9 and no other register changed |
| Effects.JumpRegisterLeaves | simctty/cpu.cc:472-480 | l.jr and l.jalr: the same with the target from the register; l.jalr links first, so through r9 it leads to the address after the slot |
| Effects.BranchLeaves | simctty/cpu.cc:422-437 | l.bf jumps if and only if the bit of weight 0x200 in SR is set, l.bnf if and only if it is clear, and either completes otherwise |
| Effects.StopsExactly | simctty/cpu.cc:438-461 | l.nop 1 in supervisor mode stops the run where it is, l.trap after moving on, both with false; any other l.nop only moves on |
| Effects.ReturnLeaves | simctty/cpu.cc:467-471 | l.rfe takes pc from EPCR and SR from ESR and changes no other register |
| Effects.ResetLeaves | simctty/cpu.cc:41-76 | After reset every register is zero but SR, which is 0x8001, nothing is pending, no TLB entry translates any address, and memory and the UART are as they were |
| Effects.LoadLeaves | simctty/cpu.cc:481-546 | A load from RAM through a readable mapping, after any run of stores through any mappings, leaves in its register the number that the latest bytes at the physical address make, as many as the instruction names, extended as it says; nothing else changes |
| Effects.SerialLoadLeaves | simctty/cpu.cc:495-520 | A byte load that maps into the UART leaves what that register reads, extended, with the side effect of reading it |
| Effects.StoreLeaves | simctty/cpu.cc:667-702 | A store to RAM leaves the bytes of its register, most significant first, as many as the instruction names, and every other byte, register and the UART as they were |
| Effects.SerialStoreLeaves | simctty/cpu.cc:679-690 | A byte store that maps into the UART stores the low byte of the register in that register of the UART |
| Specials.WriteThenRead | simctty/cpu.cc:249-326 | Every writable special register, by its address, reads back what was written, unless that cleared SR |
| Specials.OthersKept | simctty/cpu.cc:249-326 | A write leaves what every other address reads as it was, a write of SR included, as long as SR is zero neither before nor after |
| Specials.UnwritableIgnored | simctty/cpu.cc:324-326 | A write at any other address changes nothing, or ends the process if and only if it is in an MMU group without such a register |
| Specials.UnwritableReads | simctty/cpu.cc:159-212 | Those addresses read the constants of the configuration registers, and zero elsewhere |
| Specials.MtsprThenMfspr | simctty/cpu.cc:655-666 | l.mtspr to a writable register and l.mfspr from it give the value back, unless it cleared SR or let a due timer interrupt in |
| Specials.AddressBits | simctty/cpu.cc:579-579 | The address has the bits of the register and those of the constant |
| Specials.HandlerReads | simctty/cpu.cc:328-350 | After any exception EPCR reads the restart address (in a slot that of the jump), ESR the SR that was (in a slot with DSX), EEAR the effective address of the exceptions that have one, and SR 0x8001 |
| Specials.HandlerMoves | simctty/cpu.cc:575-581 | So do the l.mfspr instructions of a handler, with addresses 32, 64 and 48 |
| Specials.CycleHandlerReads | simctty/cpu.cc:78-130 | So does the handler of whatever exception a cycle takes |
| Specials.WritesArmTimer | simctty/cpu.cc:309-320 | After a word is written at 0x5000 and a count at 0x5001 the timer matches at a tick if and only if the word says mode 3 with interrupts enabled and the count then meets its period modulo 2^28; first after exactly the stated number of ticks |
| Specials.SrWriteEnables | simctty/cpu.cc:258-269 | After a write of SR, its bits 0x20 and 0x40 decide whether data and fetch addresses are translated, and its bit 1 is the mode of every access |
| Specials.WritesMakeEntry | simctty/mmu.cc:209-224 | Writing the match and translate registers of a set, by their addresses, makes the entry of the pages of the set, in either MMU |
| Specials.TimerEnable | simctty/cpu.cc:85-96 | The tick exception needs a match and the bit of weight 2 in SR; a timer interrupt is due with the bit of weight 2^28 in TTMR and that bit of SR |
| Specials.InterruptDueExactly | simctty/cpu.cc:857-857 | An interrupt is taken if and only if the bit of weight 4 is set in SR, a delivery is armed, and some line is both seen and unmasked |
| Specials.SampleSees | simctty/cpu.cc:851-855 | After a sample PICSR reads 4 if the UART asserts its line and 0 otherwise |
| Causes.LoadEnters | simctty/cpu.cc:481-546 | A load enters 0x600 for an odd halfword, 0x900 without the tag, 0x300 without the permission bits, 0x200 without a device, with the effective address in EEAR, and no handler otherwise; excepted is a word on a remembered page that this mode may not read |
| Causes.StoreEnters | simctty/cpu.cc:667-702 | A store enters 0x600 for any unaligned address, and the rest by the bits for writing; excepted is the stray halfword |
| Causes.WriteEnters | simctty/cpu.cc:660-665 | An l.mtspr after which a timer interrupt is due enters 0x500, any other completes |
| Causes.IllegalEnters | simctty/cpu.cc:838-840 | An illegal instruction enters 0x700 with its own address in EEAR |
| Causes.SysEnters | simctty/cpu.cc:455-458 | l.sys enters 0xc00, keeps EEAR, and saves the next address, in a slot its own |
| Causes.TickEnters | simctty/cpu.cc:85-95 | The tick exception comes before the fetch, enters 0x500 and keeps EEAR |
| Causes.FetchEnters | simctty/cpu.cc:98-122 | From every coherent state, remembered page or not, a fetch enters 0xa00 without the tag and 0x400 with neither execute bit, with pc in EEAR, and no handler otherwise |
| Causes.FetchReads | simctty/cpu.cc:98-122 | A fetch that enters no handler reads the four bytes in RAM at the physical address, the first counting most, and zero outside RAM |
| Causes.InterruptEnters | simctty/cpu.cc:857-859 | An interrupt that is due enters 0x800 and keeps EEAR |
| Formats.DecodeExactly | simctty/cpu.cc:375-843 | For every word and every instruction: the word decodes to it if and only if the word spells it as the manual gives its format (opcode bits of each mnemonic as a whole word, place and sign of each operand) |
| Formats.IllegalExactly | simctty/cpu.cc:838-840 | A word is illegal if and only if it spells no instruction |
| Formats.EncodeExactly | simctty/assembler.cc:30-334 | For every mnemonic and all in-range operands the assembled word is the mnemonic word of the manual plus the operands in their places |
| Uart.IdentificationBits | simctty/uart.cc:49-55 | The interrupt identification register says which source asserts the line, by its bits, and reading it acknowledges the transmitter and changes nothing else |
| Uart.StatusBits | simctty/uart.cc:60-64 | The line status register always says that the transmitter is empty, and by bit 0 whether there is a byte to read |
| Uart.StoredIsRead | simctty/uart.cc:72-111 | The interrupt enable, line control and modem control registers and, behind the latch, the two divisor bytes read what was stored |
| Uart.OtherRegistersKept | simctty/uart.cc:72-111 | A store of one register leaves what the others read |
| Uart.DivisorIsApart | simctty/uart.cc:76-85 | Opening the latch, setting the divisor and closing it leaves the data path and the interrupt enables as they were |
| Uart.SendingInterrupts | simctty/uart.cc:88-95 | Sending a byte with the transmit interrupt enabled asserts the line, reads as such, and reading that ends it |
| Words.FirstOneLeast | simctty/cpu.cc:733-743 | FirstOne is the least set bit: 2^(r-1) divides x, 2^r does not; 0 only for 0 |
| Words.LastOneGreatest | simctty/cpu.cc:752-762 | LastOne is the greatest set bit: 2^(r-1) <= x < 2^r |
| Words.BitwiseAt | simctty/cpu.cc:711-728 | The bitwise operations act on each bit by itself |
| Arithmetic.MulExact | simctty/cpu.cc:763-766 | l.mul, for every pair of operands whose signed product fits 32 bits: that product exactly, and the low word of the unsigned product |
| Arithmetic.SraFloors | simctty/cpu.cc:748-751 | l.sra: the signed operand divided by 2^n rounded down |
| Arithmetic.DivTruncates | simctty/cpu.cc:767-774 | l.div with a nonzero divisor: a remainder smaller than the divisor with the sign of the dividend, for every pair whose quotient fits 32 bits |
| Arithmetic.OverflowingDivision | simctty/cpu.cc:771-771 | That pair is exactly the one whose quotient is 2^31 |
| Restart.FaultIsPrecise | simctty/cpu.cc:481-511 | Every faulting load, store or illegal instruction leaves registers, memory and UART untouched and EPCR at itself or, in a slot, at its jump; SR, ESR, EEAR as specified |
| Restart.FetchFaultIsPrecise | simctty/cpu.cc:108-112 | So does every fetch fault |
| Restart.TimerIsPrecise | simctty/cpu.cc:81-96 | So does the tick timer exception |
| Restart.InterruptIsPrecise | simctty/cpu.cc:850-861 | So does an external interrupt |
| Restart.ResumePlain | simctty/cpu.cc:467-471 | Outside a slot: after any exception and any handler that keeps registers, EPCR and ESR, l.rfe restores pc, slot flag, registers and SR exactly |
| Restart.ResumeInSlot | simctty/cpu.cc:328-350 | In a slot: l.rfe leads back to the jump, and running it again restores registers, pc, slot and target exactly, SR up to DSX and exactly if and only if DSX was set; l.jal, l.jalr and flag branches included |
| Restart.CycleFaultTaken | simctty/cpu.cc:81-127 | Whichever exception a cycle takes, of the tick, of the fetch or of its instruction, is precise in the sense of FaultIsPrecise, and a run that it ends returns true |
| Restart.HandlerReturns | simctty/cpu.cc:467-471 | Over whole cycles: after any exception of a cycle and a handler of any number of cycles that keeps registers, EPCR and ESR, the cycle that executes l.rfe is back at the restart address with every register and SR as they were (in a slot, with DSX) |
| Restart.SlotResumed | simctty/cpu.cc:328-350 | The whole story of a slot: the cycle of a jump, a next cycle that takes any exception, a handler of any number of cycles, the cycle of l.rfe and the cycle of the jump again leave registers, pc, slot and target exactly as the first jump did, SR up to DSX |
| Restart.SystemCallReturns | simctty/cpu.cc:455-458 | After l.sys and any handler that keeps EPCR and ESR, l.rfe resumes at the instruction that was to follow if and only if l.sys was not in a slot, or its jump led to l.sys itself; in a slot it resumes at l.sys |
| Restart.DsxReport | simctty/cpu.cc:330-336 | The saved DSX bit is set if and only if the exception was in a slot or SR carried the bit already |
| Timer.AfterTicks | simctty/cpu.cc:82-89 | n ticks advance the counter by n modulo 2^32 and change nothing else but the pending bit |
| Timer.FirstMatchExact | simctty/cpu.cc:85-89 | An armed timer first matches after exactly ((TTMR - TTCR - 1) mod 2^28) + 1 ticks, from every counter value |
| Timer.MatchCount | simctty/cpu.cc:85-89 | The number of matches in n ticks is the floor of (phase + n) / 2^28 |
| Timer.PendingSticks | simctty/cpu.cc:89-89 | The pending bit is set after n ticks if and only if it was set before or some tick matched |
| Timer.RunTicks | simctty/cpu.cc:78-96 | Every run that writes neither timer register, however it ends (tick or fetch exception and a stopping instruction included), ticks the timer exactly once for each cycle it takes: n times if nothing ends it |
| Timer.TickRaisesExactly | simctty/cpu.cc:85-95 | With the timer armed at the start, the tick after j cycles raises the exception if and only if TTCR + j + 1 meets the period modulo 2^28 and TEE is set by then; up to the first match, exactly at the first match |
| Timer.TickExceptionAtMatch | simctty/cpu.cc:81-96 | A run that reaches its first match with TEE set ends there, with true and the tick exception taken before the instruction of that cycle |
| Timer.SessionTicks | simctty/cpu.cc:78-96 | Over every session that leaves the timer alone, whatever ends its runs: the timer has ticked once for every cycle taken, and is pending if and only if it was or some tick matched |
| Interrupts.CyclesKeepPic | simctty/cpu.cc:857-860 | No instruction arms or disarms a delivery, and a run that does not write PICSR leaves it as the sample set it |
| Interrupts.DeliveriesPaidByEdges | simctty/cpu.cc:850-861 | Over every session: interrupts delivered never exceed the samples that saw the lines change to a nonzero level, plus one if armed at the start |
| Interrupts.HeldLineDeliveredOnce | simctty/cpu.cc:850-861 | A held line whose edge was sampled is delivered exactly once, at the first sample where IEE and the mask admit it, and never before |
| Interrupts.EdgeDeliveredOnce | simctty/cpu.cc:850-861 | From the edge on: a line that rises at the sample of a run and is then held is delivered exactly once over the session, at the first sample, that one or a later one, that admits it, and never if none does |
| Interrupts.SteadyIsHeld | simctty/cpu.cc:850-855 | If the lines keep their level at every sample, no program writes PICSR and no image is loaded, PICSR shows that level at every sample |
| Interrupts.SteadyLineDeliveredOnce | simctty/cpu.cc:850-861 | From what a caller controls alone: a line that rises at a sample and keeps its level at every later one, PICSR not written, is delivered exactly once, at the first sample that admits it, and never if none does |
| Interrupts.EdgeArms | simctty/cpu.cc:851-860 | The sample that sees an edge arms a delivery, or takes it at once exactly if admitted |
| Alignment.AlignedExactly | simctty/cpu.cc:412-480 | An instruction keeps pc, pending target and EPCR multiples of 4 if and only if it neither jumps through an unaligned register nor writes an unaligned EPCR that no timer exception overwrites at once |
| Alignment.StaysAlignedExactly | simctty/cpu.cc:78-130 | For every number of cycles they stay multiples of 4 throughout if and only if no cycle brings in such a value |
| Alignment.RunAligned | simctty/cpu.cc:78-130 | So every Run, the interrupt sample that opens it included, ends aligned if its cycles bring in no such value |
| Alignment.CyclesAligned | simctty/cpu.cc:81-129 | The same for the loop alone |
| Alignment.SessionAligned | simctty/cpu.cc:78-130 | The same over every session of runs, keys, display reads and image loads that start at aligned addresses |
| Alignment.DecodedOffset | simctty/cpu.cc:387-387 | Every decoded jump displacement is a multiple of 4 |
| Alignment.VectorAligned | simctty/exception.h:35-51 | Every exception vector is a multiple of 4 |

## Left out

- Cpu.Cpu.RunInstruction: requires that the instruction is not one of those `Definedness.StuckExactly` lists, where the C++ has no defined behaviour to model.
- Mmu.Mmu.SetReg: requires a known index, since the source ends the process on others; so does Mmu.Mmu.Reg.
- Alignment of loaded images: an image at an offset that is not a multiple of 4 is modelled byte by byte (Ram.Ram.LoadImage), not as big-endian words, which it is not.
- Assembler.Assembler.Emit: `l.movhi` with a register above 31 is not modelled; its encoder does not mask the register, which spills into the opcode.
- Assembler mnemonic methods: one method `Emit` on an instruction value stands for all of them, which differ only in the constants passed on.
- `RunInstruction` is split into one method per group of opcodes, and each MMU or processor call into small methods, in the order of the source.
- Enum members for exceptions that nothing raises (reset, range, floating point, trap) and their vectors.
- Warnings on stderr, hit and miss statistics, verbose flags, `MMU::Print`, `RAM::DumpU8`: no effect on behaviour.
- The command line, web and terminal front ends, and file input and output themselves.
- The widths of host counters (`size_t` cycles and lengths), which are unbounded here.
- Big-endian hosts, where the swap macro is the identity.
- The speed loops under simctty/ (mmu_test.cc, ram_test.cc, test_main.cc) and the vendored test library.
