# Verified models of the emulator's hard parts

Dafny models of the Nintendo 64 emulator's trickiest state machines and arithmetic, with
machine-checked proofs about every input, every run or every reachable state. `dafny verify
dfyconfig.toml` checks the whole project.

**The block cache and the interpreter** (`Memory`, `Translation`, `Blocks`, `BlockCache`,
`Processor`, `Coherence`, `Refinement`, `CachedExecution`, `Bus`, `Cpu`, `CoherentRuns`,
`IdleLoop`, `Limits`, `Divergence`). The processor runs whole cached blocks of instructions
instead of fetching and translating each word. The interpreter is a function `Step` on machine
states and the cached run a function `CachedRun` on machine and cache; a class `Cpu` updates
registers, TLB, program counters and cache in place. The main results:

- `Cpu.Run`: the loops over lookup, compilation and `ExecuteBlock` are `CachedRun` on every
  input. From a current cache, and for every run that meets the conditions of `Coherence.StepOk`,
  they end in exactly the state that as many interpreter steps reach, in every field, and count
  the same cycles. Interrupts and traps from any mode are included.
- `CoherentRuns.NeverStale`: after any history of interpreter steps, executed words,
  compilations, bus writes and device transfers, every cached block is what compiling its address
  in kernel mode would build at that moment. Self-modifying code, COP0 moves, stale words that a
  block still runs, and changes of mode are all allowed.
- `BlockCache.Invalidate`: on every cache, exactly which blocks a write drops, by a look-back
  window for direct-mapped slots and a reverse list that shrinks while it is walked; these are
  exactly the blocks that overlap the write unless a block is both unaligned and of all 33 words.
- `Limits`: for each kind of failure, an equivalence that says where it begins: alignment (of the
  program counter and of the look-back), RDRAM mirrors, a store into the running block, a move of
  the context inside a block, a delay slot in another frame, the privilege mode. `Divergence`
  has, for each of the six, a machine on which `CachedRun` and `Step` part. `IdleLoop` has a
  program that meets every condition for ever.

**Instructions** (`Bits`, `StoredBytes`, `InstructionLaws`, `SystemLaws`): what a step does to
registers, program counters, memory and coprocessor, from the bits of the word fetched and
without reference to how the interpreter computes it.

**Translation and exceptions** (`Translation`, `PageSizes`, `Exceptions`, `RandomRegister`):
page-local translation that agrees with TLBP, what an entry of each page size maps, precise
exceptions with their causes over whole runs up to the return from the handler, which reaches the
interrupted address if and only if that is below 2^32, and the walk of Random above Wired over
runs of the interpreter. The reference is the NEC VR4300 User's Manual, chapters 5 and 6.

**RSP arithmetic** (`RspDivision`, `RspEstimates`, `RspMultiply`, `MultiplyLaws`): the bitwise
square root, the reconstructed reciprocal table, error bounds of VRCP and VRSQ for every operand,
and the 16.16 product built from multiply-accumulate instructions on 48-bit accumulators, down to
the vector registers. The reference is the SGI RSP Programmer's Guide 1.1.

**Audio** (`AudioRing`, `AudioDma`, `AudioSamples`, `AudioInterface`): the lock-free ring as two
threads of atomic steps under every interleaving, the one-active, one-queued DMA that plays every
accepted transfer whole and in order under all its events, and the object whose loops are proved
equal to closed forms.

**Video, drawing, multiplication** (`Video`, `FillRect`, `Multiply`): line and frame timing that
does not depend on how cycles are batched, fill rectangles as an exact update of memory, and the
portable 64 by 64 bit product.

Machine words are bounded integers (`Words`); shifts and masks by constants are written as
divisions and remainders, and wrap-around is written out. Methods that update state are proved
equal to functions of the old state; the theorems are lemmas about those functions.

Where the code and its comments differ, the code is followed. The comment beside the default of
5963 cycles per line (`include/n64/vi/vi.hpp:57`) derives it from 262 lines a frame, but the line
counter advances by two, so with the default of 262 a frame takes 132 line steps
(`Video.OneInterruptPerFrame`) and only a V_SYNC of about 525 gives 60 Hz. The comment on the
reset value of Status (`src/cpu/cpu.cpp:248`) says that BEV is set, but 0x34000000 has that bit
clear, so exceptions after reset take the vectors in RAM.

## Model

| member | source | states |
|---|---|---|
| PhysicalMemory.ReadOwnWrite | src/bus/bus.cpp:517-534 | a 32-bit write inside one copy of RDRAM is read back as the same word, through the big-endian bytes |
| PhysicalMemory.Write8ChangesOnly | src/bus/bus.cpp:426-477 | a byte write changes no byte but its own, and nothing above the RDRAM window |
| PhysicalMemory.Write16ChangesOnly | src/bus/bus.cpp:479-515 | a halfword write changes at most its two bytes, by the fast path or byte by byte |
| PhysicalMemory.Write32ChangesOnly | src/bus/bus.cpp:517-557 | a word write changes at most its four bytes, by the fast path or byte by byte |
| PhysicalMemory.Write64ChangesOnly | src/bus/bus.cpp:559-575 | a doubleword write changes at most its eight bytes, by the fast path or as two words |
| PhysicalMemory.ReadFrame | src/bus/bus.cpp:194-284 | a word outside the written range, or above RDRAM, reads the same before and after |
| StoredBytes.Write16ReadsBack | src/bus/bus.cpp:479-515 | a halfword anywhere in the RDRAM window is stored upper byte first, by the fast path or across the end of a copy |
| StoredBytes.Write32ReadsBack | src/bus/bus.cpp:517-557 | a word anywhere in the window is read back, byte by byte and as a word, on either path |
| StoredBytes.Write64ReadsBack | src/bus/bus.cpp:559-575 | a doubleword anywhere in the window is stored upper word first, on either path |
| StoredBytes.Read32Bytes | src/bus/bus.cpp:246-284 | a word read is its four bytes, the first the most significant, by the fast path or byte by byte |
| StoredBytes.ImageBytes | src/bus/bus.cpp:207-221 | cartridge and boot ROM are read from their first byte at their base addresses, and as zero past their last |
| Translation.FirstMatch | src/cpu/cpu.cpp:436-447 | the search result is the first matching TLB entry: it matches and none before it does |
| Translation.FirstMatchPage | src/cpu/cpu.cpp:436-447 | addresses of one 4 KiB page select the same TLB entry, whatever the page masks |
| Translation.EntryTranslationPage | src/cpu/cpu.cpp:449-467 | one entry gives two addresses of a page the same fault, or the same frame with the low 12 bits passed through |
| Translation.TranslatePageLocal | src/cpu/cpu.cpp:411-470 | translation is page-local in every segment and mode: same fault, or same frame and the low 12 bits of the address |
| Translation.AlignedFrame | src/cpu/cpu.cpp:411-470 | a word-aligned virtual address that translates gives a word-aligned physical address |
| Translation.Translates29 | src/cpu/cpu.cpp:463-466 | every physical address produced fits the 29-bit bus |
| Translation.TranslateByMode | src/cpu/cpu.cpp:411-434 | for every address, a mode translates as kernel mode does where it may use the address and gets an address error elsewhere |
| Translation.ProbeAgreesWithTranslate | src/cpu/cpu.cpp:1689-1706 | in mapped segments TLBP fails if and only if translation reports a TLB miss, and otherwise names the entry translation uses |
| PageSizes.EntryCovers | src/cpu/cpu.cpp:436-447 | for each of the seven page sizes an entry matches exactly the addresses of its pair of pages, for its own ASID or when both halves are global |
| PageSizes.EntryMaps | src/cpu/cpu.cpp:449-466 | the bit above the offset chooses the half, V and D decide the fault, and the result is the frame rounded down to the page size plus the offset, in 29 bits |
| PageSizes.TranslatesBy | src/cpu/cpu.cpp:411-469 | a mapped address is translated by the first entry that covers it, at that entry's page size |
| PageSizes.Segments | src/cpu/cpu.cpp:411-434 | user, supervisor and kernel mode get address errors for exactly the addresses outside their segments, and a miss means that no entry matches |
| Blocks.Straight | src/cpu/block_cache.cpp:124-155 | the line compiled from an address holds at most the budget of words and one delay slot, and is not empty when the address translates |
| Blocks.NextTranslates | src/cpu/block_cache.cpp:150-154 | inside a page the next instruction translates to the next physical word, so stopping at page ends keeps a line contiguous |
| Blocks.StraightReadsMemory | src/cpu/block_cache.cpp:124-155 | word i of a contiguous line is the memory word at the physical start plus 4*i |
| Blocks.StraightFrame | src/cpu/block_cache.cpp:124-155 | memories that agree on the words of a line compile to the same line, ending the same way |
| Blocks.StraightUntouched | src/cpu/block_cache.cpp:180-204 | a write that misses a line's bytes leaves what would be compiled unchanged |
| Blocks.StraightByMode | src/cpu/block_cache.cpp:124-155 | two modes that may use an address compile the same line there if and only if they agree on whether its delay slot is within reach |
| Blocks.SlotPlace | src/cpu/block_cache.cpp:133-141 | a delay slot is the next physical word, or starts another frame after a branch that ends its page; it is the last word compiled either way |
| BlockCaching.DirectIndex | src/cpu/block_cache.cpp:171-174 | a KSEG0 or KSEG1 block's slot index is its physical word index modulo the table |
| BlockCaching.DirectCandidate | src/cpu/block_cache.cpp:189-196 | a direct-mapped block that is word aligned or at most 32 words long and overlaps a write starts at most 32 words before it and not after its end |
| BlockCaching.FindableDropped | src/cpu/block_cache.cpp:180-219 | for a block that is word aligned or at most 32 words long, being found by one of the two passes is the same as overlapping the write |
| BlockCaching.InvalidateFindable | src/cpu/block_cache.cpp:180-219 | on such blocks invalidation removes exactly those that overlap the write |
| BlockCaching.MarkKeeps | src/cpu/block_cache.cpp:74-79 | appending an unlisted slot keeps back pointers and list in agreement |
| BlockCaching.UnmarkKeeps | src/cpu/block_cache.cpp:81-91 | swap-remove unlists exactly one slot, changes only back pointers and keeps the list consistent in both directions |
| BlockCaching.DropKeeps | src/cpu/block_cache.cpp:93-100 | dropping a slot removes exactly its block, restores "listed iff valid and not direct-mapped" and lowers the count of blocks by one |
| BlockCaching.FillKeeps | src/cpu/block_cache.cpp:161-170 | filling a slot maps it to the new block and raises the count exactly when the slot was free |
| BlockCaching.AllListed | src/cpu/block_cache.cpp:172-177 | every valid slot is direct-mapped or on the reverse list |
| BlockCaching.CompileStep | src/cpu/block_cache.cpp:124-155 | one turn of the compile loop: the line ends here in one of its ways, or what is collected and what is left still make the whole line |
| BlockCaching.Swept | src/cpu/block_cache.cpp:180-219 | when the walk has left no listed overlapping block, what remains is exactly what invalidation leaves: for every block, direct-mapped or listed, in the window or not |
| BlockCaching.BlockCache.constructor | src/cpu/block_cache.cpp:69-70 | a new cache is consistent and holds no block |
| BlockCaching.BlockCache.MarkPhysicallyAliased | src/cpu/block_cache.cpp:74-79 | a listed slot is left alone; an unlisted one is appended and points at its place |
| BlockCaching.BlockCache.UnmarkPhysicallyAliased | src/cpu/block_cache.cpp:81-91 | table and list become the swap-removed ones, whatever the slot's place in the list |
| BlockCaching.BlockCache.InvalidateSlot | src/cpu/block_cache.cpp:93-100 | the cache loses exactly that slot's block and stays consistent, list and count included |
| BlockCaching.BlockCache.Lookup | src/cpu/block_cache.cpp:102-111 | a hit is the block whose full address was asked for, and each call counts one hit or one miss |
| BlockCaching.BlockCache.Clear | src/cpu/block_cache.cpp:221-229 | the cache is empty and consistent |
| BlockCaching.BlockCache.Install | src/cpu/block_cache.cpp:161-178 | the block replaces whatever occupied its slot, no other slot changes, and list and count stay right |
| BlockCaching.BlockCache.ListIfAliased | src/cpu/block_cache.cpp:170-177 | a freshly filled slot ends up listed if and only if it is not direct-mapped |
| BlockCaching.BlockCache.Compile | src/cpu/block_cache.cpp:113-178 | the loop builds exactly the specified block at any address, aligned or not, fails exactly when the address does not translate, and stores it |
| BlockCaching.BlockCache.SweepCandidates | src/cpu/block_cache.cpp:187-203 | the first pass drops exactly the overlapping blocks in the slots from 32 words before the range to its end, wherever in the table they wrap to |
| BlockCaching.BlockCache.SweepAliased | src/cpu/block_cache.cpp:205-218 | the walk that removes while iterating terminates having visited every listed slot, and leaves exactly what invalidation leaves |
| BlockCaching.BlockCache.Invalidate | src/cpu/block_cache.cpp:180-219 | on every cache the blocks lost are exactly the overlapping ones that are listed or in the window; where every block is word aligned or at most 32 words long that is exactly the overlapping blocks; size zero and sizes from the full-clear threshold on empty the cache |
| Coherence.BranchDecodersAgree | src/cpu/block_cache.cpp:9-39 | the words the block cache follows with a delay slot are exactly those the interpreter executes as branches and jumps |
| Coherence.ExecuteKeepsTranslation | src/cpu/cpu.cpp:258-301 | an instruction that does not empty the cache leaves TLB and ASID as they were, exceptions included |
| Coherence.ExecuteMemory | src/cpu/cpu.cpp:702-707 | memory changes only by a store that does not fault, and then by one word at its target |
| Coherence.WordEffects | src/cpu/cpu.cpp:937-1001 | a whole instruction either empties the cache or keeps the translation state, and changes memory at most by its store |
| Coherence.ContextKept | src/cpu/cpu.cpp:258-301 | a word that raises nothing and is no move of the context keeps TLB, ASID and mode |
| Coherence.UpToDateFrame | src/cpu/block_cache.cpp:180-204 | a block that a write does not overlap is still what compiling its address would build |
| Coherence.WriteKeepsCoherence | src/bus/bus.cpp:577-585 | any change of memory followed by its invalidation keeps every cached block current |
| Coherence.CoherentFindable | src/cpu/block_cache.cpp:189-196 | in a current cache every block is word aligned, so invalidation misses none |
| Coherence.WordKeepsCoherence | src/cpu/cpu.cpp:955-1001 | executing any word whatever, stale or not, keeps every cached block current |
| Coherence.StepKeepsCoherence | src/cpu/cpu.cpp:916-1001 | one interpreter step keeps every cached block current: stores anywhere outside the mirrors, into the running line too, COP0 moves, TLB writes, traps, interrupts, ERET, any mode change, any word |
| Refinement.OnTrackFetches | src/cpu/cpu.cpp:327-370 | in the middle of an up-to-date block the word the interpreter would fetch is the cached one |
| Refinement.MoveKeepsLine | src/cpu/cpu.cpp:356-403 | after a move of the context that finds the same line in the new context, what is left of the block is still what memory holds |
| Refinement.StoreKeepsLine | src/cpu/cpu.cpp:356-403 | after a store that misses or repeats the rest of its line, the rest is still what memory holds |
| Refinement.SettledIsUpToDate | src/cpu/cpu.cpp:307-310 | a block compiled from a line that can be cached is current, in its mode and in kernel mode |
| Refinement.HitIsUpToDate | src/cpu/block_cache.cpp:102-111 | a hit that kernel mode could have compiled is what the current mode would compile, where its line can be cached |
| Refinement.OnTrackNext | src/cpu/cpu.cpp:332-403 | the block stays valid for its own remaining words as long as control moves to the next one |
| Refinement.BlockStep | src/cpu/cpu.cpp:338-379 | a step inside a block is the pending interrupt or the cached word |
| Refinement.StepsCount | src/cpu/cpu.cpp:303-325 | n steps count n cycles and leave the halted flag alone |
| Refinement.InstallKeepsCoherence | src/cpu/block_cache.cpp:161-178 | storing a current block keeps the whole cache current |
| CachedExecution.BlockAdvance | src/cpu/cpu.cpp:356-403 | executing the cached word without fetching it is the next interpreter step, keeps the cache current, and the block stays right for its next word |
| CachedExecution.BlockRefines | src/cpu/cpu.cpp:327-405 | a block run from any of its words is as many interpreter steps, interrupts and early exits included |
| CachedExecution.FindRefines | src/cpu/cpu.cpp:307-310 | lookup or compilation yields exactly what a fresh compilation would, and keeps the cache current |
| CachedExecution.TurnRefines | src/cpu/cpu.cpp:306-322 | one turn of the run loop, a block or a single step, is as many interpreter steps |
| CachedExecution.CachedRunRefines | src/cpu/cpu.cpp:303-325 | the cached run of n instructions ends where n interpreter steps end, from any current cache, for any run that meets `StepOk` |
| SystemBus.AlignedWrite32 | src/bus/bus.cpp:517-557 | on an aligned word the four byte-wise notifications drop nothing the first one left |
| SystemBus.Write8Coherent | src/bus/bus.cpp:426-477 | a byte write with its notification leaves no stale block |
| SystemBus.Write16Coherent | src/bus/bus.cpp:479-515 | a halfword write with its notifications leaves no stale block |
| SystemBus.Write32Coherent | src/bus/bus.cpp:517-557 | a word write with its notifications leaves no stale block |
| SystemBus.Write64Coherent | src/bus/bus.cpp:559-575 | a doubleword write with its notifications leaves no stale block |
| SystemBus.Bus.NotifyMemoryWrite | src/bus/bus.cpp:577-585 | the cache loses the overlapping blocks; skipping the call on an empty cache changes nothing, and size zero is ignored |
| SystemBus.Bus.Write8 | src/bus/bus.cpp:426-477 | memory and cache after the call are the specified functions of those before |
| SystemBus.Bus.Write16 | src/bus/bus.cpp:479-515 | memory and cache after the call are the specified functions of those before |
| SystemBus.Bus.Write32 | src/bus/bus.cpp:517-557 | memory and cache after the call are the specified functions of those before |
| SystemBus.Bus.Write64 | src/bus/bus.cpp:559-575 | memory and cache after the call are the specified functions of those before; `StoredBytes` says what is stored |
| CoherentRuns.ApplyKeeps | src/bus/bus.cpp:517-585 | each kind of event keeps every cached block current, the execution of an arbitrary word included |
| CoherentRuns.NeverStale | src/cpu/cpu.cpp:303-325 | after any history of steps, arbitrary executed words, compilations, bus writes, device transfers and clears, every cached block is in its slot and is what compiling its address in kernel mode would build then; nothing is asked of where stores go, of COP0 moves, traps or modes, mirrors excepted |
| CoherentRuns.CachedWordsAreMemory | src/cpu/block_cache.cpp:102-111 | starting from an empty cache, every block found later is in the slot of its address, still translates to its frame in each mode that may use the address, and each of its words is the memory word there |
| IdleLoop.IdlesForEver | src/cpu/cpu.cpp:303-325 | an idle loop of a jump and its delay slot meets every condition on runs for any number of steps, so the theorems about runs are not empty |
| IdleLoop.IdleMachine | src/cpu/cpu.cpp:229-256 | a machine running that loop exists |
| Interpreter.Cpu.constructor | src/cpu/cpu.cpp:229-256 | a new processor is in the reset state, with the cache enabled |
| Interpreter.Cpu.TranslateAddress | src/cpu/cpu.cpp:411-470 | the search loop returns the specified translation or fault; `PageSizes` says what that is |
| Interpreter.Cpu.TlbProbe | src/cpu/cpu.cpp:1689-1706 | Index becomes the first matching entry, or the failure bit |
| Interpreter.Cpu.RaiseException | src/cpu/cpu.cpp:557-612 | EPC, BD, Cause, BadVAddr, Context, EntryHi, EXL and the vector become the specified ones, and nothing else changes |
| Interpreter.Cpu.RaiseTranslationFault | src/cpu/cpu.cpp:484-502 | each fault raises its exception code for loads and stores, only a miss at the refill vector |
| Interpreter.Cpu.CheckInterrupts | src/cpu/cpu.cpp:541-551 | an interrupt is raised if and only if one is pending, enabled, and neither EXL nor ERL is set |
| Interpreter.Cpu.AdvanceCount | src/cpu/cpu.cpp:520-531 | Count advances modulo 2^32, the timer bit is set on a match, Random moves on |
| Interpreter.Cpu.Fetch | src/cpu/cpu.cpp:618-633 | the word at the program counter, or the address or translation exception and no word |
| Interpreter.Cpu.LoadWord | src/cpu/cpu.cpp:673-679 | the sign-extended word is written, or the exception taken and no register changed |
| Interpreter.Cpu.StoreWord | src/cpu/cpu.cpp:702-707 | memory gets the word and the cache loses what it overlaps, or the exception is taken and neither changes |
| Interpreter.Cpu.SetCop0 | src/cpu/cpu.cpp:258-301 | each register takes its writable bits, with the side effects on Random and Cause; EntryHi and Status empty the cache and no other does |
| Interpreter.Cpu.TlbReadIndexed | src/cpu/cpu.cpp:1671-1678 | the four registers take the entry and the cache is emptied |
| Interpreter.Cpu.TlbWriteIndexed | src/cpu/cpu.cpp:1680-1687 | the indexed entry takes the masked registers, no other entry changes, and the cache is emptied |
| Interpreter.Cpu.Eret | src/cpu/cpu.cpp:1791-1822 | execution goes to ErrorEPC or EPC with the matching level cleared, without a delay slot |
| Interpreter.Cpu.ExecuteCop0 | src/cpu/cpu.cpp:1708-1772 | the modelled COP0 instructions, MFC0, DMFC0, MTC0 and DMTC0 among them, act as specified on processor and cache, or raise coprocessor unusable |
| Interpreter.Cpu.Execute | src/cpu/cpu.cpp:1007-1010 | dispatch performs the specified instruction on registers, memory and cache; `InstructionLaws` and `SystemLaws` say what that is |
| Interpreter.Cpu.ExecuteRegisters | src/cpu/cpu.cpp:1007-1010 | the instructions that reach neither memory nor the cache act as specified and leave both alone |
| Interpreter.Cpu.ExecuteAndSequence | src/cpu/cpu.cpp:955-1001 | the instruction with its program-counter sequencing, delay slot and exception exit is the specified step of a word |
| Interpreter.Cpu.Step | src/cpu/cpu.cpp:916-1001 | one call is one specified step of the whole machine, and the cache changes as specified; `InstructionLaws` and `SystemLaws` say what that is |
| Interpreter.Cpu.InterruptRequested | src/cpu/cpu.cpp:339-342 | the inlined test in block execution agrees with the interpreter's interrupt condition |
| Interpreter.Cpu.ExecuteBlock | src/cpu/cpu.cpp:327-405 | on every input, block and state the loop does exactly the specified run of the block: where it stops, after how many steps, and what is left of the cache |
| Interpreter.Cpu.LookUpOrCompile | src/cpu/cpu.cpp:307-310 | the block found and the cache left are those of the specified lookup, hit or miss |
| Interpreter.Cpu.RunTurn | src/cpu/cpu.cpp:306-322 | one turn of the loop is the specified turn: a block only when it fits the budget, else a single step |
| Interpreter.Cpu.Run | src/cpu/cpu.cpp:303-325 | on every input run(n) is the specified cached run; from a current cache and for runs that meet `StepOk` it ends where n interpreter steps end, in every field, returns n unless halted, adds that many cycles and keeps the cache current |
| InstructionLaws.BranchOnEqual | src/cpu/cpu.cpp:1026-1075 | BEQ, BNE and their likely forms go to the delay slot and then to pc + 4 + 4 * offset exactly when the registers are equal, or differ, and otherwise past the slot, executed or, if likely, skipped |
| InstructionLaws.BranchOnSign | src/cpu/cpu.cpp:1040-1091 | BLEZ, BGTZ and their likely forms likewise, by the register as a signed number |
| InstructionLaws.BranchOnNegative | src/cpu/cpu.cpp:1596-1665 | BLTZ, BGEZ and their likely and linking forms likewise; the linking ones leave pc + 8 in r31, taken or not |
| InstructionLaws.BranchReaches | src/cpu/cpu.cpp:981-996 | once a quiet slot has been executed, a branch is at its target if taken and at pc + 8 if not |
| InstructionLaws.JumpInRegion | src/cpu/cpu.cpp:1012-1024 | J and JAL go to a word of the 256 MB region the jump lies in, after the slot; JAL leaves pc + 8 |
| InstructionLaws.JumpToRegister | src/cpu/cpu.cpp:1359-1368 | JR and JALR go where the register said before the link, which JALR puts in rd, or in r31 for r0 |
| InstructionLaws.AddsImmediate | src/cpu/cpu.cpp:1102-1106 | ADDIU writes the sum modulo 2^32 with the signed immediate, sign-extended, and no other register |
| InstructionLaws.AddsOrOverflows | src/cpu/cpu.cpp:1093-1101 | ADDI does the same, but raises an overflow exactly when the signed 32-bit sum does not fit |
| InstructionLaws.AddsRegisters | src/cpu/cpu.cpp:1486-1488 | ADDU writes the sum of the registers modulo 2^32, sign-extended |
| InstructionLaws.LoadsUpper | src/cpu/cpu.cpp:1122-1124 | LUI writes the immediate times 2^16, sign-extended |
| InstructionLaws.LoadsWord | src/cpu/cpu.cpp:673-679 | LW writes the sign-extended big-endian word at register plus offset, or raises what that address asks for |
| InstructionLaws.StoresWord | src/cpu/cpu.cpp:702-707 | SW stores the low half of the register big-endian at register plus offset and changes no other byte, or raises what that address asks for |
| InstructionLaws.StoreThenLoad | src/cpu/cpu.cpp:673-707 | SW and then LW at one RDRAM address give back the low half of the register, sign-extended, through any mapping |
| InstructionLaws.Traps | src/cpu/cpu.cpp:1370-1375 | SYSCALL and BREAK raise exceptions 8 and 9 and do nothing else |
| SystemLaws.InterruptTaken | src/cpu/cpu.cpp:541-551 | a step takes an interrupt exactly when IE is set, EXL and ERL are clear, some bit k from 8 to 15 is set in both Cause and Status, and no delay slot is due |
| SystemLaws.Unusable | src/cpu/cpu.cpp:512-518 | outside kernel mode without bit 28 of Status every coprocessor word raises exception 11 |
| SystemLaws.MovesFrom | src/cpu/cpu.cpp:1716-1725 | MFC0 writes the register sign-extended and DMFC0 zero-extended |
| SystemLaws.MovesTo | src/cpu/cpu.cpp:258-301 | MTC0 and DMTC0, bit by bit: writable bits are taken, read-only ones kept, the others zero; Count goes on from the value moved, a move to Compare acknowledges the timer, no other register changes |
| SystemLaws.WritesEntry | src/cpu/cpu.cpp:1680-1687 | TLBWI and TLBWR put what an entry can hold of the four registers into the entry of Index or Random, and no other entry changes |
| SystemLaws.WriteThenRead | src/cpu/cpu.cpp:1671-1687 | TLBWI and then TLBR bring the four registers back, as far as an entry can hold them |
| SystemLaws.Probes | src/cpu/cpu.cpp:1689-1706 | TLBP leaves in Index the first entry that matches EntryHi, or bit 31 alone |
| SystemLaws.Returns | src/cpu/cpu.cpp:1791-1822 | ERET goes to ErrorEPC and clears ERL if that is set, and otherwise to EPC and clears EXL; no other bit of Status changes |
| SystemLaws.ContextMeans | src/cpu/cpu.cpp:411-435 | addresses are translated by the TLB, the low byte of EntryHi and the mode: kernel while EXL or ERL is set, and otherwise bits 3 and 4 of Status as a number |
| SystemLaws.BootsFromRom | src/cpu/cpu.cpp:229-256 | the first word executed after reset is the first word of the boot ROM, in kernel mode with the coprocessor usable |
| InstructionLaws.BlockEnds | src/cpu/block_cache.cpp:9-65 | the words that end a block, with a delay slot and without, by the fields of the word |
| Exceptions.RaisePrecise | src/cpu/cpu.cpp:557-612 | raising any exception leaves registers, TLB and memory of the faulting instruction, records its cause and address and goes to its vector, with EPC and BD recorded only if EXL was clear |
| Exceptions.ExecuteRaises | src/cpu/cpu.cpp:1007-1010 | an instruction that raises an exception does nothing else, and which one it raises depends on the word and the failing access alone |
| Exceptions.StepPrecise | src/cpu/cpu.cpp:916-978 | every step that takes an exception, at fetch, in execution or for an interrupt, leaves the precise state of its own cause: EPC and BD, ExcCode, pending interrupts, BadVAddr, Context and EntryHi for the codes that have them, EXL, the vector by BEV and refill, and every other COP0 register but the counters as it was |
| Exceptions.NeverInDelaySlot | src/cpu/cpu.cpp:997-1001 | between the steps of any run the delay-slot mark is clear |
| Exceptions.PendingFromBranch | src/cpu/cpu.cpp:985-990 | a pending branch after a step means that step executed a branch or jump at the address before |
| Exceptions.DelaySlotExceptionNamesItsBranch | src/cpu/cpu.cpp:566-574 | in every run an exception in a delay slot sets BD and EPC names the branch just executed |
| Exceptions.EpcSurvivesHandler | src/cpu/cpu.cpp:566-574 | EPC survives any stretch of a handler that keeps EXL set and does not write it |
| Exceptions.EretResumes | src/cpu/cpu.cpp:1791-1822 | ERET with ERL clear resumes at EPC, outside a delay slot, with EXL clear |
| Exceptions.HandlerReturns | src/cpu/cpu.cpp:1791-1822 | over exception, handler and ERET, execution resumes at the low 32 bits of the interrupted address (the branch, for a delay slot), and so at that address if and only if it is below 2^32 |
| Exceptions.HighCallerLost | src/cpu/cpu.cpp:1791-1822 | a caller above 2^32 in a sign-extended KSEG0 address: SYSCALL and ERET come back to the zero-extended address instead |
| Exceptions.HighCallerExists | src/cpu/cpu.cpp:566-574 | such a machine exists |
| RandomRegister.RandomInRange | src/cpu/cpu.cpp:520-531 | Random stays in [Wired, 31] in every run from reset or from any state where it lies there, writes to Wired included |
| RandomRegister.StepWiredEntry | src/cpu/cpu.cpp:1680-1687 | a step changes a TLB entry below Wired only by TLBWI on that entry |
| RandomRegister.WiredEntrySurvives | src/cpu/cpu.cpp:1744-1746 | over whole runs, TLBWR never changes an entry below Wired |
| RandomRegister.StepWalks | src/cpu/cpu.cpp:526-530 | a step that does not write Wired moves Random down by one, wrapping to 31, and keeps Wired, whatever it executes or raises |
| RandomRegister.RandomWalk | src/cpu/cpu.cpp:526-530 | a closed form for Random after n interpreter steps in which nothing writes Wired |
| RandomRegister.RandomVisitsAll | src/cpu/cpu.cpp:526-530 | in 32 - Wired such steps Random takes every value from Wired to 31 and is back where it was |
| Limits.AlignmentExact | src/cpu/block_cache.cpp:113-116 | the first word of a block does what the interpreter does if and only if the program counter is word aligned, or the word is a load from the program counter itself and so raises the same address error: compilation lacks the check of the fetch |
| Limits.WindowExact | src/cpu/block_cache.cpp:189-196 | every write that overlaps a block drops it if and only if the block is on the reverse list, word aligned or at most 32 words long, for blocks of every length |
| Limits.MirrorWriteExact | src/bus/bus.cpp:527-534 | a changing write to a word of a cached block, through any copy of RDRAM and for a block compiled from any copy, drops the block or leaves it right if and only if both are the same copy |
| Limits.SelfStoreExact | src/cpu/cpu.cpp:356-403 | the words a block has still to execute match memory after its own store if and only if the store misses them or changes nothing |
| Limits.OnlyMoves | src/cpu/block_cache.cpp:41-65 | the words inside a block that may change the context are DMTC0 to EntryHi or Status and the odd encodings of ERET, and no others |
| Limits.MoveExact | src/cpu/cpu.cpp:1730-1733 | after any of these words the next cached word is the one the interpreter fetches if and only if the new context maps the next address to a frame holding the same word; in KSEG0 and KSEG1, if and only if the mode is still kernel |
| Limits.DirectMove | src/cpu/cpu.cpp:1730-1733 | in KSEG0 and KSEG1, short of their last page, a move that stays in kernel mode, such as one to a new ASID, meets the condition on runs |
| Limits.SlotFrameExact | src/cpu/block_cache.cpp:133-141 | a changing write to a delay slot drops the block or leaves it right if and only if the line is contiguous, for blocks of any length |
| Limits.ModeExact | src/cpu/cpu.cpp:411-434 | a block right in one mode is right in another if and only if the other may use its address and both agree on whether its delay slot is within reach, for every segment and pair of modes |
| Limits.KernelEntryExact | src/cpu/cpu.cpp:411-434 | entering kernel mode leaves a block right if and only if its delay slot, if any, was within reach before |
| Divergence.MisalignedDiverges | src/cpu/block_cache.cpp:113-116 | a machine at an address 2 modulo 4 where the cached run and the interpreter part |
| Divergence.MirrorDiverges | src/bus/bus.cpp:527-534 | from a current cache, a word written through a mirror makes the cached run part from the interpreter |
| Divergence.SelfStoreDiverges | src/cpu/cpu.cpp:356-403 | a machine whose store into its own block makes them part, from an empty cache |
| Divergence.MoveDiverges | src/cpu/cpu.cpp:1730-1733 | a machine whose DMTC0 to Status inside a block makes them part, from an empty cache |
| Divergence.SlotDiverges | src/cpu/block_cache.cpp:133-141 | a block with its slot in another frame, compiled by the run itself, and a device write to that frame after which they part |
| Divergence.ModeDiverges | src/cpu/cpu.cpp:411-434 | from a current cache, a user-mode program counter at a block cached in kernel mode makes them part |
| Multiply.MultU64 | src/cpu/cpu.cpp:189-202 | hi * 2^64 + lo is the exact product of any two 64-bit words |
| Multiply.MultS64 | src/cpu/cpu.cpp:204-221 | the pair read as a 128-bit two's-complement number is the exact signed product, minimum included |
| RspDivision.RootUnique | src/rcp/rsp/rsp_vector.cpp:128-144 | the integer square root is unique, so the loop computes it |
| RspDivision.IntegerSquareRoot | src/rcp/rsp/rsp_vector.cpp:128-144 | both loops end and the result r has r*r <= v < (r+1)*(r+1) for every 64-bit v, zero included |
| RspDivision.RomRange | src/rcp/rsp/rsp_vector.cpp:146-158 | all 1024 table entries lie in [0x10000, 0x1FFFF] before the final subtraction |
| RspDivision.Estimate | src/rcp/rsp/rsp_vector.cpp:186-196 | an unsigned estimate stays below 2^31, so putting the sign back cannot overflow |
| RspEstimates.EstimateParts | src/rcp/rsp/rsp_vector.cpp:178-196 | the estimate is the table entry for the normalised operand, truncated by the output shift |
| RspEstimates.ReciprocalEntry | src/rcp/rsp/rsp_vector.cpp:146-149 | each reciprocal entry is 2^26 over its nine-bit operand rounded down, but for the first, which is clamped; times its operand it is 2^26 to within 1023 |
| RspEstimates.RootEntry | src/rcp/rsp/rsp_vector.cpp:150-156 | each square-root entry is the best from below: full^2 * g <= 2^e <= (full+1)^2 * g with e 41 or 42 by shift parity |
| RspEstimates.ReciprocalBound | src/rcp/rsp/rsp_vector.cpp:165-207 | VRCP: out*x < 2^31 + 2^22 and (out+1)*x > 2^31 - 2^15 for every positive operand in both precisions |
| RspEstimates.SquareRootBound | src/rcp/rsp/rsp_vector.cpp:165-207 | VRSQ: out*out*x < 2^62 + 2^54 for every positive operand, with the matching lower bound one output unit and one table step away |
| RspEstimates.NegativeComplement | src/rcp/rsp/rsp_vector.cpp:165-207 | a negative result is the complement of the estimate of the magnitude, the one's complement below -32768; zero and -32768 give their fixed words |
| RspEstimates.PrecisionsAgree | src/rcp/rsp/rsp_vector.cpp:167-176 | single and double precision agree on every 16-bit operand |
| RspMultiply.SelectMeans | src/rcp/rsp/rsp_vector.cpp:17-34 | the element table is the whole vector, quarters, halves or one element, by a closed form for all 16 codes and 8 lanes |
| RspMultiply.WrapMeans | src/rcp/rsp/rsp_vector.cpp:46-56 | wrapping gives the only 48-bit signed value congruent to the sum modulo 2^48 |
| RspMultiply.ShiftIsFloor | src/rcp/rsp/rsp_vector.cpp:63-68 | the sign-split truncating division is the floor, and high part and low lane rebuild the accumulator |
| RspMultiply.ClampedHalves | src/rcp/rsp/rsp_vector.cpp:81-106 | signed-clamped high half and low-clamped low half form the accumulator saturated to 32 bits |
| RspMultiply.Rsp.ExecMultiply | src/rcp/rsp/rsp_vector.cpp:344-397 | every lane's accumulator and destination get the specified values from the old operands, even when the destination is a source, and no other register changes; `MultiplyLaws` says what they are |
| RspMultiply.FixedProductExact | src/rcp/rsp/rsp_vector.cpp:368-376 | VMUDL, VMADM, VMADN, VMADH leave floor(A*B / 2^16) exactly, with no wrap on the way, for all 32-bit A and B and any earlier accumulator |
| RspMultiply.FixedMultiply | src/rcp/rsp/rsp_vector.cpp:344-397 | the two halves read out are that product saturated to 32 bits, and the closing VMADN by zero keeps the accumulator |
| RspMultiply.FixedLane | src/rcp/rsp/rsp_vector.cpp:344-397 | the five instructions on one lane of halves give the saturated 16.16 product, from any accumulator |
| RspMultiply.FixedProgram | src/rcp/rsp/rsp_vector.cpp:344-397 | five calls on vector registers leave the saturated products of all eight lanes in the two destinations and change no other register |
| RspMultiply.FractionRounds | src/rcp/rsp/rsp_vector.cpp:361-384 | VMULF is the product of fractions rounded half up, saturating only for -1 times -1 |
| MultiplyLaws.DestinationMeans | src/rcp/rsp/rsp_vector.cpp:81-106 | destinations are the accumulator over 2^16 saturated to a signed or an unsigned lane, or its low part, all ones or zeros when the upper part does not fit |
| MultiplyLaws.ProductsExact | src/rcp/rsp/rsp_vector.cpp:361-368 | the overwriting forms leave the exact product in its place, with no wrap |
| MultiplyLaws.Accumulates | src/rcp/rsp/rsp_vector.cpp:369-376 | each accumulating form adds, modulo 2^48, what its overwriting form leaves |
| MultiplyLaws.AccumulatesFractions | src/rcp/rsp/rsp_vector.cpp:369-370 | VMACF and VMACU add twice the signed product, modulo 2^48 |
| MultiplyLaws.FromZero | src/rcp/rsp/rsp_vector.cpp:361-376 | from a cleared accumulator the accumulating forms are the overwriting ones, VMULF and VMULU but for the rounding |
| MultiplyLaws.IntegerProduct | src/rcp/rsp/rsp_vector.cpp:344-393 | VMUDH gives the product of integers saturated to 16 bits |
| MultiplyLaws.MixedProducts | src/rcp/rsp/rsp_vector.cpp:344-393 | VMUDM and VMUDN give the integer part and the fraction of integer times fraction, VMUDL the upper half of a product of fractions |
| MultiplyLaws.UnsignedFraction | src/rcp/rsp/rsp_vector.cpp:344-393 | VMULU is the product of fractions rounded half up, and 0 below zero |
| AudioRing.StepProducerKeeps | src/ai/ai.cpp:221-236 | every shared access of the producer keeps the ring's invariant, with a possibly stale read index |
| AudioRing.StepConsumerKeeps | src/ai/ai.cpp:267-286 | every shared access of the consumer keeps the ring's invariant, with a possibly stale write index |
| AudioRing.InterleaveKeeps | src/ai/ai.cpp:221-286 | every interleaving of both threads keeps the invariant |
| AudioRing.FifoUnderEveryInterleaving | src/ai/ai.cpp:221-286 | the samples pulled are a prefix of those accepted, 0 <= w - r <= 8192, and pushed = accepted + dropped + in flight, under every schedule |
| AudioRing.NeverWritesWhatIsRead | src/ai/ai.cpp:227-236 | no slot is written while the consumer may still copy it, under every schedule |
| AudioRing.DropsExactlyWhenFull | src/ai/ai.cpp:223-231 | a frame is dropped if and only if the ring is full when the producer reads the read index |
| AudioRing.PullDelivers | src/ai/ai.cpp:275-286 | however producer and consumer interleave, a call that saw n frames is still in progress or has returned exactly the next n accepted frames, in order |
| AudioRing.PullFinishes | src/ai/ai.cpp:275-286 | once the consumer has taken 2n + 1 more steps, fewer if it has begun to copy, the call has returned, whatever the producer does in between |
| AudioDma.PerFrame | src/ai/ai.cpp:165-173 | cycles per frame lie between 976 and 23437 for every rate register, so neither fallback is taken |
| AudioDma.TickKeeps | src/ai/ai.cpp:238-265 | a tick keeps queued => active, a positive multiple of 4 remaining, and cursor + remaining at the transfer's end |
| AudioDma.WriteLenKeeps | src/ai/ai.cpp:135-157 | starting, queueing and refusing a transfer keep the same invariant |
| AudioDma.FinishesExactly | src/ai/ai.cpp:246-264 | a tick finishes the transfer if and only if its cycles cover all remaining frames |
| AudioDma.TickSplitsExactly | src/ai/ai.cpp:238-265 | tick(a); tick(b) equals tick(a+b) if and only if b is zero or tick(a) does not finish the transfer |
| AudioDma.ApplyKeeps | src/ai/ai.cpp:92-219 | every register write, tick and forced completion keeps the invariant and accounts for its bytes |
| AudioDma.BytesConserved | src/ai/ai.cpp:135-219 | over any run, every byte of every accepted transfer is played once or still owed |
| AudioDma.TickInOrder | src/ai/ai.cpp:246-264 | the finishing tick has attempted exactly length / 4 frames in memory order, and a queued transfer then starts afresh |
| AudioDma.CompleteInOrder | src/ai/ai.cpp:202-219 | forced completion attempts exactly the frames left, in memory order |
| AudioDma.TransferInOrder | src/ai/ai.cpp:92-265 | whatever is written, queued or acknowledged during a transfer, however cycles are batched and whether it is completed by ticks or by force, it attempts exactly its length / 4 frames in memory order right after what came before; RDRAM outside its buffer may change; what each sample is, `AudioSamples` says |
| AudioDma.FramesInOrder | src/ai/ai.cpp:92-265 | over every run of register writes, ticks and forced completions, the frames played and those still owed are those owed before followed by every transfer accepted, whole and in order of acceptance; and the samples handed over are what RDRAM held there when they were played |
| AudioSamples.TickHears | src/ai/ai.cpp:246-264 | every sample a tick hands over is the signed big-endian halfword at its own place from the cursor on |
| AudioSamples.TickCounts | src/ai/ai.cpp:246-264 | a tick plays as many frames as its cycles cover and are left, and no more |
| AudioSamples.CompleteHears | src/ai/ai.cpp:202-219 | so does a forced completion for all that is left |
| AudioSamples.HalfwordHeard | src/ai/ai.cpp:17-24 | any sample stored by a halfword write where it is due is the sample a tick hands over |
| AudioSamples.WordHeard | src/ai/ai.cpp:252-253 | a word stored where a frame is due, left above right, is the frame a tick hands over |
| AudioSamples.RateMeans | src/ai/ai.cpp:59-70 | the rate is the clock over the divider, rounded down and kept between 4 and 96 kHz, 32 kHz for zero, and a frame takes the processor's clock over it |
| AudioSamples.RegisterBits | src/ai/ai.cpp:104-127 | the length takes bits 3 to 17 of what is written, the address 3 to 23 |
| AudioSamples.StatusMeans | src/ai/ai.cpp:72-77 | Status has bit 30 exactly while a transfer is active, bit 0 exactly while one is queued, and no other |
| AudioSamples.EventSignals | src/ai/ai.cpp:92-219 | an event completes at most one transfer and raises the interrupt exactly then; only a Status write takes it back; a new rate counts at once and at every start |
| AudioDevice.AudioInterface.constructor | src/ai/ai.cpp:28-57 | a new device is idle, with an empty ring |
| AudioDevice.AudioInterface.PushFrame | src/ai/ai.cpp:221-236 | the ring gains the frame at its end, or is full and unchanged with one more frame counted as dropped |
| AudioDevice.AudioInterface.PullFrames | src/ai/ai.cpp:267-286 | the oldest frames are copied out in order, as many as there are and fit, and the rest of the span is untouched |
| AudioDevice.AudioInterface.BeginDma | src/ai/ai.cpp:159-177 | the transfer becomes the active one, from its first byte |
| AudioDevice.AudioInterface.FinishCurrentDma | src/ai/ai.cpp:179-200 | one completion and one interrupt are counted, and a queued transfer begins |
| AudioDevice.AudioInterface.StartOrQueueDma | src/ai/ai.cpp:135-157 | the transfer starts, is queued behind the active one, or is refused |
| AudioDevice.AudioInterface.WriteLength | src/ai/ai.cpp:124-129 | writing the length register programs a transfer of its aligned value |
| AudioDevice.AudioInterface.CompleteDma | src/ai/ai.cpp:202-219 | the drain loop equals its closed form, and the ring takes what fits of the frames played; `AudioSamples` says which samples |
| AudioDevice.AudioInterface.Tick | src/ai/ai.cpp:238-265 | the frame-by-frame loop equals one closed-form step, and the ring takes what fits of the frames played; `AudioSamples` says which samples |
| AudioDevice.LoopCount | src/ai/ai.cpp:246-264 | the loop runs exactly as often as frames are due |
| Video.BatchingInvisible | src/vi/vi.cpp:188-213 | tick(a); tick(b) equals tick(a+b) from every state |
| Video.OneInterruptPerFrame | src/vi/vi.cpp:188-213 | a frame is L / 2 + 1 line steps and raises the interrupt exactly once when the even V_INTR is neither zero nor above L, however often it is acknowledged |
| Video.FramesRecur | src/vi/vi.cpp:188-213 | with fixed registers n periods are n frames and n times that many interrupts |
| Video.ReachesFrame | src/vi/vi.cpp:197-205 | from every reachable state the next frame starts after exactly the remaining lines, or at once if the frame was shortened |
| Video.VideoInterface.constructor | src/vi/vi.cpp:58-82 | after reset the device is at the start of a frame of the default length |
| Video.VideoInterface.WriteVSync | src/vi/vi.cpp:106-115 | the frame length changes exactly for values from 100 to 799 |
| Video.VideoInterface.WriteVCurrent | src/vi/vi.cpp:97-104 | writing the current line only takes the interrupt back |
| Video.VideoInterface.StepLine | src/vi/vi.cpp:197-211 | one turn of the loop is the specified line step |
| Video.VideoInterface.Tick | src/vi/vi.cpp:188-213 | the loop over lines equals the closed form, and less than a line of cycles is left over |
| FillRect.RectOf | src/rcp/rdp/rdp.cpp:430-446 | corners decode to an ordered rectangle no larger than 1024 by 1024, however they are given |
| FillRect.RectCovers | src/rcp/rdp/rdp.cpp:431-446 | the pixels a command covers, in quarter pixels: those neither wholly before the low corner nor wholly after the high one, or, with the corners exchanged, those wholly between them |
| FillRect.AddressInjective | src/rcp/rdp/rdp.cpp:375-380 | for columns inside the image width, a byte belongs to a pixel if and only if its index decodes to that pixel |
| FillRect.PixelShows | src/rcp/rdp/rdp.cpp:409-429 | after a fill a drawn 32-bit pixel is the fill word, and a 16-bit one its upper or lower half by its place |
| FillRect.PackedMeans | src/rcp/rdp/rdp.cpp:383-390 | a 32-bit pixel on a 16-bit image keeps the upper five bits of each colour and whether it is at all opaque |
| FillRect.Rdp.constructor | src/rcp/rdp/rdp.cpp:13-29 | after reset there is no image to draw to |
| FillRect.Rdp.SetColorImage | src/rcp/rdp/rdp.cpp:189-197 | the image has a width from 1 to 1024 and an 8-byte aligned address |
| FillRect.Rdp.SetScissor | src/rcp/rdp/rdp.cpp:210-222 | whatever the command, a pixel passes the clip if and only if its right edge lies beyond the left corner and not beyond the right one, in quarter pixels, and likewise down the screen |
| FillRect.Rdp.WriteColorPixel | src/rcp/rdp/rdp.cpp:366-404 | one pixel, a 32-bit one packed to 5551 on a 16-bit image, is stored big-endian if it is not clipped and lies wholly inside RDRAM |
| FillRect.Rdp.WriteFillPixel | src/rcp/rdp/rdp.cpp:409-429 | an unclipped pixel is counted even when it falls outside RDRAM and is not stored |
| FillRect.Rdp.FillRectangle | src/rcp/rdp/rdp.cpp:431-458 | exactly the bytes of rectangle, scissor, image width and RDRAM in common become the fill word's, no other byte changes, and the counter grows by the area of rectangle, scissor and width |

## Left out

- Interpreter.Cpu.Run: equality with the interpreter is stated for runs that meet `Coherence.StepOk`: an aligned program counter; at the start of a block, a line that the current mode compiles as kernel mode does, or a fault that kernel mode would get too; a physically contiguous line; line and stores outside the RDRAM mirrors; stores that leave the next 32 words of the running line as they are, which also rules out stores past the end of a shorter block; after a move of the context inside a block, the same line in the new context; modelled words. These are sufficient; `Limits` says exactly where each kind of failure begins. The cases where the trace callback is set or no bus is connected are not modelled.
- CoherentRuns.NeverStale: stores, writes and transfers through an RDRAM mirror are outside it, as are compilations at unaligned addresses or of lines that are not contiguous, lie in a mirror or reach a delay slot only kernel mode can (`Limits` has the exact failing conditions), and RDP writes, which notify nobody.
- Coherence.WordKeepsCoherence: words that store through an RDRAM mirror are outside it.
- Coherence.StepKeepsCoherence: steps that store through an RDRAM mirror are outside it.
- CoherentRuns.ApplyKeeps: the same bounds as `NeverStale`, event by event.
- CoherentRuns.CachedWordsAreMemory: the same histories as `NeverStale`.
- SystemBus.Write8Coherent: writes through an RDRAM mirror are outside it, because they do leave stale blocks (`Limits.MirrorWriteExact`).
- SystemBus.Write16Coherent: writes through an RDRAM mirror are outside it, for the same reason.
- SystemBus.Write32Coherent: writes through an RDRAM mirror are outside it, for the same reason.
- SystemBus.Write64Coherent: writes through an RDRAM mirror are outside it, for the same reason.
- PhysicalMemory.Write8ChangesOnly: stated for addresses outside the mirrors; MMIO registers, SP memories and PIF RAM are not memory in the model, so reads there see open bus and writes change nothing.
- PhysicalMemory.Write16ChangesOnly: as for `Write8ChangesOnly`.
- PhysicalMemory.Write32ChangesOnly: as for `Write8ChangesOnly`.
- PhysicalMemory.Write64ChangesOnly: as for `Write8ChangesOnly`.
- PhysicalMemory.ReadFrame: stated for words outside the mirrors; MMIO registers, SP memories and PIF RAM read as open bus.
- SystemBus.Bus.Write8: MMIO registers, SP memories and PIF RAM are not memory in the model; a write there changes nothing.
- SystemBus.Bus.Write16: as for `Bus.Write8`.
- SystemBus.Bus.Write32: as for `Bus.Write8`.
- SystemBus.Bus.Write64: as for `Bus.Write8`.
- Interpreter.Cpu.LoadWord: a load from MMIO registers, SP memories or PIF RAM reads open bus.
- Interpreter.Cpu.StoreWord: a store to MMIO registers, SP memories or PIF RAM changes nothing.
- Interpreter.Cpu.Execute: models branches and jumps of the main, SPECIAL and REGIMM groups, ADDI, ADDIU, ADDU, LUI, LW, SW, SYSCALL, BREAK, COP0 moves, the TLB instructions and ERET; a word outside this subset is `Unmodelled`, does nothing in the model and is excluded from runs by `StepOk`.
- Interpreter.Cpu.ExecuteRegisters: the same subset as `Execute`.
- Interpreter.Cpu.ExecuteAndSequence: the same subset as `Execute`; words outside it advance the program counter and do nothing else.
- Interpreter.Cpu.Step: the same subset as `Execute`.
- StoredBytes.Write16ReadsBack: stated for an RDRAM of at least two bytes, as the others are for four and eight; in a smaller one the bytes of a single write overlap.
- PageSizes.EntryMaps: stated for the seven page sizes the architecture defines; other mask patterns are modelled and page-local but not given a meaning.
- BlockCaching.BlockCache.Compile: storing the block and listing its slot are separate methods in the model (`Install`, `ListIfAliased`).
- BlockCaching.BlockCache.Invalidate: its two passes and the visit of one slot are separate methods in the model.
- Exceptions.HandlerReturns: handlers that clear EXL or write EPC before returning are outside it.
- AudioRing.FifoUnderEveryInterleaving: each atomic load or store is one step and the indices are natural numbers; orderings weaker than acquire and release, wrap-around of the indices after 2^64 frames, and `reset` during a pull are not modelled.
- AudioDma.TransferInOrder: the bytes of the transfer's own buffer stay as they are while it plays; `FramesInOrder` does not need this.
- AudioDma.FramesInOrder: about a device with a bus, like `BytesConserved`; without one nothing is played and a forced completion discards what is owed.
- AudioDevice.AudioInterface.WriteLength: the Control and BitRate registers, which nothing here depends on, and the plain register writes have no method; the latter are events of `AudioDma.Apply`.
- FillRect.Rdp.WriteColorPixel: an unconnected bus is an empty RDRAM, and the wrap of pixel addresses at 32 bits, which no row below 262144 reaches, is not modelled.
- Register files and the TLB are sequence-valued fields updated element by element; aliasing between them cannot arise.
- Cycle, hit, frame and exception counters are unbounded.
- The halted flag is only ever set from outside the interpreter.
- Unaligned loads and stores (LWL and its kin), COP1, COP2 of the VR4300, LL/SC, HI/LO and 64-bit ALU instructions: not modelled beyond the multiplication above.
- RSP vector clips, compares, logic, rounding and VMULQ/VMACQ, the moves of DivIn and DivOut, and vector loads and stores: not modelled.
- VI scan-out and pixel conversion, RDP texture loads and texture rectangles: not modelled.
- Scheduler, PI, SI, RI, DP and MI register decoding, cartridge, window, input, debugger and logging: input/output or single-branch facts.
