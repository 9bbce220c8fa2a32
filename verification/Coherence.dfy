/** What the block cache must agree with, and why one interpreter step keeps it so. */
module Coherence {
  import opened Words
  import opened Translation
  import opened PhysicalMemory
  import opened Blocks
  import opened Processor
  import opened BlockCaching

  // ---------------------------------------------------------------- coherence

  /** The cached block is what a compilation at its address would build now, lies in
      consecutive physical words, and none of them has a second address. */
  predicate UpToDate(c: Context, m: Memory, b: BasicBlock) {
    && b.startPc % 4 == 0
    && Translate(c, b.startPc, false) == Mapped(b.paddr)
    && b == FreshBlock(c, m, b.startPc, b.paddr)
    && Contiguous(c, m, b.startPc, MAX_BLOCK_INSNS)
    && Settled(m, b.paddr, 4 * |b.insns|)
  }

  /** Every block is in its own slot and is what kernel mode would compile now. Which modes may
      execute it is another matter, so a change of mode cannot make a cache incoherent. */
  predicate Coherent(cache: Contents, c: Context, m: Memory) {
    forall i :: i in cache ==> i == SlotIndex(cache[i].startPc) && UpToDate(Kernel(c), m, cache[i])
  }

  // ---------------------------------------------------------------- cache effects

  /** Instructions that empty the block cache. */
  predicate ClearsCache(s: CpuState, w: u32) {
    match Decode(w)
    case Cop0(op) =>
      Cop0Usable(s) &&
      (op == TlbRead || op == TlbWriteIndexed || op == TlbWriteRandom ||
       (op.MoveTo? && (op.rd == COP0_ENTRY_HI || op.rd == COP0_STATUS)))
    case _ => false
  }

  /** The physical address a word stores to, if it is a store that does not fault. */
  function StoredAt(s: CpuState, w: u32): Option<u32>
  {
    match Decode(w)
    case StoreWord(rs, _, offset) =>
      (match StoreTarget(s, rs, offset)
       case Mapped(p) => Some(p)
       case Fault(_) => None)
    case _ => None
  }

  ghost function CacheAfterExecute(cache: Contents, s: CpuState, w: u32): Contents
  {
    if ClearsCache(s, w) then map[]
    else
      match StoredAt(s, w)
      case Some(p) => AfterInvalidate(cache, p, 4)
      case None => cache
  }

  predicate ExecutesWord(m: Machine) {
    !m.cpu.halted && !TakesInterrupt(m.cpu) && Fetches(m.cpu)
  }

  ghost function CacheAfterStep(cache: Contents, m: Machine): Contents
  {
    if ExecutesWord(m) then CacheAfterExecute(cache, m.cpu, FetchedWord(m)) else cache
  }

  // ---------------------------------------------------------------- what a run must respect

  /** A store that reaches memory stays out of the RDRAM mirrors. */
  predicate StoreSettled(m: Machine, w: u32) {
    match StoredAt(m.cpu, w)
    case None => true
    case Some(p) => Settled(m.mem, p, 4)
  }

  /** The current mode compiles the line at `pc` as kernel mode does, and the line is
      physically contiguous and outside the RDRAM mirrors. */
  predicate LineSettled(c: Context, mem: Memory, pc: u64) {
    var line := Straight(Kernel(c), mem, pc, MAX_BLOCK_INSNS);
    && Straight(c, mem, pc, MAX_BLOCK_INSNS) == line
    && Contiguous(Kernel(c), mem, pc, MAX_BLOCK_INSNS)
    && (Translate(c, pc, false).Mapped? ==> Settled(mem, Translate(c, pc, false).paddr, 4 * |line|))
  }

  /** The program counter may be executed through the cache: its line can be cached or, where
      the current mode cannot fetch, kernel mode could not either. */
  predicate PlaceOk(m: Machine) {
    var c := Ctx(m.cpu);
    if Translate(c, m.cpu.pc, false).Mapped? then LineSettled(c, m.mem, m.cpu.pc)
    else Translate(Kernel(c), m.cpu.pc, false).Fault?
  }

  /** DMTC0 to EntryHi or Status: it empties the cache without ending a block. */
  predicate UnguardedMove(w: u32) {
    Op(w) == 0x10 && Rs(w) == 0x05 && (Rd(w) == COP0_ENTRY_HI || Rd(w) == COP0_STATUS)
  }

  /** A store does not rewrite the rest of the straight line it belongs to, unless with the
      very words that are there. */
  predicate StoreRespectsLine(m: Machine, w: u32)
    requires Fetches(m.cpu)
  {
    match StoredAt(m.cpu, w)
    case None => true
    case Some(p) =>
      var c := Ctx(m.cpu);
      var q := Translate(c, m.cpu.pc, false).paddr;
      || m.cpu.branchPending || p <= q || ExecuteWord(m, w).mem == m.mem
      || p >= q + 4 * |Straight(c, m.mem, m.cpu.pc, MAX_BLOCK_INSNS)|
  }

  /** Words that may change what an address means, exceptions apart. */
  predicate MovesContext(s: CpuState, w: u32) {
    ClearsCache(s, w) || Decode(w) == Cop0(ExceptionReturn)
  }

  /** Two contexts find the same line at an address, however much of it is looked at. */
  predicate SameLineIn(c: Context, d: Context, mem: Memory, pc: u64) {
    && Translate(c, pc, false) == Translate(d, pc, false)
    && forall k | 0 <= k <= MAX_BLOCK_INSNS ::
         Straight(c, mem, pc, k) == Straight(d, mem, pc, k) && Contiguous(c, mem, pc, k) == Contiguous(d, mem, pc, k)
  }

  /** When such a word inside a block goes on to the next, the line is still there: a new ASID
      does no harm in KSEG0, say. */
  predicate KeepsLine(m: Machine, w: u32) {
    var t := ExecuteWord(m, w);
    && MovesContext(m.cpu, w) && !IsTerminal(w) && !m.cpu.branchPending
    && t.cpu.exceptions == m.cpu.exceptions && t.cpu.pc == Next(m.cpu.pc)
    ==> SameLineIn(Ctx(m.cpu), Ctx(t.cpu), m.mem, Next(m.cpu.pc))
  }

  predicate WordOk(m: Machine, w: u32)
    requires Fetches(m.cpu)
  {
    Modelled(w) && StoreSettled(m, w) && StoreRespectsLine(m, w) && KeepsLine(m, w)
  }

  /** What one step of a run must respect for cached execution to be exact. */
  predicate StepOk(m: Machine) {
    m.cpu.halted || (
      && m.cpu.pc % 4 == 0
      && (!m.cpu.branchPending ==> PlaceOk(m))
      && (ExecutesWord(m) ==> WordOk(m, FetchedWord(m))))
  }

  ghost predicate RunOk(m: Machine, n: nat) {
    forall k :: 0 <= k < n ==> StepOk(Steps(m, k))
  }

  // ---------------------------------------------------------------- the two decoders agree

  /** The words the block cache treats as branches are those the interpreter gives a
      delay slot. */
  lemma BranchDecodersAgree(w: u32)
    requires Modelled(w)
    ensures IsBranchOrJump(w) <==> IsControlTransfer(Decode(w))
  {
    hide Rs, Rt, Rd, Fn, SignedImm;
  }

  // ---------------------------------------------------------------- what one word changes

  predicate SameTranslationState(s: CpuState, t: CpuState) {
    && t.tlb == s.tlb && t.cop0[COP0_ENTRY_HI] % 0x100 == s.cop0[COP0_ENTRY_HI] % 0x100
  }

  lemma RaiseKeeps(s: CpuState, code: nat, bad: u64, ce: nat, refill: bool)
    ensures SameTranslationState(s, RaiseException(s, code, bad, ce, refill))
  {
    EntryHiBadAsid(s.cop0[COP0_ENTRY_HI], bad % TWO_TO_32);
    hide CauseCode, CauseBd, Vector, ContextBad, WithExl, EntryHiBad;
  }

  lemma EntryHiBadAsid(entryHi: u32, bad: u32)
    ensures EntryHiBad(entryHi, bad) % 0x100 == entryHi % 0x100
  {
    DivMod(entryHi % 0x100 + bad / 0x2000 * 0x2000, 0x100, 32 * (bad / 0x2000), entryHi % 0x100);
  }

  lemma RaiseFaultKeeps(s: CpuState, f: TranslationFault, bad: u64, isStore: bool)
    ensures SameTranslationState(s, RaiseTranslationFault(s, f, bad, isStore))
  {
    hide RaiseException;
    match f
    case AddressError => RaiseKeeps(s, if isStore then EXC_ADES else EXC_ADEL, bad, 0, false);
    case TlbMiss => RaiseKeeps(s, if isStore then EXC_TLBS else EXC_TLBL, bad, 0, true);
    case TlbInvalid => RaiseKeeps(s, if isStore then EXC_TLBS else EXC_TLBL, bad, 0, false);
    case TlbModified => RaiseKeeps(s, EXC_MOD, bad, 0, false);
  }

  lemma RetireKeeps(s: CpuState)
    ensures SameTranslationState(s, Retire(s))
    ensures Retire(s).pc == s.pc && Retire(s).nextPc == s.nextPc
    ensures Retire(s).branchPending == s.branchPending && Retire(s).halted == s.halted
    ensures Retire(s).exceptions == s.exceptions && Retire(s).cycles == s.cycles + 1
    ensures !Retire(s).inDelaySlot
    ensures Retire(s).cop0[COP0_STATUS] == s.cop0[COP0_STATUS]
  {
  }

  lemma Cop0Keeps(s: CpuState, op: Cop0Op)
    requires Cop0Usable(s) ==>
      op != TlbRead && op != TlbWriteIndexed && op != TlbWriteRandom
      && !(op.MoveTo? && (op.rd == COP0_ENTRY_HI || op.rd == COP0_STATUS))
    ensures SameTranslationState(s, ExecCop0(s, op))
  {
    RaiseKeeps(s, EXC_CPU, 0, 0, false);
    hide RaiseException, Cop0Usable, Sext32, Probe;
  }

  /** A word that does not empty the cache leaves the TLB and the ASID alone. */
  lemma ExecuteKeepsTranslation(m: Machine, w: u32)
    requires !ClearsCache(m.cpu, w)
    ensures SameTranslationState(m.cpu, Execute(m, w).cpu)
  {
    var s := m.cpu;
    hide RaiseException, Sext32, Holds, ExecCop0, Cop0Usable, ExecLoadWord, ExecStoreWord;
    var i := Decode(w);
    hide Decode;
    match i
    case AddImmediate(_, _, _, _) => RaiseKeeps(s, EXC_OV, 0, 0, false);
    case Syscall => RaiseKeeps(s, EXC_SYS, 0, 0, false);
    case Break => RaiseKeeps(s, EXC_BP, 0, 0, false);
    case Reserved => RaiseKeeps(s, EXC_RI, 0, 0, false);
    case LoadWord(_, _, _) => LoadKeeps(m, i);
    case StoreWord(_, _, _) => StoreKeeps(m, i);
    case Cop0(op) => Cop0Keeps(s, op);
    case _ =>
  }

  lemma LoadKeeps(m: Machine, i: Instr)
    requires i.LoadWord?
    ensures SameTranslationState(m.cpu, ExecLoadWord(m, i))
  {
    hide RaiseException, RaiseTranslationFault, Sext32, Translate, Read32;
    var addr := EffectiveAddress(m.cpu, i.rs, i.offset);
    RaiseKeeps(m.cpu, EXC_ADEL, addr, 0, false);
    if Translate(Ctx(m.cpu), addr, false).Fault? {
      RaiseFaultKeeps(m.cpu, Translate(Ctx(m.cpu), addr, false).fault, addr, false);
    }
  }

  lemma StoreKeeps(m: Machine, i: Instr)
    requires i.StoreWord?
    ensures SameTranslationState(m.cpu, ExecStoreWord(m, i).cpu)
  {
    hide RaiseException, RaiseTranslationFault, Write32, StoreTarget;
    var t := StoreTarget(m.cpu, i.rs, i.offset);
    if t.Fault? {
      RaiseFaultKeeps(m.cpu, t.fault, EffectiveAddress(m.cpu, i.rs, i.offset), true);
    }
  }

  /** Only a store that does not fault changes memory. */
  lemma ExecuteMemory(m: Machine, w: u32)
    ensures StoredAt(m.cpu, w) == None ==> Execute(m, w).mem == m.mem
    ensures StoredAt(m.cpu, w).Some? ==>
      exists v: u32 :: Execute(m, w).mem == Write32(m.mem, StoredAt(m.cpu, w).value, v)
  {
    hide Translate, Write32;
    if StoredAt(m.cpu, w).Some? {
      var i := Decode(w);
      var v := Gpr(m.cpu, i.rt) % TWO_TO_32;
      hide Decode, Gpr;
      assert Execute(m, w).mem == Write32(m.mem, StoredAt(m.cpu, w).value, v);
    }
  }

  // ---------------------------------------------------------------- one executed word

  lemma DispatchSees(m: Machine, w: u32)
    ensures var d := m.(cpu := Dispatch(m.cpu));
      && ClearsCache(d.cpu, w) == ClearsCache(m.cpu, w) && StoredAt(d.cpu, w) == StoredAt(m.cpu, w)
      && SameTranslationState(m.cpu, d.cpu) && d.cpu.pc == m.cpu.pc
      && d.cpu.exceptions == m.cpu.exceptions && d.cpu.branchPending == m.cpu.branchPending
      && d.cpu.halted == m.cpu.halted
      && (!m.cpu.branchPending ==> d.cpu.nextPc == Next(m.cpu.pc))
  {
    hide Translate, Decode;
  }

  /** ExecuteWord either clears the cache or keeps the TLB and the ASID; memory changes
      only by a store. */
  lemma WordEffects(m: Machine, w: u32)
    ensures !ClearsCache(m.cpu, w) ==> SameTranslationState(m.cpu, ExecuteWord(m, w).cpu)
    ensures StoredAt(m.cpu, w) == None ==> ExecuteWord(m, w).mem == m.mem
    ensures StoredAt(m.cpu, w).Some? ==>
      exists v: u32 :: ExecuteWord(m, w).mem == Write32(m.mem, StoredAt(m.cpu, w).value, v)
  {
    var d := m.(cpu := Dispatch(m.cpu));
    DispatchSees(m, w);
    if !ClearsCache(m.cpu, w) {
      ExecuteKeepsTranslation(d, w);
    }
    ExecuteMemory(d, w);
    RetireKeeps(Sequence(m.cpu, Execute(d, w).cpu));
    hide Execute, ClearsCache, StoredAt, Retire, Dispatch;
  }

  lemma FaultEffects(s: CpuState)
    ensures SameTranslationState(s, TakeInterrupt(s))
    ensures s.pc % 4 != 0 || Translate(Ctx(s), s.pc, false).Fault? ==> SameTranslationState(s, FetchFault(s))
  {
    hide Translate, Retire, RaiseException, RaiseTranslationFault;
    RaiseKeeps(s, EXC_INT, 0, 0, false);
    RetireKeeps(RaiseException(s, EXC_INT, 0, 0, false));
    var d := s.(inDelaySlot := s.branchPending);
    RaiseKeeps(d, EXC_ADEL, s.pc, 0, false);
    RetireKeeps(RaiseException(d, EXC_ADEL, s.pc, 0, false));
    if Translate(Ctx(s), s.pc, false).Fault? {
      var f := Translate(Ctx(s), s.pc, false).fault;
      RaiseFaultKeeps(d, f, s.pc, false);
      RetireKeeps(RaiseTranslationFault(d, f, s.pc, false));
    }
  }

  /** A word that raises nothing and is not a move of the context keeps it. */
  lemma ContextKept(m: Machine, w: u32)
    requires !MovesContext(m.cpu, w) && ExecuteWord(m, w).cpu.exceptions == m.cpu.exceptions
    ensures Ctx(ExecuteWord(m, w).cpu) == Ctx(m.cpu)
  {
    var d := m.(cpu := Dispatch(m.cpu));
    DispatchSees(m, w);
    var r := Execute(d, w);
    RetireKeeps(Sequence(m.cpu, r.cpu));
    WordEffects(m, w);
    StatusKept(d, w);
    assert Dispatch(m.cpu).cop0 == m.cpu.cop0;
    hide Execute, ClearsCache, StoredAt, Retire, Dispatch, Mode, Decode;
  }

  lemma StatusKept(m: Machine, w: u32)
    requires !MovesContext(m.cpu, w) && Execute(m, w).cpu.exceptions == m.cpu.exceptions
    ensures Execute(m, w).cpu.cop0[COP0_STATUS] == m.cpu.cop0[COP0_STATUS]
  {
    hide Decode, Translate, Read32, Write32, Ctx, ExceptionCop0, Vector, Holds, Cop0Usable, Sext32, ExecCop0;
    var i := Decode(w);
    match i
    case LoadWord(_, _, _) =>
    case StoreWord(_, _, _) =>
    case Cop0(op) => Cop0StatusKept(m.cpu, op);
    case _ =>
  }

  lemma Cop0StatusKept(s: CpuState, op: Cop0Op)
    requires op != ExceptionReturn && !(Cop0Usable(s) && op.MoveTo? && op.rd == COP0_STATUS)
    ensures ExecCop0(s, op).exceptions == s.exceptions ==>
      ExecCop0(s, op).cop0[COP0_STATUS] == s.cop0[COP0_STATUS]
  {
    hide ExceptionCop0, Vector, Cop0Usable, Sext32, Probe;
  }

  // ---------------------------------------------------------------- coherence is kept

  /** A write elsewhere leaves a cached block up to date. */
  lemma UpToDateFrame(c: Context, m: Memory, n: Memory, b: BasicBlock, p: nat, size: nat)
    requires UpToDate(c, m, b) && ChangedOnly(m, n, p, size) && !Overlaps(b, p, size) && size > 0
    ensures UpToDate(c, n, b)
  {
    hide Translate, ChangedOnly;
    StraightUntouched(c, m, n, b.startPc, MAX_BLOCK_INSNS, p, size);
    SameSize(m, n, p, size);
  }

  lemma SameSize(m: Memory, n: Memory, p: nat, size: nat)
    requires ChangedOnly(m, n, p, size)
    ensures |n.ram| == |m.ram|
  {
  }

  /** Up-to-date blocks are word aligned and no longer than the longest block. */
  lemma CoherentFindable(cache: Contents, c: Context, m: Memory)
    requires Coherent(cache, c, m)
    ensures AllFindable(cache)
  {
    forall i | i in cache
      ensures Placed(i, cache[i]) && cache[i].paddr % 4 == 0
    {
      BlockShape(Kernel(c), m, cache[i]);
    }
  }

  lemma BlockShape(c: Context, m: Memory, b: BasicBlock)
    requires UpToDate(c, m, b)
    ensures 1 <= |b.insns| <= MAX_BLOCK_INSNS + 1 && b.paddr % 4 == 0 && b.startPc % 4 == 0
  {
    AlignedFrame(c, b.startPc, false);
    hide Translate, Straight, Contiguous, Settled, StopsAtBranch;
  }

  /** Each cached word is the word of memory at its place. */
  lemma CachedWord(c: Context, m: Memory, b: BasicBlock, k: nat)
    requires UpToDate(c, m, b) && k < |b.insns|
    ensures b.insns[k] == Read32(m, b.paddr + 4 * k)
  {
    hide Translate, Read32, Straight, Contiguous, StopsAtBranch, Settled;
    StraightReadsMemory(c, m, b.startPc, MAX_BLOCK_INSNS, k);
  }

  /** Any write inside RDRAM proper, followed by its invalidation, keeps coherence. */
  lemma WriteKeepsCoherence(cache: Contents, c: Context, m: Memory, n: Memory, p: nat, size: nat)
    requires Coherent(cache, c, m) && ChangedOnly(m, n, p, size)
    ensures Coherent(AfterInvalidate(cache, p, size), c, n)
  {
    CoherentFindable(cache, c, m);
    hide UpToDate, Overlaps, ChangedOnly, AllFindable, SlotIndex;
    var after := AfterInvalidate(cache, p, size);
    if 0 < size < TABLE_SIZE * 4 {
      InvalidateFindable(cache, p, size);
      hide AfterInvalidate;
      forall i | i in after ensures i == SlotIndex(after[i].startPc) && UpToDate(Kernel(c), n, after[i]) {
        UpToDateFrame(Kernel(c), m, n, cache[i], p, size);
      }
    }
  }

  /** Coherence does not depend on the privilege mode. */
  lemma CoherentAnyMode(cache: Contents, c: Context, d: Context, m: Memory)
    requires Coherent(cache, c, m) && Kernel(c) == Kernel(d)
    ensures Coherent(cache, d, m)
  {
  }

  lemma SameKernel(s: CpuState, t: CpuState)
    requires SameTranslationState(s, t)
    ensures Kernel(Ctx(s)) == Kernel(Ctx(t))
  {
    hide Mode;
  }

  /** Executing any word at all, fetched or stale, keeps the cache coherent. */
  lemma WordKeepsCoherence(cache: Contents, m: Machine, w: u32)
    requires StoreSettled(m, w) && Coherent(cache, Ctx(m.cpu), m.mem)
    ensures var r := ExecuteWord(m, w); Coherent(CacheAfterExecute(cache, m.cpu, w), Ctx(r.cpu), r.mem)
  {
    var r := ExecuteWord(m, w);
    WordEffects(m, w);
    hide Coherent, ClearsCache, StoredAt, ExecuteWord, ChangedOnly, AfterInvalidate, Ctx, Settled, SameTranslationState;
    if ClearsCache(m.cpu, w) {
      EmptyIsCoherent(Ctx(r.cpu), r.mem);
    } else {
      SameKernel(m.cpu, r.cpu);
      if StoredAt(m.cpu, w).Some? {
        var p := StoredAt(m.cpu, w).value;
        var v: u32 :| r.mem == Write32(m.mem, p, v);
        Write32ChangesOnly(m.mem, p, v);
        WriteKeepsCoherence(cache, Ctx(m.cpu), m.mem, r.mem, p, 4);
        CoherentAnyMode(AfterInvalidate(cache, p, 4), Ctx(m.cpu), Ctx(r.cpu), r.mem);
      } else {
        CoherentAnyMode(cache, Ctx(m.cpu), Ctx(r.cpu), r.mem);
      }
    }
  }

  /** One step keeps the cache coherent, whatever it is, as long as its store stays out of the
      mirrors: self-modifying code, moves, traps and changes of mode included. */
  lemma StepKeepsCoherence(cache: Contents, m: Machine)
    requires ExecutesWord(m) ==> StoreSettled(m, FetchedWord(m))
    requires Coherent(cache, Ctx(m.cpu), m.mem)
    ensures Coherent(CacheAfterStep(cache, m), Ctx(Step(m).cpu), Step(m).mem)
  {
    hide Coherent, ExecuteWord, FetchFault, TakeInterrupt, InterruptPending, StoreSettled, CacheAfterExecute, Ctx,
         FetchedWord, Translate, SameTranslationState;
    if ExecutesWord(m) {
      WordKeepsCoherence(cache, m, FetchedWord(m));
    } else {
      if !m.cpu.halted {
        FaultEffects(m.cpu);
        FetchesUnless(m.cpu);
      }
      StillState(m);
      CoherentAnyMode(cache, Ctx(m.cpu), Ctx(Step(m).cpu), m.mem);
    }
  }

  lemma FetchesUnless(s: CpuState)
    ensures !Fetches(s) ==> s.pc % 4 != 0 || Translate(Ctx(s), s.pc, false).Fault?
  {
    hide Translate;
  }

  /** A step that executes no word leaves memory and translation alone. */
  lemma StillState(m: Machine)
    requires !ExecutesWord(m)
    ensures Step(m).mem == m.mem && Kernel(Ctx(Step(m).cpu)) == Kernel(Ctx(m.cpu))
  {
    hide ExecuteWord, FetchFault, TakeInterrupt, InterruptPending, Translate, Mode;
    FaultEffects(m.cpu);
  }

  lemma EmptyIsCoherent(c: Context, m: Memory)
    ensures Coherent(map[], c, m)
  {
  }
}
