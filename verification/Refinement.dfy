/** Executing the words of an up-to-date block one after another is stepping the
    interpreter: the argument behind `execute_block`. */
module Refinement {
  import opened Words
  import opened Translation
  import opened PhysicalMemory
  import opened Blocks
  import opened Processor
  import opened BlockCaching
  import opened Coherence

  /** The address of word `i` of a block. */
  function PcAt(startPc: u64, i: nat): u64
  {
    (startPc + 4 * i) % TWO_TO_64
  }

  /** Words `i` and later of block `b` are the straight line at `pc`. */
  predicate OnLine(c: Context, mem: Memory, pc: u64, b: BasicBlock, i: nat)
  {
    && i < |b.insns| && i < MAX_BLOCK_INSNS && pc % 4 == 0
    && Settled(mem, b.paddr, 4 * |b.insns|)
    && Translate(c, pc, false) == Mapped(b.paddr + 4 * i)
    && b.insns[i..] == Straight(c, mem, pc, MAX_BLOCK_INSNS - i)
    && Contiguous(c, mem, pc, MAX_BLOCK_INSNS - i)
  }

  /** The machine is about to execute word `i` of block `b`, and what is left of the block
      is what memory and the translation hold at the program counter. */
  predicate OnTrack(m: Machine, b: BasicBlock, i: nat)
  {
    && i < |b.insns|
    && Fetches(m.cpu)
    && (if m.cpu.branchPending then i == |b.insns| - 1 && FetchedWord(m) == b.insns[i]
        else OnLine(Ctx(m.cpu), m.mem, m.cpu.pc, b, i))
  }

  lemma OnTrackAtStart(m: Machine, b: BasicBlock)
    requires UpToDate(Ctx(m.cpu), m.mem, b) && m.cpu.pc == b.startPc && !m.cpu.branchPending
    ensures OnTrack(m, b, 0) && |b.insns| > 0
  {
    hide Translate, Ctx, Contiguous, Settled;
  }

  /** On track, the interpreter fetches the cached word. */
  lemma OnTrackFetches(m: Machine, b: BasicBlock, i: nat)
    requires OnTrack(m, b, i)
    ensures Fetches(m.cpu) && FetchedWord(m) == b.insns[i]
  {
    hide Translate, Ctx, Contiguous, Settled, Read32, IsBranchOrJump, IsTerminal, Next;
    if !m.cpu.branchPending {
      assert b.insns[i..][0] == b.insns[i];
    }
  }

  // ---------------------------------------------------------------- where control goes

  /** Without a control transfer no delay slot is opened. */
  lemma NoBranchPending(m: Machine, w: u32)
    requires !m.cpu.branchPending && !IsControlTransfer(Decode(w))
    ensures !Execute(m, w).cpu.branchPending
  {
    hide Decode, Translate, Read32, Write32, Ctx, ExceptionCop0, Vector, Cop0Usable, Sext32, Probe;
    var i := Decode(w);
    match i
    case LoadWord(_, _, _) =>
    case StoreWord(_, _, _) =>
    case Cop0(op) =>
    case _ =>
  }

  /** A control transfer opens a delay slot, or skips it; it raises nothing. */
  lemma BranchOutcome(m: Machine, w: u32)
    requires IsControlTransfer(Decode(w))
    ensures var r := Execute(m, w).cpu;
      && (r.branchPending || r.nextPc == (m.cpu.pc + 8) % TWO_TO_64)
      && r.exceptions == m.cpu.exceptions
  {
    hide Decode, Holds;
  }

  lemma EightIsNotFour(pc: u64)
    ensures (pc + 8) % TWO_TO_64 != Next(pc)
  {
  }

  /** A control transfer that reaches the next word without an exception is in its delay slot. */
  lemma InDelaySlot(m: Machine, w: u32)
    requires !m.cpu.branchPending && IsControlTransfer(Decode(w))
    requires ExecuteWord(m, w).cpu.pc == Next(m.cpu.pc)
    ensures ExecuteWord(m, w).cpu.branchPending
  {
    var d := m.(cpu := Dispatch(m.cpu));
    BranchOutcome(d, w);
    EightIsNotFour(m.cpu.pc);
    DispatchSees(m, w);
    RetireKeeps(Sequence(m.cpu, Execute(d, w).cpu));
    hide Execute, Retire, Dispatch, Decode;
  }

  lemma NotInDelaySlot(m: Machine, w: u32)
    requires !m.cpu.branchPending && !IsControlTransfer(Decode(w))
    ensures !ExecuteWord(m, w).cpu.branchPending
  {
    var d := m.(cpu := Dispatch(m.cpu));
    NoBranchPending(d, w);
    DispatchSees(m, w);
    RetireKeeps(Sequence(m.cpu, Execute(d, w).cpu));
    hide Execute, Retire, Dispatch, Decode;
  }

  // ---------------------------------------------------------------- staying on track

  lemma TailOf(b: BasicBlock, i: nat)
    requires i + 1 < |b.insns|
    ensures b.insns[i..][1..] == b.insns[i + 1..] && b.insns[i..][0] == b.insns[i]
    ensures |b.insns[i..]| >= 2
  {
  }

  lemma PcAlignedNext(pc: u64)
    requires pc % 4 == 0
    ensures Next(pc) % 4 == 0
  {
  }

  /** The branch before a cached delay slot. */
  lemma TrackBranch(m: Machine, b: BasicBlock, i: nat)
    requires OnTrack(m, b, i) && ExecutesWord(m) && StepOk(m)
    requires !m.cpu.branchPending && i + 1 < |b.insns| && IsBranchOrJump(b.insns[i])
    requires Step(m).cpu.pc == Next(m.cpu.pc) && Step(m).cpu.exceptions == m.cpu.exceptions
    ensures OnTrack(Step(m), b, i + 1)
  {
    var w := b.insns[i];
    var c := Ctx(m.cpu);
    OnTrackFetches(m, b, i);
    TailOf(b, i);
    BranchDecodersAgree(w);
    InDelaySlot(m, w);
    WordEffects(m, w);
    PcAlignedNext(m.cpu.pc);
    assert !MovesContext(m.cpu, w) && StoredAt(m.cpu, w) == None;
    ContextKept(m, w);
    hide Decode, IsBranchOrJump, Translate, Read32, ExecuteWord, StoredAt, Next, InterruptPending, Contiguous, Settled,
         PlaceOk, WordOk, Ctx, MovesContext;
    assert Ctx(Step(m).cpu) == c;
    assert b.insns[i..] == [w] + DelaySlot(c, m.mem, m.cpu.pc);
    assert b.insns[i + 1..] == DelaySlot(c, m.mem, m.cpu.pc);
    assert b.insns[i + 1] == b.insns[i + 1..][0];
  }

  /** Past an instruction that is not a branch, the line goes on in the same page. */
  lemma LineAdvances(c: Context, mem: Memory, pc: u64, b: BasicBlock, i: nat)
    requires OnLine(c, mem, pc, b, i) && i + 1 < |b.insns| && !IsBranchOrJump(b.insns[i])
    ensures !IsTerminal(b.insns[i])
    ensures OnLine(c, mem, Next(pc), b, i + 1)
  {
    hide IsBranchOrJump, IsTerminal, Translate, Read32, Next, Settled;
    var w := b.insns[i];
    TailOf(b, i);
    assert w == Read32(mem, b.paddr + 4 * i);
    assert !IsTerminal(w) && Next(pc) % PAGE != 0;
    assert b.insns[i..] == [w] + Straight(c, mem, Next(pc), MAX_BLOCK_INSNS - i - 1);
    NextTranslates(c, pc);
    NextInPage(pc);
  }

  lemma LineUntouched(c: Context, mem: Memory, n: Memory, pc: u64, b: BasicBlock, i: nat, p: nat)
    requires OnLine(c, mem, pc, b, i) && ChangedOnly(mem, n, p, 4)
    requires p + 4 <= b.paddr + 4 * i || p >= b.paddr + 4 * |b.insns|
    ensures OnLine(c, n, pc, b, i)
  {
    hide Translate, ChangedOnly, Straight, Contiguous, StopsAtBranch;
    SameSize(mem, n, p, 4);
    assert |b.insns[i..]| == |b.insns| - i;
    StraightUntouched(c, mem, n, pc, MAX_BLOCK_INSNS - i, p, 4);
  }

  /** A straight-line instruction inside the block. */
  lemma TrackStraight(m: Machine, b: BasicBlock, i: nat)
    requires OnTrack(m, b, i) && ExecutesWord(m) && StepOk(m)
    requires !m.cpu.branchPending && i + 1 < |b.insns| && !IsBranchOrJump(b.insns[i])
    requires Step(m).cpu.pc == Next(m.cpu.pc) && Step(m).cpu.exceptions == m.cpu.exceptions
    ensures OnTrack(Step(m), b, i + 1)
  {
    var w := b.insns[i];
    OnTrackFetches(m, b, i);
    assert Step(m) == ExecuteWord(m, w) && WordOk(m, w);
    BranchDecodersAgree(w);
    NotInDelaySlot(m, w);
    LineAdvances(Ctx(m.cpu), m.mem, m.cpu.pc, b, i);
    assert OnLine(Ctx(m.cpu), m.mem, m.cpu.pc, b, i) && KeepsLine(m, w);
    hide Step, ExecuteWord, StepOk, OnLine, WordOk, Ctx, FetchedWord, Decode, IsBranchOrJump, IsTerminal,
         Translate, Next, KeepsLine, MovesContext;
    if MovesContext(m.cpu, w) {
      MoveKeepsLine(m, b, i + 1, w);
    } else {
      ContextKept(m, w);
      StoreKeepsLine(m, b, i, w);
    }
    LineFetches(Step(m), b, i + 1);
  }

  /** The line past the word is what it was, after whatever the word stores. */
  lemma StoreKeepsLine(m: Machine, b: BasicBlock, i: nat, w: u32)
    requires Fetches(m.cpu) && !m.cpu.branchPending && WordOk(m, w)
    requires OnLine(Ctx(m.cpu), m.mem, m.cpu.pc, b, i) && OnLine(Ctx(m.cpu), m.mem, Next(m.cpu.pc), b, i + 1)
    ensures OnLine(Ctx(m.cpu), ExecuteWord(m, w).mem, Next(m.cpu.pc), b, i + 1)
  {
    WordEffects(m, w);
    var n := ExecuteWord(m, w).mem;
    assert StoreRespectsLine(m, w) && StoreSettled(m, w);
    hide OnLine, WordOk, Ctx, Translate, ExecuteWord, StoredAt, ClearsCache, Write32, StoreRespectsLine, Settled, Next,
         Fetches;
    if StoredAt(m.cpu, w).Some? && n != m.mem {
      var p := StoredAt(m.cpu, w).value;
      StoreMisses(m, b, i, w, p);
      var v: u32 :| n == Write32(m.mem, p, v);
      Write32ChangesOnly(m.mem, p, v);
      LineUntouched(Ctx(m.cpu), m.mem, n, Next(m.cpu.pc), b, i + 1, p);
    }
  }

  lemma LineFetches(m: Machine, b: BasicBlock, i: nat)
    requires OnLine(Ctx(m.cpu), m.mem, m.cpu.pc, b, i)
    ensures Fetches(m.cpu)
  {
    hide Translate, Ctx, Contiguous, Settled;
  }

  /** After a word that moves the context and goes on to the next, the line past it is still there. */
  lemma MoveKeepsLine(m: Machine, b: BasicBlock, i: nat, w: u32)
    requires MovesContext(m.cpu, w) && !IsTerminal(w) && !m.cpu.branchPending && KeepsLine(m, w)
    requires ExecuteWord(m, w).cpu.exceptions == m.cpu.exceptions && ExecuteWord(m, w).cpu.pc == Next(m.cpu.pc)
    requires OnLine(Ctx(m.cpu), m.mem, Next(m.cpu.pc), b, i)
    ensures OnLine(Ctx(ExecuteWord(m, w).cpu), ExecuteWord(m, w).mem, Next(m.cpu.pc), b, i)
  {
    WordEffects(m, w);
    MoveStoresNothing(m.cpu, w);
    hide Translate, Straight, Contiguous, Settled, Ctx, ExecuteWord, MovesContext, IsTerminal, Next, StoredAt;
  }

  lemma MoveStoresNothing(s: CpuState, w: u32)
    requires MovesContext(s, w)
    ensures StoredAt(s, w) == None
  {
    hide Decode, Translate, Cop0Usable;
  }

  /** A store that respects its line misses what is left of the block. */
  lemma StoreMisses(m: Machine, b: BasicBlock, i: nat, w: u32, p: u32)
    requires Fetches(m.cpu) && !m.cpu.branchPending
    requires OnLine(Ctx(m.cpu), m.mem, m.cpu.pc, b, i)
    requires StoredAt(m.cpu, w) == Some(p) && StoreRespectsLine(m, w) && ExecuteWord(m, w).mem != m.mem
    ensures p + 4 <= b.paddr + 4 * (i + 1) || p >= b.paddr + 4 * |b.insns|
  {
    hide Translate, StoredAt, Contiguous, Straight, Ctx, ExecuteWord;
    var c, pc := Ctx(m.cpu), m.cpu.pc;
    StraightPrefix(c, m.mem, pc, MAX_BLOCK_INSNS - i, MAX_BLOCK_INSNS);
    StoreAligned(m.cpu, w);
    AlignedFrame(c, pc, false);
    assert |b.insns[i..]| == |b.insns| - i;
  }

  /** Stores that reach memory are word aligned. */
  lemma StoreAligned(s: CpuState, w: u32)
    requires StoredAt(s, w).Some?
    ensures StoredAt(s, w).value % 4 == 0
  {
    hide Translate, EffectiveAddress, Ctx;
    var i := Decode(w);
    hide Decode;
    var addr := EffectiveAddress(s, i.rs, i.offset);
    AlignedFrame(Ctx(s), addr, true);
  }

  /** The block stays on track as long as control moves to its next word. */
  lemma OnTrackNext(m: Machine, b: BasicBlock, i: nat)
    requires OnTrack(m, b, i) && ExecutesWord(m) && StepOk(m)
    requires i + 1 < |b.insns| && Step(m).cpu.pc == Next(m.cpu.pc) && Step(m).cpu.exceptions == m.cpu.exceptions
    ensures OnTrack(Step(m), b, i + 1)
  {
    if IsBranchOrJump(b.insns[i]) {
      TrackBranch(m, b, i);
    } else {
      TrackStraight(m, b, i);
    }
  }

  lemma PcAtNext(startPc: u64, i: nat)
    ensures PcAt(startPc, i + 1) == Next(PcAt(startPc, i))
    ensures PcAt(startPc, 0) == startPc
  {
    var x := startPc + 4 * i;
    var q, r := x / TWO_TO_64, x % TWO_TO_64;
    if r + 4 < TWO_TO_64 {
      DivMod(x + 4, TWO_TO_64, q, r + 4);
    } else {
      DivMod(x + 4, TWO_TO_64, q + 1, r + 4 - TWO_TO_64);
    }
  }

  // ---------------------------------------------------------------- runs

  lemma {:induction false} StepsAdd(m: Machine, a: nat, b: nat)
    ensures Steps(m, a + b) == Steps(Steps(m, a), b)
    decreases b
  {
    hide Step;
    if b > 0 {
      StepsAdd(m, a, b - 1);
    }
  }

  /** The rest of a well-behaved run is well behaved. */
  lemma RunOkFrom(m: Machine, n: nat, a: nat)
    requires RunOk(m, n) && a <= n
    ensures RunOk(Steps(m, a), n - a)
  {
    hide Step, StepOk;
    forall k | 0 <= k < n - a ensures StepOk(Steps(Steps(m, a), k)) {
      StepsAdd(m, a, k);
    }
  }

  /** What a step on track does: the interrupt, or the cached word. */
  lemma BlockStep(m: Machine, b: BasicBlock, i: nat, cache: Contents)
    requires OnTrack(m, b, i) && !m.cpu.halted
    ensures TakesInterrupt(m.cpu) ==>
      Step(m) == m.(cpu := TakeInterrupt(m.cpu)) && CacheAfterStep(cache, m) == cache
    ensures !TakesInterrupt(m.cpu) ==>
      ExecutesWord(m) && Step(m) == ExecuteWord(m, b.insns[i])
      && CacheAfterStep(cache, m) == CacheAfterExecute(cache, m.cpu, b.insns[i])
  {
    OnTrackFetches(m, b, i);
    hide OnTrack, Fetches, FetchedWord, ExecuteWord, TakeInterrupt, InterruptPending, CacheAfterExecute;
  }

  lemma ExecuteKeepsHalted(m: Machine, w: u32)
    ensures Execute(m, w).cpu.halted == m.cpu.halted
  {
    hide Decode, Translate, Read32, Write32, Ctx, ExceptionCop0, Vector, Cop0Usable, Sext32, Probe;
    var i := Decode(w);
    match i
    case LoadWord(_, _, _) =>
    case StoreWord(_, _, _) =>
    case Cop0(op) =>
    case _ =>
  }

  /** A step counts one cycle and never halts the machine. */
  lemma StepCounts(m: Machine)
    ensures Step(m).cpu.halted == m.cpu.halted && Step(m).cpu.cycles == m.cpu.cycles + 1
    ensures !m.cpu.halted ==> !Step(m).cpu.inDelaySlot
  {
    hide Translate, Read32, InterruptPending, FetchedWord, Execute, Retire, ExceptionCop0, Vector;
    if !m.cpu.halted {
      if TakesInterrupt(m.cpu) {
        RetireKeeps(RaiseException(m.cpu, EXC_INT, 0, 0, false));
      } else if !Fetches(m.cpu) {
        RetireKeeps(FetchException(m.cpu.(inDelaySlot := m.cpu.branchPending)));
      } else {
        var d := m.(cpu := Dispatch(m.cpu));
        ExecuteKeepsHalted(d, FetchedWord(m));
        ExecuteKeepsCycles(d, FetchedWord(m));
        RetireKeeps(Sequence(m.cpu, Execute(d, FetchedWord(m)).cpu));
      }
    }
  }

  lemma ExecuteKeepsCycles(m: Machine, w: u32)
    ensures Execute(m, w).cpu.cycles == m.cpu.cycles
  {
    hide Decode, Translate, Read32, Write32, Ctx, ExceptionCop0, Vector, Cop0Usable, Sext32, Probe;
    var i := Decode(w);
    match i
    case LoadWord(_, _, _) =>
    case StoreWord(_, _, _) =>
    case Cop0(op) =>
    case _ =>
  }

  lemma {:induction false} StepsCount(m: Machine, n: nat)
    ensures Steps(m, n).cpu.halted == m.cpu.halted && Steps(m, n).cpu.cycles == m.cpu.cycles + n
  {
    hide Step;
    if n > 0 {
      StepsCount(m, n - 1);
      StepCounts(Steps(m, n - 1));
    }
  }

  /** A line that can be cached compiles to a block that is up to date in every mode that can
      fetch it, kernel mode included. */
  lemma SettledIsUpToDate(c: Context, mem: Memory, pc: u64)
    requires pc % 4 == 0 && LineSettled(c, mem, pc) && Translate(c, pc, false).Mapped?
    ensures var b := FreshBlock(c, mem, pc, Translate(c, pc, false).paddr);
      && UpToDate(Kernel(c), mem, b) && UpToDate(c, mem, b)
  {
    TranslateByMode(c, pc, false);
    TranslateByMode(Kernel(c), pc, false);
    StraightByMode(c, Kernel(c), mem, pc, MAX_BLOCK_INSNS);
    hide Translate, Straight, Contiguous, Settled, StopsAtBranch, Reachable, SlotWithin, SlotAddress;
  }

  /** A cached block is up to date in the current mode wherever that mode can execute its line. */
  lemma HitIsUpToDate(c: Context, mem: Memory, b: BasicBlock)
    requires UpToDate(Kernel(c), mem, b)
    requires Translate(c, b.startPc, false).Mapped? && LineSettled(c, mem, b.startPc)
    ensures UpToDate(c, mem, b) && b == FreshBlock(c, mem, b.startPc, b.paddr)
  {
    TranslateByMode(c, b.startPc, false);
    TranslateByMode(Kernel(c), b.startPc, false);
    StraightByMode(c, Kernel(c), mem, b.startPc, MAX_BLOCK_INSNS);
    hide Translate, Straight, Contiguous, Settled, StopsAtBranch, Reachable, SlotWithin, SlotAddress;
  }

  lemma InstallKeepsCoherence(cache: Contents, c: Context, m: Memory, b: BasicBlock)
    requires Coherent(cache, c, m) && UpToDate(Kernel(c), m, b)
    ensures Coherent(cache[SlotIndex(b.startPc) := b], c, m)
  {
    hide UpToDate, SlotIndex;
  }

  lemma RunOkAt(m: Machine, n: nat, k: nat)
    requires RunOk(m, n) && k < n
    ensures StepOk(Steps(m, k))
  {
    hide StepOk, Steps;
  }

  lemma RunOkShorter(m: Machine, n: nat, k: nat)
    requires RunOk(m, n) && k <= n
    ensures RunOk(m, k)
  {
    hide StepOk, Steps;
  }
}
