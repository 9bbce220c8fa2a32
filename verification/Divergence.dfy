/** A machine for each limit of cached execution: where the condition fails, the cached run and the
    plain interpreter end in different states. */
module Divergence {
  import opened Words
  import opened Translation
  import opened PhysicalMemory
  import opened Blocks
  import opened Processor
  import opened BlockCaching
  import opened Coherence
  import opened Refinement
  import opened CachedExecution
  import opened SystemBus
  import opened Limits

  const TLBP: u32 := 0x4200_0008
  const SYSCALL: u32 := 0x0000_000C
  const STORE: u32 := 0xAC41_0004
  const MOVE: u32 := 0x40A1_6000
  const TOP: u64 := 0x8000_0000
  const KERNEL_MODE: u32 := 0x3400_0000
  const USER_MODE: u32 := 0x3400_0010

  // ---------------------------------------------------------------- what the words do

  lemma WordShapes()
    ensures Decode(TLBP) == Cop0(TlbProbe) && IsTerminal(TLBP) && !IsBranchOrJump(TLBP)
    ensures Decode(SYSCALL) == Syscall
    ensures Decode(STORE) == StoreWord(2, 1, 4) && !IsTerminal(STORE) && !IsBranchOrJump(STORE)
    ensures Decode(MOVE) == Cop0(MoveTo(1, 12)) && !IsTerminal(MOVE) && !IsBranchOrJump(MOVE)
  {
    ProbeShape();
    assert Decode(SYSCALL) == Syscall;
    StoreShape();
    MoveShape();
    hide Decode, IsTerminal, IsBranchOrJump;
  }

  lemma ProbeShape()
    ensures Decode(TLBP) == Cop0(TlbProbe) && IsTerminal(TLBP) && !IsBranchOrJump(TLBP)
  {
  }

  lemma StoreShape()
    ensures Decode(STORE) == StoreWord(2, 1, 4) && !IsTerminal(STORE) && !IsBranchOrJump(STORE)
  {
  }

  lemma MoveShape()
    ensures Decode(MOVE) == Cop0(MoveTo(1, 12)) && !IsTerminal(MOVE) && !IsBranchOrJump(MOVE)
  {
  }

  /** TLBP raises nothing where COP0 may be used. */
  lemma ProbeIsQuiet(m: Machine)
    requires Cop0Usable(m.cpu)
    ensures ExecuteWord(m, TLBP).cpu.exceptions == m.cpu.exceptions
  {
    ProbeShape();
    ProbeWord(m, TLBP);
  }

  lemma ProbeWord(m: Machine, w: u32)
    requires Cop0Usable(m.cpu) && Decode(w) == Cop0(TlbProbe)
    ensures ExecuteWord(m, w).cpu.exceptions == m.cpu.exceptions
  {
    var d := m.(cpu := Dispatch(m.cpu));
    Cop0Word(d, w);
    var r := Execute(d, w);
    assert r.cpu.exceptions == m.cpu.exceptions by { hide Decode, Probe, Execute; }
    RetireKeeps(Sequence(m.cpu, r.cpu));
    hide Execute, Dispatch, Retire, Decode, ExecCop0;
  }

  lemma Cop0Word(d: Machine, w: u32)
    requires Decode(w).Cop0?
    ensures Execute(d, w) == d.(cpu := ExecCop0(d.cpu, Decode(w).op))
  {
    hide Decode, ExecCop0;
  }

  /** The interpreter raises an exception where it fetches SYSCALL or cannot fetch. */
  lemma StepRaises(m: Machine)
    requires !m.cpu.halted && !TakesInterrupt(m.cpu)
    requires Fetches(m.cpu) ==> FetchedWord(m) == SYSCALL
    ensures Step(m).cpu.exceptions == m.cpu.exceptions + 1
  {
    if Fetches(m.cpu) {
      SyscallRaises(m);
    } else {
      RetireKeeps(FetchException(m.cpu.(inDelaySlot := m.cpu.branchPending)));
    }
    hide Translate, TakesInterrupt, ExceptionCop0, Vector, Retire, ExecuteWord, FetchedWord;
  }

  lemma SyscallRaises(m: Machine)
    ensures ExecuteWord(m, SYSCALL).cpu.exceptions == m.cpu.exceptions + 1
  {
    assert Decode(SYSCALL) == Syscall;
    SyscallWord(m, SYSCALL);
  }

  lemma SyscallWord(m: Machine, w: u32)
    requires Decode(w) == Syscall
    ensures ExecuteWord(m, w).cpu.exceptions == m.cpu.exceptions + 1
  {
    hide Decode, ExceptionCop0, Vector, Retire;
    var d := m.(cpu := Dispatch(m.cpu));
    RetireKeeps(Sequence(m.cpu, Execute(d, w).cpu));
  }

  // ---------------------------------------------------------------- short blocks

  /** A world about to run a block of these words. */
  ghost predicate Finds(w: World, insns: seq<u32>) {
    var (found, blk) := FindBlock(w);
    && !w.machine.cpu.halted && !w.machine.cpu.branchPending && !TakesInterrupt(w.machine.cpu)
    && found.machine == w.machine
    && blk.Some? && blk.value.insns == insns && blk.value.startPc == w.machine.cpu.pc
  }

  lemma FindsFresh(m: Machine, b: BasicBlock)
    requires !m.cpu.halted && !m.cpu.branchPending && !TakesInterrupt(m.cpu)
    requires Fresh(Ctx(m.cpu), m.mem, m.cpu.pc) == Some(b)
    ensures Finds(World(m, map[]), b.insns)
  {
    hide Translate, Ctx, TakesInterrupt, Straight, StopsAtBranch;
  }

  lemma OneWordRun(w: World, insn: u32)
    requires Finds(w, [insn])
    ensures CachedRun(w, true, 1).0.machine == ExecuteWord(w.machine, insn)
  {
    var (found, blk) := FindBlock(w);
    var b := blk.value;
    hide FindBlock, ExecuteWord, CacheAfterExecute, TakesInterrupt;
    PcAtNext(b.startPc, 0);
    var next := WordWorld(found, insn);
    assert BlockFrom(next, b, 1) == (next, 0);
    assert BlockFrom(found, b, 0) == (next, 1);
    assert CachedRun(next, true, 0) == (next, 0);
  }

  lemma TwoWordRun(w: World, first: u32, second: u32)
    requires Finds(w, [first, second])
    requires var n := ExecuteWord(w.machine, first);
      && n.cpu.exceptions == w.machine.cpu.exceptions && !n.cpu.halted
      && n.cpu.pc == Next(w.machine.cpu.pc) && !TakesInterrupt(n.cpu)
    ensures CachedRun(w, true, 2).0.machine == ExecuteWord(ExecuteWord(w.machine, first), second)
  {
    var (found, blk) := FindBlock(w);
    var b := blk.value;
    hide FindBlock, ExecuteWord, CacheAfterExecute, TakesInterrupt, PcAt, Next;
    PcAtNext(b.startPc, 0);
    var next := WordWorld(found, first);
    var last := WordWorld(next, second);
    assert BlockFrom(last, b, 2) == (last, 0);
    assert BlockFrom(next, b, 1) == (last, 1);
    assert BlockFrom(found, b, 0) == (last, 2);
    assert CachedRun(last, true, 0) == (last, 0);
  }

  lemma StepsOnce(m: Machine)
    ensures Steps(m, 1) == Step(m) && Steps(m, 2) == Step(Step(m))
  {
    hide Step;
    assert Steps(m, 0) == m;
  }

  /** The line that ends with its first word. */
  lemma OneWordLine(c: Context, m: Memory, pc: u64, p: u32)
    requires Translate(c, pc, false) == Mapped(p) && IsTerminal(Read32(m, p)) && !IsBranchOrJump(Read32(m, p))
    ensures Straight(c, m, pc, MAX_BLOCK_INSNS) == [Read32(m, p)] && !StopsAtBranch(c, m, pc, MAX_BLOCK_INSNS)
    ensures Contiguous(c, m, pc, MAX_BLOCK_INSNS)
    ensures Fresh(c, m, pc) == Some(BasicBlock(pc, p, [Read32(m, p)], false))
  {
    hide Translate, Read32, IsBranchOrJump, IsTerminal, Next;
  }

  lemma TwoWordLine(c: Context, m: Memory, pc: u64, p: u32, q: u32)
    requires Translate(c, pc, false) == Mapped(p) && !IsTerminal(Read32(m, p)) && !IsBranchOrJump(Read32(m, p))
    requires Next(pc) % PAGE != 0 && Translate(c, Next(pc), false) == Mapped(q)
    requires IsTerminal(Read32(m, q)) && !IsBranchOrJump(Read32(m, q))
    ensures Fresh(c, m, pc) == Some(BasicBlock(pc, p, [Read32(m, p), Read32(m, q)], false))
  {
    hide Translate, Read32, IsBranchOrJump, IsTerminal, Next;
    assert Straight(c, m, Next(pc), MAX_BLOCK_INSNS - 1) == [Read32(m, q)];
    assert [Read32(m, p)] + [Read32(m, q)] == [Read32(m, p), Read32(m, q)];
  }

  // ---------------------------------------------------------------- the machines

  /** A machine about to execute at `pc` with a given Status and RDRAM and two registers set. */
  function At(pc: u64, status: u32, ram: seq<u8>, r1: u64, r2: u64): Machine {
    var s := ResetState();
    Machine(s.(pc := pc, nextPc := Next(pc), cop0 := s.cop0[COP0_STATUS := status], gpr := s.gpr[1 := r1][2 := r2]),
            Memory(ram, [], []))
  }

  lemma AtShape(pc: u64, status: u32, ram: seq<u8>, r1: u64, r2: u64)
    requires status == KERNEL_MODE || status == USER_MODE
    ensures var m := At(pc, status, ram, r1, r2);
      && !m.cpu.halted && !m.cpu.branchPending && !TakesInterrupt(m.cpu) && m.cpu.pc == pc && m.cpu.exceptions == 0
      && Cop0Usable(m.cpu) && Ctx(m.cpu).mode == (if status == KERNEL_MODE then 0 else 2)
      && m.cpu.cop0[COP0_STATUS] == status && m.cpu.gpr[1] == r1 && m.cpu.gpr[2] == r2
  {
    StatusDecides(At(pc, status, ram, r1, r2).cpu);
    hide TakesInterrupt, Cop0Usable, Ctx;
  }

  lemma DirectAddresses(c: Context)
    requires c.mode == 0
    ensures Translate(c, TOP, false) == Mapped(0) && Translate(c, TOP + 4, false) == Mapped(4)
    ensures Translate(c, TOP + 4, true) == Mapped(4) && Translate(c, TOP + 2, false) == Mapped(2)
  {
    hide Translate;
    DirectTranslation(c, TOP, false);
    DirectTranslation(c, TOP + 4, false);
    DirectTranslation(c, TOP + 4, true);
    DirectTranslation(c, TOP + 2, false);
  }

  lemma WordAt(m: Memory, o: nat)
    requires o + 4 <= |m.ram| <= RDRAM_LIMIT
    ensures Read32(m, o) == Word(m.ram[o], m.ram[o + 1], m.ram[o + 2], m.ram[o + 3])
  {
    LowIndex(m, o, 4);
    hide Physical, Word, Read8;
  }

  /** A block at an address that is not word aligned: cached execution runs it, the interpreter
      raises an address error. */
  lemma MisalignedDiverges() returns (m: Machine)
    ensures m.cpu.pc % 4 == 2
    ensures CachedRun(World(m, map[]), true, 1).0.machine != Steps(m, 1)
  {
    m := MisalignedMachine();
    hide Read32, Decode, Translate, Ctx, ExecuteWord, CachedRun, Finds, IsTerminal, IsBranchOrJump, Cop0Usable, Step,
         Fresh, TakesInterrupt;
    WordShapes();
    OneWordLine(Ctx(m.cpu), m.mem, m.cpu.pc, 2);
    FindsFresh(m, BasicBlock(m.cpu.pc, 2, [TLBP], false));
    OneWordRun(World(m, map[]), TLBP);
    ProbeIsQuiet(m);
    StepsOnce(m);
    MisalignedRaises(m);
  }

  lemma MisalignedMachine() returns (m: Machine)
    ensures m.cpu.pc % 4 == 2 && !m.cpu.halted && !m.cpu.branchPending && !TakesInterrupt(m.cpu) && Cop0Usable(m.cpu)
    ensures Translate(Ctx(m.cpu), m.cpu.pc, false) == Mapped(2) && Read32(m.mem, 2) == TLBP
  {
    hide Read32, Translate, Ctx, TakesInterrupt, Cop0Usable;
    var ram: seq<u8> := [0, 0, 0x42, 0, 0, 0x08];
    m := At(TOP + 2, KERNEL_MODE, ram, 0, 0);
    AtShape(TOP + 2, KERNEL_MODE, ram, 0, 0);
    DirectAddresses(Ctx(m.cpu));
    WordAt(m.mem, 2);
  }

  /** A store into the block that is running: cached execution goes on with the old word. */
  lemma SelfStoreDiverges() returns (m: Machine)
    ensures CachedRun(World(m, map[]), true, 2).0.machine != Steps(m, 2)
  {
    var ram: seq<u8> := [0xAC, 0x41, 0, 0x04, 0x42, 0, 0, 0x08];
    m := At(TOP, KERNEL_MODE, ram, SYSCALL, TOP);
    AtShape(TOP, KERNEL_MODE, ram, SYSCALL, TOP);
    WordAt(m.mem, 0);
    WordAt(m.mem, 4);
    assert Read32(m.mem, 0) == STORE && Read32(m.mem, 4) == TLBP;
    StoreExecutes(m);
    hide At;
    AfterFirst(m, STORE, TLBP);
  }

  /** What the store does: the next word becomes SYSCALL. */
  lemma StoreExecutes(m: Machine)
    requires m.cpu.pc == TOP && !m.cpu.branchPending && m.cpu.cop0[COP0_STATUS] == KERNEL_MODE && Ctx(m.cpu).mode == 0
    requires m.cpu.gpr[1] == SYSCALL && m.cpu.gpr[2] == TOP && |m.mem.ram| == 8 && !m.cpu.halted
    ensures var n := ExecuteWord(m, STORE);
      && n.cpu.exceptions == m.cpu.exceptions && !n.cpu.halted && n.cpu.pc == Next(TOP) && !n.cpu.branchPending
      && n.cpu.cop0[COP0_STATUS] == KERNEL_MODE && Read32(n.mem, 4) == SYSCALL
  {
    var d := m.(cpu := Dispatch(m.cpu));
    StoreEffect(d);
    var r := Execute(d, STORE);
    SlotWritten(m.mem, 4, SYSCALL);
    RetireKeeps(Sequence(m.cpu, r.cpu));
    hide Execute, Retire, Write32, Read32;
  }

  lemma StoreEffect(d: Machine)
    requires Ctx(d.cpu).mode == 0 && d.cpu.gpr[1] == SYSCALL && d.cpu.gpr[2] == TOP && |d.mem.ram| == 8
    ensures Execute(d, STORE) == Machine(d.cpu.(llBit := false), Write32(d.mem, 4, SYSCALL))
  {
    StoreShape();
    StoreReaches(d.cpu);
    StoringWord(d, STORE);
    StoreWrites(d);
    hide Decode, Write32, StoreTarget, ExecStoreWord, Execute;
  }

  lemma StoringWord(d: Machine, w: u32)
    requires Decode(w).StoreWord?
    ensures Execute(d, w) == ExecStoreWord(d, Decode(w))
  {
    hide Decode, ExecStoreWord;
  }

  lemma StoreWrites(d: Machine)
    requires StoreTarget(d.cpu, 2, 4) == Mapped(4) && d.cpu.gpr[1] == SYSCALL
    ensures ExecStoreWord(d, StoreWord(2, 1, 4)) == Machine(d.cpu.(llBit := false), Write32(d.mem, 4, SYSCALL))
  {
    hide Write32, StoreTarget, RaiseTranslationFault;
  }

  lemma StoreReaches(s: CpuState)
    requires Ctx(s).mode == 0 && s.gpr[2] == TOP
    ensures StoreTarget(s, 2, 4) == Mapped(4)
  {
    hide Ctx, Translate;
    DirectAddresses(Ctx(s));
    assert EffectiveAddress(s, 2, 4) == TOP + 4;
  }

  /** A two-word block whose first word leaves the interpreter an exception and the cached word
      none. */
  lemma AfterFirst(m: Machine, first: u32, second: u32)
    requires m.cpu.pc == TOP && !m.cpu.halted && !m.cpu.branchPending && !TakesInterrupt(m.cpu) && Ctx(m.cpu).mode == 0
    requires Read32(m.mem, 0) == first && Read32(m.mem, 4) == second && second == TLBP
    requires first == STORE || first == MOVE
    requires var n := ExecuteWord(m, first);
      && n.cpu.exceptions == m.cpu.exceptions && !n.cpu.halted && n.cpu.pc == Next(TOP) && !n.cpu.branchPending
      && (if first == STORE then n.cpu.cop0[COP0_STATUS] == KERNEL_MODE && Read32(n.mem, 4) == SYSCALL
          else n.cpu.cop0[COP0_STATUS] == USER_MODE)
    ensures CachedRun(World(m, map[]), true, 2).0.machine != Steps(m, 2)
  {
    var n := ExecuteWord(m, first);
    WordShapes();
    DirectAddresses(Ctx(m.cpu));
    StatusDecides(n.cpu);
    if first == STORE {
      DirectAddresses(Ctx(n.cpu));
    } else {
      UserCannot(Ctx(n.cpu));
    }
    hide Read32, Decode, Translate, Ctx, ExecuteWord, CachedRun, Finds, IsTerminal, IsBranchOrJump, Cop0Usable,
         TakesInterrupt, Fresh;
    TwoWordLine(Ctx(m.cpu), m.mem, TOP, 0, 4);
    FindsFresh(m, BasicBlock(TOP, 0, [first, second], false));
    TwoWordRun(World(m, map[]), first, second);
    ProbeIsQuiet(n);
    StepsOnce(m);
    assert Fetches(m.cpu) && FetchedWord(m) == first;
    assert Step(m) == n;
    StepRaises(n);
  }

  lemma StatusDecides(s: CpuState)
    requires s.cop0[COP0_STATUS] == KERNEL_MODE || s.cop0[COP0_STATUS] == USER_MODE
    ensures !TakesInterrupt(s) && Cop0Usable(s)
    ensures Ctx(s).mode == if s.cop0[COP0_STATUS] == KERNEL_MODE then 0 else 2
  {
  }

  lemma UserCannot(c: Context)
    requires c.mode == 2
    ensures Translate(c, TOP, false) == Fault(AddressError) && Translate(c, TOP + 4, false) == Fault(AddressError)
  {
  }

  /** DMTC0 to Status inside a block: cached execution goes on in KSEG0 in user mode. */
  lemma MoveDiverges() returns (m: Machine)
    ensures CachedRun(World(m, map[]), true, 2).0.machine != Steps(m, 2)
  {
    var ram: seq<u8> := [0x40, 0xA1, 0x60, 0, 0x42, 0, 0, 0x08];
    m := At(TOP, KERNEL_MODE, ram, USER_MODE, 0);
    AtShape(TOP, KERNEL_MODE, ram, USER_MODE, 0);
    WordAt(m.mem, 0);
    WordAt(m.mem, 4);
    assert Read32(m.mem, 0) == MOVE && Read32(m.mem, 4) == TLBP;
    MoveExecutes(m);
    hide At;
    AfterFirst(m, MOVE, TLBP);
  }

  lemma MoveExecutes(m: Machine)
    requires m.cpu.pc == TOP && !m.cpu.branchPending && m.cpu.cop0[COP0_STATUS] == KERNEL_MODE
    requires m.cpu.gpr[1] == USER_MODE && !m.cpu.halted
    ensures var n := ExecuteWord(m, MOVE);
      && n.cpu.exceptions == m.cpu.exceptions && !n.cpu.halted && n.cpu.pc == Next(TOP) && !n.cpu.branchPending
      && n.cpu.cop0[COP0_STATUS] == USER_MODE
  {
    var d := m.(cpu := Dispatch(m.cpu));
    MoveEffect(d);
    var r := Execute(d, MOVE);
    RetireKeeps(Sequence(m.cpu, r.cpu));
    hide Execute, Retire;
  }

  lemma MoveEffect(d: Machine)
    requires d.cpu.cop0[COP0_STATUS] == KERNEL_MODE && d.cpu.gpr[1] == USER_MODE
    ensures Execute(d, MOVE) == d.(cpu := d.cpu.(cop0 := d.cpu.cop0[COP0_STATUS := USER_MODE]))
  {
    MoveShape();
    MoveWord(d, MOVE);
  }

  lemma MoveWord(d: Machine, w: u32)
    requires d.cpu.cop0[COP0_STATUS] == KERNEL_MODE && d.cpu.gpr[1] == USER_MODE && Decode(w) == Cop0(MoveTo(1, 12))
    ensures Execute(d, w) == d.(cpu := d.cpu.(cop0 := d.cpu.cop0[COP0_STATUS := USER_MODE]))
  {
    Cop0Word(d, w);
    StatusDecides(d.cpu);
    hide Decode, Execute, Cop0Usable, Ctx, TakesInterrupt;
  }

  // ---------------------------------------------------------------- caches made stale

  /** The block of the one word at the top of KSEG0. */
  function OneBlock(insn: u32): BasicBlock {
    BasicBlock(TOP, 0, [insn], false)
  }

  lemma OneBlockCoherent(m: Machine)
    requires Read32(m.mem, 0) == TLBP && 4 <= |m.mem.ram| <= RDRAM_LIMIT
    ensures WorldOk(World(m, map[0 := OneBlock(TLBP)]))
  {
    hide Translate, Read32, Straight, Contiguous, StopsAtBranch, Ctx, Decode, IsTerminal, IsBranchOrJump;
    var c := Kernel(Ctx(m.cpu));
    ProbeShape();
    DirectAddresses(c);
    OneWordLine(c, m.mem, TOP, 0);
    assert SlotIndex(TOP) == 0;
    assert UpToDate(c, m.mem, OneBlock(TLBP));
  }

  lemma OneBlockFound(w: World)
    requires !w.machine.cpu.halted && !w.machine.cpu.branchPending && !TakesInterrupt(w.machine.cpu)
    requires w.machine.cpu.pc == TOP && 0 in w.cache && w.cache[0] == OneBlock(TLBP)
    ensures Finds(w, [TLBP])
  {
    hide TakesInterrupt, Fresh, Ctx;
    assert SlotIndex(TOP) == 0;
  }

  /** A block cached in kernel mode and reached from user mode: the cache executes it, the
      interpreter raises an address error. */
  lemma ModeDiverges() returns (w: World)
    ensures WorldOk(w) && CachedRun(w, true, 1).0.machine != Steps(w.machine, 1)
  {
    var ram: seq<u8> := [0x42, 0, 0, 0x08];
    var m := At(TOP, USER_MODE, ram, 0, 0);
    AtShape(TOP, USER_MODE, ram, 0, 0);
    WordAt(m.mem, 0);
    assert Read32(m.mem, 0) == TLBP;
    w := World(m, map[0 := OneBlock(TLBP)]);
    OneBlockCoherent(m);
    UserCannot(Ctx(m.cpu));
    hide At, Read32, Decode, Translate, Ctx, ExecuteWord, CachedRun, Finds, Cop0Usable, TakesInterrupt, WorldOk, Step;
    OneBlockFound(w);
    OneWordRun(w, TLBP);
    ProbeIsQuiet(m);
    StepsOnce(m);
    assert !Fetches(m.cpu);
    StepRaises(m);
  }

  /** A word of a cached block written through an RDRAM mirror: the cache still holds it. */
  lemma MirrorDiverges() returns (before: World, addr: nat, w: World)
    ensures WorldOk(before) && addr >= |before.machine.mem.ram|
    ensures var (m, mem) := (before.machine, before.machine.mem);
      w == World(m.(mem := Write32(mem, addr, SYSCALL)), AfterWrite32(before.cache, mem, addr))
    ensures CachedRun(w, true, 1).0.machine != Steps(w.machine, 1)
  {
    var ram: seq<u8> := [0x42, 0, 0, 0x08];
    var m := At(TOP, KERNEL_MODE, ram, 0, 0);
    AtShape(TOP, KERNEL_MODE, ram, 0, 0);
    WordAt(m.mem, 0);
    assert Read32(m.mem, 0) == TLBP;
    before, addr := World(m, map[0 := OneBlock(TLBP)]), 4;
    OneBlockCoherent(m);
    MirrorWritten(m.mem);
    w := World(m.(mem := Write32(m.mem, 4, SYSCALL)), AfterWrite32(before.cache, m.mem, 4));
    DirectAddresses(Ctx(w.machine.cpu));
    hide At, Read32, Write32, Decode, Translate, Ctx, ExecuteWord, CachedRun, Finds, Cop0Usable,
         TakesInterrupt, WorldOk,
         Step, AfterWrite32;
    OneBlockFound(w);
    OneWordRun(w, TLBP);
    ProbeIsQuiet(w.machine);
    StepsOnce(w.machine);
    StepRaises(w.machine);
  }

  lemma MirrorWritten(mem: Memory)
    requires |mem.ram| == 4
    ensures Read32(Write32(mem, 4, SYSCALL), 0) == SYSCALL
    ensures AfterWrite32(map[0 := OneBlock(TLBP)], mem, 4) == map[0 := OneBlock(TLBP)]
  {
    ReadThroughMirror(mem, 4, SYSCALL, 0);
    AlignedWrite32(map[0 := OneBlock(TLBP)], mem, 4);
    assert !Overlaps(OneBlock(TLBP), 4, 4);
    hide Read32, Write32, AfterWrite32, Overlaps;
  }

  // ---------------------------------------------------------------- a delay slot in another frame

  const JUMP: u32 := 0x0800_0000
  const SLOT: u32 := 0x2400_0000

  /** Pages 0 and 0x1000 mapped to frames 0x1000 and 0x5000. */
  const PAIR: TlbEntry := TlbEntry(0, 0, 0x42, 0x142)

  lemma PairMatches(v: u32)
    requires v == 0xFFC || v == 0x1000
    ensures Matches(PAIR, v, 0)
  {
    assert PairMask(PAIR) == 0x1FFF && And(0, 0x1FFF) == 0;
    hide And, PairMask;
    Pow2Of13();
    AndOnes(v, 0x1FFF, 13);
  }

  lemma Pow2Of13()
    ensures Pow2(13) == 0x2000
  {
    Pow2Of12();
  }

  lemma PairFrames()
    ensures EntryTranslation(PAIR, 0xFFC, false) == Mapped(0x1FFC)
    ensures EntryTranslation(PAIR, 0x1000, false) == Mapped(0x5000)
  {
    hide And, OffsetMask, EntryTranslation;
    EvenPage();
    OddPage();
    PairOffset();
    EntryMaps(PAIR, 0xFFC, 0xFFF, 0x42, 0x1000, 0xFFC);
    EntryMaps(PAIR, 0x1000, 0xFFF, 0x142, 0x5000, 0);
  }

  lemma PairOffset()
    ensures OffsetMask(PAIR) == 0xFFF
  {
  }

  lemma EntryMaps(e: TlbEntry, v: u32, off: nat, lo: u32, frame: nat, rest: nat)
    requires OffsetMask(e) == off && lo == (if And(v, off + 1) != 0 then e.entryLo1 else e.entryLo0)
    requires lo / 2 % 2 == 1 && frame == lo / 0x40 % 0x100_0000 * 0x1000 && And(frame, off) == 0
    requires And(v, off) == rest && frame + rest < 0x2000_0000
    ensures EntryTranslation(e, v, false) == Mapped(frame + rest)
  {
    hide And, OffsetMask;
  }

  lemma TinyAnds()
    ensures And(0, 1) == 0 && And(1, 0) == 0 && And(1, 1) == 1 && And(5, 0) == 0
  {
  }

  lemma EvenPage()
    ensures And(0xFFC, 0x1000) == 0 && And(0x1000, 0xFFF) == 0 && And(0xFFC, 0xFFF) == 0xFFC
  {
    hide And;
    TinyAnds();
    Pow2Of12();
    AndOnes(0xFFC, 0xFFF, 12);
    AndFrame(0xFFC, 0x1000);
    AndPage(0x1000, 0xFFF);
  }

  lemma OddPage()
    ensures And(0x1000, 0x1000) == 0x1000 && And(0x5000, 0xFFF) == 0
  {
    hide And;
    TinyAnds();
    AndFrame(0x1000, 0x1000);
    AndPage(0x5000, 0xFFF);
  }

  lemma PairTranslates(c: Context)
    requires c.mode == 0 && c.asid == 0 && |c.tlb| == TLB_ENTRIES && c.tlb[0] == PAIR
    ensures Translate(c, 0xFFC, false) == Mapped(0x1FFC) && Translate(c, 0x1000, false) == Mapped(0x5000)
  {
    PairMatches(0xFFC);
    PairMatches(0x1000);
    PairFrames();
    hide Matches, EntryTranslation;
    assert FirstMatch(c.tlb, 0xFFC, 0, 0) == 0 && FirstMatch(c.tlb, 0x1000, 0, 0) == 0;
  }

  lemma SlotShapes()
    ensures Decode(JUMP) == Jump(0, false) && IsBranchOrJump(JUMP)
    ensures Decode(SLOT) == AddImmediate(0, 0, 0, false)
  {
  }

  /** The jump goes to its delay slot and raises nothing. */
  lemma JumpExecutes(m: Machine, w: u32)
    requires Decode(w) == Jump(0, false) && !m.cpu.branchPending && !m.cpu.halted
    ensures var n := ExecuteWord(m, w);
      && n.cpu.exceptions == m.cpu.exceptions && !n.cpu.halted && n.cpu.pc == Next(m.cpu.pc) && n.cpu.branchPending
      && n.mem == m.mem && n.cpu.tlb == m.cpu.tlb && n.cpu.cop0[COP0_STATUS] == m.cpu.cop0[COP0_STATUS]
      && n.cpu.cop0[COP0_ENTRY_HI] % 0x100 == m.cpu.cop0[COP0_ENTRY_HI] % 0x100
  {
    hide Decode, Retire;
    var d := m.(cpu := Dispatch(m.cpu));
    RetireKeeps(Sequence(m.cpu, Execute(d, w).cpu));
  }

  lemma SlotExecutes(m: Machine, w: u32)
    requires Decode(w) == AddImmediate(0, 0, 0, false)
    ensures ExecuteWord(m, w).cpu.exceptions == m.cpu.exceptions
  {
    hide Decode, Retire, Signed32, Sext32;
    var d := m.(cpu := Dispatch(m.cpu));
    RetireKeeps(Sequence(m.cpu, Execute(d, w).cpu));
  }

  /** The block of the jump in the last word of page 0 and its slot in the other frame. */
  function JumpBlock(): BasicBlock {
    BasicBlock(0xFFC, 0x1FFC, [JUMP, SLOT], true)
  }

  predicate AtJump(m: Machine) {
    && !m.cpu.halted && !m.cpu.branchPending && m.cpu.pc == 0xFFC && m.cpu.cop0[COP0_STATUS] == KERNEL_MODE
    && m.cpu.tlb[0] == PAIR && m.cpu.cop0[COP0_ENTRY_HI] == 0
    && |m.mem.ram| == 0x5004 && Read32(m.mem, 0x1FFC) == JUMP
  }

  lemma JumpMachine() returns (m: Machine)
    ensures AtJump(m) && Read32(m.mem, 0x5000) == SLOT
  {
    var ram: seq<u8> := seq(0x5004, i => if i == 0x1FFC then 0x08 else if i == 0x5000 then 0x24 else 0);
    var a := At(0xFFC, KERNEL_MODE, ram, 0, 0);
    AtShape(0xFFC, KERNEL_MODE, ram, 0, 0);
    m := a.(cpu := a.cpu.(tlb := a.cpu.tlb[0 := PAIR]));
    WordAt(m.mem, 0x1FFC);
    WordAt(m.mem, 0x5000);
    hide Read32;
  }

  lemma JumpTranslates(s: CpuState)
    requires s.tlb[0] == PAIR && s.cop0[COP0_ENTRY_HI] % 0x100 == 0 && s.cop0[COP0_STATUS] == KERNEL_MODE
    ensures Translate(Ctx(s), 0xFFC, false) == Mapped(0x1FFC) && Translate(Ctx(s), 0x1000, false) == Mapped(0x5000)
  {
    StatusDecides(s);
    hide Translate;
    PairTranslates(Ctx(s));
  }

  lemma JumpCompiled(m: Machine)
    requires AtJump(m) && Read32(m.mem, 0x5000) == SLOT
    ensures FindBlock(World(m, map[])) == (World(m, map[0x3FF := JumpBlock()]), Some(JumpBlock()))
  {
    hide Read32, Translate, Ctx, IsBranchOrJump, Decode, Fresh;
    SlotShapes();
    JumpTranslates(m.cpu);
    assert Next(0xFFC) == 0x1000 && SlotIndex(0xFFC) == 0x3FF;
    BranchLine(Ctx(m.cpu), m.mem, 0xFFC, 0x1FFC, 0x5000);
  }

  lemma BranchLine(c: Context, m: Memory, pc: u64, p: u32, q: u32)
    requires Translate(c, pc, false) == Mapped(p) && IsBranchOrJump(Read32(m, p))
    requires Translate(c, Next(pc), false) == Mapped(q)
    ensures Fresh(c, m, pc) == Some(BasicBlock(pc, p, [Read32(m, p), Read32(m, q)], true))
  {
    hide Translate, Read32, IsBranchOrJump, IsTerminal, Next;
    assert DelaySlot(c, m, pc) == [Read32(m, q)];
    assert [Read32(m, p)] + [Read32(m, q)] == [Read32(m, p), Read32(m, q)];
  }

  /** A device write to the slot's frame: nothing is dropped, so the old slot runs. */
  lemma SlotDiverges() returns (before: World, w: World)
    ensures before == FindBlock(World(before.machine, map[])).0
    ensures var (m, mem) := (before.machine, before.machine.mem);
      w == World(m.(mem := Write32(mem, 0x5000, SYSCALL)), AfterWrite32(before.cache, mem, 0x5000))
    ensures CachedRun(w, true, 2).0.machine != Steps(w.machine, 2)
  {
    var m := JumpMachine();
    hide Read32, Write32, AfterWrite32, FindBlock, CachedRun, Step, ExecuteWord, AtJump;
    JumpCompiled(m);
    before := World(m, map[0x3FF := JumpBlock()]);
    SlotWriteMissed(m);
    w := World(m.(mem := Write32(m.mem, 0x5000, SYSCALL)), AfterWrite32(before.cache, m.mem, 0x5000));
    StaleSlotRuns(w);
  }

  lemma SlotWriteMissed(m: Machine)
    requires AtJump(m)
    ensures var n := m.(mem := Write32(m.mem, 0x5000, SYSCALL)); AtJump(n) && Read32(n.mem, 0x5000) == SYSCALL
    ensures AfterWrite32(map[0x3FF := JumpBlock()], m.mem, 0x5000) == map[0x3FF := JumpBlock()]
  {
    hide Read32, Write32, AfterWrite32, AfterInvalidate;
    SlotWritten(m.mem, 0x5000, SYSCALL);
    Write32ChangesOnly(m.mem, 0x5000, SYSCALL);
    SameSize(m.mem, Write32(m.mem, 0x5000, SYSCALL), 0x5000, 4);
    hide ChangedOnly;
    ReadFrame(m.mem, Write32(m.mem, 0x5000, SYSCALL), 0x5000, 4, 0x1FFC);
    AlignedWrite32(map[0x3FF := JumpBlock()], m.mem, 0x5000);
    JumpNotDropped();
  }

  lemma JumpNotDropped()
    ensures AfterInvalidate(map[0x3FF := JumpBlock()], 0x5000, 4) == map[0x3FF := JumpBlock()]
  {
    assert !Overlaps(JumpBlock(), 0x5000, 4);
    hide Overlaps;
  }

  lemma StaleSlotRuns(w: World)
    requires AtJump(w.machine) && Read32(w.machine.mem, 0x5000) == SYSCALL && w.cache == map[0x3FF := JumpBlock()]
    ensures CachedRun(w, true, 2).0.machine != Steps(w.machine, 2)
  {
    var m := w.machine;
    var n := ExecuteWord(m, JUMP);
    hide Read32, Decode, Translate, Ctx, ExecuteWord, CachedRun, Cop0Usable, TakesInterrupt, Step, Finds, Fetches,
         FetchedWord;
    StaleSlotFound(w);
    JumpStepped(m);
    SlotShapes();
    TwoWordRun(w, JUMP, SLOT);
    SlotExecutes(n, SLOT);
    StepsOnce(m);
    StepRaises(n);
  }

  lemma StaleSlotFound(w: World)
    requires AtJump(w.machine) && w.cache == map[0x3FF := JumpBlock()]
    ensures Finds(w, [JUMP, SLOT])
  {
    hide Read32, Ctx, Cop0Usable, TakesInterrupt, Fresh;
    StatusDecides(w.machine.cpu);
    assert SlotIndex(0xFFC) == 0x3FF;
  }

  lemma JumpStepped(m: Machine)
    requires AtJump(m) && Read32(m.mem, 0x5000) == SYSCALL
    ensures var n := ExecuteWord(m, JUMP);
      && Step(m) == n && n.cpu.exceptions == m.cpu.exceptions && !n.cpu.halted && n.cpu.pc == Next(m.cpu.pc)
      && !TakesInterrupt(n.cpu) && Fetches(n.cpu) && FetchedWord(n) == SYSCALL
  {
    hide Read32, Decode, Translate, Ctx, ExecuteWord, Cop0Usable, TakesInterrupt;
    SlotShapes();
    JumpExecutes(m, JUMP);
    var n := ExecuteWord(m, JUMP);
    JumpTranslates(m.cpu);
    JumpTranslates(n.cpu);
    StatusDecides(m.cpu);
    StatusDecides(n.cpu);
    assert Next(0xFFC) == 0x1000;
    assert Fetches(m.cpu) && FetchedWord(m) == JUMP;
  }
}
