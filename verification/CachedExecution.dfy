/** The cached interpreter as functions: one cached block, one turn of the run loop, a whole run.
    They say what the code does on every input; the refinement theorem says when that is what the
    plain interpreter does. */
module CachedExecution {
  import opened Words
  import opened Translation
  import opened PhysicalMemory
  import opened Blocks
  import opened Processor
  import opened BlockCaching
  import opened Coherence
  import opened Refinement

  datatype World = World(machine: Machine, cache: Contents)

  predicate WorldOk(w: World) {
    Coherent(w.cache, Ctx(w.machine.cpu), w.machine.mem)
  }

  /** The plain interpreter, with what it does to the cache. */
  ghost function StepWorld(w: World): World {
    World(Step(w.machine), CacheAfterStep(w.cache, w.machine))
  }

  ghost function WordWorld(w: World, word: u32): World {
    World(ExecuteWord(w.machine, word), CacheAfterExecute(w.cache, w.machine.cpu, word))
  }

  /** Executing a block from word `i` on, without fetching: where it ends, and after how many
      steps. It stops when control leaves the block or an exception is taken. */
  ghost function BlockFrom(w: World, b: BasicBlock, i: nat): (r: (World, nat))
    ensures i <= |b.insns| ==> r.1 <= |b.insns| - i
    decreases |b.insns| - i
  {
    var s := w.machine.cpu;
    if i >= |b.insns| || s.pc != PcAt(b.startPc, i) then (w, 0)
    else if TakesInterrupt(s) then (World(w.machine.(cpu := TakeInterrupt(s)), w.cache), 1)
    else
      var next := WordWorld(w, b.insns[i]);
      if next.machine.cpu.exceptions != s.exceptions || next.machine.cpu.halted then (next, 1)
      else
        var (last, did) := BlockFrom(next, b, i + 1);
        (last, 1 + did)
  }

  /** The block at the program counter: the one cached there, or one compiled now. */
  ghost function FindBlock(w: World): (World, Option<BasicBlock>) {
    var pc := w.machine.cpu.pc;
    var k := SlotIndex(pc);
    if k in w.cache && w.cache[k].startPc == pc then (w, Some(w.cache[k]))
    else
      match Fresh(Ctx(w.machine.cpu), w.machine.mem, pc)
      case Some(b) => (w.(cache := w.cache[k := b]), Some(b))
      case None => (w, None)
  }

  /** One turn of the run loop with `budget` instructions left. */
  ghost function Turn(w: World, enabled: bool, budget: nat): (r: (World, nat))
    requires budget > 0
    ensures 1 <= r.1 <= budget
  {
    if enabled && !w.machine.cpu.branchPending then
      var (found, blk) := FindBlock(w);
      if blk.Some? && blk.value.insns != [] && |blk.value.insns| <= budget then
        var (last, did) := BlockFrom(found, blk.value, 0);
        if did == 0 then (StepWorld(last), 1) else (last, did)
      else (StepWorld(found), 1)
    else (StepWorld(w), 1)
  }

  ghost function CachedRun(w: World, enabled: bool, n: nat): (r: (World, nat))
    ensures r.1 <= n
    decreases n
  {
    if n == 0 || w.machine.cpu.halted then (w, 0)
    else
      var (next, did) := Turn(w, enabled, n);
      var (last, taken) := CachedRun(next, enabled, n - did);
      (last, did + taken)
  }

  // ---------------------------------------------------------------- refinement

  /** Executing the cached word is a step of the run, and keeps everything. */
  lemma BlockAdvance(w: World, b: BasicBlock, i: nat)
    requires OnTrack(w.machine, b, i) && !w.machine.cpu.halted && !TakesInterrupt(w.machine.cpu)
    requires WorldOk(w) && StepOk(w.machine) && w.machine.cpu.pc == PcAt(b.startPc, i)
    ensures var next := WordWorld(w, b.insns[i]);
      && next == StepWorld(w) && !next.machine.cpu.halted && WorldOk(next)
      && (next.machine.cpu.exceptions == w.machine.cpu.exceptions
          && i + 1 < |b.insns| && next.machine.cpu.pc == PcAt(b.startPc, i + 1)
          ==> OnTrack(next.machine, b, i + 1))
  {
    var m := w.machine;
    BlockStep(m, b, i, w.cache);
    StepWorldKeeps(w);
    StepCounts(m);
    PcAtNext(b.startPc, i);
    hide StepOk, OnTrack, Coherent, ExecuteWord, PcAt, Next, TakesInterrupt, ExecutesWord, CacheAfterStep,
         CacheAfterExecute, Ctx, Step;
    var next := StepWorld(w).machine;
    if next.cpu.exceptions == m.cpu.exceptions && i + 1 < |b.insns| && next.cpu.pc == PcAt(b.startPc, i + 1) {
      OnTrackNext(m, b, i);
    }
  }

  lemma StepWorldKeeps(w: World)
    requires WorldOk(w) && StepOk(w.machine)
    ensures WorldOk(StepWorld(w))
  {
    StoresOk(w.machine);
    hide StepOk, Coherent, Step, CacheAfterStep, Ctx, ExecutesWord, StoreSettled, FetchedWord;
    StepKeepsCoherence(w.cache, w.machine);
  }

  lemma StoresOk(m: Machine)
    requires StepOk(m)
    ensures ExecutesWord(m) ==> StoreSettled(m, FetchedWord(m))
  {
    hide StoreSettled, FetchedWord, KeepsLine, StoreRespectsLine, PlaceOk, Modelled;
  }

  /** What a run of a block delivers: as many steps of the interpreter. */
  ghost predicate Delivers(w: World, last: World, did: nat) {
    last.machine == Steps(w.machine, did) && last.machine.cpu.halted == w.machine.cpu.halted && WorldOk(last)
  }

  lemma {:induction false} BlockRefines(w: World, b: BasicBlock, i: nat)
    requires i < |b.insns| ==> w.machine.cpu.pc == PcAt(b.startPc, i) ==> OnTrack(w.machine, b, i)
    requires WorldOk(w) && !w.machine.cpu.halted && (i <= |b.insns| ==> RunOk(w.machine, |b.insns| - i))
    ensures var (last, did) := BlockFrom(w, b, i); Delivers(w, last, did)
    decreases |b.insns| - i
  {
    var m := w.machine;
    StepsFromNone(m);
    hide OnTrack, StepOk, Step, Coherent, ExecuteWord, TakeInterrupt, PcAt, TakesInterrupt, CacheAfterExecute,
         Ctx, Steps,
         WordWorld, StepWorld, RunOk, WorldOk;
    if i < |b.insns| && m.cpu.pc == PcAt(b.startPc, i) {
      RunOkNow(m, |b.insns| - i);
      StepCounts(m);
      StepWorldIs(w);
      if TakesInterrupt(m.cpu) {
        BlockStep(m, b, i, w.cache);
        StepWorldKeeps(w);
      } else {
        BlockAdvance(w, b, i);
        RunOkNext(m, |b.insns| - i);
        var next := WordWorld(w, b.insns[i]);
        if next.machine.cpu.exceptions == m.cpu.exceptions {
          BlockRefines(next, b, i + 1);
          var (last, did) := BlockFrom(next, b, i + 1);
          StepsFirst(m, did);
        }
      }
    }
  }

  lemma StepWorldIs(w: World)
    ensures StepWorld(w).machine == Step(w.machine) == Steps(w.machine, 1)
    ensures StepWorld(w).cache == CacheAfterStep(w.cache, w.machine)
  {
    hide Step;
    assert Steps(w.machine, 0) == w.machine;
  }

  lemma StepsFromNone(m: Machine)
    ensures Steps(m, 0) == m
  {
  }

  lemma StepsFirst(m: Machine, n: nat)
    ensures Steps(Step(m), n) == Steps(m, n + 1)
  {
    StepsAdd(m, 1, n);
    hide Step;
    assert Steps(m, 0) == m;
  }

  lemma RunOkNow(m: Machine, n: nat)
    requires RunOk(m, n) && n > 0
    ensures StepOk(m)
  {
    RunOkAt(m, n, 0);
    hide StepOk, RunOk;
  }

  lemma RunOkNext(m: Machine, n: nat)
    requires RunOk(m, n) && n > 0
    ensures RunOk(Step(m), n - 1)
  {
    RunOkFrom(m, n, 1);
    hide StepOk, Step;
    assert Steps(m, 0) == m;
  }

  /** Lookup and compilation yield a block that is up to date where the run stands, exactly
      what a fresh compilation would build. */
  lemma FindRefines(w: World)
    requires WorldOk(w) && StepOk(w.machine) && !w.machine.cpu.halted && !w.machine.cpu.branchPending
    ensures var m := w.machine; var (found, blk) := FindBlock(w);
      && found.machine == m && WorldOk(found)
      && blk == Fresh(Ctx(m.cpu), m.mem, m.cpu.pc)
      && (blk.Some? ==> OnTrack(m, blk.value, 0) && blk.value.startPc == m.cpu.pc && blk.value.insns != [])
  {
    var m, c := w.machine, Ctx(w.machine.cpu);
    var pc, k := m.cpu.pc, SlotIndex(m.cpu.pc);
    PlaceNow(m);
    hide StepOk, Ctx, LineSettled, UpToDate, FreshBlock, SlotIndex;
    if Translate(c, pc, false).Mapped? {
      SettledIsUpToDate(c, m.mem, pc);
      var b := FreshBlock(c, m.mem, pc, Translate(c, pc, false).paddr);
      if k in w.cache && w.cache[k].startPc == pc {
        HitIsUpToDate(c, m.mem, w.cache[k]);
        SamePlace(c, m.mem, w.cache[k], pc);
      } else {
        FreshStarts(c, m.mem, pc);
        InstallKeepsCoherence(w.cache, c, m.mem, b);
      }
      FreshStarts(c, m.mem, pc);
      hide Coherent, Translate;
      OnTrackAtStart(m, b);
    } else {
      NoHit(w.cache, c, m.mem, pc);
    }
  }

  /** Where kernel mode cannot fetch, nothing is cached. */
  lemma NoHit(cache: Contents, c: Context, m: Memory, pc: u64)
    requires Coherent(cache, c, m)
    ensures Translate(Kernel(c), pc, false).Fault? ==>
      !(SlotIndex(pc) in cache && cache[SlotIndex(pc)].startPc == pc)
  {
    hide UpToDate, Translate;
    if SlotIndex(pc) in cache && cache[SlotIndex(pc)].startPc == pc {
      BlockTranslates(Kernel(c), m, cache[SlotIndex(pc)]);
    }
  }

  lemma BlockTranslates(c: Context, m: Memory, b: BasicBlock)
    requires UpToDate(c, m, b)
    ensures Translate(c, b.startPc, false) == Mapped(b.paddr)
  {
    hide Translate;
  }

  lemma SamePlace(c: Context, m: Memory, b: BasicBlock, pc: u64)
    requires UpToDate(c, m, b) && b.startPc == pc
    ensures Translate(c, pc, false) == Mapped(b.paddr) && b == FreshBlock(c, m, pc, b.paddr)
  {
    hide Translate, FreshBlock;
  }

  lemma FreshStarts(c: Context, m: Memory, pc: u64)
    requires Translate(c, pc, false).Mapped?
    ensures var b := FreshBlock(c, m, pc, Translate(c, pc, false).paddr);
      b.startPc == pc && Fresh(c, m, pc) == Some(b)
  {
    hide Translate;
  }

  lemma PlaceNow(m: Machine)
    requires StepOk(m) && !m.cpu.halted && !m.cpu.branchPending
    ensures m.cpu.pc % 4 == 0 && PlaceOk(m)
  {
    hide PlaceOk, WordOk, ExecutesWord;
  }

  /** One turn of the run loop, cached or not, is as many steps of the interpreter. */
  lemma TurnRefines(w: World, enabled: bool, budget: nat)
    requires WorldOk(w) && !w.machine.cpu.halted && budget > 0 && RunOk(w.machine, budget)
    ensures var (last, did) := Turn(w, enabled, budget); Delivers(w, last, did)
  {
    var m := w.machine;
    RunOkNow(m, budget);
    StepWorldIs(w);
    StepCounts(m);
    StepWorldKeeps(w);
    hide StepOk, OnTrack, Step, Steps, StepWorld, WorldOk, RunOk, Ctx, Fresh;
    if enabled && !m.cpu.branchPending {
      FindRefines(w);
      var (found, blk) := FindBlock(w);
      hide FindBlock;
      StepWorldIs(found);
      StepWorldKeeps(found);
      if blk.Some? && |blk.value.insns| <= budget {
        PcAtNext(blk.value.startPc, 0);
        RunOkShorter(m, budget, |blk.value.insns|);
        BlockRefines(found, blk.value, 0);
        var (last, did) := BlockFrom(found, blk.value, 0);
        StepsFromNone(m);
        hide BlockFrom;
        if did == 0 {
          StepWorldIs(last);
          StepWorldKeeps(last);
        }
      }
    }
  }

  /** Cached execution refines stepping: from a coherent cache, a run of `n` instructions ends in
      exactly the state `n` steps reach, wherever its blocks fall. */
  lemma {:induction false} CachedRunRefines(w: World, enabled: bool, n: nat)
    requires WorldOk(w) && RunOk(w.machine, n)
    ensures var (last, taken) := CachedRun(w, enabled, n);
      && Delivers(w, last, taken) && taken == (if w.machine.cpu.halted then 0 else n)
      && last.machine.cpu.cycles == w.machine.cpu.cycles + taken
    decreases n
  {
    var m := w.machine;
    StepsFromNone(m);
    hide StepOk, Step, Steps, WorldOk, RunOk, Turn;
    if n > 0 && !m.cpu.halted {
      TurnRefines(w, enabled, n);
      var (next, did) := Turn(w, enabled, n);
      RunOkFrom(m, n, did);
      CachedRunRefines(next, enabled, n - did);
      var (last, taken) := CachedRun(next, enabled, n - did);
      StepsAdd(m, did, taken);
      StepsCount(m, did);
    }
  }
}
