/** A program that meets everything asked of a run, for ever: the idle loop of a jump to itself
    with a delay slot. */
module IdleLoop {
  import opened Words
  import opened Translation
  import opened PhysicalMemory
  import opened Blocks
  import opened Processor
  import opened Coherence

  const JUMP: u32 := 0x0800_0000
  const SLOT: u32 := 0x2400_0000
  const TOP: u64 := 0x8000_0000

  /** The machine runs `J 0x80000000; ADDIU r0, r0, 0` in kernel mode, interrupts disabled. */
  predicate Idles(m: Machine) {
    && !m.cpu.halted && m.cpu.cop0[COP0_STATUS] == 0x3400_0000
    && 8 <= |m.mem.ram| <= RDRAM_LIMIT
    && Read32(m.mem, 0) == JUMP && Read32(m.mem, 4) == SLOT
    && (if m.cpu.branchPending then m.cpu.pc == TOP + 4 && m.cpu.nextPc == TOP else m.cpu.pc == TOP)
  }

  lemma IdleWord(m: Machine)
    requires Idles(m)
    ensures Translate(Ctx(m.cpu), TOP, false) == Mapped(0) && Translate(Ctx(m.cpu), TOP + 4, false) == Mapped(4)
    ensures !TakesInterrupt(m.cpu) && Fetches(m.cpu)
    ensures FetchedWord(m) == if m.cpu.branchPending then SLOT else JUMP
  {
    hide Read32, Translate;
    DirectTranslation(Ctx(m.cpu), TOP, false);
    DirectTranslation(Ctx(m.cpu), TOP + 4, false);
  }

  lemma IdleWords()
    ensures Decode(JUMP) == Jump(0, false) && Decode(SLOT) == AddImmediate(0, 0, 0, false)
    ensures IsBranchOrJump(JUMP) && Next(TOP) == TOP + 4 && Next(TOP + 4) == TOP + 8
  {
  }

  lemma IdleExecutes(m: Machine)
    requires Idles(m)
    ensures Idles(Step(m)) && Step(m).cpu.branchPending == !m.cpu.branchPending && Step(m).mem == m.mem
  {
    IdleWord(m);
    IdleWords();
    RetireKeeps(Sequence(m.cpu, Execute(m.(cpu := Dispatch(m.cpu)), FetchedWord(m)).cpu));
    hide Decode, Translate, Read32, Retire, TakesInterrupt, Fetches, FetchedWord, RaiseException, Next;
  }

  lemma IdleSettled(m: Machine)
    requires Idles(m) && !m.cpu.branchPending
    ensures PlaceOk(m)
  {
    IdleWord(m);
    IdleWords();
    assert Kernel(Ctx(m.cpu)) == Ctx(m.cpu);
    hide Decode, Translate, Read32, IsBranchOrJump, TakesInterrupt, Ctx, Next;
  }

  lemma IdleStepOk(m: Machine)
    requires Idles(m)
    ensures StepOk(m)
  {
    IdleWord(m);
    IdleWords();
    IdleExecutes(m);
    if !m.cpu.branchPending {
      IdleSettled(m);
    }
    hide Decode, Translate, Read32, IsBranchOrJump, TakesInterrupt, Ctx, Next, PlaceOk, Step, ExecuteWord;
  }

  /** The conditions on runs can be met for any number of steps. */
  lemma {:induction false} IdlesForEver(m: Machine, n: nat)
    requires Idles(m)
    ensures RunOk(m, n) && Idles(Steps(m, n))
    decreases n
  {
    hide Idles, StepOk, Step;
    if n > 0 {
      IdlesForEver(m, n - 1);
      IdleStepOk(Steps(m, n - 1));
      IdleExecutes(Steps(m, n - 1));
    }
  }

  /** Such a machine exists. */
  lemma IdleMachine() returns (m: Machine)
    ensures Idles(m)
  {
    var ram: seq<u8> := [0x08, 0, 0, 0, 0x24, 0, 0, 0];
    var cpu := ResetState().(pc := TOP, nextPc := TOP + 4);
    m := Machine(cpu, Memory(ram, [], []));
    IdleRam(m.mem);
    hide Read32;
  }

  lemma IdleRam(m: Memory)
    requires m.ram == [0x08, 0, 0, 0, 0x24, 0, 0, 0]
    ensures Read32(m, 0) == JUMP && Read32(m, 4) == SLOT
  {
    LowIndex(m, 0, 4);
    LowIndex(m, 4, 4);
    hide Physical, Read8;
  }
}
