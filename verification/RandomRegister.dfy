/** COP0 Random and Wired: the range Random walks, and the TLB entries TLBWR spares. */
module RandomRegister {
  import opened Words
  import opened Translation
  import opened PhysicalMemory
  import opened Processor
  import opened Coherence
  import opened Refinement

  /** Random lies between Wired and the last TLB entry. */
  predicate RandomOk(s: CpuState) {
    s.cop0[COP0_WIRED] <= s.cop0[COP0_RANDOM] <= 31
  }

  lemma ResetRandom()
    ensures RandomOk(ResetState())
  {
  }

  lemma RetireRandom(s: CpuState)
    requires RandomOk(s)
    ensures RandomOk(Retire(s))
    ensures Retire(s).cop0[COP0_WIRED] == s.cop0[COP0_WIRED]
    ensures Retire(s).cop0[COP0_RANDOM] == NextRandom(s.cop0[COP0_WIRED], s.cop0[COP0_RANDOM])
  {
  }

  lemma RaiseRandom(s: CpuState, code: nat, bad: u64, ce: nat, refill: bool)
    ensures var c := RaiseException(s, code, bad, ce, refill).cop0;
      c[COP0_WIRED] == s.cop0[COP0_WIRED] && c[COP0_RANDOM] == s.cop0[COP0_RANDOM]
  {
    hide CauseCode, CauseBd, Vector, ContextBad, EntryHiBad, WithExl;
  }

  lemma FaultRandom(s: CpuState, f: TranslationFault, bad: u64, isStore: bool)
    ensures var c := RaiseTranslationFault(s, f, bad, isStore).cop0;
      c[COP0_WIRED] == s.cop0[COP0_WIRED] && c[COP0_RANDOM] == s.cop0[COP0_RANDOM]
  {
    hide RaiseException;
    match f
    case AddressError => RaiseRandom(s, if isStore then EXC_ADES else EXC_ADEL, bad, 0, false);
    case TlbMiss => RaiseRandom(s, if isStore then EXC_TLBS else EXC_TLBL, bad, 0, true);
    case TlbInvalid => RaiseRandom(s, if isStore then EXC_TLBS else EXC_TLBL, bad, 0, false);
    case TlbModified => RaiseRandom(s, EXC_MOD, bad, 0, false);
  }

  lemma Cop0Random(s: CpuState, op: Cop0Op)
    requires RandomOk(s)
    ensures RandomOk(ExecCop0(s, op))
  {
    RaiseRandom(s, EXC_CPU, 0, 0, false);
    hide RaiseException, Cop0Usable, Sext32, Probe;
  }

  lemma ExecuteRandom(m: Machine, w: u32)
    requires RandomOk(m.cpu)
    ensures RandomOk(Execute(m, w).cpu)
  {
    var s := m.cpu;
    var i := Decode(w);
    hide Decode, Translate, Read32, Write32, Ctx, RaiseException, RaiseTranslationFault, Holds, Sext32, ExecCop0;
    match i
    case AddImmediate(_, _, _, _) => RaiseRandom(s, EXC_OV, 0, 0, false);
    case Syscall => RaiseRandom(s, EXC_SYS, 0, 0, false);
    case Break => RaiseRandom(s, EXC_BP, 0, 0, false);
    case Reserved => RaiseRandom(s, EXC_RI, 0, 0, false);
    case LoadWord(rs, _, offset) =>
      var addr := EffectiveAddress(s, rs, offset);
      RaiseRandom(s, EXC_ADEL, addr, 0, false);
      if Translate(Ctx(s), addr, false).Fault? {
        FaultRandom(s, Translate(Ctx(s), addr, false).fault, addr, false);
      }
    case StoreWord(rs, _, offset) =>
      if StoreTarget(s, rs, offset).Fault? {
        FaultRandom(s, StoreTarget(s, rs, offset).fault, EffectiveAddress(s, rs, offset), true);
      }
    case Cop0(op) => Cop0Random(s, op);
    case _ =>
  }

  lemma StepRandom(m: Machine)
    requires RandomOk(m.cpu)
    ensures RandomOk(Step(m).cpu)
  {
    hide Translate, Read32, InterruptPending, FetchedWord, Execute, Retire, RaiseException, RaiseTranslationFault;
    var s := m.cpu;
    if !s.halted {
      if TakesInterrupt(s) {
        RaiseRandom(s, EXC_INT, 0, 0, false);
        RetireRandom(RaiseException(s, EXC_INT, 0, 0, false));
      } else if !Fetches(s) {
        var d := s.(inDelaySlot := s.branchPending);
        RaiseRandom(d, EXC_ADEL, s.pc, 0, false);
        if Translate(Ctx(s), s.pc, false).Fault? {
          FaultRandom(d, Translate(Ctx(s), s.pc, false).fault, s.pc, false);
        }
        RetireRandom(FetchException(d));
      } else {
        var d := m.(cpu := Dispatch(s));
        ExecuteRandom(d, FetchedWord(m));
        RetireRandom(Sequence(s, Execute(d, FetchedWord(m)).cpu));
      }
    }
  }

  /** Random never leaves `[Wired, 31]`, in any run from reset or from any state where it lies
      there. */
  lemma {:induction false} RandomInRange(m: Machine, n: nat)
    requires RandomOk(m.cpu) || m.cpu == ResetState()
    ensures RandomOk(Steps(m, n).cpu)
  {
    ResetRandom();
    hide Step, RandomOk, ResetState;
    if n > 0 {
      RandomInRange(m, n - 1);
      StepRandom(Steps(m, n - 1));
    }
  }

  // ---------------------------------------------------------------- wired entries

  /** The step executes TLBWI on entry `k`. */
  predicate WritesIndexed(m: Machine, k: nat) {
    ExecutesWord(m) && Decode(FetchedWord(m)) == Cop0(TlbWriteIndexed) && m.cpu.cop0[COP0_INDEX] % 32 == k
  }

  lemma ExecuteWiredEntry(m: Machine, w: u32, k: nat)
    requires RandomOk(m.cpu) && k < m.cpu.cop0[COP0_WIRED]
    requires Decode(w) == Cop0(TlbWriteIndexed) ==> m.cpu.cop0[COP0_INDEX] % 32 != k
    ensures Execute(m, w).cpu.tlb[k] == m.cpu.tlb[k]
  {
    hide Decode, Translate, Read32, Write32, Ctx, ExceptionCop0, Vector, Holds, Sext32, ExecCop0;
    var i := Decode(w);
    match i
    case LoadWord(_, _, _) =>
    case StoreWord(_, _, _) =>
    case Cop0(op) => Cop0WiredEntry(m.cpu, op, k);
    case _ =>
  }

  lemma Cop0WiredEntry(s: CpuState, op: Cop0Op, k: nat)
    requires RandomOk(s) && k < s.cop0[COP0_WIRED] && (op == TlbWriteIndexed ==> s.cop0[COP0_INDEX] % 32 != k)
    ensures ExecCop0(s, op).tlb[k] == s.tlb[k]
  {
    hide ExceptionCop0, Vector, Cop0Usable, Sext32, Probe;
  }

  lemma StepWiredEntry(m: Machine, k: nat)
    requires RandomOk(m.cpu) && k < m.cpu.cop0[COP0_WIRED] && !WritesIndexed(m, k)
    ensures Step(m).cpu.tlb[k] == m.cpu.tlb[k]
  {
    hide Translate, Read32, InterruptPending, Execute, Decode;
    if ExecutesWord(m) {
      var w := FetchedWord(m);
      var d := m.(cpu := Dispatch(m.cpu));
      hide FetchedWord;
      ExecuteWiredEntry(d, w, k);
    } else {
      FaultEffects(m.cpu);
    }
  }

  /** A wired entry changes only by an indexed write to it: whatever else a run does,
      TLBWR included, entry `k` survives as long as `k` stays below Wired. */
  lemma {:induction false} WiredEntrySurvives(m: Machine, n: nat, k: nat)
    requires RandomOk(m.cpu) && k < TLB_ENTRIES
    requires forall j :: 0 <= j < n ==>
      k < Steps(m, j).cpu.cop0[COP0_WIRED] && !WritesIndexed(Steps(m, j), k)
    ensures Steps(m, n).cpu.tlb[k] == m.cpu.tlb[k]
  {
    hide Step, WritesIndexed, RandomOk;
    if n > 0 {
      WiredEntrySurvives(m, n - 1, k);
      RandomInRange(m, n - 1);
      StepWiredEntry(Steps(m, n - 1), k);
    }
  }

  // ---------------------------------------------------------------- the walk

  /** The word a step executes writes Wired. */
  predicate WritesWired(m: Machine) {
    ExecutesWord(m) &&
    match Decode(FetchedWord(m))
    case Cop0(MoveTo(_, rd)) => rd == COP0_WIRED
    case _ => false
  }

  lemma Cop0KeepsWalk(s: CpuState, op: Cop0Op)
    requires op.MoveTo? ==> op.rd != COP0_WIRED
    ensures var c := ExecCop0(s, op).cop0;
      c[COP0_WIRED] == s.cop0[COP0_WIRED] && c[COP0_RANDOM] == s.cop0[COP0_RANDOM]
  {
    RaiseRandom(s, EXC_CPU, 0, 0, false);
    hide RaiseException, Cop0Usable, Sext32, Probe;
  }

  lemma ExecuteKeepsWalk(m: Machine, w: u32)
    requires match Decode(w) case Cop0(MoveTo(_, rd)) => rd != COP0_WIRED case _ => true
    ensures var c := Execute(m, w).cpu.cop0;
      c[COP0_WIRED] == m.cpu.cop0[COP0_WIRED] && c[COP0_RANDOM] == m.cpu.cop0[COP0_RANDOM]
  {
    var s := m.cpu;
    var i := Decode(w);
    hide Decode, Translate, Read32, Write32, Ctx, RaiseException, RaiseTranslationFault, Holds, Sext32, ExecCop0;
    match i
    case AddImmediate(_, _, _, _) => RaiseRandom(s, EXC_OV, 0, 0, false);
    case Syscall => RaiseRandom(s, EXC_SYS, 0, 0, false);
    case Break => RaiseRandom(s, EXC_BP, 0, 0, false);
    case Reserved => RaiseRandom(s, EXC_RI, 0, 0, false);
    case LoadWord(rs, _, offset) =>
      var addr := EffectiveAddress(s, rs, offset);
      RaiseRandom(s, EXC_ADEL, addr, 0, false);
      if Translate(Ctx(s), addr, false).Fault? {
        FaultRandom(s, Translate(Ctx(s), addr, false).fault, addr, false);
      }
    case StoreWord(rs, _, offset) =>
      if StoreTarget(s, rs, offset).Fault? {
        FaultRandom(s, StoreTarget(s, rs, offset).fault, EffectiveAddress(s, rs, offset), true);
      }
    case Cop0(op) => Cop0KeepsWalk(s, op);
    case _ =>
  }

  /** Every step of a running machine, traps and interrupts included, moves Random on once. */
  lemma StepWalks(m: Machine)
    requires RandomOk(m.cpu) && !m.cpu.halted && !WritesWired(m)
    ensures var (c, t) := (m.cpu.cop0, Step(m).cpu.cop0);
      t[COP0_WIRED] == c[COP0_WIRED] && t[COP0_RANDOM] == NextRandom(c[COP0_WIRED], c[COP0_RANDOM])
  {
    hide Translate, Read32, InterruptPending, FetchedWord, Execute, Retire, RaiseException,
         RaiseTranslationFault, Decode;
    var s := m.cpu;
    if TakesInterrupt(s) {
      RaiseRandom(s, EXC_INT, 0, 0, false);
      RetireRandom(RaiseException(s, EXC_INT, 0, 0, false));
    } else if !Fetches(s) {
      var d := s.(inDelaySlot := s.branchPending);
      RaiseRandom(d, EXC_ADEL, s.pc, 0, false);
      if Translate(Ctx(s), s.pc, false).Fault? {
        FaultRandom(d, Translate(Ctx(s), s.pc, false).fault, s.pc, false);
      }
      RetireRandom(FetchException(d));
    } else {
      var d := m.(cpu := Dispatch(s));
      ExecuteKeepsWalk(d, FetchedWord(m));
      RetireRandom(Sequence(s, Execute(d, FetchedWord(m)).cpu));
    }
  }

  /** Random counts down to Wired and wraps to 31: a closed form for its value after any number of
      steps of a run that does not write Wired. */
  lemma {:induction false} RandomWalk(m: Machine, n: nat)
    requires RandomOk(m.cpu) && !m.cpu.halted
    requires forall k :: 0 <= k < n ==> !WritesWired(Steps(m, k))
    ensures var (c, t) := (m.cpu.cop0, Steps(m, n).cpu.cop0);
      && t[COP0_WIRED] == c[COP0_WIRED]
      && t[COP0_RANDOM] == c[COP0_WIRED] + (c[COP0_RANDOM] - c[COP0_WIRED] - n) % (32 - c[COP0_WIRED])
  {
    hide Step, WritesWired;
    var wired, random := m.cpu.cop0[COP0_WIRED], m.cpu.cop0[COP0_RANDOM];
    if n == 0 {
      SmallModulus(random - wired, 32 - wired);
    } else {
      RandomWalk(m, n - 1);
      RandomInRange(m, n - 1);
      StepsCount(m, n - 1);
      StepWalks(Steps(m, n - 1));
      StepDown(random - wired - (n - 1), 32 - wired);
    }
  }

  lemma SmallModulus(x: nat, d: nat)
    requires x < d
    ensures x % d == x
  {
  }

  lemma StepDown(x: int, d: int)
    requires d > 0
    ensures (x - 1) % d == if x % d == 0 then d - 1 else x % d - 1
  {
    var q, r := x / d, x % d;
    assert x == d * q + r;
    if r == 0 {
      assert d * (q - 1) == d * q - d;
      DivMod(x - 1, d, q - 1, d - 1);
    } else {
      DivMod(x - 1, d, q, r - 1);
    }
  }

  /** The walk has period `32 - Wired` and visits every index from Wired to 31: within a period
      of steps that leave Wired alone, TLBWR may choose any of them. */
  lemma RandomVisitsAll(m: Machine, target: nat)
    requires RandomOk(m.cpu) && !m.cpu.halted && m.cpu.cop0[COP0_WIRED] <= target < 32
    requires forall k :: 0 <= k < 32 - m.cpu.cop0[COP0_WIRED] ==> !WritesWired(Steps(m, k))
    ensures exists k :: 0 <= k < 32 - m.cpu.cop0[COP0_WIRED] && Steps(m, k).cpu.cop0[COP0_RANDOM] == target
    ensures Steps(m, 32 - m.cpu.cop0[COP0_WIRED]).cpu.cop0[COP0_RANDOM] == m.cpu.cop0[COP0_RANDOM]
  {
    hide Steps, WritesWired;
    var wired, random := m.cpu.cop0[COP0_WIRED], m.cpu.cop0[COP0_RANDOM];
    var period := 32 - wired;
    var k := (random - target) % period;
    RandomWalk(m, k);
    Lands(wired, random, target);
    assert Steps(m, k).cpu.cop0[COP0_RANDOM] == target;
    RandomWalk(m, period);
    FullTurn(wired, random);
  }

  lemma Lands(wired: nat, random: nat, target: nat)
    requires wired <= random < 32 && wired <= target < 32
    ensures wired + (random - wired - (random - target) % (32 - wired)) % (32 - wired) == target
  {
    SubMod(random - wired, random - target, 32 - wired);
    SmallModulus(target - wired, 32 - wired);
  }

  lemma FullTurn(wired: nat, random: nat)
    requires wired <= random < 32
    ensures wired + (random - wired - (32 - wired)) % (32 - wired) == random
  {
    var period := 32 - wired;
    SubMod(random - wired, period, period);
    SmallModulus(random - wired, period);
    DivMod(period, period, 1, 0);
    assert (random - wired - period) % period == (random - wired - period % period) % period;
  }

  lemma SubMod(a: int, b: int, d: int)
    requires d > 0
    ensures (a - b % d) % d == (a - b) % d
  {
    var x := a - b;
    var q := b / d;
    assert a - b % d == x + d * q by { assert b == d * q + b % d; }
    assert x == d * (x / d) + x % d;
    assert d * (x / d + q) == d * (x / d) + d * q;
    DivMod(a - b % d, d, x / d + q, x % d);
  }
}
