/** The VR4300 interpreter object: its fields are updated step by step, and `Run`
    executes whole cached blocks. Every method is proved against `Processor`. */
module Interpreter {
  import opened Words
  import opened Translation
  import opened PhysicalMemory
  import opened Blocks
  import opened BlockCaching
  import opened Coherence
  import opened SystemBus
  import opened Refinement
  import opened CachedExecution
  import P = Processor
  import opened Processor

  class Cpu {
    var gpr: Gprs
    var cop0: Cop0
    var tlb: Tlb
    var pc: u64
    var nextPc: u64
    var branchPending: bool
    var inDelaySlot: bool
    var llBit: bool
    var halted: bool
    var cycles: nat
    var exceptionCount: nat
    var blockCacheEnabled: bool
    const bus: Bus
    const cache: BlockCache

    function State(): CpuState
      reads this
    {
      CpuState(gpr, cop0, tlb, pc, nextPc, branchPending, inDelaySlot, llBit, halted, cycles, exceptionCount)
    }

    ghost function Mach(): Machine
      reads this, bus
    {
      Machine(State(), bus.Mem())
    }

    ghost predicate Valid()
      reads cache, cache.table
    {
      bus.cache == cache && cache.Valid()
    }

    /** The machine and its cache. */
    ghost function Seen(): World
      reads this, bus, cache, cache.table
    {
      World(Mach(), cache.Contents())
    }

    /** The state after `reset`. */
    constructor (bus: Bus)
      requires bus.cache.Valid()
      ensures this.bus == bus && cache == bus.cache && State() == ResetState() && blockCacheEnabled
    {
      this.bus := bus;
      this.cache := bus.cache;
      gpr := seq(32, _ => 0);
      cop0 := ResetState().cop0;
      tlb := ResetState().tlb;
      pc := 0xBFC0_0000;
      nextPc := 0xBFC0_0004;
      branchPending, inDelaySlot, llBit, halted := false, false, false, false;
      cycles, exceptionCount := 0, 0;
      blockCacheEnabled := true;
    }

    // -------------------------------------------------------------- translation

    /** Walks the TLB for the first entry that matches. */
    method TranslateAddress(vaddr: u64, isStore: bool) returns (t: Translation)
      ensures t == Translate(Ctx(State()), vaddr, isStore)
    {
      hide Matches, EntryTranslation, Mode;
      var v: u32 := vaddr % TWO_TO_32;
      var mode := Mode(cop0[COP0_STATUS]);
      if Unprivileged(mode, v) {
        return Fault(AddressError);
      }
      if DirectSegment(v) {
        if mode != 0 {
          return Fault(AddressError);
        }
        return Mapped(v % 0x2000_0000);
      }
      var asid := cop0[COP0_ENTRY_HI] % 0x100;
      for i := 0 to TLB_ENTRIES
        invariant FirstMatch(tlb, v, asid, 0) == FirstMatch(tlb, v, asid, i)
      {
        if Matches(tlb[i], v, asid) {
          return EntryTranslation(tlb[i], v, isStore);
        }
      }
      return Fault(TlbMiss);
    }

    method TlbProbe()
      modifies `cop0
      ensures State() == P.ProbeTlb(old(State()))
    {
      hide Matches;
      var query := cop0[COP0_ENTRY_HI];
      for i := 0 to TLB_ENTRIES
        invariant cop0 == old(cop0)
        invariant FirstMatch(tlb, query, query % 0x100, 0) == FirstMatch(tlb, query, query % 0x100, i)
      {
        if Matches(tlb[i], query, query % 0x100) {
          cop0 := cop0[COP0_INDEX := i];
          return;
        }
      }
      cop0 := cop0[COP0_INDEX := PROBE_FAIL];
    }

    // -------------------------------------------------------------- exceptions

    method RaiseException(code: nat, badVaddr: u64, ce: nat, refill: bool)
      modifies `cop0, `pc, `nextPc, `branchPending, `llBit, `exceptionCount
      ensures State() == P.RaiseException(old(State()), code, badVaddr, ce, refill)
    {
      hide CauseCode, RecordCause, RecordAddress, WithExl, Vector;
      exceptionCount := exceptionCount + 1;
      var sr := cop0[COP0_STATUS];
      SaveCause(CauseCode(cop0[COP0_CAUSE], code, ce));
      SaveAddress(code, badVaddr % TWO_TO_32);
      cop0 := cop0[COP0_STATUS := WithExl(sr)];
      var vector := Vector(sr, refill);
      VectorFits(sr, refill);
      pc := vector;
      nextPc := vector + 4;
      branchPending := false;
      llBit := false;
    }

    method SaveCause(code: u32)
      modifies `cop0
      ensures cop0 == RecordCause(old(cop0), pc, inDelaySlot, code)
    {
      hide CauseBd, Exl;
      var cause := code;
      if !Exl(cop0[COP0_STATUS]) {
        if inDelaySlot {
          cause := CauseBd(cause, true);
          cop0 := cop0[COP0_EPC := (pc + TWO_TO_32 - 4) % TWO_TO_32];
        } else {
          cause := CauseBd(cause, false);
          cop0 := cop0[COP0_EPC := pc % TWO_TO_32];
        }
      }
      cop0 := cop0[COP0_CAUSE := cause];
    }

    method SaveAddress(code: nat, bad: u32)
      modifies `cop0
      ensures cop0 == RecordAddress(old(cop0), code, bad)
    {
      hide ContextBad, EntryHiBad;
      if IsAddressException(code) || IsTlbException(code) {
        cop0 := cop0[COP0_BAD_VADDR := bad];
      }
      if IsTlbException(code) {
        cop0 := cop0[COP0_CONTEXT := ContextBad(cop0[COP0_CONTEXT], bad)];
        cop0 := cop0[COP0_ENTRY_HI := EntryHiBad(cop0[COP0_ENTRY_HI], bad)];
      }
    }

    static lemma VectorFits(sr: u32, refill: bool)
      ensures Vector(sr, refill) + 4 < TWO_TO_64
    {
    }

    method RaiseTranslationFault(fault: TranslationFault, bad: u64, isStore: bool)
      modifies `cop0, `pc, `nextPc, `branchPending, `llBit, `exceptionCount
      ensures State() == P.RaiseTranslationFault(old(State()), fault, bad, isStore)
    {
      hide P.RaiseException;
      match fault
      case AddressError => RaiseException(if isStore then EXC_ADES else EXC_ADEL, bad, 0, false);
      case TlbMiss => RaiseException(if isStore then EXC_TLBS else EXC_TLBL, bad, 0, true);
      case TlbInvalid => RaiseException(if isStore then EXC_TLBS else EXC_TLBL, bad, 0, false);
      case TlbModified => RaiseException(EXC_MOD, bad, 0, false);
    }

    /** Raises the interrupt exception when one is pending and enabled. */
    method CheckInterrupts()
      modifies `cop0, `pc, `nextPc, `branchPending, `llBit, `exceptionCount
      ensures State() ==
        if InterruptPending(old(State())) then P.RaiseException(old(State()), EXC_INT, 0, 0, false) else old(State())
    {
      hide P.RaiseException;
      var sr := cop0[COP0_STATUS];
      if sr % 2 == 0 {
        return;
      }
      if Exl(sr) || Erl(sr) {
        return;
      }
      var pending := And(cop0[COP0_CAUSE] / 0x100 % 0x100, sr / 0x100 % 0x100);
      if pending != 0 {
        RaiseException(EXC_INT, 0, 0, false);
      }
    }

    method AdvanceCount()
      modifies `cop0
      ensures State() == P.AdvanceCount(old(State()))
    {
      hide NextRandom;
      cop0 := cop0[COP0_COUNT := (cop0[COP0_COUNT] + 1) % TWO_TO_32];
      if cop0[COP0_COUNT] == cop0[COP0_COMPARE] {
        var cause := cop0[COP0_CAUSE];
        cop0 := cop0[COP0_CAUSE := if cause / 0x8000 % 2 == 1 then cause else cause + 0x8000];
      }
      var wired, random := cop0[COP0_WIRED] % 32, cop0[COP0_RANDOM] % 32;
      cop0 := cop0[COP0_RANDOM := NextRandom(wired, random)];
    }

    // -------------------------------------------------------------- memory

    /** Fetches the word at `pc`; on a fault the exception is raised instead. */
    method Fetch() returns (insn: u32)
      modifies `cop0, `pc, `nextPc, `branchPending, `llBit, `exceptionCount
      ensures Fetches(old(State())) ==> State() == old(State()) && insn == FetchedWord(old(Mach()))
      ensures !Fetches(old(State())) ==> State() == FetchException(old(State()))
    {
      hide P.RaiseException, P.RaiseTranslationFault, Translate, Read32, Ctx;
      if pc % 4 != 0 {
        RaiseException(EXC_ADEL, pc, 0, false);
        return 0;
      }
      var t := TranslateAddress(pc, false);
      if t.Fault? {
        RaiseTranslationFault(t.fault, pc, false);
        return 0;
      }
      insn := Read32(bus.Mem(), t.paddr);
    }

    method LoadWord(i: Instr)
      requires i.LoadWord?
      modifies `gpr, `cop0, `pc, `nextPc, `branchPending, `llBit, `exceptionCount
      ensures State() == ExecLoadWord(old(Mach()), i)
    {
      hide P.RaiseException, P.RaiseTranslationFault, Translate, Read32, Ctx, Sext32;
      var addr := (gpr[i.rs] + i.offset) % TWO_TO_64;
      if addr % 4 != 0 {
        RaiseException(EXC_ADEL, addr, 0, false);
        return;
      }
      var t := TranslateAddress(addr, false);
      if t.Fault? {
        RaiseTranslationFault(t.fault, addr, false);
        return;
      }
      var value := Read32(bus.Mem(), t.paddr);
      SetGpr(i.rt, Sext32(value));
    }

    method SetGpr(r: Reg, value: u64)
      modifies `gpr
      ensures State() == WriteGpr(old(State()), r, value)
    {
      if r != 0 {
        gpr := gpr[r := value];
      }
    }

    method StoreWord(i: Instr)
      requires i.StoreWord? && Valid()
      modifies `cop0, `pc, `nextPc, `branchPending, `llBit, `exceptionCount,
               bus`rdram, cache`aliased, cache`count, cache.table
      ensures Valid() && Mach() == ExecStoreWord(old(Mach()), i)
      ensures cache.Contents() ==
        match StoreTarget(old(State()), i.rs, i.offset)
        case Mapped(p) => AfterInvalidate(old(cache.Contents()), p, 4)
        case Fault(_) => old(cache.Contents())
    {
      hide BlockCache.Valid, BlockCache.Contents;
      hide P.RaiseException, Translate, Ctx, Write32, AfterInvalidate;
      var addr := (gpr[i.rs] + i.offset) % TWO_TO_64;
      if addr % 4 != 0 {
        RaiseException(EXC_ADES, addr, 0, false);
        return;
      }
      var t := TranslateAddress(addr, true);
      if t.Fault? {
        RaiseTranslationFault(t.fault, addr, true);
        return;
      }
      AlignedFrame(Ctx(State()), addr, true);
      Translates29(Ctx(State()), addr, true);
      AlignedWrite32(cache.Contents(), bus.Mem(), t.paddr);
      bus.Write32(t.paddr, gpr[i.rt] % TWO_TO_32);
      llBit := false;
    }

    // -------------------------------------------------------------- branches

    method BranchTo(target: u64)
      modifies `nextPc, `branchPending
      ensures State() == BranchAbs(old(State()), target)
    {
      nextPc := target;
      branchPending := true;
    }

    method SetLink(r: Reg)
      modifies `gpr
      ensures State() == Link(old(State()), r)
    {
      SetGpr(r, (pc + 8) % TWO_TO_64);
    }

    method TakeBranch(i: Instr)
      requires i.Branch?
      modifies `gpr, `nextPc, `branchPending
      ensures State() == ExecBranch(old(State()), i)
    {
      hide Holds;
      var taken := Holds(i.cond, gpr[i.rs], gpr[i.rt]);
      if i.link {
        SetLink(31);
      }
      if taken {
        BranchTo((pc + 4 + 4 * i.offset) % TWO_TO_64);
      } else if i.likely {
        nextPc := (pc + 8) % TWO_TO_64;
        branchPending := false;
      } else {
        BranchTo((pc + 8) % TWO_TO_64);
      }
    }

    method TakeJump(i: Instr)
      requires i.Jump?
      modifies `gpr, `nextPc, `branchPending
      ensures State() == ExecJump(old(State()), i)
    {
      if i.link {
        SetLink(31);
      }
      BranchTo(pc / 0x1000_0000 * 0x1000_0000 + i.target % 0x400_0000 * 4);
    }

    method TakeJumpRegister(i: Instr)
      requires i.JumpRegister?
      modifies `gpr, `nextPc, `branchPending
      ensures State() == ExecJumpRegister(old(State()), i)
    {
      var target := gpr[i.rs];
      if i.link {
        SetLink(i.rd);
      }
      BranchTo(target);
    }

    // -------------------------------------------------------------- coprocessor 0

    method SetCop0(i: Reg, v: u32)
      requires Valid()
      modifies `cop0, cache`aliased, cache`count, cache.table
      ensures Valid() && State() == P.SetCop0(old(State()), i, v)
      ensures cache.Contents() ==
        if i == COP0_ENTRY_HI || i == COP0_STATUS then map[] else old(cache.Contents())
    {
      hide BlockCache.Valid, BlockCache.Contents;
      hide IndexBits, EntryLoBits, ContextBits, PageMaskBits, WiredBits, EntryHiBits, TimerAcknowledged, SoftwareCause;
      match i {
        case 1 =>
        case 15 =>
        case 0 => cop0 := cop0[0 := IndexBits(v)];
        case 2 => cop0 := cop0[2 := EntryLoBits(v)];
        case 3 => cop0 := cop0[3 := EntryLoBits(v)];
        case 4 => cop0 := cop0[4 := ContextBits(cop0[4], v)];
        case 5 => cop0 := cop0[5 := PageMaskBits(v)];
        case 6 =>
          cop0 := cop0[6 := WiredBits(v)];
          cop0 := cop0[1 := TLB_ENTRIES - 1];
        case 10 =>
          cop0 := cop0[10 := EntryHiBits(v)];
          cache.Clear();
        case 11 =>
          cop0 := cop0[11 := v];
          cop0 := cop0[13 := TimerAcknowledged(cop0[13])];
        case 13 => cop0 := cop0[13 := SoftwareCause(cop0[13], v)];
        case 12 =>
          cop0 := cop0[12 := v];
          cache.Clear();
        case _ => cop0 := cop0[i := v];
      }
    }

    method TlbReadIndexed()
      requires Valid()
      modifies `cop0, cache`aliased, cache`count, cache.table
      ensures Valid() && State() == ReadTlb(old(State())) && cache.Contents() == map[]
    {
      hide BlockCache.Valid, BlockCache.Contents;
      var entry := tlb[cop0[COP0_INDEX] % 32];
      cop0 := cop0[COP0_PAGE_MASK := entry.pageMask];
      cop0 := cop0[COP0_ENTRY_HI := entry.entryHi];
      cop0 := cop0[COP0_ENTRY_LO0 := entry.entryLo0];
      cop0 := cop0[COP0_ENTRY_LO1 := entry.entryLo1];
      cache.Clear();
    }

    method TlbWriteIndexed(index: u32)
      requires Valid()
      modifies `tlb, cache`aliased, cache`count, cache.table
      ensures Valid() && State() == WriteTlb(old(State()), index) && cache.Contents() == map[]
    {
      hide BlockCache.Valid, BlockCache.Contents;
      hide EntryLoBits, PageMaskBits, EntryHiBits;
      var entry := TlbEntry(PageMaskBits(cop0[COP0_PAGE_MASK]), EntryHiBits(cop0[COP0_ENTRY_HI]),
                            EntryLoBits(cop0[COP0_ENTRY_LO0]), EntryLoBits(cop0[COP0_ENTRY_LO1]));
      tlb := tlb[index % 32 := entry];
      cache.Clear();
    }

    /** ERET has no delay slot: it redirects at once. */
    method Eret()
      modifies `cop0, `pc, `nextPc, `branchPending, `llBit
      ensures State() == DoEret(old(State()))
    {
      var sr := cop0[COP0_STATUS];
      var target: u64;
      if Erl(sr) {
        sr := sr - 4;
        target := cop0[COP0_ERROR_EPC];
      } else {
        sr := if Exl(sr) then sr - 2 else sr;
        target := cop0[COP0_EPC];
      }
      cop0 := cop0[COP0_STATUS := sr];
      llBit := false;
      pc := target;
      nextPc := target;
      branchPending := false;
    }

    method ExecuteCop0(op: Cop0Op)
      requires Valid()
      modifies `gpr, `cop0, `tlb, `pc, `nextPc, `branchPending, `llBit, `exceptionCount,
               cache`aliased, cache`count, cache.table
      ensures Valid() && State() == ExecCop0(old(State()), op)
      ensures cache.Contents() ==
        if Cop0Usable(old(State())) &&
           (op == TlbRead || op == P.TlbWriteIndexed || op == TlbWriteRandom ||
            (op.MoveTo? && (op.rd == COP0_ENTRY_HI || op.rd == COP0_STATUS)))
        then map[] else old(cache.Contents())
    {
      hide BlockCache.Valid, BlockCache.Contents;
      hide P.SetCop0, P.RaiseException, ProbeTlb, ReadTlb, WriteTlb, DoEret, Mode, Sext32;
      var sr := cop0[COP0_STATUS];
      if !(Mode(sr) == 0 || sr / 0x1000_0000 % 2 == 1) {
        RaiseException(EXC_CPU, 0, 0, false);
        return;
      }
      match op
      case MoveFrom(rt, rd) => SetGpr(rt, Sext32(cop0[rd]));
      case MoveFromDouble(rt, rd) => SetGpr(rt, cop0[rd]);
      case MoveTo(rt, rd) => SetCop0(rd, gpr[rt] % TWO_TO_32);
      case TlbRead => TlbReadIndexed();
      case TlbWriteIndexed => TlbWriteIndexed(cop0[COP0_INDEX]);
      case TlbWriteRandom => TlbWriteIndexed(cop0[COP0_RANDOM]);
      case TlbProbe => TlbProbe();
      case ExceptionReturn => Eret();
      case Nothing =>
    }

    // -------------------------------------------------------------- one step

    method Execute(insn: u32)
      requires Valid()
      modifies this`gpr, this`cop0, this`tlb, this`pc, this`nextPc, this`branchPending, this`llBit,
               this`exceptionCount, bus`rdram, cache`aliased, cache`count, cache.table
      ensures Valid() && Mach() == P.Execute(old(Mach()), insn)
      ensures cache.Contents() == CacheAfterExecute(old(cache.Contents()), old(State()), insn)
    {
      hide BlockCache.Valid, BlockCache.Contents;
      var i := Decode(insn);
      hide Decode, P.RaiseException, ExecBranch, ExecJump, ExecJumpRegister, ExecLoadWord, ExecStoreWord, ExecCop0,
           WriteGpr, Sext32, StoreTarget, AfterInvalidate, Cop0Usable, Gpr, ExecAddImmediate;
      CacheEffect(cache.Contents(), State(), insn);
      hide CacheAfterExecute;
      match i
      case StoreWord(_, _, _) => StoreWord(i);
      case Cop0(op) => ExecuteCop0(op);
      case _ => ExecuteRegisters(insn);
    }

    /** The instructions that reach neither memory nor the cache. */
    method ExecuteRegisters(insn: u32)
      requires !Decode(insn).StoreWord? && !Decode(insn).Cop0?
      modifies `gpr, `cop0, `pc, `nextPc, `branchPending, `llBit, `exceptionCount
      ensures Mach() == P.Execute(old(Mach()), insn)
    {
      var i := Decode(insn);
      hide Decode, P.RaiseException, ExecBranch, ExecJump, ExecJumpRegister, ExecLoadWord, ExecStoreWord, ExecCop0,
           WriteGpr, Sext32, StoreTarget, AfterInvalidate, Cop0Usable, Gpr, ExecAddImmediate;
      match i
      case Branch(_, _, _, _, _, _) => TakeBranch(i);
      case Jump(_, _) => TakeJump(i);
      case JumpRegister(_, _, _) => TakeJumpRegister(i);
      case AddImmediate(_, _, _, _) => AddImmediate(i);
      case LoadUpper(rt, imm16) => SetGpr(rt, Sext32(imm16 % 0x1_0000 * 0x1_0000));
      case AddUnsigned(_, _, _) => AddUnsigned(i);
      case LoadWord(_, _, _) => LoadWord(i);
      case Syscall => RaiseException(EXC_SYS, 0, 0, false);
      case Break => RaiseException(EXC_BP, 0, 0, false);
      case Reserved => RaiseException(EXC_RI, 0, 0, false);
      case Unmodelled =>
    }

    method AddUnsigned(i: Instr)
      requires i.AddUnsigned?
      modifies `gpr
      ensures State() == WriteGpr(old(State()), i.rd,
        Sext32((Gpr(old(State()), i.rs) + Gpr(old(State()), i.rt)) % TWO_TO_32))
    {
      SetGpr(i.rd, Sext32((gpr[i.rs] + gpr[i.rt]) % TWO_TO_32));
    }

    /** ADDI traps on signed overflow; ADDIU wraps. */
    method AddImmediate(i: Instr)
      requires i.AddImmediate?
      modifies `gpr, `cop0, `pc, `nextPc, `branchPending, `llBit, `exceptionCount
      ensures State() == ExecAddImmediate(old(State()), i)
    {
      hide P.RaiseException, Sext32;
      var a := gpr[i.rs] % TWO_TO_32;
      var wide := Signed32(a) + i.imm;
      if i.trap && !(-0x8000_0000 <= wide < 0x8000_0000) {
        RaiseException(EXC_OV, 0, 0, false);
      } else {
        SetGpr(i.rt, Sext32((a + i.imm) % TWO_TO_32));
      }
    }

    /** The common end of a step. */
    method RetireStep()
      modifies `gpr, `cop0, `cycles, `inDelaySlot
      ensures State() == Retire(old(State()))
    {
      gpr := gpr[0 := 0];
      AdvanceCount();
      cycles := cycles + 1;
      inDelaySlot := false;
    }

    /** Executes `insn` as the instruction at `pc` and moves the program counter on. */
    method ExecuteAndSequence(insn: u32)
      requires Valid()
      modifies this`gpr, this`cop0, this`tlb, this`pc, this`nextPc, this`branchPending, this`inDelaySlot, this`llBit,
               this`cycles, this`exceptionCount, bus`rdram, cache`aliased, cache`count, cache.table
      ensures Valid() && Mach() == ExecuteWord(old(Mach()), insn)
      ensures cache.Contents() == CacheAfterExecute(old(cache.Contents()), old(State()), insn)
    {
      hide BlockCache.Valid, BlockCache.Contents;
      hide P.Execute, Retire, CacheAfterExecute;
      DispatchCache(cache.Contents(), Mach(), insn);
      var insnPc := pc;
      var delaySlot := branchPending;
      var excBefore := exceptionCount;
      inDelaySlot := delaySlot;
      if !delaySlot {
        nextPc := Next(insnPc);
        branchPending := false;
      }
      assert State() == Dispatch(old(State()));
      Execute(insn);
      if exceptionCount != excBefore {
        branchPending := false;
      } else if delaySlot {
        pc := nextPc;
        nextPc := Next(pc);
        branchPending := false;
      } else if branchPending {
        var target := nextPc;
        pc := Next(insnPc);
        nextPc := target;
      } else {
        pc := nextPc;
        nextPc := Next(pc);
      }
      RetireStep();
    }

    /** One instruction of the plain interpreter. */
    method Step()
      requires Valid()
      modifies this`gpr, this`cop0, this`tlb, this`pc, this`nextPc, this`branchPending, this`inDelaySlot, this`llBit,
               this`cycles, this`exceptionCount, bus`rdram, cache`aliased, cache`count, cache.table
      ensures Valid() && Mach() == P.Step(old(Mach()))
      ensures cache.Contents() == CacheAfterStep(old(cache.Contents()), old(Mach()))
    {
      hide BlockCache.Valid, BlockCache.Contents;
      hide ExecuteWord, Retire, CacheAfterExecute, FetchException, FetchedWord, InterruptPending, P.RaiseException,
           Fetches;
      if halted {
        cycles := cycles + 1;
        return;
      }
      if !branchPending {
        var before := exceptionCount;
        CheckInterrupts();
        RaiseCounts(old(State()), EXC_INT, 0, 0, false);
        if exceptionCount != before {
          RetireStep();
          return;
        }
      }
      FetchSees(Mach());
      inDelaySlot := branchPending;
      var before := exceptionCount;
      ghost var d := State();
      if !Fetches(d) {
        FetchCounts(d);
      }
      var insn := Fetch();
      if exceptionCount != before {
        RetireStep();
        return;
      }
      ExecuteAndSequence(insn);
    }

    // -------------------------------------------------------------- cached execution

    /** Executes the words of a block without fetching them; stops early when control leaves the
        block or an exception is taken. */
    method ExecuteBlock(block: BasicBlock) returns (did: nat)
      requires Valid()
      modifies this`gpr, this`cop0, this`tlb, this`pc, this`nextPc, this`branchPending, this`inDelaySlot, this`llBit,
               this`cycles, this`exceptionCount, bus`rdram, cache`aliased, cache`count, cache.table
      ensures Valid() && (Seen(), did) == BlockFrom(old(Seen()), block, 0)
    {
      hide BlockCache.Valid, BlockCache.Contents;
      hide ExecuteWord, Retire, CacheAfterExecute, PcAt, P.RaiseException, InterruptPending, Left, BlockFrom;
      ghost var w0 := Seen();
      LeftStart(w0, block);
      did := 0;
      var n := |block.insns|;
      while did < n
        invariant Valid() && 0 <= did <= n && Left(w0, block, Seen(), did)
      {
        LeftNext(w0, block, Seen(), did);
        var expectedPc := PcAt(block.startPc, did);
        if pc != expectedPc {
          return did;
        }
        if !branchPending {
          var interrupted := InterruptRequested();
          if interrupted {
            RaiseCounts(State(), EXC_INT, 0, 0, false);
            var excBeforeIrq := exceptionCount;
            CheckInterrupts();
            if exceptionCount != excBeforeIrq {
              RetireStep();
              return did + 1;
            }
          }
        }
        var excBefore := exceptionCount;
        ExecuteAndSequence(block.insns[did]);
        if exceptionCount != excBefore {
          return did + 1;
        }
        did := did + 1;
        if halted {
          return did;
        }
      }
      LeftEnd(w0, block, Seen(), did);
    }

    /** The inlined test that lets `ExecuteBlock` skip the interrupt check. */
    method InterruptRequested() returns (requested: bool)
      ensures requested == InterruptPending(State())
    {
      var sr := cop0[COP0_STATUS];
      if sr % 2 == 1 && !Exl(sr) && !Erl(sr) {
        var cause := cop0[COP0_CAUSE];
        return And(cause / 0x100 % 0x100, sr / 0x100 % 0x100) != 0;
      }
      return false;
    }

    /** Executes up to `n` instructions, whole cached blocks where they fit: on every input the
        specified cached run, and where the run respects what caching needs, the plain
        interpreter's run. */
    method Run(n: nat) returns (taken: nat)
      requires Valid()
      modifies this`gpr, this`cop0, this`tlb, this`pc, this`nextPc, this`branchPending, this`inDelaySlot, this`llBit,
               this`cycles, this`exceptionCount, bus`rdram,
               cache`aliased, cache`count, cache`hits, cache`misses, cache.table
      ensures Valid() && (Seen(), taken) == CachedRun(old(Seen()), blockCacheEnabled, n)
      ensures old(WorldOk(Seen())) && RunOk(old(Mach()), n) ==>
        && Mach() == Steps(old(Mach()), taken) && taken == (if old(halted) then 0 else n)
        && cycles == old(cycles) + taken && WorldOk(Seen())
    {
      hide BlockCache.Valid, BlockCache.Contents;
      hide P.Step, StepOk, RunOk, WorldOk, Steps, Turn, CachedRun, Delivers;
      ghost var w0 := Seen();
      if WorldOk(w0) && RunOk(w0.machine, n) {
        CachedRunRefines(w0, blockCacheEnabled, n);
        DeliversMeans(w0, CachedRun(w0, blockCacheEnabled, n).0, CachedRun(w0, blockCacheEnabled, n).1);
      }
      taken := 0;
      while taken < n && !halted
        invariant Valid() && 0 <= taken <= n && halted == Seen().machine.cpu.halted
        invariant CachedRun(w0, blockCacheEnabled, n)
          == Later(taken, CachedRun(Seen(), blockCacheEnabled, n - taken))
      {
        CachedRunTurn(Seen(), blockCacheEnabled, n - taken);
        var did := RunTurn(n - taken);
        taken := taken + did;
      }
      CachedRunDone(Seen(), blockCacheEnabled, n - taken);
    }

    /** One turn of the loop: a cached block if caching applies and the block fits the budget. */
    method RunTurn(budget: nat) returns (did: nat)
      requires Valid() && !halted && budget > 0
      modifies this`gpr, this`cop0, this`tlb, this`pc, this`nextPc, this`branchPending, this`inDelaySlot, this`llBit,
               this`cycles, this`exceptionCount, bus`rdram,
               cache`aliased, cache`count, cache`hits, cache`misses, cache.table
      ensures Valid() && (Seen(), did) == Turn(old(Seen()), blockCacheEnabled, budget)
    {
      hide BlockCache.Valid, BlockCache.Contents;
      hide P.Step, BlockFrom, CacheAfterStep, FindBlock;
      if blockCacheEnabled && !branchPending {
        var blk := LookUpOrCompile();
        if blk.Some? && |blk.value.insns| != 0 && |blk.value.insns| <= budget {
          did := ExecuteBlock(blk.value);
          if did == 0 {
            Step();
            did := 1;
          }
          return did;
        }
      }
      Step();
      return 1;
    }

    /** The block at `pc`, from the cache or freshly compiled. */
    method LookUpOrCompile() returns (blk: Option<BasicBlock>)
      requires Valid()
      modifies cache`aliased, cache`count, cache`hits, cache`misses, cache.table
      ensures Valid() && (Seen(), blk) == FindBlock(old(Seen()))
    {
      hide BlockCache.Valid, BlockCache.Contents;
      hide Fresh, Ctx, SlotIndex;
      blk := cache.Lookup(pc);
      if blk.None? {
        blk := cache.Compile(pc, Ctx(State()), bus.Mem());
      }
    }
  }

  // ---------------------------------------------------------------- the loops against the functions

  /** What executing the block from the start delivers is what is left to execute delivers. */
  ghost predicate Left(w0: World, b: BasicBlock, w: World, did: nat) {
    BlockFrom(w0, b, 0) == Later(did, BlockFrom(w, b, did))
  }

  function Later(did: nat, r: (World, nat)): (World, nat) {
    (r.0, did + r.1)
  }

  lemma LeftStart(w: World, b: BasicBlock)
    ensures Left(w, b, w, 0)
  {
    hide BlockFrom;
  }

  /** One word of the block, as `BlockFrom` takes it apart. */
  lemma LeftNext(w0: World, b: BasicBlock, w: World, did: nat)
    requires Left(w0, b, w, did) && did < |b.insns|
    ensures var s := w.machine.cpu;
      if s.pc != PcAt(b.startPc, did) then BlockFrom(w0, b, 0) == (w, did)
      else if TakesInterrupt(s) then
        BlockFrom(w0, b, 0) == (World(w.machine.(cpu := TakeInterrupt(s)), w.cache), did + 1)
      else
        var next := WordWorld(w, b.insns[did]);
        if next.machine.cpu.exceptions != s.exceptions || next.machine.cpu.halted
        then BlockFrom(w0, b, 0) == (next, did + 1)
        else Left(w0, b, next, did + 1)
  {
    hide PcAt, TakesInterrupt, TakeInterrupt, WordWorld;
  }

  lemma LeftEnd(w0: World, b: BasicBlock, w: World, did: nat)
    requires Left(w0, b, w, did) && did >= |b.insns|
    ensures BlockFrom(w0, b, 0) == (w, did)
  {
  }

  lemma CachedRunTurn(w: World, enabled: bool, n: nat)
    requires n > 0 && !w.machine.cpu.halted
    ensures var (next, did) := Turn(w, enabled, n);
      did <= n && CachedRun(w, enabled, n) == Later(did, CachedRun(next, enabled, n - did))
  {
    hide Turn;
  }

  lemma CachedRunDone(w: World, enabled: bool, n: nat)
    requires n == 0 || w.machine.cpu.halted
    ensures CachedRun(w, enabled, n) == (w, 0)
  {
  }

  lemma DeliversMeans(w: World, last: World, did: nat)
    requires Delivers(w, last, did)
    ensures last.machine == Steps(w.machine, did) && WorldOk(last)
  {
  }

  lemma StepsNone(m: Machine)
    ensures Steps(m, 0) == m
  {
  }

  lemma RaiseCounts(s: CpuState, code: nat, bad: u64, ce: nat, refill: bool)
    ensures P.RaiseException(s, code, bad, ce, refill).exceptions == s.exceptions + 1
  {
  }

  lemma FetchCounts(s: CpuState)
    requires !Fetches(s)
    ensures FetchException(s).exceptions == s.exceptions + 1
  {
    hide ExceptionCop0, Vector, Translate;
  }

  /** Marking the delay slot before a fetch does not change what is fetched or executed. */
  lemma FetchSees(m: Machine)
    ensures var d := m.cpu.(inDelaySlot := m.cpu.branchPending);
      && Fetches(d) == Fetches(m.cpu)
      && (Fetches(d) ==>
            FetchedWord(Machine(d, m.mem)) == FetchedWord(m)
            && ExecuteWord(Machine(d, m.mem), FetchedWord(m)) == ExecuteWord(m, FetchedWord(m))
            && forall cache ::
              CacheAfterExecute(cache, d, FetchedWord(m)) == CacheAfterExecute(cache, m.cpu, FetchedWord(m)))
      && (!Fetches(d) ==> FetchFault(m.cpu) == Retire(FetchException(d)))
  {
    var d := m.cpu.(inDelaySlot := m.cpu.branchPending);
    assert Ctx(d) == Ctx(m.cpu);
    hide Translate, Read32, Retire, FetchException;
    if Fetches(d) {
      var w := FetchedWord(m);
      hide FetchedWord;
      SameWord(m, w);
    }
  }

  /** What each kind of instruction does to the cache. */
  lemma CacheEffect(cache: Contents, s: CpuState, w: u32)
    ensures CacheAfterExecute(cache, s, w) ==
      match Decode(w)
      case StoreWord(rs, _, offset) =>
        (match StoreTarget(s, rs, offset)
         case Mapped(p) => AfterInvalidate(cache, p, 4)
         case Fault(_) => cache)
      case Cop0(op) =>
        if Cop0Usable(s) &&
           (op == TlbRead || op == P.TlbWriteIndexed || op == TlbWriteRandom ||
            (op.MoveTo? && (op.rd == COP0_ENTRY_HI || op.rd == COP0_STATUS)))
        then map[] else cache
      case _ => cache
  {
    hide Decode, StoreTarget, AfterInvalidate, Cop0Usable;
  }

  lemma SameWord(m: Machine, w: u32)
    ensures var d := m.cpu.(inDelaySlot := m.cpu.branchPending);
      && ExecuteWord(Machine(d, m.mem), w) == ExecuteWord(m, w)
      && forall cache :: CacheAfterExecute(cache, d, w) == CacheAfterExecute(cache, m.cpu, w)
  {
    var d := m.cpu.(inDelaySlot := m.cpu.branchPending);
    assert Dispatch(d) == Dispatch(m.cpu);
    DispatchSees(m, w);
    DispatchSees(Machine(d, m.mem), w);
    hide Execute, Retire, ClearsCache, StoredAt, Dispatch;
  }

  /** Entering an instruction changes nothing a cache effect depends on. */
  lemma DispatchCache(cache: Contents, m: Machine, w: u32)
    ensures CacheAfterExecute(cache, Dispatch(m.cpu), w) == CacheAfterExecute(cache, m.cpu, w)
  {
    DispatchSees(m, w);
    hide ClearsCache, StoredAt;
  }
}
