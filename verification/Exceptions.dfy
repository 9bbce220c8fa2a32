/** Precise exceptions over whole runs of the interpreter. */
module Exceptions {
  import opened Words
  import opened Translation
  import opened PhysicalMemory
  import opened Blocks
  import opened Processor
  import opened Coherence
  import opened Refinement

  // ---------------------------------------------------------------- what an exception records

  predicate BdSet(s: CpuState) {
    s.cop0[COP0_CAUSE] / 0x8000_0000 == 1
  }

  predicate ExlSet(s: CpuState) {
    Exl(s.cop0[COP0_STATUS])
  }

  /** Which exception: its code, the address that goes to BadVAddr if the code has one, and
      whether the refill vector applies. */
  datatype Cause = Cause(code: nat, bad: u64, refill: bool)

  /** What an access to `addr` raises, unless it is aligned and translates. */
  function AccessCause(s: CpuState, addr: u64, isStore: bool): Cause
    requires addr % 4 != 0 || Translate(Ctx(s), addr, isStore).Fault?
  {
    var addressError := if isStore then EXC_ADES else EXC_ADEL;
    var tlbError := if isStore then EXC_TLBS else EXC_TLBL;
    if addr % 4 != 0 then Cause(addressError, addr, false)
    else
      match Translate(Ctx(s), addr, isStore).fault
      case AddressError => Cause(addressError, addr, false)
      case TlbMiss => Cause(tlbError, addr, true)
      case TlbInvalid => Cause(tlbError, addr, false)
      case TlbModified => Cause(EXC_MOD, addr, false)
  }

  predicate AccessFaults(s: CpuState, addr: u64, isStore: bool) {
    addr % 4 != 0 || Translate(Ctx(s), addr, isStore).Fault?
  }

  /** What a word raises when it raises anything. */
  function WordCause(s: CpuState, w: u32): Cause
  {
    match Decode(w)
    case Syscall => Cause(EXC_SYS, 0, false)
    case Break => Cause(EXC_BP, 0, false)
    case Cop0(_) => Cause(EXC_CPU, 0, false)
    case AddImmediate(_, _, _, _) => Cause(EXC_OV, 0, false)
    case LoadWord(rs, _, offset) =>
      var addr := EffectiveAddress(s, rs, offset);
      if AccessFaults(s, addr, false) then AccessCause(s, addr, false) else Cause(EXC_INT, 0, false)
    case StoreWord(rs, _, offset) =>
      var addr := EffectiveAddress(s, rs, offset);
      if AccessFaults(s, addr, true) then AccessCause(s, addr, true) else Cause(EXC_INT, 0, false)
    case _ => Cause(EXC_RI, 0, false)
  }

  /** What a step raises when it raises anything. */
  function StepCause(m: Machine): Cause
  {
    if TakesInterrupt(m.cpu) then Cause(EXC_INT, 0, false)
    else if !Fetches(m.cpu) then AccessCause(m.cpu, m.cpu.pc, false)
    else WordCause(m.cpu, FetchedWord(m))
  }

  /** The state an exception must leave when the instruction at `s.pc` faults: nothing that
      instruction would have written is visible, EPC and BD name it (or its branch) unless an
      exception was already being served, the cause and the failing address are recorded, control
      is at the vector, and no other COP0 register but the counters changes. */
  predicate PreciselyTaken(s: CpuState, mem: Memory, t: Machine, e: Cause) {
    && t.mem == mem && t.cpu.gpr == s.gpr[0 := 0] && t.cpu.tlb == s.tlb
    && t.cpu.exceptions == s.exceptions + 1 && !t.cpu.branchPending
    && ExlSet(t.cpu)
    && (if ExlSet(s) then
          t.cpu.cop0[COP0_EPC] == s.cop0[COP0_EPC] && BdSet(t.cpu) == BdSet(s)
        else
          t.cpu.cop0[COP0_EPC] == (if s.branchPending then s.pc + TWO_TO_32 - 4 else s.pc) % TWO_TO_32
          && BdSet(t.cpu) == s.branchPending)
    && AtVector(s.cop0[COP0_STATUS], t.cpu, e)
    && CauseTaken(s.cop0, t.cpu.cop0, e) && AddressTaken(s.cop0, t.cpu.cop0, e) && OthersKept(s.cop0, t.cpu.cop0)
  }

  predicate AtVector(sr: u32, t: CpuState, e: Cause) {
    && t.pc == (if Bev(sr) then 0xBFC0_0200 else 0x8000_0000) + (if e.refill && !Exl(sr) then 0 else 0x180)
    && t.nextPc == t.pc + 4
    && t.cop0[COP0_STATUS] == if Exl(sr) then sr else sr + 2
  }

  /** Code and coprocessor number are set; the interrupts pending stay so, and the timer's joins
      them if Count reaches Compare. */
  predicate CauseTaken(c: Cop0, t: Cop0, e: Cause) {
    && t[COP0_CAUSE] / 4 % 32 == e.code && t[COP0_CAUSE] / 0x1000_0000 % 4 == 0
    && t[COP0_CAUSE] / 0x100 % 0x80 == c[COP0_CAUSE] / 0x100 % 0x80
    && t[COP0_COUNT] == (c[COP0_COUNT] + 1) % TWO_TO_32
    && t[COP0_CAUSE] / 0x8000 % 2 == if t[COP0_COUNT] == c[COP0_COMPARE] then 1 else c[COP0_CAUSE] / 0x8000 % 2
  }

  /** BadVAddr for address and TLB exceptions, the page number in Context and EntryHi for the
      latter. */
  predicate AddressTaken(c: Cop0, t: Cop0, e: Cause) {
    var bad, page := e.bad % TWO_TO_32, e.bad % TWO_TO_32 / 0x2000;
    && t[COP0_BAD_VADDR] == (if 1 <= e.code <= 5 then bad else c[COP0_BAD_VADDR])
    && (if 1 <= e.code <= 3 then
          && t[COP0_CONTEXT] == c[COP0_CONTEXT] / 0x80_0000 * 0x80_0000 + page * 0x10
          && t[COP0_ENTRY_HI] == page * 0x2000 + c[COP0_ENTRY_HI] % 0x100
        else t[COP0_CONTEXT] == c[COP0_CONTEXT] && t[COP0_ENTRY_HI] == c[COP0_ENTRY_HI])
  }

  predicate OthersKept(c: Cop0, t: Cop0) {
    forall r | 0 <= r < 32 ::
      r in {COP0_RANDOM, COP0_CONTEXT, COP0_BAD_VADDR, COP0_COUNT, COP0_ENTRY_HI, COP0_STATUS, COP0_CAUSE, COP0_EPC}
      || t[r] == c[r]
  }

  // ---------------------------------------------------------------- the fields of Cause

  datatype CauseBits = CauseBits(
    bd: nat, b30: nat, ce: nat, mid: nat, timer: nat, ip: nat, b7: nat, code: nat, low: nat)

  predicate InRange(b: CauseBits) {
    && b.bd < 2 && b.b30 < 2 && b.ce < 4 && b.mid < 0x1000 && b.timer < 2 && b.ip < 0x80 && b.b7 < 2
    && b.code < 32 && b.low < 4
  }

  function Value(b: CauseBits): (v: nat)
  {
    b.bd * 0x8000_0000 + b.b30 * 0x4000_0000 + b.ce * 0x1000_0000 + b.mid * 0x1_0000 + b.timer * 0x8000
    + b.ip * 0x100 + b.b7 * 0x80 + b.code * 4 + b.low
  }

  lemma Fields(b: CauseBits)
    requires InRange(b)
    ensures var v := Value(b);
      && v < TWO_TO_32 && v / 0x8000_0000 == b.bd && v % 0x8000_0000 == v - b.bd * 0x8000_0000
      && v / 0x1000_0000 % 4 == b.ce && v / 0x8000 % 2 == b.timer && v / 0x100 % 0x80 == b.ip && v / 4 % 32 == b.code
  {
    var v := Value(b);
    var v4 := b.ip * 0x40 + b.b7 * 0x20 + b.code;
    var v15 := b.mid * 2 + b.timer;
    var v28 := b.bd * 8 + b.b30 * 4 + b.ce;
    var r28 := b.mid * 0x1_0000 + b.timer * 0x8000 + b.ip * 0x100 + b.b7 * 0x80 + b.code * 4 + b.low;
    var r8 := b.b7 * 0x80 + b.code * 4 + b.low;
    DivMod(v, 0x8000_0000, b.bd, v - b.bd * 0x8000_0000);
    DivMod(v, 0x1000_0000, v28, r28);
    DivMod(v28, 4, b.bd * 2 + b.b30, b.ce);
    DivMod(v, 0x8000, v28 * 0x2000 + v15, b.ip * 0x100 + r8);
    DivMod(v28 * 0x2000 + v15, 2, v28 * 0x1000 + b.mid, b.timer);
    DivMod(v, 0x100, v28 * 0x10_0000 + v15 * 0x80 + b.ip, r8);
    DivMod(v28 * 0x10_0000 + v15 * 0x80 + b.ip, 0x80, v28 * 0x2000 + v15, b.ip);
    DivMod(v, 4, v28 * 0x400_0000 + v15 * 0x2000 + v4, b.low);
    DivMod(v28 * 0x400_0000 + v15 * 0x2000 + v4, 32, v28 * 0x20_0000 + v15 * 0x100 + b.ip * 2 + b.b7, b.code);
  }

  lemma BitsOf(c: u32) returns (b: CauseBits)
    ensures InRange(b) && Value(b) == c
  {
    var c2, c7 := c / 4, c / 4 / 32;
    var c8 := c7 / 2;
    var c15 := c8 / 0x80;
    var c16 := c15 / 2;
    var c28 := c16 / 0x1000;
    var c30 := c28 / 4;
    b := CauseBits(c30 / 2, c30 % 2, c28 % 4, c16 % 0x1000, c15 % 2, c8 % 0x80, c7 % 2, c2 % 32, c % 4);
  }

  lemma CodeSet(b: CauseBits, code: nat)
    requires InRange(b) && code < 32
    ensures Value(b) < TWO_TO_32 && CauseCode(Value(b), code, 0) == Value(b.(code := code, ce := 0))
  {
    var n := b.(code := code);
    Fields(b);
    Fields(n);
    CodeParts(Value(b), code, Value(n), b.code, b.ce);
    hide CauseCode;
  }

  lemma CodeParts(v: u32, code: nat, n: u32, was: nat, ce: nat)
    requires code < 32 && v / 4 % 32 == was && n == v - was * 4 + code * 4 && n / 0x1000_0000 % 4 == ce
    ensures CauseCode(v, code, 0) == n - ce * 0x1000_0000
  {
  }

  lemma BdChanged(b: CauseBits, bd: bool)
    requires InRange(b)
    ensures Value(b) < TWO_TO_32 && CauseBd(Value(b), bd) == Value(b.(bd := if bd then 1 else 0))
  {
    Fields(b);
  }

  /** Cause after the exception and after the timer's bit has been looked at. */
  lemma CauseFields(cause: u32, code: nat, known: bool, bd: bool)
    requires code < 32
    ensures var mid := CauseCode(cause, code, 0);
      var c := if known then mid else CauseBd(mid, bd);
      && c / 4 % 32 == code && c / 0x1000_0000 % 4 == 0 && c / 0x100 % 0x80 == cause / 0x100 % 0x80
      && c / 0x8000 % 2 == cause / 0x8000 % 2
      && c / 0x8000_0000 == if known then cause / 0x8000_0000 else if bd then 1 else 0
  {
    var b := BitsOf(cause);
    Fields(b);
    CodeSet(b, code);
    var n := b.(code := code, ce := 0);
    Fields(n);
    BdChanged(n, bd);
    Fields(n.(bd := if bd then 1 else 0));
    hide Value, InRange, CauseCode, CauseBd;
  }

  lemma TimerSet(cause: u32)
    requires cause / 0x8000 % 2 == 0
    ensures var t := cause + 0x8000;
      && t < TWO_TO_32 && t / 4 % 32 == cause / 4 % 32 && t / 0x1000_0000 % 4 == cause / 0x1000_0000 % 4
      && t / 0x100 % 0x80 == cause / 0x100 % 0x80 && t / 0x8000 % 2 == 1 && t / 0x8000_0000 == cause / 0x8000_0000
  {
    var b := BitsOf(cause);
    Fields(b);
    Fields(b.(timer := 1));
    assert Value(b.(timer := 1)) == Value(b) + 0x8000;
    hide Value, InRange;
  }

  // ---------------------------------------------------------------- raising

  function Raise(d: CpuState, e: Cause): CpuState
  {
    RaiseException(d, e.code, e.bad, 0, e.refill)
  }

  lemma StatusBits(sr: u32)
    ensures Exl(WithExl(sr)) && WithExl(sr) == if Exl(sr) then sr else sr + 2
  {
    if sr / 2 % 2 == 0 {
      DivMod(sr + 2, 2, sr / 2 + 1, sr % 2);
    }
  }

  /** The registers that name the failing page. */
  lemma PageFields(context: u32, entryHi: u32, bad: u32)
    ensures ContextBad(context, bad) == context / 0x80_0000 * 0x80_0000 + bad / 0x2000 * 0x10
    ensures EntryHiBad(entryHi, bad) == bad / 0x2000 * 0x2000 + entryHi % 0x100
  {
    var page, r := bad / 0x2000, bad % 0x2000;
    DivMod(bad, 0x200, page * 0x10 + r / 0x200, r % 0x200);
    assert bad / 0x200 < 0x80_0000;
    DivMod(bad / 0x200, 0x10, page, r / 0x200);
  }

  lemma RaiseCop0(d: CpuState, e: Cause)
    requires e.code < 32
    ensures var (c, t) := (d.cop0, ExceptionCop0(d, e.code, e.bad, 0));
      && t[COP0_STATUS] == (if Exl(c[COP0_STATUS]) then c[COP0_STATUS] else c[COP0_STATUS] + 2)
      && Exl(t[COP0_STATUS])
      && t[COP0_EPC] == (if Exl(c[COP0_STATUS]) then c[COP0_EPC]
                         else (if d.inDelaySlot then d.pc + TWO_TO_32 - 4 else d.pc) % TWO_TO_32)
      && t[COP0_CAUSE] / 4 % 32 == e.code && t[COP0_CAUSE] / 0x1000_0000 % 4 == 0
      && t[COP0_CAUSE] / 0x100 % 0x80 == c[COP0_CAUSE] / 0x100 % 0x80
      && t[COP0_CAUSE] / 0x8000 % 2 == c[COP0_CAUSE] / 0x8000 % 2
      && t[COP0_CAUSE] / 0x8000_0000
         == (if Exl(c[COP0_STATUS]) then c[COP0_CAUSE] / 0x8000_0000 else if d.inDelaySlot then 1 else 0)
      && AddressTaken(c, t, e) && OthersKept(c, t)
      && t[COP0_COUNT] == c[COP0_COUNT] && t[COP0_COMPARE] == c[COP0_COMPARE] && t[COP0_RANDOM] == c[COP0_RANDOM]
  {
    var c, bad: u32 := d.cop0, e.bad % TWO_TO_32;
    StatusBits(c[COP0_STATUS]);
    CauseFields(c[COP0_CAUSE], e.code, Exl(c[COP0_STATUS]), d.inDelaySlot);
    PageFields(c[COP0_CONTEXT], c[COP0_ENTRY_HI], bad);
    hide CauseCode, CauseBd, ContextBad, EntryHiBad, WithExl, Exl;
  }

  lemma RetireCop0(r: CpuState)
    ensures var (c, t) := (r.cop0, Retire(r));
      && (forall i | 0 <= i < 32 && i !in {COP0_RANDOM, COP0_COUNT, COP0_CAUSE} :: t.cop0[i] == c[i])
      && t.cop0[COP0_CAUSE] / 4 % 32 == c[COP0_CAUSE] / 4 % 32
      && t.cop0[COP0_CAUSE] / 0x1000_0000 % 4 == c[COP0_CAUSE] / 0x1000_0000 % 4
      && t.cop0[COP0_CAUSE] / 0x100 % 0x80 == c[COP0_CAUSE] / 0x100 % 0x80
      && t.cop0[COP0_CAUSE] / 0x8000_0000 == c[COP0_CAUSE] / 0x8000_0000
      && t.cop0[COP0_COUNT] == (c[COP0_COUNT] + 1) % TWO_TO_32
      && t.cop0[COP0_CAUSE] / 0x8000 % 2
         == (if t.cop0[COP0_COUNT] == c[COP0_COMPARE] then 1 else c[COP0_CAUSE] / 0x8000 % 2)
      && t.gpr == r.gpr[0 := 0] && t.tlb == r.tlb && t.exceptions == r.exceptions
      && t.pc == r.pc && t.nextPc == r.nextPc && t.branchPending == r.branchPending
  {
    if r.cop0[COP0_CAUSE] / 0x8000 % 2 == 0 {
      TimerSet(r.cop0[COP0_CAUSE]);
    }
    hide NextRandom;
  }

  lemma RaiseShape(d: CpuState, e: Cause)
    ensures var r := Raise(d, e);
      && r.gpr == d.gpr && r.tlb == d.tlb && r.exceptions == d.exceptions + 1 && !r.branchPending
      && r.cop0 == ExceptionCop0(d, e.code, e.bad, 0) && r.nextPc == r.pc + 4
      && r.pc == (if Bev(d.cop0[COP0_STATUS]) then 0xBFC0_0200 else 0x8000_0000)
                 + (if e.refill && !Exl(d.cop0[COP0_STATUS]) then 0 else 0x180)
  {
    hide ExceptionCop0, Bev, Exl;
  }

  /** Raising an exception, seen from the state the instruction started in. */
  lemma RaisePrecise(s: CpuState, d: CpuState, mem: Memory, e: Cause)
    requires d.gpr == s.gpr && d.cop0 == s.cop0 && d.tlb == s.tlb && d.pc == s.pc && e.code < 32
    requires d.exceptions == s.exceptions && d.inDelaySlot == s.branchPending
    ensures PreciselyTaken(s, mem, Machine(Retire(Raise(d, e)), mem), e)
  {
    RaiseShape(d, e);
    RaiseCop0(d, e);
    RetireCop0(Raise(d, e));
    hide ExceptionCop0, Retire, Raise, Bev, Exl;
  }

  // ---------------------------------------------------------------- one step

  /** An instruction that raises an exception does nothing else. */
  lemma ExecuteRaises(m: Machine, w: u32)
    ensures WordCause(m.cpu, w).code < 32
    ensures var r := Execute(m, w);
      r.cpu.exceptions != m.cpu.exceptions ==> r == m.(cpu := Raise(m.cpu, WordCause(m.cpu, w)))
  {
    var i := Decode(w);
    hide Decode, RaiseException, Sext32, ExecCop0, ExecLoadWord, ExecStoreWord, ExecBranch, ExecJump, ExecJumpRegister,
         ExecAddImmediate, WriteGpr, Gpr, Translate, EffectiveAddress, Ctx;
    match i
    case Syscall =>
    case Break =>
    case Reserved =>
    case LoadWord(_, _, _) => LoadRaises(m, i);
    case StoreWord(_, _, _) => StoreRaises(m, i);
    case Cop0(op) => Cop0Raises(m.cpu, op);
    case _ => RegisterRaises(m.cpu, i);
  }

  /** The instructions on registers raise nothing, but for ADDI on overflow. */
  lemma RegisterRaises(s: CpuState, i: Instr)
    ensures i.Branch? ==> ExecBranch(s, i).exceptions == s.exceptions
    ensures i.Jump? ==> ExecJump(s, i).exceptions == s.exceptions
    ensures i.JumpRegister? ==> ExecJumpRegister(s, i).exceptions == s.exceptions
    ensures forall r: Reg, v: u64 :: WriteGpr(s, r, v).exceptions == s.exceptions
    ensures i.AddImmediate? && ExecAddImmediate(s, i).exceptions != s.exceptions ==>
      ExecAddImmediate(s, i) == RaiseException(s, EXC_OV, 0, 0, false)
  {
    hide RaiseException, Sext32, Holds, Signed32;
  }

  lemma StoreRaises(m: Machine, i: Instr)
    requires i.StoreWord?
    ensures var (r, addr) := (ExecStoreWord(m, i), EffectiveAddress(m.cpu, i.rs, i.offset));
      if AccessFaults(m.cpu, addr, true) then r == m.(cpu := Raise(m.cpu, AccessCause(m.cpu, addr, true)))
      else r.cpu.exceptions == m.cpu.exceptions
  {
    hide RaiseException, Write32, Translate, EffectiveAddress, Ctx;
  }

  lemma LoadRaises(m: Machine, i: Instr)
    requires i.LoadWord?
    ensures var (r, addr) := (ExecLoadWord(m, i), EffectiveAddress(m.cpu, i.rs, i.offset));
      if AccessFaults(m.cpu, addr, false) then r == Raise(m.cpu, AccessCause(m.cpu, addr, false))
      else r.exceptions == m.cpu.exceptions
  {
    hide RaiseException, Read32, Translate, EffectiveAddress, Ctx, Sext32;
  }

  lemma Cop0Raises(s: CpuState, op: Cop0Op)
    ensures ExecCop0(s, op).exceptions != s.exceptions ==>
      ExecCop0(s, op) == RaiseException(s, EXC_CPU, 0, 0, false)
  {
    hide RaiseException, Cop0Usable, Sext32, Probe;
  }

  /** A fetch that cannot be made raises what any other load from its address would. */
  lemma FetchRaises(s: CpuState)
    requires AccessFaults(s, s.pc, false)
    ensures AccessCause(s, s.pc, false).code < 32
    ensures FetchFault(s) == Retire(Raise(s.(inDelaySlot := s.branchPending), AccessCause(s, s.pc, false)))
  {
    hide RaiseException, Translate, Retire, Ctx;
    assert Ctx(s.(inDelaySlot := s.branchPending)) == Ctx(s) by { CtxOf(s); }
  }

  lemma CtxOf(s: CpuState)
    ensures Ctx(s.(inDelaySlot := s.branchPending)) == Ctx(s) && Ctx(Dispatch(s)) == Ctx(s)
  {
  }

  /** Precise exceptions: a step that takes one leaves exactly the prescribed state, with the
      cause its own. */
  lemma StepPrecise(m: Machine)
    requires !m.cpu.halted && !m.cpu.inDelaySlot
    requires Step(m).cpu.exceptions != m.cpu.exceptions
    ensures PreciselyTaken(m.cpu, m.mem, Step(m), StepCause(m))
  {
    var s := m.cpu;
    hide Translate, Read32, InterruptPending, PreciselyTaken, Retire, RaiseException, FetchFault, AccessCause,
         WordCause, Ctx, ExecuteWord;
    if TakesInterrupt(s) {
      RaisePrecise(s, s, m.mem, Cause(EXC_INT, 0, false));
    } else if !Fetches(s) {
      FetchRaises(s);
      RaisePrecise(s, s.(inDelaySlot := s.branchPending), m.mem, AccessCause(s, s.pc, false));
    } else {
      WordPrecise(m, FetchedWord(m));
    }
  }

  lemma WordPrecise(m: Machine, w: u32)
    requires ExecuteWord(m, w).cpu.exceptions != m.cpu.exceptions
    ensures PreciselyTaken(m.cpu, m.mem, ExecuteWord(m, w), WordCause(m.cpu, w))
    ensures WordCause(m.cpu, w).code < 32
    ensures ExecuteWord(m, w) == m.(cpu := Retire(Raise(Dispatch(m.cpu), WordCause(m.cpu, w))))
  {
    var d := Dispatch(m.cpu);
    ExecuteRaises(m.(cpu := d), w);
    SameCause(m.cpu, w);
    var r := Execute(m.(cpu := d), w);
    var e := WordCause(m.cpu, w);
    RetireKeeps(Sequence(m.cpu, r.cpu));
    RaiseShape(d, e);
    RaisePrecise(m.cpu, d, m.mem, e);
    hide Execute, PreciselyTaken, Retire, Raise, WordCause, ExceptionCop0;
    assert Raise(d, e).(branchPending := false) == Raise(d, e);
  }

  lemma SameCause(s: CpuState, w: u32)
    ensures WordCause(Dispatch(s), w) == WordCause(s, w)
  {
    CtxOf(s);
    hide Ctx, Translate, Decode;
  }

  // ---------------------------------------------------------------- whole runs

  /** Between steps the delay-slot mark is never set. */
  lemma {:induction false} NeverInDelaySlot(m: Machine, n: nat)
    requires !m.cpu.inDelaySlot
    ensures !Steps(m, n).cpu.inDelaySlot
  {
    hide Step;
    if n > 0 {
      NeverInDelaySlot(m, n - 1);
      var p := Steps(m, n - 1);
      StepCounts(p);
      if p.cpu.halted {
        HaltedStep(p);
      }
    }
  }

  lemma HaltedStep(m: Machine)
    requires m.cpu.halted
    ensures Step(m) == m.(cpu := m.cpu.(cycles := m.cpu.cycles + 1))
  {
  }

  /** A pending branch after a step was opened by that step: the word it executed is a
      branch or jump, and the delay slot follows it. */
  lemma PendingFromBranch(m: Machine)
    requires !m.cpu.halted && Step(m).cpu.branchPending
    ensures ExecutesWord(m) && !m.cpu.branchPending
    ensures IsControlTransfer(Decode(FetchedWord(m)))
    ensures Step(m).cpu.pc == Next(m.cpu.pc)
  {
    var s := m.cpu;
    hide Translate, Read32, InterruptPending, RaiseTranslationFault, Retire, ExceptionCop0, Vector, Execute, Decode;
    if TakesInterrupt(s) {
      RetireKeeps(RaiseException(s, EXC_INT, 0, 0, false));
    } else if !Fetches(s) {
      FaultPending(s);
    } else {
      var w := FetchedWord(m);
      var d := m.(cpu := Dispatch(s));
      RetireKeeps(Sequence(s, Execute(d, w).cpu));
      if !s.branchPending && !IsControlTransfer(Decode(w)) {
        NotInDelaySlot(m, w);
      }
    }
  }

  lemma FaultPending(s: CpuState)
    requires !Fetches(s)
    ensures !FetchFault(s).branchPending
  {
    var d := s.(inDelaySlot := s.branchPending);
    hide Translate, ExceptionCop0, Vector, Retire;
    RetireKeeps(FetchException(d));
  }

  /** In every run, an exception taken in a delay slot reports the branch that opened the
      slot: the word executed one step earlier, at the address EPC names. */
  lemma DelaySlotExceptionNamesItsBranch(m: Machine, n: nat)
    requires !m.cpu.halted && !m.cpu.inDelaySlot && n > 0
    requires var s := Steps(m, n);
      s.cpu.branchPending && !ExlSet(s.cpu) && Step(s).cpu.exceptions != s.cpu.exceptions
    ensures var b, t := Steps(m, n - 1), Step(Steps(m, n));
      && ExecutesWord(b) && IsControlTransfer(Decode(FetchedWord(b)))
      && BdSet(t.cpu) && t.cpu.cop0[COP0_EPC] == b.cpu.pc % TWO_TO_32
  {
    hide Step, Decode, FetchedWord, ExecutesWord;
    NeverInDelaySlot(m, n);
    StepsCount(m, n - 1);
    SlotException(Steps(m, n - 1));
  }

  lemma SlotException(b: Machine)
    requires !b.cpu.halted
    requires var s := Step(b);
      s.cpu.branchPending && !s.cpu.inDelaySlot && !ExlSet(s.cpu) && Step(s).cpu.exceptions != s.cpu.exceptions
    ensures var t := Step(Step(b));
      && ExecutesWord(b) && IsControlTransfer(Decode(FetchedWord(b)))
      && BdSet(t.cpu) && t.cpu.cop0[COP0_EPC] == b.cpu.pc % TWO_TO_32
  {
    StepCounts(b);
    hide Step, Decode, FetchedWord, ExecutesWord;
    PendingFromBranch(b);
    StepPrecise(Step(b));
    BackToBranch(b.cpu.pc);
  }

  lemma BackToBranch(pc: u64)
    ensures (Next(pc) + TWO_TO_32 - 4) % TWO_TO_32 == pc % TWO_TO_32
  {
    var q, r := pc / 0x1_0000_0000, pc % 0x1_0000_0000;
    if pc + 4 < TWO_TO_64 {
      DivMod(pc + 0x1_0000_0000, 0x1_0000_0000, q + 1, r);
    } else {
      assert q == 0xFFFF_FFFF;
      assert Next(pc) == pc + 4 - TWO_TO_64;
      DivMod(Next(pc) + 0x1_0000_0000 - 4, 0x1_0000_0000, 0, r);
    }
  }

  // ---------------------------------------------------------------- returning from a handler

  /** The word a step executes writes EPC by MTC0 or DMTC0. */
  predicate WritesEpc(m: Machine) {
    ExecutesWord(m) &&
    match Decode(FetchedWord(m))
    case Cop0(MoveTo(_, rd)) => rd == COP0_EPC
    case _ => false
  }

  /** While EXL stays set and no move writes it, EPC keeps its value. */
  lemma EpcKept(m: Machine)
    requires ExlSet(m.cpu) && !m.cpu.inDelaySlot && !WritesEpc(m)
    ensures Step(m).cpu.cop0[COP0_EPC] == m.cpu.cop0[COP0_EPC]
  {
    if m.cpu.halted {
      HaltedStep(m);
    } else {
      NoFetchIsException(m);
      if Step(m).cpu.exceptions != m.cpu.exceptions {
        StepPrecise(m);
      } else {
        WordKeepsEpc(m);
      }
    }
  }

  /** A step that executes no word is an exception. */
  lemma NoFetchIsException(m: Machine)
    requires !m.cpu.halted
    ensures !ExecutesWord(m) ==> Step(m).cpu.exceptions == m.cpu.exceptions + 1
  {
    hide Translate, Read32, InterruptPending, ExecuteWord, Retire, RaiseException, FetchException;
    RaiseAdds(m.cpu, EXC_INT, 0, 0, false);
    RetireCop0(RaiseException(m.cpu, EXC_INT, 0, 0, false));
    if !Fetches(m.cpu) {
      var d := m.cpu.(inDelaySlot := m.cpu.branchPending);
      FetchAdds(d);
      RetireCop0(FetchException(d));
    }
  }

  lemma WordKeepsEpc(m: Machine)
    requires ExecutesWord(m) && !WritesEpc(m)
    requires Step(m).cpu.exceptions == m.cpu.exceptions
    ensures Step(m).cpu.cop0[COP0_EPC] == m.cpu.cop0[COP0_EPC]
  {
    hide Translate, Read32, InterruptPending, Execute, Retire;
    var d := m.(cpu := Dispatch(m.cpu));
    var w := FetchedWord(m);
    hide FetchedWord;
    RetireCop0(Sequence(m.cpu, Execute(d, w).cpu));
    ExecuteKeepsEpc(d, w);
  }

  lemma RaiseAdds(s: CpuState, code: nat, bad: u64, ce: nat, refill: bool)
    ensures RaiseException(s, code, bad, ce, refill).exceptions == s.exceptions + 1
  {
  }

  lemma FetchAdds(s: CpuState)
    requires !Fetches(s)
    ensures FetchException(s).exceptions == s.exceptions + 1
  {
    hide ExceptionCop0, Vector, Translate;
  }

  lemma ExecuteKeepsEpc(m: Machine, w: u32)
    requires Execute(m, w).cpu.exceptions == m.cpu.exceptions
    requires match Decode(w) case Cop0(MoveTo(_, rd)) => rd != COP0_EPC case _ => true
    ensures Execute(m, w).cpu.cop0[COP0_EPC] == m.cpu.cop0[COP0_EPC]
  {
    var s := m.cpu;
    var i := Decode(w);
    hide Decode, Translate, Read32, Write32, Ctx, ExceptionCop0, Vector, Holds, Sext32, ExecCop0;
    match i
    case LoadWord(_, _, _) =>
    case StoreWord(_, _, _) =>
    case Cop0(op) => Cop0KeepsEpc(s, op);
    case _ =>
  }

  lemma Cop0KeepsEpc(s: CpuState, op: Cop0Op)
    requires ExecCop0(s, op).exceptions == s.exceptions && (op.MoveTo? ==> op.rd != COP0_EPC)
    ensures ExecCop0(s, op).cop0[COP0_EPC] == s.cop0[COP0_EPC]
  {
    hide ExceptionCop0, Vector, Cop0Usable, Sext32, Probe;
  }

  /** EPC survives any stretch of a handler that leaves EXL set and does not write it. */
  lemma {:induction false} EpcSurvivesHandler(m: Machine, n: nat)
    requires !m.cpu.inDelaySlot
    requires forall k :: 0 <= k < n ==> ExlSet(Steps(m, k).cpu) && !WritesEpc(Steps(m, k))
    ensures Steps(m, n).cpu.cop0[COP0_EPC] == m.cpu.cop0[COP0_EPC]
  {
    hide Step, WritesEpc;
    if n > 0 {
      EpcSurvivesHandler(m, n - 1);
      NeverInDelaySlot(m, n - 1);
      EpcKept(Steps(m, n - 1));
    }
  }

  predicate ReturnsFromException(m: Machine) {
    ExecutesWord(m) && !m.cpu.branchPending && Cop0Usable(m.cpu) && Decode(FetchedWord(m)) == Cop0(ExceptionReturn)
  }

  lemma EretResumes(m: Machine)
    requires ReturnsFromException(m) && !Erl(m.cpu.cop0[COP0_STATUS])
    ensures Step(m).cpu.pc == m.cpu.cop0[COP0_EPC]
    ensures !ExlSet(Step(m).cpu) && !Step(m).cpu.branchPending
  {
    EretWord(m, FetchedWord(m));
    hide Decode, FetchedWord, Translate, InterruptPending, ExecuteWord, Cop0Usable;
  }

  lemma EretWord(m: Machine, w: u32)
    requires !m.cpu.branchPending && Cop0Usable(m.cpu) && Decode(w) == Cop0(ExceptionReturn)
    requires !Erl(m.cpu.cop0[COP0_STATUS])
    ensures var r := ExecuteWord(m, w).cpu;
      r.pc == m.cpu.cop0[COP0_EPC] && !ExlSet(r) && !r.branchPending
  {
    var d := m.(cpu := Dispatch(m.cpu));
    assert Cop0Usable(d.cpu);
    assert Execute(d, w).cpu == DoEret(d.cpu);
    RetireKeeps(Sequence(m.cpu, DoEret(d.cpu)));
    hide Decode, Execute, Retire, Mode;
    if Exl(d.cpu.cop0[COP0_STATUS]) {
      ExlCleared(d.cpu.cop0[COP0_STATUS]);
    }
  }

  lemma ExlCleared(sr: u32)
    requires Exl(sr)
    ensures !Exl(sr - 2)
  {
  }

  /** The address an exception interrupts: the instruction, or the branch of its delay slot. */
  function Interrupted(s: CpuState): u64 {
    if s.branchPending then (s.pc + TWO_TO_64 - 4) % TWO_TO_64 else s.pc
  }

  /** After an exception taken with EXL clear, any handler that keeps EXL set, leaves EPC alone and
      ends in ERET with ERL clear continues at the low word of the interrupted address, which is
      the interrupted address itself if and only if that is below 2^32: EPC holds 32 bits and
      ERET does not sign-extend it. */
  lemma HandlerReturns(m: Machine, n: nat)
    requires !m.cpu.halted && !m.cpu.inDelaySlot && !ExlSet(m.cpu)
    requires Step(m).cpu.exceptions != m.cpu.exceptions
    requires forall k :: 0 <= k < n ==> ExlSet(Steps(Step(m), k).cpu) && !WritesEpc(Steps(Step(m), k))
    requires var e := Steps(Step(m), n); ReturnsFromException(e) && !Erl(e.cpu.cop0[COP0_STATUS])
    ensures Step(Steps(Step(m), n)).cpu.pc == Interrupted(m.cpu) % TWO_TO_32
    ensures Step(Steps(Step(m), n)).cpu.pc == Interrupted(m.cpu) <==> Interrupted(m.cpu) < TWO_TO_32
  {
    ResumePoint(m);
    LowOfInterrupted(m.cpu);
    hide Step, Steps, WritesEpc, ReturnsFromException, Interrupted;
    EpcSurvivesHandler(Step(m), n);
    EretResumes(Steps(Step(m), n));
    LowWord(Interrupted(m.cpu));
  }

  lemma LowWord(x: u64)
    ensures x % TWO_TO_32 == x <==> x < TWO_TO_32
  {
  }

  lemma LowOfInterrupted(s: CpuState)
    ensures (if s.branchPending then s.pc + TWO_TO_32 - 4 else s.pc) % TWO_TO_32 == Interrupted(s) % TWO_TO_32
  {
    if s.branchPending {
      var back := s.pc + 0x1_0000_0000_0000_0000 - 4;
      var hi, lo := back / 0x1_0000_0000, back % 0x1_0000_0000;
      assert s.pc + 0x1_0000_0000 - 4 == 0x1_0000_0000 * (hi - 0xFFFF_FFFF) + lo;
      DivMod(s.pc + 0x1_0000_0000 - 4, 0x1_0000_0000, hi - 0xFFFF_FFFF, lo);
      if s.pc >= 4 {
        DivMod(s.pc - 4, 0x1_0000_0000, hi - 0x1_0000_0000, lo);
      }
    }
  }

  lemma ResumePoint(m: Machine)
    requires !m.cpu.halted && !m.cpu.inDelaySlot && !ExlSet(m.cpu)
    requires Step(m).cpu.exceptions != m.cpu.exceptions
    ensures !Step(m).cpu.inDelaySlot
    ensures Step(m).cpu.cop0[COP0_EPC] ==
      (if m.cpu.branchPending then m.cpu.pc + TWO_TO_32 - 4 else m.cpu.pc) % TWO_TO_32
  {
    StepCounts(m);
    hide Step;
    StepPrecise(m);
  }

  // ---------------------------------------------------------------- a return that is not one

  /** SYSCALL at the sign-extended KSEG0 address, as a jump through a register loaded with LUI
      reaches it; the handler at the general vector is a lone ERET. */
  predicate HighCaller(m: Machine) {
    && !m.cpu.halted && !m.cpu.branchPending && !m.cpu.inDelaySlot && m.cpu.pc == 0xFFFF_FFFF_8000_0000
    && m.cpu.cop0[COP0_STATUS] == 0x3400_0000
    && Read32(m.mem, 0) == 0x0000_000C && Read32(m.mem, 0x180) == 0x4200_0018
  }

  /** Such a program does not return to where it was interrupted. */
  lemma HighCallerLost(m: Machine)
    requires HighCaller(m)
    ensures Step(m).cpu.exceptions == m.cpu.exceptions + 1
    ensures Step(Step(m)).cpu.pc == 0x8000_0000 != Interrupted(m.cpu)
  {
    HighSyscall(m);
    var t := Step(m);
    hide HighCaller, Step;
    HighEret(t);
    StepsNone(t);
    HandlerReturns(m, 0);
  }

  lemma StepsNone(m: Machine)
    ensures Steps(m, 0) == m
  {
  }

  lemma HighSyscall(m: Machine)
    requires HighCaller(m)
    ensures !ExlSet(m.cpu) && !m.cpu.halted && !m.cpu.inDelaySlot && Interrupted(m.cpu) == 0xFFFF_FFFF_8000_0000
    ensures var t := Step(m);
      && t.cpu.exceptions == m.cpu.exceptions + 1 && t.cpu.pc == 0x8000_0180 && !t.cpu.branchPending && !t.cpu.halted
      && t.cpu.cop0[COP0_STATUS] == 0x3400_0002 && Read32(t.mem, 0x180) == 0x4200_0018
  {
    hide Read32, Decode, Fetches, FetchedWord, TakesInterrupt, Ctx, ExecuteWord, Translate, TakeInterrupt,
         FetchFault, Exl;
    SyscallDecodes();
    QuietKernel(m.cpu);
    DirectFetch(m, 0);
    SyscallStep(m, 0x0000_000C);
  }

  lemma SyscallDecodes()
    ensures Decode(0x0000_000C) == Syscall
  {
  }

  lemma QuietKernel(s: CpuState)
    requires s.cop0[COP0_STATUS] == 0x3400_0000
    ensures !TakesInterrupt(s) && Mode(s.cop0[COP0_STATUS]) == 0 && !Exl(s.cop0[COP0_STATUS])
  {
  }

  /** In KSEG0 and kernel mode the word at a physical address is fetched. */
  lemma DirectFetch(m: Machine, p: nat)
    requires Mode(m.cpu.cop0[COP0_STATUS]) == 0 && m.cpu.pc % TWO_TO_32 == 0x8000_0000 + p && p < 0x1000 && p % 4 == 0
    requires m.cpu.pc % 4 == 0
    ensures Fetches(m.cpu) && FetchedWord(m) == Read32(m.mem, p)
  {
    hide Read32, Translate, Ctx, Mode;
    KernelDirect(m.cpu, m.cpu.pc);
  }

  lemma SyscallStep(m: Machine, w: u32)
    requires Decode(w) == Syscall && m.cpu.cop0[COP0_STATUS] == 0x3400_0000 && !m.cpu.halted
    ensures var t := ExecuteWord(m, w);
      && t.cpu.exceptions == m.cpu.exceptions + 1 && t.cpu.pc == 0x8000_0180 && !t.cpu.branchPending && !t.cpu.halted
      && t.cpu.cop0[COP0_STATUS] == 0x3400_0002 && t.mem == m.mem
  {
    var d := m.(cpu := Dispatch(m.cpu));
    hide Execute, Retire, Decode;
    SyscallTaken(d, w);
    RetireKeeps(Sequence(m.cpu, Execute(d, w).cpu));
  }

  lemma SyscallTaken(d: Machine, w: u32)
    requires Decode(w) == Syscall && d.cpu.cop0[COP0_STATUS] == 0x3400_0000
    ensures var r := Execute(d, w);
      && r.mem == d.mem && r.cpu.exceptions == d.cpu.exceptions + 1 && r.cpu.pc == 0x8000_0180 && !r.cpu.branchPending
      && r.cpu.halted == d.cpu.halted && r.cpu.cop0[COP0_STATUS] == 0x3400_0002
  {
    hide Decode, CauseCode, CauseBd;
  }

  lemma KernelDirect(s: CpuState, pc: u64)
    requires Mode(s.cop0[COP0_STATUS]) == 0 && DirectSegment(pc % TWO_TO_32)
    ensures Translate(Ctx(s), pc, false) == Mapped(pc % TWO_TO_32 % 0x2000_0000)
  {
    hide FirstMatch, Mode;
  }

  lemma HighEret(t: Machine)
    requires t.cpu.pc == 0x8000_0180 && !t.cpu.branchPending && !t.cpu.halted
    requires t.cpu.cop0[COP0_STATUS] == 0x3400_0002 && Read32(t.mem, 0x180) == 0x4200_0018
    ensures ReturnsFromException(t) && !Erl(t.cpu.cop0[COP0_STATUS])
  {
    var w: u32 := 0x4200_0018;
    assert Decode(w) == Cop0(ExceptionReturn);
    hide Read32, Decode, Fetches, FetchedWord;
    DirectFetch(t, 0x180);
    assert Exl(t.cpu.cop0[COP0_STATUS]) && !Erl(t.cpu.cop0[COP0_STATUS]);
  }

  /** Such a machine exists. */
  lemma HighCallerExists() returns (m: Machine)
    ensures HighCaller(m)
  {
    var ram: seq<u8> :=
      seq(0x184, i => if i == 3 then 0x0C else if i == 0x180 then 0x42 else if i == 0x183 then 0x18 else 0);
    var s := ResetState();
    m := Machine(s.(pc := 0xFFFF_FFFF_8000_0000, cop0 := s.cop0[COP0_STATUS := 0x3400_0000]), Memory(ram, [], []));
    HighRam(m.mem);
    hide Read32;
  }

  lemma HighRam(m: Memory)
    requires |m.ram| == 0x184 && m.ram[0] == m.ram[1] == m.ram[2] == 0 && m.ram[3] == 0x0C
    requires m.ram[0x180] == 0x42 && m.ram[0x181] == m.ram[0x182] == 0 && m.ram[0x183] == 0x18
    ensures Read32(m, 0) == 0x0000_000C && Read32(m, 0x180) == 0x4200_0018
  {
    LowIndex(m, 0, 4);
    LowIndex(m, 0x180, 4);
    hide Physical, Read8;
  }
}
