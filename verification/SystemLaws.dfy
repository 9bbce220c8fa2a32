/** What the system coprocessor does to a machine: when an interrupt is taken, which bits of each
    register a move writes, and what travels between the registers and the TLB. */
module SystemLaws {
  import opened Words
  import opened Bits
  import opened Translation
  import opened PhysicalMemory
  import opened Blocks
  import opened Processor
  import opened Coherence
  import opened Exceptions
  import opened InstructionLaws

  // ---------------------------------------------------------------- modes and reset

  /** Addresses mean what the TLB, the low byte of EntryHi and the mode make of them: kernel mode
      while EXL or ERL is set, and otherwise bits 3 and 4 of Status as a number. */
  lemma ContextMeans(s: CpuState)
    ensures var (c, sr) := (Ctx(s), s.cop0[COP0_STATUS]);
      && c.tlb == s.tlb && c.asid == s.cop0[COP0_ENTRY_HI] % 0x100
      && c.mode == if Bit(sr, 1) || Bit(sr, 2) then 0 else (if Bit(sr, 3) then 1 else 0) + (if Bit(sr, 4) then 2 else 0)
  {
    var sr := s.cop0[COP0_STATUS];
    StatusBitsMean(sr);
    BitAt(sr, 3, 8);
    BitAt(sr, 4, 0x10);
    TwoBits(sr / 8);
    assert sr / 0x10 == sr / 8 / 2;
    hide Bit;
  }

  lemma TwoBits(x: nat)
    ensures x % 4 == (if x % 2 == 1 then 1 else 0) + (if x / 2 % 2 == 1 then 2 else 0)
  {
  }

  /** The first word executed after reset is the first word of the boot ROM. */
  lemma BootsFromRom(mem: Memory)
    ensures var m := Machine(ResetState(), mem);
      && ExecutesWord(m) && FetchedWord(m) == WordAt(mem, 0x1FC0_0000)
      && !m.cpu.branchPending && Usable(m.cpu.cop0[COP0_STATUS])
  {
    var m := Machine(ResetState(), mem);
    var c := Ctx(m.cpu);
    ResetFetch(m.cpu);
    DirectTranslation(c, 0xBFC0_0000, false);
    ReadsFourBytes(c, mem, 0xBFC0_0000, false);
    UsableMeans(m.cpu);
    hide Translate, Read32, WordAt, Usable, Read8;
  }

  lemma ResetFetch(s: CpuState)
    requires s == ResetState()
    ensures s.pc == 0xBFC0_0000 && Ctx(s).mode == 0 && !TakesInterrupt(s) && Cop0Usable(s)
    ensures !s.halted && !s.branchPending
  {
  }

  // ---------------------------------------------------------------- interrupts

  /** Interrupts are enabled, no exception or error is being served, and one of the eight is both
      pending in Cause and unmasked in Status. */
  predicate Interrupts(s: CpuState) {
    var (status, cause) := (s.cop0[COP0_STATUS], s.cop0[COP0_CAUSE]);
    Bit(status, 0) && !Bit(status, 1) && !Bit(status, 2) && SomeUnmasked(cause, status)
  }

  predicate SomeUnmasked(cause: u32, status: u32) {
    exists k :: 8 <= k < 16 && Bit(cause, k) && Bit(status, k)
  }

  lemma FieldBits(x: u32, k: nat)
    requires k < 8
    ensures Bit(x / 0x100 % 0x100, k) <==> Bit(x, k + 8)
  {
    PowersOfTwo();
    hide Pow2, Bit;
    SplitBits(8, 0x100, x / 0x100, x % 0x100, x, k);
    SplitBits(8, 0x100, x / 0x100 / 0x100, x / 0x100 % 0x100, x / 0x100, k);
  }

  lemma StatusBitsMean(x: u32)
    ensures Bit(x, 0) <==> x % 2 == 1
    ensures Bit(x, 1) <==> Exl(x)
    ensures Bit(x, 2) <==> Erl(x)
  {
    BitNext(x, 0);
    BitNext(x, 1);
    BitNext(x / 2, 0);
    assert x / 2 / 2 == x / 4;
  }

  lemma InterruptMeans(s: CpuState)
    ensures InterruptPending(s) <==> Interrupts(s)
  {
    hide Exl, Erl, And, SomeUnmasked;
    StatusBitsMean(s.cop0[COP0_STATUS]);
    PendingAndUnmasked(s.cop0[COP0_CAUSE], s.cop0[COP0_STATUS]);
  }

  lemma PendingAndUnmasked(cause: u32, status: u32)
    ensures And(cause / 0x100 % 0x100, status / 0x100 % 0x100) != 0 <==> SomeUnmasked(cause, status)
  {
    var a, b := cause / 0x100 % 0x100, status / 0x100 % 0x100;
    assert Pow2(8) == 0x100 by { assert Pow2(4) == 16; }
    hide Bit, And, Pow2;
    if And(a, b) != 0 {
      var k := SomeBit(And(a, b), 8);
      AndBit(a, b, k);
      FieldBits(cause, k);
      FieldBits(status, k);
      assert 8 <= k + 8 < 16 && Bit(cause, k + 8) && Bit(status, k + 8);
    }
    if SomeUnmasked(cause, status) {
      var k: nat :| 8 <= k < 16 && Bit(cause, k) && Bit(status, k);
      FieldBits(cause, k - 8);
      FieldBits(status, k - 8);
      AndBit(a, b, k - 8);
      NoBit(k - 8);
    }
  }

  /** A step takes an interrupt exactly then, and never between a branch and its slot; otherwise
      what it does is up to the word at the program counter. */
  lemma InterruptTaken(m: Machine)
    requires !m.cpu.halted && !m.cpu.inDelaySlot
    ensures !m.cpu.branchPending && Interrupts(m.cpu) ==> PreciselyTaken(m.cpu, m.mem, Step(m), Cause(0, 0, false))
    ensures m.cpu.branchPending || !Interrupts(m.cpu) ==>
      Step(m) == if Fetches(m.cpu) then ExecuteWord(m, FetchedWord(m)) else m.(cpu := FetchFault(m.cpu))
  {
    InterruptMeans(m.cpu);
    hide InterruptPending, Interrupts, ExecuteWord, FetchFault, Fetches, FetchedWord, PreciselyTaken, Retire;
    if TakesInterrupt(m.cpu) {
      RaisePrecise(m.cpu, m.cpu, m.mem, Cause(EXC_INT, 0, false));
    }
  }

  // ---------------------------------------------------------------- the bits a move writes

  /** Bit `k` of register `rd` takes what is moved there. */
  predicate Writable(rd: Reg, k: nat) {
    match rd
    case 0 => k < 5 || k == 31
    case 1 => false
    case 2 => k < 30
    case 3 => k < 30
    case 4 => k >= 23
    case 5 => 13 <= k < 25
    case 6 => k < 5
    case 10 => k < 8 || k >= 13
    case 13 => k == 8 || k == 9
    case 15 => false
    case _ => true
  }

  /** It keeps its value instead; where it does neither, it becomes zero. */
  predicate Kept(rd: Reg, k: nat) {
    rd == 1 || rd == 15 || (rd == 4 && 4 <= k < 23) || (rd == 13 && k != 8 && k != 9)
  }

  /** What the bits of a register are after a move to it. */
  predicate Moved(rd: Reg, was: u32, v: u32, now: u32) {
    forall k | 0 <= k < 32 :: Bit(now, k) <==> (Writable(rd, k) && Bit(v, k)) || (Kept(rd, k) && Bit(was, k))
  }

  lemma IndexMoved(v: u32, k: nat)
    requires k < 32
    ensures Bit(IndexBits(v), k) <==> (k < 5 || k == 31) && Bit(v, k)
  {
    PowersOfTwo();
    hide Bit, Pow2;
    FieldsBit(31, 0x8000_0000, v / 0x8000_0000, v % 32, IndexBits(v), k);
    SplitBits(5, 32, v / 32, v % 32, v, k);
    if k == 31 {
      SplitBits(31, 0x8000_0000, v / 0x8000_0000, v % 0x8000_0000, v, 0);
    }
  }

  lemma LowMoved(v: u32, k: nat)
    requires k < 32
    ensures Bit(EntryLoBits(v), k) <==> k < 30 && Bit(v, k)
    ensures Bit(WiredBits(v), k) <==> k < 5 && Bit(v, k)
  {
    PowersOfTwo();
    hide Bit, Pow2;
    SplitBits(30, 0x4000_0000, v / 0x4000_0000, v % 0x4000_0000, v, k);
    SplitBits(5, 32, v / 32, v % 32, v, k);
  }

  lemma PageMaskMoved(v: u32, k: nat)
    requires k < 32
    ensures Bit(PageMaskBits(v), k) <==> 13 <= k < 25 && Bit(v, k)
  {
    PowersOfTwo();
    hide Bit, Pow2;
    var q := v / 0x2000;
    FieldsBit(13, 0x2000, q % 0x1000, 0, PageMaskBits(v), k);
    if k < 13 {
      NoBit(k);
    } else {
      SplitBits(12, 0x1000, q / 0x1000, q % 0x1000, q, k - 13);
      SplitBits(13, 0x2000, q, v % 0x2000, v, k - 13);
    }
  }

  lemma EntryHiMoved(v: u32, k: nat)
    requires k < 32
    ensures Bit(EntryHiBits(v), k) <==> (k < 8 || k >= 13) && Bit(v, k)
  {
    PowersOfTwo();
    hide Bit, Pow2;
    FieldsBit(13, 0x2000, v / 0x2000, v % 0x100, EntryHiBits(v), k);
    SplitBits(8, 0x100, v / 0x100, v % 0x100, v, k);
    if k >= 13 {
      SplitBits(13, 0x2000, v / 0x2000, v % 0x2000, v, k - 13);
    }
  }

  lemma ContextMoved(was: u32, v: u32, k: nat)
    requires k < 32
    ensures Bit(ContextBits(was, v), k) <==> if k >= 23 then Bit(v, k) else k >= 4 && Bit(was, k)
  {
    PowersOfTwo();
    hide Bit, Pow2;
    var low := was % 0x80_0000;
    FieldsBit(23, 0x80_0000, v / 0x80_0000, low / 0x10 * 0x10, ContextBits(was, v), k);
    if k >= 23 {
      SplitBits(23, 0x80_0000, v / 0x80_0000, v % 0x80_0000, v, k - 23);
    } else {
      SplitBits(23, 0x80_0000, was / 0x80_0000, low, was, k);
      FieldsBit(4, 0x10, low / 0x10, 0, low / 0x10 * 0x10, k);
      if k < 4 {
        NoBit(k);
      } else {
        SplitBits(4, 0x10, low / 0x10, low % 0x10, low, k - 4);
      }
    }
  }

  lemma CauseMoved(was: u32, v: u32, k: nat)
    requires k < 32
    ensures Bit(SoftwareCause(was, v), k) <==> if k == 8 || k == 9 then Bit(v, k) else Bit(was, k)
  {
    PowersOfTwo();
    hide Bit, Pow2;
    var mid := v / 0x100 % 4;
    CauseParts(was, v);
    FieldsBit(10, 0x400, was / 0x400, mid * 0x100 + was % 0x100, SoftwareCause(was, v), k);
    if k >= 10 {
      SplitBits(10, 0x400, was / 0x400, was % 0x400, was, k - 10);
    } else {
      FieldsBit(8, 0x100, mid, was % 0x100, mid * 0x100 + was % 0x100, k);
      if k < 8 {
        SplitBits(8, 0x100, was / 0x100, was % 0x100, was, k);
      } else {
        Four();
        SplitBits(2, 4, v / 0x400, mid, v / 0x100, k - 8);
        SplitBits(8, 0x100, v / 0x100, v % 0x100, v, k - 8);
      }
    }
  }

  lemma Four()
    ensures Pow2(2) == 4
  {
  }

  lemma CauseParts(was: u32, v: u32)
    ensures SoftwareCause(was, v) == 0x400 * (was / 0x400) + (v / 0x100 % 4 * 0x100 + was % 0x100)
    ensures v / 0x100 == 4 * (v / 0x400) + v / 0x100 % 4
  {
    DivMod(was, 0x400, was / 0x400, was / 0x100 % 4 * 0x100 + was % 0x100);
    DivMod(v, 0x400, v / 0x100 / 4, v / 0x100 % 4 * 0x100 + v % 0x100);
  }

  lemma MovedBit(s: CpuState, rd: Reg, v: u32, k: nat)
    requires k < 32
    ensures Bit(SetCop0(s, rd, v).cop0[rd], k) <==>
      (Writable(rd, k) && Bit(v, k)) || (Kept(rd, k) && Bit(s.cop0[rd], k))
  {
    hide Bit, IndexBits, EntryLoBits, WiredBits, PageMaskBits, EntryHiBits, ContextBits, SoftwareCause;
    match rd
    case 0 => IndexMoved(v, k);
    case 2 => LowMoved(v, k);
    case 3 => LowMoved(v, k);
    case 4 => ContextMoved(s.cop0[rd], v, k);
    case 5 => PageMaskMoved(v, k);
    case 6 => LowMoved(v, k);
    case 10 => EntryHiMoved(v, k);
    case 13 => CauseMoved(s.cop0[rd], v, k);
    case _ =>
  }

  /** Every register takes its writable bits, keeps its read-only ones and drops the rest; no other
      changes, but Random with Wired and the timer's bit in Cause with Compare. */
  lemma SetMoves(s: CpuState, rd: Reg, v: u32)
    ensures Moved(rd, s.cop0[rd], v, SetCop0(s, rd, v).cop0[rd])
    ensures forall i | 0 <= i < 32 && i != rd && !(rd == COP0_WIRED && i == COP0_RANDOM)
              && !(rd == COP0_COMPARE && i == COP0_CAUSE) :: SetCop0(s, rd, v).cop0[i] == s.cop0[i]
    ensures rd == COP0_WIRED ==> SetCop0(s, rd, v).cop0[COP0_RANDOM] == 31
    ensures rd == COP0_COUNT ==> SetCop0(s, rd, v).cop0[COP0_COUNT] == v
    ensures rd == COP0_COMPARE ==> SetCop0(s, rd, v).cop0[COP0_CAUSE] == TimerAcknowledged(s.cop0[COP0_CAUSE])
    ensures SetCop0(s, rd, v) == s.(cop0 := SetCop0(s, rd, v).cop0)
  {
    hide Bit, IndexBits, EntryLoBits, WiredBits, PageMaskBits, EntryHiBits, ContextBits, SoftwareCause, Writable, Kept,
         TimerAcknowledged;
    forall k | 0 <= k < 32
      ensures Bit(SetCop0(s, rd, v).cop0[rd], k) <==>
        (Writable(rd, k) && Bit(v, k)) || (Kept(rd, k) && Bit(s.cop0[rd], k))
    {
      MovedBit(s, rd, v, k);
    }
  }

  // ---------------------------------------------------------------- moves

  /** Kernel mode, which an exception or error implies, or the enabling bit in Status. */
  predicate Usable(status: u32) {
    Bit(status, 1) || Bit(status, 2) || (!Bit(status, 3) && !Bit(status, 4)) || Bit(status, 28)
  }

  lemma UsableMeans(s: CpuState)
    ensures Cop0Usable(s) <==> Usable(s.cop0[COP0_STATUS])
  {
    var sr := s.cop0[COP0_STATUS];
    StatusBitsMean(sr);
    ModeBits(sr);
    hide Bit;
  }

  lemma ModeBits(x: u32)
    ensures x / 8 % 4 == 0 <==> !Bit(x, 3) && !Bit(x, 4)
    ensures Bit(x, 28) <==> x / 0x1000_0000 % 2 == 1
  {
    hide Bit, Pow2;
    BitAt(x, 3, 8);
    BitAt(x, 4, 0x10);
    BitAt(x, 28, 0x1000_0000);
    assert x / 0x10 == x / 8 / 2;
  }

  /** A bit is the parity of a quotient. */
  lemma BitAt(x: nat, n: nat, p: nat)
    requires (n == 3 && p == 8) || (n == 4 && p == 0x10) || (n == 15 && p == 0x8000) || (n == 28 && p == 0x1000_0000)
    ensures Bit(x, n) <==> x / p % 2 == 1
  {
    PowersOfTwo();
    hide Bit, Pow2;
    SplitBits(n, p, x / p, x % p, x, 0);
    BitNext(x / p, 0);
  }

  lemma DecodesCop0(w: u32)
    requires Op(w) == 0x10
    ensures Rs(w) == 0x00 ==> Decode(w) == Cop0(MoveFrom(Rt(w), Rd(w)))
    ensures Rs(w) == 0x01 ==> Decode(w) == Cop0(MoveFromDouble(Rt(w), Rd(w)))
    ensures Rs(w) == 0x04 || Rs(w) == 0x05 ==> Decode(w) == Cop0(MoveTo(Rt(w), Rd(w)))
    ensures Rs(w) == 0x10 && Fn(w) == 0x01 ==> Decode(w) == Cop0(TlbRead)
    ensures Rs(w) == 0x10 && Fn(w) == 0x02 ==> Decode(w) == Cop0(TlbWriteIndexed)
    ensures Rs(w) == 0x10 && Fn(w) == 0x06 ==> Decode(w) == Cop0(TlbWriteRandom)
    ensures Rs(w) == 0x10 && Fn(w) == 0x08 ==> Decode(w) == Cop0(TlbProbe)
    ensures Rs(w) == 0x10 && Fn(w) == 0x18 ==> Decode(w) == Cop0(ExceptionReturn)
    ensures Decode(w).Cop0?
  {
    hide Op, Rs, Rt, Rd, Fn;
  }

  /** Outside kernel mode without the bit, every coprocessor word raises Coprocessor Unusable. */
  lemma Unusable(m: Machine, rs: Reg, rt: Reg, rd: Reg, sa: Reg, fn: nat)
    requires fn < 64 && Executes(m, RType(0x10, rs, rt, rd, sa, fn)) && !m.cpu.inDelaySlot
    requires !Usable(m.cpu.cop0[COP0_STATUS])
    ensures PreciselyTaken(m.cpu, m.mem, Step(m), Cause(11, 0, false))
  {
    hide RType, Op, Rs, Rt, Rd, Fn, Usable, PreciselyTaken, Step, Executes;
    var w := RType(0x10, rs, rt, rd, sa, fn);
    RTypeFields(0x10, rs, rt, rd, sa, fn);
    DecodesCop0(w);
    UsableMeans(m.cpu);
    hide Decode, Cop0Usable;
    UnusableStep(m, w);
  }

  lemma UnusableStep(m: Machine, w: u32)
    requires Executes(m, w) && Decode(w).Cop0? && !Cop0Usable(m.cpu) && !m.cpu.inDelaySlot
    ensures PreciselyTaken(m.cpu, m.mem, Step(m), Cause(EXC_CPU, 0, false))
  {
    hide Decode, RaiseException, PreciselyTaken, Step, Executes;
    RaisingStep(m, w, Cause(EXC_CPU, 0, false));
  }

  /** MFC0 and DMFC0 read the register as it is before the step, sign- and zero-extended. */
  lemma MovesFrom(m: Machine, rs: Reg, rt: Reg, rd: Reg, sa: Reg, fn: nat)
    requires rs in {0x00, 0x01} && fn < 64 && Executes(m, RType(0x10, rs, rt, rd, sa, fn))
    requires Usable(m.cpu.cop0[COP0_STATUS])
    ensures rs == 0x00 ==> Writes(m, Step(m), rt, m.cpu.cop0[rd])
    ensures rs == 0x01 ==>
      Quiet(m, Step(m)) && Flows(m, Step(m)) && Step(m).cpu.gpr == m.cpu.gpr[rt := m.cpu.cop0[rd]][0 := 0]
  {
    hide RType, Op, Rs, Rt, Rd, Fn, Usable, Step, Executes, Writes;
    var w := RType(0x10, rs, rt, rd, sa, fn);
    RTypeFields(0x10, rs, rt, rd, sa, fn);
    DecodesCop0(w);
    UsableMeans(m.cpu);
    hide Decode, Cop0Usable, Quiet, Flows;
    MoveFromStep(m, w, rt, rd, rs == 0x01);
  }

  lemma MoveFromStep(m: Machine, w: u32, rt: Reg, rd: Reg, double: bool)
    requires Executes(m, w) && Cop0Usable(m.cpu)
    requires Decode(w) == Cop0(if double then MoveFromDouble(rt, rd) else MoveFrom(rt, rd))
    ensures !double ==> Writes(m, Step(m), rt, m.cpu.cop0[rd])
    ensures double ==>
      Quiet(m, Step(m)) && Flows(m, Step(m)) && Step(m).cpu.gpr == m.cpu.gpr[rt := m.cpu.cop0[rd]][0 := 0]
  {
    hide Decode, Step, Executes, Cop0Usable, Writes, Sext32;
    assert Cop0Usable(Dispatch(m.cpu)) by { DispatchUsable(m.cpu); }
    if double {
      StepOf(m, w);
    } else {
      WriteStep(m, w, rt, m.cpu.cop0[rd], m.cpu.cop0[rd]);
    }
  }

  lemma DispatchUsable(s: CpuState)
    ensures Cop0Usable(Dispatch(s)) == Cop0Usable(s)
  {
  }

  /** A step that changes only coprocessor registers or the TLB. */
  predicate KeepsRest(m: Machine, t: Machine) {
    t.mem == m.mem && t.cpu.exceptions == m.cpu.exceptions && t.cpu.gpr == m.cpu.gpr[0 := 0] && Flows(m, t)
  }

  /** MTC0 and DMTC0 move the low half of a register, bit by bit as the register allows. Count goes
      on counting from the value moved; the timer's bit is acknowledged by a move to Compare, unless
      Count reaches it in the same step. */
  lemma MovesTo(m: Machine, rs: Reg, rt: Reg, rd: Reg, sa: Reg, fn: nat)
    requires rs in {0x04, 0x05} && fn < 64 && Executes(m, RType(0x10, rs, rt, rd, sa, fn))
    requires Usable(m.cpu.cop0[COP0_STATUS])
    ensures var (c, t, v) := (m.cpu.cop0, Step(m).cpu.cop0, m.cpu.gpr[rt] % TWO_TO_32);
      && KeepsRest(m, Step(m)) && Step(m).cpu.tlb == m.cpu.tlb
      && (rd !in {COP0_RANDOM, COP0_COUNT, COP0_CAUSE} ==> Moved(rd, c[rd], v, t[rd]))
      && (forall i | 0 <= i < 32 && i != rd && i !in {COP0_RANDOM, COP0_COUNT, COP0_CAUSE} :: t[i] == c[i])
      && t[COP0_COUNT] == ((if rd == COP0_COUNT then v else c[COP0_COUNT]) + 1) % TWO_TO_32
      && (Bit(t[COP0_CAUSE], 15) <==>
            t[COP0_COUNT] == t[COP0_COMPARE] || (rd != COP0_COMPARE && Bit(c[COP0_CAUSE], 15)))
  {
    hide RType, Op, Rs, Rt, Rd, Fn, Usable, Step, Executes, Moved, Bit;
    var w := RType(0x10, rs, rt, rd, sa, fn);
    RTypeFields(0x10, rs, rt, rd, sa, fn);
    DecodesCop0(w);
    UsableMeans(m.cpu);
    hide Decode, Cop0Usable, KeepsRest;
    MoveToStep(m, w, rt, rd, m.cpu.gpr[rt] % TWO_TO_32);
  }

  lemma MoveToStep(m: Machine, w: u32, rt: Reg, rd: Reg, v: u32)
    requires Executes(m, w) && Cop0Usable(m.cpu) && Decode(w) == Cop0(MoveTo(rt, rd)) && v == m.cpu.gpr[rt] % TWO_TO_32
    ensures var (c, t) := (m.cpu.cop0, Step(m).cpu.cop0);
      && KeepsRest(m, Step(m)) && Step(m).cpu.tlb == m.cpu.tlb
      && (rd !in {COP0_RANDOM, COP0_COUNT, COP0_CAUSE} ==> Moved(rd, c[rd], v, t[rd]))
      && (forall i | 0 <= i < 32 && i != rd && i !in {COP0_RANDOM, COP0_COUNT, COP0_CAUSE} :: t[i] == c[i])
      && t[COP0_COUNT] == ((if rd == COP0_COUNT then v else c[COP0_COUNT]) + 1) % TWO_TO_32
      && (Bit(t[COP0_CAUSE], 15) <==>
            t[COP0_COUNT] == t[COP0_COMPARE] || (rd != COP0_COMPARE && Bit(c[COP0_CAUSE], 15)))
  {
    hide Decode, Step, Executes, Cop0Usable, Bit, Moved, SetCop0;
    assert Cop0Usable(Dispatch(m.cpu)) by { DispatchUsable(m.cpu); }
    StepOf(m, w);
    var d := Dispatch(m.cpu);
    SetMoves(d, rd, v);
    var r := SetCop0(d, rd, v);
    assert d.cop0 == m.cpu.cop0;
    TimerAfter(m.cpu.cop0, r.cop0, rd, v);
    BitAt(Step(m).cpu.cop0[COP0_CAUSE], 15, 0x8000);
  }

  /** The timer's bit before Count moves on. */
  lemma TimerAfter(c: Cop0, t: Cop0, rd: Reg, v: u32)
    requires Moved(rd, c[rd], v, t[rd])
    requires rd != COP0_COMPARE && rd != COP0_CAUSE ==> t[COP0_CAUSE] == c[COP0_CAUSE]
    requires rd == COP0_COMPARE ==> t[COP0_CAUSE] == TimerAcknowledged(c[COP0_CAUSE])
    ensures t[COP0_CAUSE] / 0x8000 % 2 == 1 <==> rd != COP0_COMPARE && Bit(c[COP0_CAUSE], 15)
  {
    BitAt(c[COP0_CAUSE], 15, 0x8000);
    BitAt(t[COP0_CAUSE], 15, 0x8000);
    hide Bit;
    if rd == COP0_COMPARE {
      Acknowledged(c[COP0_CAUSE]);
    }
  }

  lemma Acknowledged(x: u32)
    ensures TimerAcknowledged(x) / 0x8000 % 2 == 0
  {
    var q, low := x / 0x8000, x % 0x8000;
    assert q - q % 2 == 2 * (q / 2);
    DivMod(x - q % 2 * 0x8000, 0x8000, q - q % 2, low);
  }

  // ---------------------------------------------------------------- the TLB

  /** An entry holds what may be written of the four registers. */
  predicate EntryHolds(e: TlbEntry, c: Cop0) {
    && Moved(COP0_PAGE_MASK, 0, c[COP0_PAGE_MASK], e.pageMask)
    && Moved(COP0_ENTRY_HI, 0, c[COP0_ENTRY_HI], e.entryHi)
    && Moved(COP0_ENTRY_LO0, 0, c[COP0_ENTRY_LO0], e.entryLo0)
    && Moved(COP0_ENTRY_LO1, 0, c[COP0_ENTRY_LO1], e.entryLo1)
  }

  lemma WriteTlbHolds(s: CpuState, index: u32)
    ensures var t := WriteTlb(s, index);
      && EntryHolds(t.tlb[index % 32], s.cop0)
      && forall j | 0 <= j < TLB_ENTRIES && j != index % 32 :: t.tlb[j] == s.tlb[j]
  {
    var c := s.cop0;
    hide Bit, EntryLoBits, PageMaskBits, EntryHiBits;
    forall k: nat | k < 32
      ensures Bit(PageMaskBits(c[COP0_PAGE_MASK]), k) <==> 13 <= k < 25 && Bit(c[COP0_PAGE_MASK], k)
      ensures Bit(EntryHiBits(c[COP0_ENTRY_HI]), k) <==> (k < 8 || k >= 13) && Bit(c[COP0_ENTRY_HI], k)
      ensures Bit(EntryLoBits(c[COP0_ENTRY_LO0]), k) <==> k < 30 && Bit(c[COP0_ENTRY_LO0], k)
      ensures Bit(EntryLoBits(c[COP0_ENTRY_LO1]), k) <==> k < 30 && Bit(c[COP0_ENTRY_LO1], k)
    {
      PageMaskMoved(c[COP0_PAGE_MASK], k);
      EntryHiMoved(c[COP0_ENTRY_HI], k);
      LowMoved(c[COP0_ENTRY_LO0], k);
      LowMoved(c[COP0_ENTRY_LO1], k);
    }
  }

  lemma ReadTlbTakes(s: CpuState)
    ensures var (e, t) := (s.tlb[s.cop0[COP0_INDEX] % 32], ReadTlb(s));
      && t == s.(cop0 := t.cop0)
      && t.cop0[COP0_PAGE_MASK] == e.pageMask && t.cop0[COP0_ENTRY_HI] == e.entryHi
      && t.cop0[COP0_ENTRY_LO0] == e.entryLo0 && t.cop0[COP0_ENTRY_LO1] == e.entryLo1
  {
  }

  lemma ReadStep(m: Machine, w: u32)
    requires Executes(m, w) && Cop0Usable(m.cpu) && Decode(w) == Cop0(TlbRead)
    ensures var (e, t) := (m.cpu.tlb[m.cpu.cop0[COP0_INDEX] % 32], Step(m).cpu.cop0);
      && t[COP0_PAGE_MASK] == e.pageMask && t[COP0_ENTRY_HI] == e.entryHi
      && t[COP0_ENTRY_LO0] == e.entryLo0 && t[COP0_ENTRY_LO1] == e.entryLo1
  {
    var d := Dispatch(m.cpu);
    hide Decode, Step, Executes, Cop0Usable, ReadTlb;
    assert Cop0Usable(d) by { DispatchUsable(m.cpu); }
    StepOf(m, w);
    ReadTlbTakes(d);
    assert d.cop0 == m.cpu.cop0 && d.tlb == m.cpu.tlb;
  }

  lemma WriteStepTlb(m: Machine, w: u32, op: Cop0Op, index: nat)
    requires Executes(m, w) && Cop0Usable(m.cpu) && Decode(w) == Cop0(op)
    requires op == TlbWriteIndexed || op == TlbWriteRandom
    requires index == m.cpu.cop0[if op == TlbWriteIndexed then COP0_INDEX else COP0_RANDOM] % 32
    ensures KeepsRest(m, Step(m)) && EntryHolds(Step(m).cpu.tlb[index], m.cpu.cop0)
    ensures forall j | 0 <= j < TLB_ENTRIES && j != index :: Step(m).cpu.tlb[j] == m.cpu.tlb[j]
    ensures Step(m).cpu.cop0[COP0_INDEX] == m.cpu.cop0[COP0_INDEX]
    ensures Step(m).cpu.cop0[COP0_STATUS] == m.cpu.cop0[COP0_STATUS]
  {
    var d := Dispatch(m.cpu);
    hide Decode, Step, Executes, Cop0Usable, EntryHolds, PageMaskBits, EntryHiBits, EntryLoBits;
    assert Cop0Usable(d) by { DispatchUsable(m.cpu); }
    StepOf(m, w);
    assert d.cop0 == m.cpu.cop0 && d.tlb == m.cpu.tlb;
    WriteTlbHolds(d, d.cop0[if op == TlbWriteIndexed then COP0_INDEX else COP0_RANDOM]);
  }

  /** TLBWI writes the entry Index names, TLBWR the one Random names, and no other. */
  lemma WritesEntry(m: Machine, rt: Reg, rd: Reg, sa: Reg, fn: nat)
    requires fn in {0x02, 0x06} && Executes(m, RType(0x10, 0x10, rt, rd, sa, fn)) && Usable(m.cpu.cop0[COP0_STATUS])
    ensures var index := m.cpu.cop0[if fn == 0x02 then COP0_INDEX else COP0_RANDOM] % 32;
      && KeepsRest(m, Step(m)) && EntryHolds(Step(m).cpu.tlb[index], m.cpu.cop0)
      && forall j | 0 <= j < TLB_ENTRIES && j != index :: Step(m).cpu.tlb[j] == m.cpu.tlb[j]
  {
    hide RType, Op, Rs, Rt, Rd, Fn, Usable, Step, Executes, EntryHolds, KeepsRest;
    var w := RType(0x10, 0x10, rt, rd, sa, fn);
    RTypeFields(0x10, 0x10, rt, rd, sa, fn);
    DecodesCop0(w);
    UsableMeans(m.cpu);
    hide Decode, Cop0Usable;
    WriteStepTlb(m, w, if fn == 0x02 then TlbWriteIndexed else TlbWriteRandom,
                 m.cpu.cop0[if fn == 0x02 then COP0_INDEX else COP0_RANDOM] % 32);
  }

  /** TLBWI and then TLBR: the registers come back as far as an entry can hold them. */
  lemma WriteThenRead(m: Machine, rt: Reg, rd: Reg, sa: Reg, rt2: Reg, rd2: Reg, sa2: Reg)
    requires Executes(m, RType(0x10, 0x10, rt, rd, sa, 0x02)) && Usable(m.cpu.cop0[COP0_STATUS])
    requires Executes(Step(m), RType(0x10, 0x10, rt2, rd2, sa2, 0x01))
    ensures var (c, t) := (m.cpu.cop0, Step(Step(m)).cpu.cop0);
      forall r | r in {COP0_PAGE_MASK, COP0_ENTRY_HI, COP0_ENTRY_LO0, COP0_ENTRY_LO1} :: Moved(r, 0, c[r], t[r])
  {
    hide RType, Op, Rs, Rt, Rd, Fn, Usable, Step, Executes, Moved, KeepsRest;
    var w, x := RType(0x10, 0x10, rt, rd, sa, 0x02), RType(0x10, 0x10, rt2, rd2, sa2, 0x01);
    RTypeFields(0x10, 0x10, rt, rd, sa, 0x02);
    RTypeFields(0x10, 0x10, rt2, rd2, sa2, 0x01);
    DecodesCop0(w);
    DecodesCop0(x);
    UsableMeans(m.cpu);
    UsableMeans(Step(m).cpu);
    hide Decode, Cop0Usable;
    WriteStepTlb(m, w, TlbWriteIndexed, m.cpu.cop0[COP0_INDEX] % 32);
    ReadStep(Step(m), x);
  }

  /** TLBP looks EntryHi up: Index becomes the first entry that matches, or bit 31 alone. */
  lemma Probes(m: Machine, rt: Reg, rd: Reg, sa: Reg)
    requires Executes(m, RType(0x10, 0x10, rt, rd, sa, 0x08)) && Usable(m.cpu.cop0[COP0_STATUS])
    ensures KeepsRest(m, Step(m)) && Step(m).cpu.tlb == m.cpu.tlb
    ensures var (query, index) := (m.cpu.cop0[COP0_ENTRY_HI], Step(m).cpu.cop0[COP0_INDEX]);
      if exists j :: 0 <= j < TLB_ENTRIES && Matches(m.cpu.tlb[j], query, query % 0x100) then
        && index < TLB_ENTRIES && Matches(m.cpu.tlb[index], query, query % 0x100)
        && forall j :: 0 <= j < index ==> !Matches(m.cpu.tlb[j], query, query % 0x100)
      else index == 0x8000_0000
  {
    hide RType, Op, Rs, Rt, Rd, Fn, Usable, Step, Executes, Matches, KeepsRest;
    var w := RType(0x10, 0x10, rt, rd, sa, 0x08);
    RTypeFields(0x10, 0x10, rt, rd, sa, 0x08);
    DecodesCop0(w);
    UsableMeans(m.cpu);
    hide Decode, Cop0Usable;
    ProbeStep(m, w);
    var query := m.cpu.cop0[COP0_ENTRY_HI];
    var k := FirstMatch(m.cpu.tlb, query, query % 0x100, 0);
    hide FirstMatch;
  }

  lemma ProbeStep(m: Machine, w: u32)
    requires Executes(m, w) && Cop0Usable(m.cpu) && Decode(w) == Cop0(TlbProbe)
    ensures KeepsRest(m, Step(m)) && Step(m).cpu.tlb == m.cpu.tlb
    ensures Step(m).cpu.cop0[COP0_INDEX] == Probe(m.cpu.tlb, m.cpu.cop0[COP0_ENTRY_HI])
  {
    var d := Dispatch(m.cpu);
    hide Decode, Step, Executes, Cop0Usable, Probe;
    assert Cop0Usable(d) by { DispatchUsable(m.cpu); }
    StepOf(m, w);
    assert d.cop0 == m.cpu.cop0 && d.tlb == m.cpu.tlb;
  }

  /** ERET goes to ErrorEPC and clears ERL if that is set, and otherwise to EPC and clears EXL; it
      has no delay slot, and no other bit of Status changes. */
  lemma Returns(m: Machine, rt: Reg, rd: Reg, sa: Reg)
    requires Executes(m, RType(0x10, 0x10, rt, rd, sa, 0x18)) && Usable(m.cpu.cop0[COP0_STATUS])
    ensures var (c, t) := (m.cpu.cop0, Step(m).cpu);
      && Quiet(m, Step(m)) && t.gpr == m.cpu.gpr[0 := 0] && !t.branchPending
      && t.pc == (if Bit(c[COP0_STATUS], 2) then c[COP0_ERROR_EPC] else c[COP0_EPC])
      && forall k | 0 <= k < 32 :: Bit(t.cop0[COP0_STATUS], k) <==>
           Bit(c[COP0_STATUS], k) && k != if Bit(c[COP0_STATUS], 2) then 2 else 1
  {
    hide RType, Op, Rs, Rt, Rd, Fn, Usable, Step, Executes, Bit, Quiet;
    var w := RType(0x10, 0x10, rt, rd, sa, 0x18);
    RTypeFields(0x10, 0x10, rt, rd, sa, 0x18);
    DecodesCop0(w);
    UsableMeans(m.cpu);
    StatusBitsMean(m.cpu.cop0[COP0_STATUS]);
    hide Decode, Cop0Usable, Exl, Erl;
    ReturnStep(m, w);
    var sr := m.cpu.cop0[COP0_STATUS];
    forall k: nat | k < 32
      ensures Bit(Returned(sr), k) <==> Bit(sr, k) && k != if Bit(sr, 2) then 2 else 1
    {
      ReturnedBit(sr, k);
    }
    hide Returned;
  }

  /** Status after ERET. */
  function Returned(sr: u32): u32 {
    if Erl(sr) then sr - 4 else if Exl(sr) then sr - 2 else sr
  }

  lemma ReturnStep(m: Machine, w: u32)
    requires Executes(m, w) && Cop0Usable(m.cpu) && Decode(w) == Cop0(ExceptionReturn)
    ensures var (c, t) := (m.cpu.cop0, Step(m).cpu);
      && Quiet(m, Step(m)) && t.gpr == m.cpu.gpr[0 := 0] && !t.branchPending
      && t.pc == (if Erl(c[COP0_STATUS]) then c[COP0_ERROR_EPC] else c[COP0_EPC])
      && t.cop0[COP0_STATUS] == Returned(c[COP0_STATUS])
  {
    var d := Dispatch(m.cpu);
    hide Decode, Step, Executes, Cop0Usable, Exl, Erl;
    assert Cop0Usable(d) by { DispatchUsable(m.cpu); }
    StepOf(m, w);
    assert d.cop0 == m.cpu.cop0 && d.tlb == m.cpu.tlb;
  }

  lemma ReturnedBit(sr: u32, k: nat)
    requires k < 32
    ensures Bit(Returned(sr), k) <==> Bit(sr, k) && k != if Bit(sr, 2) then 2 else 1
  {
    StatusBitsMean(sr);
    var n := if Erl(sr) then 2 else 1;
    if Erl(sr) {
      ClearedBit(sr, 2, 4, k);
    } else if Exl(sr) {
      ClearedBit(sr, 1, 2, k);
    }
    hide Bit;
  }

  /** Clearing a set bit. */
  lemma ClearedBit(x: nat, n: nat, p: nat, k: nat)
    requires (n == 1 && p == 2) || (n == 2 && p == 4)
    requires x / p % 2 == 1
    ensures x >= p && (Bit(x - p, k) <==> Bit(x, k) && k != n)
  {
    assert Pow2(1) == 2 && Pow2(2) == 4;
    var q, r := x / p, x % p;
    hide Bit, Pow2;
    FieldsBit(n, p, q, r, x, k);
    FieldsBit(n, p, q - 1, r, x - p, k);
    if k >= n {
      EvenBit(q, k - n);
    }
  }

  lemma EvenBit(q: nat, k: nat)
    requires q % 2 == 1
    ensures Bit(q - 1, k) <==> Bit(q, k) && k != 0
  {
    assert (q - 1) / 2 == q / 2;
  }
}
