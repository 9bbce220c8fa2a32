/** The VR4300 interpreter as a function on machine states: one call of `Step` is one
    call of `Cpu::step` with a bus connected and no trace callback. */
module Processor {
  import opened Words
  import opened Translation
  import opened PhysicalMemory
  import opened Blocks

  const COP0_INDEX := 0
  const COP0_RANDOM := 1
  const COP0_ENTRY_LO0 := 2
  const COP0_ENTRY_LO1 := 3
  const COP0_CONTEXT := 4
  const COP0_PAGE_MASK := 5
  const COP0_WIRED := 6
  const COP0_BAD_VADDR := 8
  const COP0_COUNT := 9
  const COP0_ENTRY_HI := 10
  const COP0_COMPARE := 11
  const COP0_STATUS := 12
  const COP0_CAUSE := 13
  const COP0_EPC := 14
  const COP0_PRID := 15
  const COP0_ERROR_EPC := 30

  const EXC_INT := 0
  const EXC_MOD := 1
  const EXC_TLBL := 2
  const EXC_TLBS := 3
  const EXC_ADEL := 4
  const EXC_ADES := 5
  const EXC_SYS := 8
  const EXC_BP := 9
  const EXC_RI := 10
  const EXC_CPU := 11
  const EXC_OV := 12

  type Gprs = s: seq<u64> | |s| == 32 witness seq(32, _ => 0)
  type Cop0 = s: seq<u32> | |s| == 32 witness seq(32, _ => 0)
  type Tlb = s: seq<TlbEntry> | |s| == TLB_ENTRIES witness seq(TLB_ENTRIES, _ => TlbEntry(0, 0, 0, 0))

  datatype CpuState = CpuState(
    gpr: Gprs, cop0: Cop0, tlb: Tlb,
    pc: u64, nextPc: u64,
    /** `nextPc` is a branch target and `pc` its delay slot. */
    branchPending: bool,
    inDelaySlot: bool, llBit: bool, halted: bool,
    cycles: nat, exceptions: nat)

  datatype Machine = Machine(cpu: CpuState, mem: Memory)

  /** The part of the state a translation depends on. */
  function Ctx(s: CpuState): Context
  {
    Context(s.tlb, s.cop0[COP0_ENTRY_HI] % 0x100, Mode(s.cop0[COP0_STATUS]))
  }

  // ---------------------------------------------------------------- decoding

  datatype Condition = Eq | Ne | Lez | Gtz | Ltz | Gez

  datatype Instr =
    | Branch(cond: Condition, rs: Reg, rt: Reg, offset: int, likely: bool, link: bool)
    | Jump(target: nat, link: bool)
    | JumpRegister(rs: Reg, rd: Reg, link: bool)
    | AddImmediate(rs: Reg, rt: Reg, imm: int, trap: bool)
    | LoadUpper(rt: Reg, imm16: nat)
    | AddUnsigned(rs: Reg, rt: Reg, rd: Reg)
    | LoadWord(rs: Reg, rt: Reg, offset: int)
    | StoreWord(rs: Reg, rt: Reg, offset: int)
    | Syscall
    | Break
    | Cop0(op: Cop0Op)
    | Reserved
    | Unmodelled

  datatype Cop0Op =
    | MoveFrom(rt: Reg, rd: Reg)
    | MoveFromDouble(rt: Reg, rd: Reg)
    | MoveTo(rt: Reg, rd: Reg)
    | TlbRead | TlbWriteIndexed | TlbWriteRandom | TlbProbe
    | ExceptionReturn
    | Nothing

  function SignedImm(w: u32): int {
    var i := w % 0x1_0000;
    if i < 0x8000 then i else i - 0x1_0000
  }

  function DecodeSpecial(w: u32): Instr
  {
    match Fn(w)
    case 0x08 => JumpRegister(Rs(w), 0, false)
    case 0x09 => JumpRegister(Rs(w), if Rd(w) == 0 then 31 else Rd(w), true)
    case 0x0C => Syscall
    case 0x0D => Break
    case 0x21 => AddUnsigned(Rs(w), Rt(w), Rd(w))
    case fn =>
      if fn in {0x01, 0x05, 0x0A, 0x0B, 0x0E, 0x15, 0x28, 0x29, 0x35, 0x37, 0x39, 0x3D} then Reserved
      else Unmodelled
  }

  function DecodeRegimm(w: u32): Instr
  {
    var rt := Rt(w);
    if rt <= 3 || 0x10 <= rt <= 0x13 then
      Branch(if rt % 2 == 0 then Ltz else Gez, Rs(w), 0, SignedImm(w), rt % 4 >= 2, rt >= 0x10)
    else if 0x08 <= rt <= 0x0C || rt == 0x0E then Unmodelled
    else Reserved
  }

  function DecodeCop0(w: u32): Cop0Op
  {
    match Rs(w)
    case 0x00 => MoveFrom(Rt(w), Rd(w))
    case 0x01 => MoveFromDouble(Rt(w), Rd(w))
    case 0x04 => MoveTo(Rt(w), Rd(w))
    case 0x05 => MoveTo(Rt(w), Rd(w))
    case 0x10 =>
      (match Fn(w)
       case 0x01 => TlbRead
       case 0x02 => TlbWriteIndexed
       case 0x06 => TlbWriteRandom
       case 0x08 => TlbProbe
       case 0x18 => ExceptionReturn
       case _ => Nothing)
    case rs => if rs >= 0x10 && Fn(w) == 0x18 then ExceptionReturn else Nothing
  }

  function Decode(w: u32): Instr
  {
    match Op(w)
    case 0x00 => DecodeSpecial(w)
    case 0x01 => DecodeRegimm(w)
    case 0x02 => Jump(w % 0x400_0000, false)
    case 0x03 => Jump(w % 0x400_0000, true)
    case 0x04 => Branch(Eq, Rs(w), Rt(w), SignedImm(w), false, false)
    case 0x05 => Branch(Ne, Rs(w), Rt(w), SignedImm(w), false, false)
    case 0x06 => Branch(Lez, Rs(w), 0, SignedImm(w), false, false)
    case 0x07 => Branch(Gtz, Rs(w), 0, SignedImm(w), false, false)
    case 0x14 => Branch(Eq, Rs(w), Rt(w), SignedImm(w), true, false)
    case 0x15 => Branch(Ne, Rs(w), Rt(w), SignedImm(w), true, false)
    case 0x16 => Branch(Lez, Rs(w), 0, SignedImm(w), true, false)
    case 0x17 => Branch(Gtz, Rs(w), 0, SignedImm(w), true, false)
    case 0x08 => AddImmediate(Rs(w), Rt(w), SignedImm(w), true)
    case 0x09 => AddImmediate(Rs(w), Rt(w), SignedImm(w), false)
    case 0x0F => LoadUpper(Rt(w), w % 0x1_0000)
    case 0x10 => Cop0(DecodeCop0(w))
    case 0x23 => LoadWord(Rs(w), Rt(w), SignedImm(w))
    case 0x2B => StoreWord(Rs(w), Rt(w), SignedImm(w))
    case op =>
      if op in {0x13, 0x1C, 0x1D, 0x1E, 0x1F, 0x32, 0x33, 0x36, 0x3A, 0x3B, 0x3E} then Reserved
      else Unmodelled
  }

  predicate Modelled(w: u32) {
    Decode(w) != Unmodelled
  }

  predicate IsControlTransfer(i: Instr) {
    i.Branch? || i.Jump? || i.JumpRegister?
  }

  // ---------------------------------------------------------------- exceptions

  function WithExl(sr: u32): u32 {
    if sr / 2 % 2 == 1 then sr else sr + 2
  }

  predicate Exl(sr: u32) { sr / 2 % 2 == 1 }
  predicate Erl(sr: u32) { sr / 4 % 2 == 1 }
  predicate Bev(sr: u32) { sr / 0x40_0000 % 2 == 1 }

  /** Cause with a new exception code and coprocessor number. */
  function CauseCode(cause: u32, code: nat, ce: nat): u32
  {
    var c := cause - cause / 4 % 32 * 4 + code % 32 * 4;
    c - c / 0x1000_0000 % 4 * 0x1000_0000 + ce % 4 * 0x1000_0000
  }

  function CauseBd(cause: u32, bd: bool): u32
  {
    cause % 0x8000_0000 + if bd then 0x8000_0000 else 0
  }

  predicate IsAddressException(code: nat) {
    code == EXC_ADEL || code == EXC_ADES
  }

  predicate IsTlbException(code: nat) {
    code == EXC_TLBL || code == EXC_TLBS || code == EXC_MOD
  }

  function ContextBad(context: u32, bad: u32): u32
  {
    context / 0x80_0000 * 0x80_0000 + bad / 0x200 % 0x80_0000 / 0x10 * 0x10
  }

  function EntryHiBad(entryHi: u32, bad: u32): u32
  {
    entryHi % 0x100 + bad / 0x2000 * 0x2000
  }

  function Vector(sr: u32, refill: bool): u64
  {
    if refill && !Exl(sr) then if Bev(sr) then 0xBFC0_0200 else 0x8000_0000
    else if Bev(sr) then 0xBFC0_0380 else 0x8000_0180
  }

  /** COP0 with the cause recorded, and EPC and BD too unless EXL was already set. */
  function RecordCause(c: Cop0, pc: u64, inDelaySlot: bool, cause: u32): Cop0
  {
    if Exl(c[COP0_STATUS]) then c[COP0_CAUSE := cause]
    else
      c[COP0_EPC := (if inDelaySlot then pc + TWO_TO_32 - 4 else pc) % TWO_TO_32]
       [COP0_CAUSE := CauseBd(cause, inDelaySlot)]
  }

  /** The failing address, for the exceptions that have one. */
  function RecordAddress(c: Cop0, code: nat, bad: u32): Cop0
  {
    var c1 := if IsAddressException(code) || IsTlbException(code) then c[COP0_BAD_VADDR := bad] else c;
    if IsTlbException(code) then
      c1[COP0_CONTEXT := ContextBad(c1[COP0_CONTEXT], bad)]
        [COP0_ENTRY_HI := EntryHiBad(c1[COP0_ENTRY_HI], bad)]
    else c1
  }

  /** COP0 after an exception. */
  function ExceptionCop0(s: CpuState, code: nat, badVaddr: u64, ce: nat): Cop0
  {
    var caused := RecordCause(s.cop0, s.pc, s.inDelaySlot, CauseCode(s.cop0[COP0_CAUSE], code, ce));
    RecordAddress(caused, code, badVaddr % TWO_TO_32)[COP0_STATUS := WithExl(s.cop0[COP0_STATUS])]
  }

  function RaiseException(s: CpuState, code: nat, badVaddr: u64, ce: nat, refill: bool): CpuState
  {
    var vector := Vector(s.cop0[COP0_STATUS], refill);
    s.(cop0 := ExceptionCop0(s, code, badVaddr, ce),
       pc := vector, nextPc := vector + 4, branchPending := false, llBit := false,
       exceptions := s.exceptions + 1)
  }

  function RaiseTranslationFault(s: CpuState, fault: TranslationFault, bad: u64, isStore: bool): CpuState
  {
    match fault
    case AddressError => RaiseException(s, if isStore then EXC_ADES else EXC_ADEL, bad, 0, false)
    case TlbMiss => RaiseException(s, if isStore then EXC_TLBS else EXC_TLBL, bad, 0, true)
    case TlbInvalid => RaiseException(s, if isStore then EXC_TLBS else EXC_TLBL, bad, 0, false)
    case TlbModified => RaiseException(s, EXC_MOD, bad, 0, false)
  }

  /** IE set, EXL and ERL clear, and an enabled interrupt pending. */
  predicate InterruptPending(s: CpuState)
  {
    var sr := s.cop0[COP0_STATUS];
    && sr % 2 == 1 && !Exl(sr) && !Erl(sr)
    && And(s.cop0[COP0_CAUSE] / 0x100 % 0x100, sr / 0x100 % 0x100) != 0
  }

  function AdvanceCount(s: CpuState): CpuState
  {
    var count := (s.cop0[COP0_COUNT] + 1) % TWO_TO_32;
    var c1 := s.cop0[COP0_COUNT := count];
    var cause := c1[COP0_CAUSE];
    var c2 :=
      if count == c1[COP0_COMPARE] then
        c1[COP0_CAUSE := if cause / 0x8000 % 2 == 1 then cause else cause + 0x8000]
      else c1;
    s.(cop0 := c2[COP0_RANDOM := NextRandom(c2[COP0_WIRED] % 32, c2[COP0_RANDOM] % 32)])
  }

  function NextRandom(wired: nat, random: nat): (r: nat)
    requires wired < 32 && random < 32
    ensures r < 32
  {
    if random <= wired then TLB_ENTRIES - 1 else random - 1
  }

  // ---------------------------------------------------------------- instructions

  function Sext32(v: u32): u64 {
    if v < 0x8000_0000 then v else v + (TWO_TO_64 - TWO_TO_32)
  }

  function Signed64(v: u64): int {
    if v < 0x8000_0000_0000_0000 then v else v - TWO_TO_64
  }

  function Signed32(v: u32): int {
    if v < 0x8000_0000 then v else v - TWO_TO_32
  }

  function Gpr(s: CpuState, i: Reg): u64
  {
    s.gpr[i]
  }

  function WriteGpr(s: CpuState, i: Reg, v: u64): CpuState
  {
    if i == 0 then s else s.(gpr := s.gpr[i := v])
  }

  predicate Holds(cond: Condition, a: u64, b: u64) {
    match cond
    case Eq => a == b
    case Ne => a != b
    case Lez => Signed64(a) <= 0
    case Gtz => Signed64(a) > 0
    case Ltz => Signed64(a) < 0
    case Gez => Signed64(a) >= 0
  }

  function BranchAbs(s: CpuState, target: u64): CpuState
  {
    s.(nextPc := target, branchPending := true)
  }

  function Link(s: CpuState, r: Reg): CpuState
  {
    WriteGpr(s, r, (s.pc + 8) % TWO_TO_64)
  }

  /** A likely branch that is not taken nullifies its delay slot. */
  function ExecBranch(s: CpuState, i: Instr): CpuState
    requires i.Branch?
  {
    var taken := Holds(i.cond, Gpr(s, i.rs), Gpr(s, i.rt));
    var s1 := if i.link then Link(s, 31) else s;
    if taken then BranchAbs(s1, (s.pc + 4 + 4 * i.offset) % TWO_TO_64)
    else if i.likely then s1.(nextPc := (s.pc + 8) % TWO_TO_64, branchPending := false)
    else BranchAbs(s1, (s.pc + 8) % TWO_TO_64)
  }

  function ExecJump(s: CpuState, i: Instr): CpuState
    requires i.Jump?
  {
    var s1 := if i.link then Link(s, 31) else s;
    BranchAbs(s1, s.pc / 0x1000_0000 * 0x1000_0000 + i.target % 0x400_0000 * 4)
  }

  function ExecJumpRegister(s: CpuState, i: Instr): CpuState
    requires i.JumpRegister?
  {
    BranchAbs(if i.link then Link(s, i.rd) else s, Gpr(s, i.rs))
  }

  function ExecAddImmediate(s: CpuState, i: Instr): CpuState
    requires i.AddImmediate?
  {
    var a := Gpr(s, i.rs) % TWO_TO_32;
    var wide := Signed32(a) + i.imm;
    if i.trap && !(-0x8000_0000 <= wide < 0x8000_0000) then RaiseException(s, EXC_OV, 0, 0, false)
    else WriteGpr(s, i.rt, Sext32((a + i.imm) % TWO_TO_32))
  }

  function EffectiveAddress(s: CpuState, rs: Reg, offset: int): u64
  {
    (Gpr(s, rs) + offset) % TWO_TO_64
  }

  function ExecLoadWord(m: Machine, i: Instr): CpuState
    requires i.LoadWord?
  {
    var s := m.cpu;
    var addr := EffectiveAddress(s, i.rs, i.offset);
    if addr % 4 != 0 then RaiseException(s, EXC_ADEL, addr, 0, false)
    else
      match Translate(Ctx(s), addr, false)
      case Fault(f) => RaiseTranslationFault(s, f, addr, false)
      case Mapped(p) => WriteGpr(s, i.rt, Sext32(Read32(m.mem, p)))
  }

  /** Where a store goes: nowhere when it faults. */
  function StoreTarget(s: CpuState, rs: Reg, offset: int): Translation
  {
    var addr := EffectiveAddress(s, rs, offset);
    if addr % 4 != 0 then Fault(AddressError) else Translate(Ctx(s), addr, true)
  }

  function ExecStoreWord(m: Machine, i: Instr): Machine
    requires i.StoreWord?
  {
    var s := m.cpu;
    var addr := EffectiveAddress(s, i.rs, i.offset);
    match StoreTarget(s, i.rs, i.offset)
    case Fault(f) => m.(cpu := RaiseTranslationFault(s, f, addr, true))
    case Mapped(p) =>
      Machine(s.(llBit := false), Write32(m.mem, p, Gpr(s, i.rt) % TWO_TO_32))
  }

  // The writable bits of the COP0 registers that have any masked.

  function IndexBits(v: u32): u32 { v / 0x8000_0000 * 0x8000_0000 + v % 32 }
  function EntryLoBits(v: u32): u32 { v % 0x4000_0000 }
  function ContextBits(was: u32, v: u32): u32 { was % 0x80_0000 / 0x10 * 0x10 + v / 0x80_0000 * 0x80_0000 }
  function PageMaskBits(v: u32): u32 { v / 0x2000 % 0x1000 * 0x2000 }
  function WiredBits(v: u32): u32 { v % 32 }
  function EntryHiBits(v: u32): u32 { v / 0x2000 * 0x2000 + v % 0x100 }
  function TimerAcknowledged(cause: u32): u32 { cause - cause / 0x8000 % 2 * 0x8000 }
  function SoftwareCause(was: u32, v: u32): u32 { was - was / 0x100 % 4 * 0x100 + v / 0x100 % 4 * 0x100 }

  function SetCop0(s: CpuState, i: Reg, v: u32): CpuState
  {
    var c := s.cop0;
    s.(cop0 :=
      match i
      case 0 => c[0 := IndexBits(v)]
      case 1 => c
      case 15 => c
      case 2 => c[2 := EntryLoBits(v)]
      case 3 => c[3 := EntryLoBits(v)]
      case 4 => c[4 := ContextBits(c[4], v)]
      case 5 => c[5 := PageMaskBits(v)]
      case 6 => c[6 := WiredBits(v)][1 := TLB_ENTRIES - 1]
      case 10 => c[10 := EntryHiBits(v)]
      case 11 => c[11 := v][13 := TimerAcknowledged(c[13])]
      case 13 => c[13 := SoftwareCause(c[13], v)]
      case _ => c[i := v])
  }

  function ReadTlb(s: CpuState): CpuState
  {
    var e := s.tlb[s.cop0[COP0_INDEX] % 32];
    s.(cop0 := s.cop0[COP0_PAGE_MASK := e.pageMask][COP0_ENTRY_HI := e.entryHi]
                     [COP0_ENTRY_LO0 := e.entryLo0][COP0_ENTRY_LO1 := e.entryLo1])
  }

  function WriteTlb(s: CpuState, index: u32): CpuState
  {
    var c := s.cop0;
    var e := TlbEntry(PageMaskBits(c[COP0_PAGE_MASK]), EntryHiBits(c[COP0_ENTRY_HI]),
                      EntryLoBits(c[COP0_ENTRY_LO0]), EntryLoBits(c[COP0_ENTRY_LO1]));
    s.(tlb := s.tlb[index % 32 := e])
  }

  function ProbeTlb(s: CpuState): CpuState
  {
    s.(cop0 := s.cop0[COP0_INDEX := Probe(s.tlb, s.cop0[COP0_ENTRY_HI])])
  }

  function DoEret(s: CpuState): CpuState
  {
    var sr := s.cop0[COP0_STATUS];
    var target: u64 := if Erl(sr) then s.cop0[COP0_ERROR_EPC] else s.cop0[COP0_EPC];
    var status := if Erl(sr) then sr - 4 else if Exl(sr) then sr - 2 else sr;
    s.(cop0 := s.cop0[COP0_STATUS := status], pc := target, nextPc := target,
       branchPending := false, llBit := false)
  }

  predicate Cop0Usable(s: CpuState) {
    var sr := s.cop0[COP0_STATUS];
    Mode(sr) == 0 || sr / 0x1000_0000 % 2 == 1
  }

  function ExecCop0(s: CpuState, op: Cop0Op): CpuState
  {
    if !Cop0Usable(s) then RaiseException(s, EXC_CPU, 0, 0, false)
    else
      match op
      case MoveFrom(rt, rd) => WriteGpr(s, rt, Sext32(s.cop0[rd]))
      case MoveFromDouble(rt, rd) => WriteGpr(s, rt, s.cop0[rd])
      case MoveTo(rt, rd) => SetCop0(s, rd, Gpr(s, rt) % TWO_TO_32)
      case TlbRead => ReadTlb(s)
      case TlbWriteIndexed => WriteTlb(s, s.cop0[COP0_INDEX])
      case TlbWriteRandom => WriteTlb(s, s.cop0[COP0_RANDOM])
      case TlbProbe => ProbeTlb(s)
      case ExceptionReturn => DoEret(s)
      case Nothing => s
  }

  function Execute(m: Machine, w: u32): Machine
  {
    var s := m.cpu;
    var i := Decode(w);
    match i
    case Branch(_, _, _, _, _, _) => m.(cpu := ExecBranch(s, i))
    case Jump(_, _) => m.(cpu := ExecJump(s, i))
    case JumpRegister(_, _, _) => m.(cpu := ExecJumpRegister(s, i))
    case AddImmediate(_, _, _, _) => m.(cpu := ExecAddImmediate(s, i))
    case LoadUpper(rt, imm16) => m.(cpu := WriteGpr(s, rt, Sext32(imm16 % 0x1_0000 * 0x1_0000)))
    case AddUnsigned(rs, rt, rd) =>
      m.(cpu := WriteGpr(s, rd, Sext32((Gpr(s, rs) + Gpr(s, rt)) % TWO_TO_32)))
    case LoadWord(_, _, _) => m.(cpu := ExecLoadWord(m, i))
    case StoreWord(_, _, _) => ExecStoreWord(m, i)
    case Syscall => m.(cpu := RaiseException(s, EXC_SYS, 0, 0, false))
    case Break => m.(cpu := RaiseException(s, EXC_BP, 0, 0, false))
    case Cop0(op) => m.(cpu := ExecCop0(s, op))
    case Reserved => m.(cpu := RaiseException(s, EXC_RI, 0, 0, false))
    case Unmodelled => m
  }

  // ---------------------------------------------------------------- one step

  /** The end of every step: r0 is zero, Count, Random and the cycle counter advance. */
  function Retire(s: CpuState): CpuState
  {
    var a := AdvanceCount(s.(gpr := s.gpr[0 := 0]));
    a.(cycles := a.cycles + 1, inDelaySlot := false)
  }

  /** The state in which the instruction at `pc` executes. */
  function Dispatch(s: CpuState): CpuState
  {
    if s.branchPending then s.(inDelaySlot := true)
    else s.(inDelaySlot := false, nextPc := Next(s.pc), branchPending := false)
  }

  /** Where the program counter goes after an instruction, unless an exception moved it. */
  function Sequence(before: CpuState, after: CpuState): CpuState
  {
    if after.exceptions != before.exceptions then after.(branchPending := false)
    else if before.branchPending then
      after.(pc := after.nextPc, nextPc := Next(after.nextPc), branchPending := false)
    else if after.branchPending then after.(pc := Next(before.pc))
    else after.(pc := after.nextPc, nextPc := Next(after.nextPc))
  }

  /** Executes word `w` as the instruction at the current program counter. */
  function ExecuteWord(m: Machine, w: u32): Machine
  {
    var r := Execute(m.(cpu := Dispatch(m.cpu)), w);
    r.(cpu := Retire(Sequence(m.cpu, r.cpu)))
  }

  predicate TakesInterrupt(s: CpuState) {
    !s.branchPending && InterruptPending(s)
  }

  function TakeInterrupt(s: CpuState): CpuState
  {
    Retire(RaiseException(s, EXC_INT, 0, 0, false))
  }

  /** The exception raised by a program counter that cannot be fetched from. */
  function FetchException(s: CpuState): CpuState
    requires s.pc % 4 != 0 || Translate(Ctx(s), s.pc, false).Fault?
  {
    if s.pc % 4 != 0 then RaiseException(s, EXC_ADEL, s.pc, 0, false)
    else RaiseTranslationFault(s, Translate(Ctx(s), s.pc, false).fault, s.pc, false)
  }

  function FetchFault(s: CpuState): CpuState
    requires s.pc % 4 != 0 || Translate(Ctx(s), s.pc, false).Fault?
  {
    Retire(FetchException(s.(inDelaySlot := s.branchPending)))
  }

  predicate Fetches(s: CpuState) {
    s.pc % 4 == 0 && Translate(Ctx(s), s.pc, false).Mapped?
  }

  function FetchedWord(m: Machine): u32
    requires Fetches(m.cpu)
  {
    Read32(m.mem, Translate(Ctx(m.cpu), m.cpu.pc, false).paddr)
  }

  function Step(m: Machine): Machine
  {
    if m.cpu.halted then m.(cpu := m.cpu.(cycles := m.cpu.cycles + 1))
    else if TakesInterrupt(m.cpu) then m.(cpu := TakeInterrupt(m.cpu))
    else if !Fetches(m.cpu) then m.(cpu := FetchFault(m.cpu))
    else ExecuteWord(m, FetchedWord(m))
  }

  /** The state `reset` leaves: Random 31, execution from the PIF ROM. */
  function ResetState(): CpuState
  {
    var cop0: Cop0 := seq(32, _ => 0);
    CpuState(seq(32, _ => 0),
             cop0[COP0_RANDOM := 31][COP0_STATUS := 0x3400_0000][COP0_PRID := 0x0B22][16 := 0x7006_E463],
             seq(TLB_ENTRIES, _ => TlbEntry(0, 0, 0, 0)),
             0xBFC0_0000, 0xBFC0_0004, false, false, false, false, 0, 0)
  }

  function Steps(m: Machine, n: nat): Machine
  {
    if n == 0 then m else Step(Steps(m, n - 1))
  }
}
