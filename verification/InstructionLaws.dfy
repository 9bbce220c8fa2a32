/** What the instructions do to a machine, from the bits of the word fetched to the registers,
    program counters and memory after the step. */
module InstructionLaws {
  import opened Words
  import opened Translation
  import opened PhysicalMemory
  import opened Blocks
  import opened Processor
  import opened Coherence
  import opened Refinement
  import opened Exceptions
  import opened StoredBytes

  const TWO_TO_31 := 0x8000_0000
  const TWO_TO_63 := 0x8000_0000_0000_0000

  // ---------------------------------------------------------------- words

  type Half = x: int | 0 <= x < 0x1_0000

  function IType(op: nat, rs: Reg, rt: Reg, imm: Half): nat {
    op * 0x400_0000 + rs * 0x20_0000 + rt * 0x1_0000 + imm
  }

  function RType(op: nat, rs: Reg, rt: Reg, rd: Reg, sa: Reg, fn: nat): nat {
    op * 0x400_0000 + rs * 0x20_0000 + rt * 0x1_0000 + rd * 0x800 + sa * 0x40 + fn
  }

  /** The immediate as a signed number. */
  function Offset(imm: Half): int {
    if imm < 0x8000 then imm else imm - 0x1_0000
  }

  lemma ITypeFields(op: nat, rs: Reg, rt: Reg, imm: Half)
    requires op < 64
    ensures var w := IType(op, rs, rt, imm);
      w < TWO_TO_32 && Op(w) == op && Rs(w) == rs && Rt(w) == rt && SignedImm(w) == Offset(imm) && w % 0x1_0000 == imm
  {
    var w := IType(op, rs, rt, imm);
    DivMod(w, 0x400_0000, op, rs * 0x20_0000 + rt * 0x1_0000 + imm);
    DivMod(w, 0x20_0000, op * 32 + rs, rt * 0x1_0000 + imm);
    DivMod(op * 32 + rs, 32, op, rs);
    DivMod(w, 0x1_0000, op * 1024 + rs * 32 + rt, imm);
    DivMod(op * 1024 + rs * 32 + rt, 32, op * 32 + rs, rt);
  }

  lemma RTypeFields(op: nat, rs: Reg, rt: Reg, rd: Reg, sa: Reg, fn: nat)
    requires op < 64 && fn < 64
    ensures var w := RType(op, rs, rt, rd, sa, fn);
      w < TWO_TO_32 && Op(w) == op && Rs(w) == rs && Rt(w) == rt && Rd(w) == rd && Fn(w) == fn
  {
    var w := RType(op, rs, rt, rd, sa, fn);
    var low := rd * 0x800 + sa * 0x40 + fn;
    DivMod(w, 0x400_0000, op, rs * 0x20_0000 + rt * 0x1_0000 + low);
    DivMod(w, 0x20_0000, op * 32 + rs, rt * 0x1_0000 + low);
    DivMod(op * 32 + rs, 32, op, rs);
    DivMod(w, 0x1_0000, op * 1024 + rs * 32 + rt, low);
    DivMod(op * 1024 + rs * 32 + rt, 32, op * 32 + rs, rt);
    DivMod(w, 0x800, op * 0x8000 + rs * 1024 + rt * 32 + rd, sa * 0x40 + fn);
    DivMod(op * 0x8000 + rs * 1024 + rt * 32 + rd, 32, op * 1024 + rs * 32 + rt, rd);
    DivMod(w, 64, op * 0x10_0000 + rs * 0x8000 + rt * 1024 + rd * 32 + sa, fn);
  }

  /** The words that end a block: jumps and branches, the floating-point ones included, with their
      slot; SYSCALL, BREAK, TLB instructions, ERET and MTC0 to five registers without. */
  lemma BlockEnds(op: nat, rs: Reg, rt: Reg, imm: Half)
    requires op < 64
    ensures IsBranchOrJump(IType(op, rs, rt, imm)) <==>
      || 0x02 <= op <= 0x07 || 0x14 <= op <= 0x17 || (op == 0x11 && rs == 0x08)
      || (op == 0x01 && rt in {0x00, 0x01, 0x02, 0x03, 0x10, 0x11, 0x12, 0x13})
      || (op == 0x00 && imm % 64 in {0x08, 0x09})
    ensures IsTerminal(IType(op, rs, rt, imm)) <==>
      || (op == 0x00 && imm % 64 in {0x0C, 0x0D})
      || (op == 0x10 && rs == 0x10 && imm % 64 in {0x01, 0x02, 0x06, 0x08, 0x18})
      || (op == 0x10 && rs == 0x04 && imm / 0x800 in {10, 11, 12, 13, 16})
  {
    ITypeFields(op, rs, rt, imm);
    LowFields(op, rs, rt, imm);
    hide IType, Op, Rs, Rt, Rd, Fn;
  }

  lemma LowFields(op: nat, rs: Reg, rt: Reg, imm: Half)
    requires op < 64
    ensures Fn(IType(op, rs, rt, imm)) == imm % 64 && Rd(IType(op, rs, rt, imm)) == imm / 0x800
  {
    var w, high := IType(op, rs, rt, imm), op * 1024 + rs * 32 + rt;
    DivMod(w, 64, high * 1024 + imm / 64, imm % 64);
    DivMod(w, 0x800, high * 32 + imm / 0x800, imm % 0x800);
    DivMod(high * 32 + imm / 0x800, 32, high, imm / 0x800);
  }

  // ---------------------------------------------------------------- one step of one word

  /** The next step of the machine executes word `w`. */
  predicate Executes(m: Machine, w: nat) {
    ExecutesWord(m) && FetchedWord(m) == w
  }

  /** Nothing but registers and program counters changes in the step. */
  predicate Quiet(m: Machine, t: Machine) {
    t.mem == m.mem && t.cpu.exceptions == m.cpu.exceptions && t.cpu.tlb == m.cpu.tlb && t.cpu.gpr[0] == 0
  }

  /** Control goes on: to the target after a delay slot, to the next word otherwise. */
  predicate Flows(m: Machine, t: Machine) {
    !t.cpu.branchPending && t.cpu.pc == if m.cpu.branchPending then m.cpu.nextPc else (m.cpu.pc + 4) % TWO_TO_64
  }

  /** What a step makes of what `Execute` leaves. */
  lemma StepOf(m: Machine, w: u32)
    requires Executes(m, w)
    ensures var (d, s) := (m.(cpu := Dispatch(m.cpu)), m.cpu);
      var (r, t) := (Execute(d, w), Step(m));
      && t.mem == r.mem && t.cpu.gpr == r.cpu.gpr[0 := 0] && t.cpu.tlb == r.cpu.tlb
      && t.cpu.exceptions == r.cpu.exceptions
      && (r.cpu.exceptions == s.exceptions ==>
            if s.branchPending then t.cpu.pc == r.cpu.nextPc && !t.cpu.branchPending
            else if r.cpu.branchPending then
              t.cpu.pc == (s.pc + 4) % TWO_TO_64 && t.cpu.nextPc == r.cpu.nextPc && t.cpu.branchPending
            else t.cpu.pc == r.cpu.nextPc && !t.cpu.branchPending)
      && (forall i | 0 <= i < 32 && i !in {COP0_RANDOM, COP0_COUNT, COP0_CAUSE} :: t.cpu.cop0[i] == r.cpu.cop0[i])
      && t.cpu.cop0[COP0_COUNT] == (r.cpu.cop0[COP0_COUNT] + 1) % TWO_TO_32
      && t.cpu.cop0[COP0_CAUSE] / 0x8000 % 2
         == (if t.cpu.cop0[COP0_COUNT] == r.cpu.cop0[COP0_COMPARE] then 1 else r.cpu.cop0[COP0_CAUSE] / 0x8000 % 2)
  {
    var r := Execute(m.(cpu := Dispatch(m.cpu)), w);
    RetireCop0(Sequence(m.cpu, r.cpu));
    hide Execute, Retire, Dispatch, Fetches, FetchedWord, TakesInterrupt;
  }

  // ---------------------------------------------------------------- branches

  /** The step of a conditional branch: the slot and then the target, or past the slot; a likely
      branch not taken goes past its slot at once; a linking one leaves the return address. */
  predicate Branches(m: Machine, t: Machine, taken: bool, likely: bool, link: bool, imm: Half) {
    var s := m.cpu;
    && Quiet(m, t)
    && t.cpu.gpr == (if link then s.gpr[31 := (s.pc + 8) % TWO_TO_64] else s.gpr)[0 := 0]
    && (if taken then
          t.cpu.branchPending && t.cpu.pc == (s.pc + 4) % TWO_TO_64
          && t.cpu.nextPc == (s.pc + 4 + 4 * Offset(imm)) % TWO_TO_64
        else if likely then !t.cpu.branchPending && t.cpu.pc == (s.pc + 8) % TWO_TO_64
        else
          t.cpu.branchPending && t.cpu.pc == (s.pc + 4) % TWO_TO_64 && t.cpu.nextPc == (s.pc + 8) % TWO_TO_64)
  }

  lemma BranchStep(m: Machine, w: u32, i: Instr, taken: bool, imm: Half)
    requires Executes(m, w) && !m.cpu.branchPending && Decode(w) == i && i.Branch?
    requires i.offset == Offset(imm) && taken == Holds(i.cond, m.cpu.gpr[i.rs], m.cpu.gpr[i.rt])
    ensures Branches(m, Step(m), taken, i.likely, i.link, imm)
  {
    hide Decode, Holds, Step, Executes, ExecBranch;
    StepOf(m, w);
    BranchEffect(Dispatch(m.cpu), i, taken);
  }

  lemma BranchEffect(s: CpuState, i: Instr, taken: bool)
    requires i.Branch? && taken == Holds(i.cond, s.gpr[i.rs], s.gpr[i.rt]) && !s.branchPending
    ensures var r := ExecBranch(s, i);
      && r.exceptions == s.exceptions && r.tlb == s.tlb && r.branchPending == (taken || !i.likely)
      && r.gpr == (if i.link then s.gpr[31 := (s.pc + 8) % TWO_TO_64] else s.gpr)
      && r.nextPc == (if taken then s.pc + 4 + 4 * i.offset else s.pc + 8) % TWO_TO_64
  {
    hide Holds;
  }

  /** BEQ, BNE and their likely forms go to the target exactly when the registers are equal, or
      differ. */
  lemma BranchOnEqual(m: Machine, op: nat, rs: Reg, rt: Reg, imm: Half)
    requires op in {0x04, 0x05, 0x14, 0x15} && Executes(m, IType(op, rs, rt, imm)) && !m.cpu.branchPending
    ensures var equal := m.cpu.gpr[rs] == m.cpu.gpr[rt];
      Branches(m, Step(m), if op == 0x04 || op == 0x14 then equal else !equal, op >= 0x14, false, imm)
  {
    hide IType, Op, Rs, Rt, SignedImm, Executes, Step, Branches, Offset;
    var w := IType(op, rs, rt, imm);
    ITypeFields(op, rs, rt, imm);
    BranchStep(m, w, Decode(w), Holds(Decode(w).cond, m.cpu.gpr[rs], m.cpu.gpr[rt]), imm);
  }

  /** BLEZ, BGTZ and their likely forms, by the register as a signed number. */
  lemma BranchOnSign(m: Machine, op: nat, rs: Reg, rt: Reg, imm: Half)
    requires op in {0x06, 0x07, 0x16, 0x17} && Executes(m, IType(op, rs, rt, imm)) && !m.cpu.branchPending
    ensures var positive := 0 < m.cpu.gpr[rs] < TWO_TO_63;
      Branches(m, Step(m), if op == 0x06 || op == 0x16 then !positive else positive, op >= 0x16, false, imm)
  {
    hide IType, Op, Rs, Rt, SignedImm, Executes, Step, Branches, Offset;
    var w := IType(op, rs, rt, imm);
    ITypeFields(op, rs, rt, imm);
    BranchStep(m, w, Decode(w), Holds(Decode(w).cond, m.cpu.gpr[rs], m.cpu.gpr[0]), imm);
  }

  /** BLTZ (0), BGEZ (1), likely (+2) and linking (+16). */
  lemma BranchOnNegative(m: Machine, rs: Reg, rt: Reg, imm: Half)
    requires rt in {0x00, 0x01, 0x02, 0x03, 0x10, 0x11, 0x12, 0x13}
    requires Executes(m, IType(0x01, rs, rt, imm)) && !m.cpu.branchPending
    ensures var negative := m.cpu.gpr[rs] >= TWO_TO_63;
      Branches(m, Step(m), if rt in {0x00, 0x02, 0x10, 0x12} then negative else !negative,
               rt in {0x02, 0x03, 0x12, 0x13}, rt >= 0x10, imm)
  {
    hide IType, Executes, Step, Branches, Offset, SignedImm;
    var w := IType(0x01, rs, rt, imm);
    ITypeFields(0x01, rs, rt, imm);
    DecodesRegimm(w);
    SignOf(m.cpu.gpr[rs]);
    hide Op, Rs, Rt, Decode, Holds;
    BranchStep(m, w, Decode(w), Holds(Decode(w).cond, m.cpu.gpr[rs], m.cpu.gpr[0]), imm);
  }

  lemma DecodesRegimm(w: u32)
    requires Op(w) == 0x01 && Rt(w) in {0x00, 0x01, 0x02, 0x03, 0x10, 0x11, 0x12, 0x13}
    ensures Decode(w) == Branch(if Rt(w) in {0x00, 0x02, 0x10, 0x12} then Ltz else Gez, Rs(w), 0, SignedImm(w),
                                Rt(w) in {0x02, 0x03, 0x12, 0x13}, Rt(w) >= 0x10)
  {
    hide Op, Rs, Rt, SignedImm;
  }

  lemma SignOf(v: u64)
    ensures Holds(Ltz, v, 0) <==> v >= TWO_TO_63
    ensures Holds(Gez, v, 0) <==> v < TWO_TO_63
    ensures forall b: u64 :: Holds(Ltz, v, b) == Holds(Ltz, v, 0) && Holds(Gez, v, b) == Holds(Gez, v, 0)
  {
  }

  /** The step of an unconditional jump: the slot, then the target. */
  predicate Jumps(m: Machine, t: Machine, target: int, link: Option<Reg>) {
    var s := m.cpu;
    && Quiet(m, t) && t.cpu.branchPending && t.cpu.pc == (s.pc + 4) % TWO_TO_64 && t.cpu.nextPc == target
    && t.cpu.gpr == (if link.Some? then s.gpr[link.value := (s.pc + 8) % TWO_TO_64] else s.gpr)[0 := 0]
  }

  /** J and JAL go to a word of the 256 MB region the jump itself lies in. */
  lemma JumpInRegion(m: Machine, op: nat, target: nat)
    requires op in {0x02, 0x03} && target < 0x400_0000 && Executes(m, op * 0x400_0000 + target) && !m.cpu.branchPending
    ensures Jumps(m, Step(m), m.cpu.pc - m.cpu.pc % 0x1000_0000 + 4 * target, if op == 0x03 then Some(31) else None)
  {
    var w := op * 0x400_0000 + target;
    DivMod(w, 0x400_0000, op, target);
    DecodesJump(w, op, target);
    RegionOf(m.cpu.pc);
    hide Jumps, Executes;
    JumpStep(m, w, target, op == 0x03, m.cpu.pc - m.cpu.pc % 0x1000_0000);
  }

  lemma DecodesJump(w: u32, op: nat, target: nat)
    requires op in {0x02, 0x03} && Op(w) == op && w % 0x400_0000 == target
    ensures Decode(w) == Jump(target, op == 0x03)
  {
    hide Op;
  }

  lemma RegionOf(pc: u64)
    ensures pc / 0x1000_0000 * 0x1000_0000 == pc - pc % 0x1000_0000
  {
  }

  lemma JumpStep(m: Machine, w: u32, target: nat, link: bool, region: int)
    requires Executes(m, w) && !m.cpu.branchPending && Decode(w) == Jump(target, link) && target < 0x400_0000
    requires region == m.cpu.pc / 0x1000_0000 * 0x1000_0000
    ensures Jumps(m, Step(m), region + 4 * target, if link then Some(31) else None)
  {
    StepOf(m, w);
    JumpOutcome(Dispatch(m.cpu), target, link, region);
    hide Decode, Step, Executes, ExecJump;
  }

  lemma JumpOutcome(s: CpuState, target: nat, link: bool, region: int)
    requires region == s.pc / 0x1000_0000 * 0x1000_0000 && target < 0x400_0000
    ensures var r := ExecJump(s, Jump(target, link));
      && r.nextPc == region + 4 * target && r.branchPending && r.exceptions == s.exceptions && r.tlb == s.tlb
      && r.gpr == if link then s.gpr[31 := (s.pc + 8) % TWO_TO_64] else s.gpr
  {
    SmallMod(target, 0x400_0000);
  }

  /** JR and JALR go where the register says; JALR links to `rd`, or to r31 when `rd` is r0. */
  lemma JumpToRegister(m: Machine, rs: Reg, rt: Reg, rd: Reg, sa: Reg, fn: nat)
    requires fn in {0x08, 0x09} && Executes(m, RType(0, rs, rt, rd, sa, fn)) && !m.cpu.branchPending
    ensures Jumps(m, Step(m), m.cpu.gpr[rs],
                  if fn == 0x08 then None else Some(if rd == 0 then 31 else rd))
  {
    hide RType;
    var w := RType(0, rs, rt, rd, sa, fn);
    RTypeFields(0, rs, rt, rd, sa, fn);
    DecodesJumpRegister(w);
    RegisterJumpStep(m, w, Decode(w));
  }

  lemma DecodesJumpRegister(w: u32)
    requires Op(w) == 0 && Fn(w) in {0x08, 0x09}
    ensures Decode(w) ==
      if Fn(w) == 0x08 then JumpRegister(Rs(w), 0, false)
      else JumpRegister(Rs(w), if Rd(w) == 0 then 31 else Rd(w), true)
  {
    hide Op, Rs, Rt, Rd, Fn;
  }

  lemma RegisterJumpStep(m: Machine, w: u32, i: Instr)
    requires Executes(m, w) && !m.cpu.branchPending && Decode(w) == i && i.JumpRegister? && (i.link ==> i.rd != 0)
    ensures Jumps(m, Step(m), m.cpu.gpr[i.rs], if i.link then Some(i.rd) else None)
  {
    StepOf(m, w);
    hide Decode, Step, Executes;
  }

  /** A quiet word in a delay slot that is no jump itself ends at the branch's target. */
  lemma SlotLands(m: Machine, w: u32)
    requires Executes(m, w) && m.cpu.branchPending && Step(m).cpu.exceptions == m.cpu.exceptions
    requires !IsControlTransfer(Decode(w)) && Decode(w) != Cop0(ExceptionReturn)
    ensures Flows(m, Step(m))
  {
    StepOf(m, w);
    KeepsTarget(m.(cpu := Dispatch(m.cpu)), w);
    hide Executes, Step, Decode, Execute;
  }

  lemma KeepsTarget(m: Machine, w: u32)
    requires !IsControlTransfer(Decode(w)) && Decode(w) != Cop0(ExceptionReturn)
    ensures var r := Execute(m, w).cpu; r.exceptions == m.cpu.exceptions ==> r.nextPc == m.cpu.nextPc
  {
    hide Decode, Translate, Read32, Write32, Ctx, ExceptionCop0, Vector, Sext32, ExecCop0;
    var i := Decode(w);
    match i
    case LoadWord(_, _, _) =>
    case StoreWord(_, _, _) =>
    case Cop0(op) => Cop0KeepsTarget(m.cpu, op);
    case _ =>
  }

  lemma Cop0KeepsTarget(s: CpuState, op: Cop0Op)
    requires op != ExceptionReturn
    ensures var r := ExecCop0(s, op); r.exceptions == s.exceptions ==> r.nextPc == s.nextPc
  {
    hide ExceptionCop0, Vector, Cop0Usable, Sext32, Probe;
  }

  /** Where a conditional branch ends, once its slot has been executed or skipped: at the target
      if it is taken, and two words on if it is not. */
  lemma BranchReaches(m: Machine, taken: bool, likely: bool, link: bool, imm: Half, slot: u32)
    requires Branches(m, Step(m), taken, likely, link, imm) && (likely ==> taken)
    requires Executes(Step(m), slot) && Step(Step(m)).cpu.exceptions == m.cpu.exceptions
    requires !IsControlTransfer(Decode(slot)) && Decode(slot) != Cop0(ExceptionReturn)
    ensures Step(Step(m)).cpu.pc == (if taken then m.cpu.pc + 4 + 4 * Offset(imm) else m.cpu.pc + 8) % TWO_TO_64
    ensures !Step(Step(m)).cpu.branchPending
  {
    hide Step, Executes, Decode;
    SlotLands(Step(m), slot);
  }

  // ---------------------------------------------------------------- arithmetic

  /** A 64-bit register that holds a 32-bit result: congruent to it, and sign-extended. */
  predicate SignExtends(x: u64, value: int) {
    x % TWO_TO_32 == value % TWO_TO_32 && (x < TWO_TO_31 || x >= TWO_TO_64 - TWO_TO_31)
  }

  /** The step writes one register, unless it is r0, and nothing else. */
  predicate Writes(m: Machine, t: Machine, r: Reg, value: int) {
    && Quiet(m, t) && Flows(m, t)
    && (r != 0 ==> SignExtends(t.cpu.gpr[r], value))
    && forall i | 0 < i < 32 && i != r :: t.cpu.gpr[i] == m.cpu.gpr[i]
  }

  lemma Sext32Extends(v: u32, value: int)
    requires v == value % TWO_TO_32
    ensures SignExtends(Sext32(v), value)
  {
    if v >= TWO_TO_31 {
      DivMod(v + (TWO_TO_64 - TWO_TO_32), TWO_TO_32, 0xFFFF_FFFF, v);
    }
  }

  /** The low half of a sum depends on the low halves only. */
  lemma LowSum(a: int, b: int)
    ensures (a % TWO_TO_32 + b) % TWO_TO_32 == (a + b) % TWO_TO_32
  {
    var q, r := (a % TWO_TO_32 + b) / TWO_TO_32, (a % TWO_TO_32 + b) % TWO_TO_32;
    DivMod(a + b, TWO_TO_32, a / TWO_TO_32 + q, r);
  }

  lemma WriteStep(m: Machine, w: u32, r: Reg, v: u32, value: int)
    requires Executes(m, w) && v == value % TWO_TO_32
    requires var d := m.(cpu := Dispatch(m.cpu)); Execute(d, w) == d.(cpu := WriteGpr(d.cpu, r, Sext32(v)))
    ensures Writes(m, Step(m), r, value)
  {
    StepOf(m, w);
    Sext32Extends(v, value);
    hide Step, Executes, Execute, Sext32, SignExtends;
  }

  /** The low half of a register as a signed number. */
  function Signed(v: u64): int {
    if v % TWO_TO_32 < TWO_TO_31 then v % TWO_TO_32 else v % TWO_TO_32 - TWO_TO_32
  }

  /** ADDIU: the sum modulo 2^32 with the sign-extended immediate. */
  lemma AddsImmediate(m: Machine, rs: Reg, rt: Reg, imm: Half)
    requires Executes(m, IType(0x09, rs, rt, imm))
    ensures Writes(m, Step(m), rt, m.cpu.gpr[rs] + Offset(imm))
  {
    hide IType, Op, Rs, Rt, SignedImm, Executes, Step, Offset, Writes, Signed;
    var w := IType(0x09, rs, rt, imm);
    ITypeFields(0x09, rs, rt, imm);
    DecodesAddImmediate(w);
    hide Decode;
    AddStep(m, w, AddImmediate(rs, rt, Offset(imm), false));
  }

  lemma AddStep(m: Machine, w: u32, i: Instr)
    requires Executes(m, w) && Decode(w) == i && i.AddImmediate?
    requires i.trap ==> -TWO_TO_31 <= Signed(m.cpu.gpr[i.rs]) + i.imm < TWO_TO_31
    ensures Writes(m, Step(m), i.rt, m.cpu.gpr[i.rs] + i.imm)
  {
    hide Decode, Executes, Step, Writes, Sext32;
    var v: u32 := (m.cpu.gpr[i.rs] % TWO_TO_32 + i.imm) % TWO_TO_32;
    LowSum(m.cpu.gpr[i.rs], i.imm);
    WriteStep(m, w, i.rt, v, m.cpu.gpr[i.rs] + i.imm);
  }

  /** A word that raises, raises its own cause. */
  lemma RaisingStep(m: Machine, w: u32, e: Cause)
    requires Executes(m, w) && !m.cpu.inDelaySlot
    requires var d := m.(cpu := Dispatch(m.cpu)); Execute(d, w) == d.(cpu := Raise(d.cpu, e))
    ensures PreciselyTaken(m.cpu, m.mem, Step(m), WordCause(m.cpu, w))
  {
    hide Step, PreciselyTaken, Execute, Raise, WordCause, FetchedWord, Fetches, TakesInterrupt;
    StepOf(m, w);
    RaiseShape(Dispatch(m.cpu), e);
    assert Dispatch(m.cpu).exceptions == m.cpu.exceptions;
    StepPrecise(m);
  }

  lemma OverflowStep(m: Machine, w: u32, i: Instr)
    requires Executes(m, w) && Decode(w) == i && i.AddImmediate? && !m.cpu.inDelaySlot
    requires i.trap && !(-TWO_TO_31 <= Signed(m.cpu.gpr[i.rs]) + i.imm < TWO_TO_31)
    ensures PreciselyTaken(m.cpu, m.mem, Step(m), Cause(EXC_OV, 0, false))
  {
    hide Decode, Step, PreciselyTaken, Sext32, RaiseException, Executes;
    RaisingStep(m, w, Cause(EXC_OV, 0, false));
  }

  lemma DecodesAddImmediate(w: u32)
    requires Op(w) in {0x08, 0x09}
    ensures Decode(w) == AddImmediate(Rs(w), Rt(w), SignedImm(w), Op(w) == 0x08)
  {
    hide Op, Rs, Rt, SignedImm;
  }

  /** ADDI: the same, but an integer overflow exception exactly when the signed sum does not fit. */
  lemma AddsOrOverflows(m: Machine, rs: Reg, rt: Reg, imm: Half)
    requires Executes(m, IType(0x08, rs, rt, imm)) && !m.cpu.inDelaySlot
    ensures if -TWO_TO_31 <= Signed(m.cpu.gpr[rs]) + Offset(imm) < TWO_TO_31
      then Writes(m, Step(m), rt, m.cpu.gpr[rs] + Offset(imm))
      else PreciselyTaken(m.cpu, m.mem, Step(m), Cause(12, 0, false))
  {
    hide IType, Op, Rs, Rt, SignedImm, Executes, Step, Offset, Writes, Signed, PreciselyTaken;
    var w := IType(0x08, rs, rt, imm);
    ITypeFields(0x08, rs, rt, imm);
    DecodesAddImmediate(w);
    hide Decode;
    if -TWO_TO_31 <= Signed(m.cpu.gpr[rs]) + Offset(imm) < TWO_TO_31 {
      AddStep(m, w, AddImmediate(rs, rt, Offset(imm), true));
    } else {
      OverflowStep(m, w, AddImmediate(rs, rt, Offset(imm), true));
    }
  }

  /** ADDU: the sum of the registers modulo 2^32. */
  lemma AddsRegisters(m: Machine, rs: Reg, rt: Reg, rd: Reg, sa: Reg)
    requires Executes(m, RType(0, rs, rt, rd, sa, 0x21))
    ensures Writes(m, Step(m), rd, m.cpu.gpr[rs] as int + m.cpu.gpr[rt])
  {
    hide RType, Executes, Step, Writes;
    var w := RType(0, rs, rt, rd, sa, 0x21);
    RTypeFields(0, rs, rt, rd, sa, 0x21);
    DecodesAdd(w);
    hide Decode;
    AddUnsignedStep(m, w, AddUnsigned(rs, rt, rd));
  }

  lemma DecodesAdd(w: u32)
    requires Op(w) == 0 && Fn(w) == 0x21
    ensures Decode(w) == AddUnsigned(Rs(w), Rt(w), Rd(w))
  {
    hide Op, Rs, Rt, Rd, Fn;
  }

  lemma AddUnsignedStep(m: Machine, w: u32, i: Instr)
    requires Executes(m, w) && Decode(w) == i && i.AddUnsigned?
    ensures Writes(m, Step(m), i.rd, m.cpu.gpr[i.rs] as int + m.cpu.gpr[i.rt])
  {
    hide Decode, Executes, Step, Writes, Sext32;
    var sum: int := m.cpu.gpr[i.rs] as int + m.cpu.gpr[i.rt];
    var v: u32 := sum % TWO_TO_32;
    WriteStep(m, w, i.rd, v, sum);
  }

  /** LUI: the immediate in the upper half of the low word. */
  lemma LoadsUpper(m: Machine, rs: Reg, rt: Reg, imm: Half)
    requires Executes(m, IType(0x0F, rs, rt, imm))
    ensures Writes(m, Step(m), rt, imm * 0x1_0000)
  {
    hide IType, Op, Rs, Rt, SignedImm, Executes, Step, Writes, Sext32;
    var w := IType(0x0F, rs, rt, imm);
    ITypeFields(0x0F, rs, rt, imm);
    assert Decode(w) == LoadUpper(rt, imm);
    hide Decode;
    SmallMod(imm, 0x1_0000);
    SmallMod(imm * 0x1_0000, TWO_TO_32);
    WriteStep(m, w, rt, imm * 0x1_0000, imm * 0x1_0000);
  }

  // ---------------------------------------------------------------- memory

  /** The word at a physical address, first byte most significant. */
  function WordAt(m: Memory, p: nat): int {
    Read8(m, p) as int * 0x100_0000 + Read8(m, p + 1) as int * 0x1_0000 + Read8(m, p + 2) as int * 0x100
    + Read8(m, p + 3)
  }

  /** A word-aligned physical address reads its four bytes. */
  lemma ReadsFourBytes(c: Context, m: Memory, addr: u64, isStore: bool)
    requires addr % 4 == 0 && Translate(c, addr, isStore).Mapped?
    ensures var p := Translate(c, addr, isStore).paddr;
      p % 4 == 0 && p < BUS_LIMIT && Read32(m, p) == WordAt(m, p) && (p < RDRAM_LIMIT ==> p + 4 <= RDRAM_LIMIT)
  {
    hide Translate, Read32, Read8;
    AlignedFrame(c, addr, isStore);
    Translates29(c, addr, isStore);
    var p := Translate(c, addr, isStore).paddr;
    SmallMod(p, BUS_LIMIT);
    Read32Bytes(m, p);
  }

  lemma LoadStep(m: Machine, w: u32, i: Instr, addr: u64)
    requires Executes(m, w) && Decode(w) == i && i.LoadWord? && addr == EffectiveAddress(m.cpu, i.rs, i.offset)
    requires !AccessFaults(m.cpu, addr, false)
    ensures Writes(m, Step(m), i.rt, Read32(m.mem, Translate(Ctx(m.cpu), addr, false).paddr))
  {
    CtxOf(m.cpu);
    hide Decode, Executes, Step, Writes, Sext32, Translate, Ctx, Read32;
    var v := Read32(m.mem, Translate(Ctx(m.cpu), addr, false).paddr);
    WriteStep(m, w, i.rt, v, v);
  }

  lemma FaultStep(m: Machine, w: u32, i: Instr, addr: u64)
    requires Executes(m, w) && Decode(w) == i && (i.LoadWord? || i.StoreWord?) && !m.cpu.inDelaySlot
    requires addr == EffectiveAddress(m.cpu, i.rs, i.offset) && AccessFaults(m.cpu, addr, i.StoreWord?)
    ensures PreciselyTaken(m.cpu, m.mem, Step(m), AccessCause(m.cpu, addr, i.StoreWord?))
  {
    CtxOf(m.cpu);
    var d, e := m.(cpu := Dispatch(m.cpu)), AccessCause(m.cpu, addr, i.StoreWord?);
    hide Decode, Executes, Step, PreciselyTaken, Translate, Ctx, Raise, EffectiveAddress;
    assert WordCause(m.cpu, w) == e && EffectiveAddress(d.cpu, i.rs, i.offset) == addr by { SameAddress(m.cpu, i); }
    if i.StoreWord? {
      StoreRaises(d, i);
    } else {
      LoadRaises(d, i);
    }
    hide ExecLoadWord, ExecStoreWord, Dispatch;
    RaisingStep(m, w, e);
  }

  lemma SameAddress(s: CpuState, i: Instr)
    requires i.LoadWord? || i.StoreWord?
    ensures EffectiveAddress(Dispatch(s), i.rs, i.offset) == EffectiveAddress(s, i.rs, i.offset)
  {
  }

  lemma DecodesAccess(w: u32)
    requires Op(w) in {0x23, 0x2B}
    ensures Decode(w) ==
      if Op(w) == 0x23 then LoadWord(Rs(w), Rt(w), SignedImm(w)) else StoreWord(Rs(w), Rt(w), SignedImm(w))
  {
    hide Op, Rs, Rt, SignedImm;
  }

  /** LW: the sign-extended word at the sum of register and offset, or the exception its address
      asks for. */
  lemma LoadsWord(m: Machine, rs: Reg, rt: Reg, imm: Half, addr: u64)
    requires Executes(m, IType(0x23, rs, rt, imm)) && !m.cpu.inDelaySlot
    requires addr == (m.cpu.gpr[rs] + Offset(imm)) % TWO_TO_64
    ensures if AccessFaults(m.cpu, addr, false)
      then PreciselyTaken(m.cpu, m.mem, Step(m), AccessCause(m.cpu, addr, false))
      else Writes(m, Step(m), rt, WordAt(m.mem, Translate(Ctx(m.cpu), addr, false).paddr))
  {
    hide IType, Op, Rs, Rt, SignedImm, Executes, Step, Offset, Writes, PreciselyTaken, Translate, Ctx, Read32, WordAt;
    var w := IType(0x23, rs, rt, imm);
    ITypeFields(0x23, rs, rt, imm);
    DecodesAccess(w);
    hide Decode;
    var i := LoadWord(rs, rt, Offset(imm));
    if AccessFaults(m.cpu, addr, false) {
      FaultStep(m, w, i, addr);
    } else {
      ReadsFourBytes(Ctx(m.cpu), m.mem, addr, false);
      LoadStep(m, w, i, addr);
    }
  }

  /** A step that changes memory only. */
  predicate Stores(m: Machine, t: Machine, mem: Memory) {
    && t.mem == mem && t.cpu.exceptions == m.cpu.exceptions && t.cpu.tlb == m.cpu.tlb
    && t.cpu.gpr == m.cpu.gpr[0 := 0] && Flows(m, t)
  }

  lemma StoreStep(m: Machine, w: u32, i: Instr, addr: u64)
    requires Executes(m, w) && Decode(w) == i && i.StoreWord? && addr == EffectiveAddress(m.cpu, i.rs, i.offset)
    requires !AccessFaults(m.cpu, addr, true)
    ensures Stores(m, Step(m),
                   Write32(m.mem, Translate(Ctx(m.cpu), addr, true).paddr, m.cpu.gpr[i.rt] % TWO_TO_32))
  {
    CtxOf(m.cpu);
    hide Decode, Executes, Step, Translate, Ctx, Write32;
    StepOf(m, w);
  }

  /** SW: the low half of the register becomes the word at the sum of register and offset and no
      other byte changes, or the exception its address asks for. */
  lemma StoresWord(m: Machine, rs: Reg, rt: Reg, imm: Half, addr: u64)
    requires Executes(m, IType(0x2B, rs, rt, imm)) && !m.cpu.inDelaySlot && |m.mem.ram| >= 4
    requires addr == (m.cpu.gpr[rs] + Offset(imm)) % TWO_TO_64
    ensures if AccessFaults(m.cpu, addr, true)
      then PreciselyTaken(m.cpu, m.mem, Step(m), AccessCause(m.cpu, addr, true))
      else
        var p := Translate(Ctx(m.cpu), addr, true).paddr;
        && Stores(m, Step(m), Step(m).mem)
        && (if p < RDRAM_LIMIT then
              Step(m).mem == WriteBytes(m.mem, p, WordBytes(m.cpu.gpr[rt] % TWO_TO_32))
              && WordAt(Step(m).mem, p) == m.cpu.gpr[rt] % TWO_TO_32
            else Step(m).mem == m.mem)
  {
    hide IType, Op, Rs, Rt, SignedImm, Executes, Step, Offset, PreciselyTaken, Translate, Ctx, Read32, Write32, WordAt,
         WriteBytes, WordBytes;
    var w := IType(0x2B, rs, rt, imm);
    ITypeFields(0x2B, rs, rt, imm);
    DecodesAccess(w);
    hide Decode;
    var i := StoreWord(rs, rt, Offset(imm));
    if AccessFaults(m.cpu, addr, true) {
      FaultStep(m, w, i, addr);
    } else {
      var v: u32 := m.cpu.gpr[rt] % TWO_TO_32;
      StoreStep(m, w, i, addr);
      ReadsFourBytes(Ctx(m.cpu), Step(m).mem, addr, true);
      StoredWord(m.mem, Translate(Ctx(m.cpu), addr, true).paddr, v);
    }
  }

  lemma StoredWord(m: Memory, p: nat, v: u32)
    requires p % 4 == 0 && p < BUS_LIMIT && (p < RDRAM_LIMIT ==> p + 4 <= RDRAM_LIMIT) && |m.ram| >= 4
    ensures if p < RDRAM_LIMIT then
        Write32(m, p, v) == WriteBytes(m, p, WordBytes(v)) && Read32(Write32(m, p, v), p) == v
      else Write32(m, p, v) == m
  {
    hide Write8, Read32, WriteBytes, WordBytes;
    if p < RDRAM_LIMIT {
      SmallMod(p, BUS_LIMIT);
      Write32IsBytes(m, p, v);
      Write32ReadsBack(m, p, v);
    } else {
      HighNotRam(m, p, 4);
      HighWrite8(m, p, Byte(v, 3));
      HighWrite8(m, p + 1, Byte(v, 2));
      HighWrite8(m, p + 2, Byte(v, 1));
      HighWrite8(m, p + 3, Byte(v, 0));
    }
  }

  /** Where a store may write a load may read, at the same place. */
  lemma StoreAndLoadAgree(c: Context, addr: u64)
    requires Translate(c, addr, true).Mapped?
    ensures Translate(c, addr, false) == Translate(c, addr, true)
  {
    hide FirstMatch;
  }

  /** SW and then LW at the same address: the register gets back the low half of what was stored,
      sign-extended, through any address of RDRAM the TLB or the segments give. */
  lemma StoreThenLoad(m: Machine, rs: Reg, rt: Reg, imm: Half, base: Reg, dest: Reg, off: Half, addr: u64)
    requires Executes(m, IType(0x2B, rs, rt, imm)) && Executes(Step(m), IType(0x23, base, dest, off))
    requires !m.cpu.inDelaySlot && |m.mem.ram| >= 4 && addr == (m.cpu.gpr[rs] + Offset(imm)) % TWO_TO_64
    requires !AccessFaults(m.cpu, addr, true) && Translate(Ctx(m.cpu), addr, true).paddr < RDRAM_LIMIT
    requires addr == (Step(m).cpu.gpr[base] + Offset(off)) % TWO_TO_64
    ensures Writes(Step(m), Step(Step(m)), dest, m.cpu.gpr[rt])
  {
    hide IType, Step, Offset, Writes, PreciselyTaken, Translate, Ctx, WordAt, WriteBytes, WordBytes, Flows,
         Fetches, FetchedWord, TakesInterrupt;
    StoresWord(m, rs, rt, imm, addr);
    StoreKeepsContext(m, rs, rt, imm);
    StoreAndLoadAgree(Ctx(m.cpu), addr);
    StepCounts(m);
    LoadsWord(Step(m), base, dest, off, addr);
    SameValue(Step(m), Step(Step(m)), dest, m.cpu.gpr[rt]);
  }

  lemma SameValue(m: Machine, t: Machine, r: Reg, value: int)
    requires Writes(m, t, r, value % TWO_TO_32)
    ensures Writes(m, t, r, value)
  {
    DivMod(value % TWO_TO_32, TWO_TO_32, 0, value % TWO_TO_32);
    hide Quiet, Flows;
  }

  lemma StoreKeepsContext(m: Machine, rs: Reg, rt: Reg, imm: Half)
    requires Executes(m, IType(0x2B, rs, rt, imm)) && Step(m).cpu.exceptions == m.cpu.exceptions
    ensures Ctx(Step(m).cpu) == Ctx(m.cpu)
  {
    hide IType, Op, Rs, Rt, SignedImm, ExecuteWord, Ctx, Fetches, FetchedWord, TakesInterrupt;
    var w := IType(0x2B, rs, rt, imm);
    ITypeFields(0x2B, rs, rt, imm);
    DecodesAccess(w);
    hide Decode;
    ContextKept(m, w);
  }

  // ---------------------------------------------------------------- traps

  /** SYSCALL and BREAK raise their exceptions, wherever they are. */
  lemma Traps(m: Machine, rs: Reg, rt: Reg, rd: Reg, sa: Reg, fn: nat)
    requires fn in {0x0C, 0x0D} && Executes(m, RType(0, rs, rt, rd, sa, fn)) && !m.cpu.inDelaySlot
    ensures PreciselyTaken(m.cpu, m.mem, Step(m), Cause(if fn == 0x0C then 8 else 9, 0, false))
  {
    hide RType, Executes, Step, PreciselyTaken;
    var w := RType(0, rs, rt, rd, sa, fn);
    RTypeFields(0, rs, rt, rd, sa, fn);
    DecodesTrap(w);
    hide Decode;
    TrapStep(m, w, fn == 0x0C);
  }

  lemma DecodesTrap(w: u32)
    requires Op(w) == 0 && Fn(w) in {0x0C, 0x0D}
    ensures Decode(w) == if Fn(w) == 0x0C then Syscall else Break
  {
    hide Op, Rs, Rt, Rd, Fn;
  }

  lemma TrapStep(m: Machine, w: u32, system: bool)
    requires Executes(m, w) && !m.cpu.inDelaySlot && Decode(w) == if system then Syscall else Break
    ensures PreciselyTaken(m.cpu, m.mem, Step(m), Cause(if system then EXC_SYS else EXC_BP, 0, false))
  {
    hide Decode, RaiseException, PreciselyTaken, Step, Executes;
    RaisingStep(m, w, Cause(if system then EXC_SYS else EXC_BP, 0, false));
  }
}
