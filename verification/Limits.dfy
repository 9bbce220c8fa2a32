/** Where cached execution stops being exact: for each kind of condition a run must respect, an
    equivalence that says on which inputs the code goes wrong. `Divergence` has a machine for each. */
module Limits {
  import opened Words
  import opened Translation
  import opened PhysicalMemory
  import opened Blocks
  import opened Processor
  import opened BlockCaching
  import opened Coherence
  import opened Refinement
  import opened Exceptions

  // ---------------------------------------------------------------- alignment

  /** A load whose address is the program counter itself, in the 32 bits that are recorded. */
  predicate LoadsItself(s: CpuState, w: u32) {
    match Decode(w)
    case LoadWord(rs, _, offset) => EffectiveAddress(s, rs, offset) % TWO_TO_32 == s.pc % TWO_TO_32
    case _ => false
  }

  /** Compilation has no address check: the first word of a block does what the interpreter does if
      and only if the program counter is word aligned, or the word raises the very same address
      error by itself. */
  lemma AlignmentExact(m: Machine, b: BasicBlock)
    requires !m.cpu.halted && !m.cpu.branchPending && !TakesInterrupt(m.cpu)
    requires Fresh(Ctx(m.cpu), m.mem, m.cpu.pc) == Some(b)
    ensures ExecuteWord(m, b.insns[0]) == Step(m) <==> m.cpu.pc % 4 == 0 || LoadsItself(m.cpu, b.insns[0])
  {
    FirstWord(Ctx(m.cpu), m.mem, m.cpu.pc);
    hide Translate, ExecuteWord, TakesInterrupt, Ctx, Straight, StopsAtBranch, Read32, LoadsItself;
    if m.cpu.pc % 4 != 0 {
      MisalignedWord(m, b.insns[0]);
    }
  }

  lemma FirstWord(c: Context, m: Memory, pc: u64)
    requires Translate(c, pc, false).Mapped?
    ensures var line := Straight(c, m, pc, MAX_BLOCK_INSNS);
      line != [] && line[0] == Read32(m, Translate(c, pc, false).paddr)
  {
    hide Translate, Read32, IsBranchOrJump, IsTerminal, Next;
  }

  /** At a misaligned program counter the interpreter raises an address error for it. */
  lemma MisalignedRaises(m: Machine)
    requires !m.cpu.halted && !TakesInterrupt(m.cpu) && m.cpu.pc % 4 != 0
    ensures var (e, d) := (Cause(EXC_ADEL, m.cpu.pc, false), m.cpu.(inDelaySlot := m.cpu.branchPending));
      && Step(m) == m.(cpu := Retire(Raise(d, e))) && PreciselyTaken(m.cpu, m.mem, Step(m), e)
      && Step(m).cpu.exceptions == m.cpu.exceptions + 1
  {
    var s := m.cpu;
    FetchRaises(s);
    RaisePrecise(s, s.(inDelaySlot := s.branchPending), m.mem, AccessCause(s, s.pc, false));
    hide TakesInterrupt, Retire, Raise, Translate, Ctx, FetchFault;
  }

  lemma MisalignedWord(m: Machine, w: u32)
    requires !m.cpu.halted && !m.cpu.branchPending && !TakesInterrupt(m.cpu) && m.cpu.pc % 4 != 0
    ensures ExecuteWord(m, w) == Step(m) <==> LoadsItself(m.cpu, w)
  {
    MisalignedRaises(m);
    if LoadsItself(m.cpu, w) {
      SelfLoadRaises(m, w);
    }
    var s, e := m.cpu, WordCause(m.cpu, w);
    hide Step, ExecuteWord, TakesInterrupt, WordCause, LoadsItself, PreciselyTaken, Retire, Raise;
    if ExecuteWord(m, w).cpu.exceptions != s.exceptions {
      WordPrecise(m, w);
      if LoadsItself(s, w) {
        SameRaise(s, e);
      } else if ExecuteWord(m, w) == Step(m) {
        OneCause(s, m.mem, Step(m), e);
        ErrorAddress(s, w);
      }
    }
  }

  lemma SameRaise(s: CpuState, e: Cause)
    requires !s.branchPending && e.code == EXC_ADEL && !e.refill && e.bad % TWO_TO_32 == s.pc % TWO_TO_32
    ensures Raise(Dispatch(s), e) == Raise(s.(inDelaySlot := s.branchPending), Cause(EXC_ADEL, s.pc, false))
  {
    hide CauseCode, RecordCause, RecordAddress, Vector;
  }

  /** The state an exception leaves shows its code and, for an address error, the address. */
  lemma OneCause(s: CpuState, mem: Memory, t: Machine, e: Cause)
    requires PreciselyTaken(s, mem, t, e) && PreciselyTaken(s, mem, t, Cause(EXC_ADEL, s.pc, false))
    ensures e.code == EXC_ADEL && e.bad % TWO_TO_32 == s.pc % TWO_TO_32
  {
    hide AtVector, OthersKept;
  }

  lemma ErrorAddress(s: CpuState, w: u32)
    requires WordCause(s, w).code == EXC_ADEL && WordCause(s, w).bad % TWO_TO_32 == s.pc % TWO_TO_32
    ensures LoadsItself(s, w)
  {
    hide Decode, Translate, EffectiveAddress, Ctx;
  }

  /** A load from a misaligned address raises. */
  lemma SelfLoadRaises(m: Machine, w: u32)
    requires LoadsItself(m.cpu, w) && m.cpu.pc % 4 != 0
    ensures ExecuteWord(m, w).cpu.exceptions == m.cpu.exceptions + 1
    ensures var e := WordCause(m.cpu, w); e.code == EXC_ADEL && !e.refill && e.bad % TWO_TO_32 == m.cpu.pc % TWO_TO_32
  {
    var d, i := m.(cpu := Dispatch(m.cpu)), Decode(w);
    var addr := EffectiveAddress(m.cpu, i.rs, i.offset);
    LowTwoBits(addr);
    LowTwoBits(m.cpu.pc);
    LoadRaises(d, i);
    var e := WordCause(d.cpu, w);
    RaiseShape(d.cpu, e);
    SameCause(m.cpu, w);
    RetireKeeps(Sequence(m.cpu, Execute(d, w).cpu));
    hide Decode, Translate, EffectiveAddress, Ctx, Retire, Raise, ExecLoadWord, Dispatch;
  }

  lemma LowTwoBits(x: u64)
    ensures x % TWO_TO_32 % 4 == x % 4
  {
    var q, r := x / TWO_TO_32, x % TWO_TO_32;
    DivMod(x, 4, 0x4000_0000 * q + r / 4, r % 4);
  }

  /** Every write that overlaps a block drops it if and only if the block is on the reverse list,
      word aligned, or at most 32 words long: the look-back of 32 words is one too few for a
      longest direct-mapped block that is not aligned, and for no other. */
  lemma WindowExact(index: nat, b: BasicBlock)
    requires Placed(index, b)
    ensures (forall p: nat, size: nat ::
              0 < size < TABLE_SIZE * 4 && Overlaps(b, p, size) ==> Dropped(index, b, p, size))
      <==> !DirectMapped(b.startPc, b.paddr) || b.paddr % 4 == 0 || |b.insns| <= MAX_BLOCK_INSNS
  {
    if DirectMapped(b.startPc, b.paddr) && !Findable(b) {
      WindowMisses(index, b);
      var p, size: nat := b.paddr + 131, 1;
      assert Overlaps(b, p, size) && !Dropped(index, b, p, size);
    } else if Findable(b) {
      forall p: nat, size: nat | 0 < size < TABLE_SIZE * 4 && Overlaps(b, p, size)
        ensures Dropped(index, b, p, size)
      {
        FindableDropped(index, b, p, size);
      }
    }
  }

  /** The write that is missed: the last byte but two of the last word. */
  lemma WindowMisses(index: nat, b: BasicBlock)
    requires Placed(index, b) && DirectMapped(b.startPc, b.paddr) && |b.insns| == MAX_BLOCK_INSNS + 1
    requires b.paddr % 4 != 0
    ensures Overlaps(b, b.paddr + 131, 1) && !Dropped(index, b, b.paddr + 131, 1)
  {
    DirectIndex(b.startPc, b.paddr);
    var w, r, p := b.paddr / 4, b.paddr % 4, b.paddr + 131;
    assert p == 4 * (w + 33) + (r - 1);
    DivMod(p, 4, w + 33, r - 1);
    assert FirstCandidate(p) == w + 1;
    forall v | w + 1 <= v < w + 34
      ensures v % TABLE_SIZE != w % TABLE_SIZE
    {
      assert 0 < v - w < TABLE_SIZE;
    }
    hide DirectMapped, SlotIndex;
  }

  /** RDRAM repeats through its window. A changing word write, made through any copy, to a word of
      a block, compiled from any copy, drops the block or leaves it right if and only if the two
      copies are the same. */
  lemma MirrorWriteExact(cache: Contents, c: Context, m: Memory, i: nat, b: BasicBlock, k: nat, addr: nat, v: u32)
    requires i in cache && cache[i] == b && i == SlotIndex(b.startPc) && k < |b.insns|
    requires b.startPc % 4 == 0 && Fresh(c, m, b.startPc) == Some(b) && Contiguous(c, m, b.startPc, MAX_BLOCK_INSNS)
    requires b.paddr + 4 * |b.insns| <= RDRAM_LIMIT && InRam(m, b.paddr, 4 * |b.insns|)
    requires addr < RDRAM_LIMIT && InRam(m, addr, 4)
    requires addr % |m.ram| == (b.paddr + 4 * k) % |m.ram| && v != Read32(m, addr)
    ensures (i in AfterInvalidate(cache, addr, 4) ==> Fresh(c, Write32(m, addr, v), b.startPc) == Some(b))
      <==> addr / |m.ram| == b.paddr / |m.ram|
  {
    AlignedFrame(c, b.startPc, false);
    hide Translate, Straight, StopsAtBranch, Contiguous, Dropped, SlotIndex, InRam, Read32, Write32;
    FindableDropped(i, b, addr, 4);
    hide Overlaps;
    SameCopy(m, b, k, addr);
    StaleThroughMirror(c, m, b, k, addr, v);
  }

  /** The copy decides where a word of the block is written. */
  lemma SameCopy(m: Memory, b: BasicBlock, k: nat, addr: nat)
    requires k < |b.insns| && b.paddr + 4 * |b.insns| <= RDRAM_LIMIT && InRam(m, b.paddr, 4 * |b.insns|)
    requires addr < RDRAM_LIMIT && InRam(m, addr, 4) && addr % |m.ram| == (b.paddr + 4 * k) % |m.ram|
    ensures InRam(m, b.paddr + 4 * k, 4) && addr % |m.ram| == b.paddr % |m.ram| + 4 * k
    ensures Overlaps(b, addr, 4) <==> addr / |m.ram| == b.paddr / |m.ram|
  {
    RamPlace(m, b.paddr, 4 * |b.insns|);
    RamPlace(m, b.paddr + 4 * k, 4);
    RamPlace(m, addr, 4);
    hide InRam;
    Copies(|m.ram|, b.paddr, |b.insns|, k, addr);
  }

  lemma RamPlace(m: Memory, a: nat, size: nat)
    requires a < RDRAM_LIMIT
    ensures InRam(m, a, size) <==> m.ram != [] && a % |m.ram| + size <= |m.ram|
  {
  }

  lemma Copies(n: nat, p: nat, len: nat, k: nat, a: nat)
    requires n > 0 && k < len && p % n + 4 * len <= n && a % n == (p + 4 * k) % n
    ensures (p + 4 * k) % n == p % n + 4 * k
    ensures a < p + 4 * len && a + 4 > p <==> a / n == p / n
  {
    InCopy(n, p, 4 * k, p / n, p % n);
    InCopy(n, a, 0, a / n, a % n);
    Apart(n, p / n, a / n);
  }

  lemma InCopy(n: nat, x: nat, d: nat, f: int, o: int)
    requires n > 0 && f == x / n && o == x % n && o + d < n
    ensures x == n * f + o && (x + d) % n == o + d
  {
    DivMod(x + d, n, f, o + d);
  }

  lemma Apart(n: nat, f: int, g: int)
    requires n > 0
    ensures n * g + n <= n * f <==> g < f
    ensures n * f + n <= n * g <==> f < g
  {
    MulGap(n, f - g);
    assert n * f - n * g == n * (f - g);
  }

  lemma StaleThroughMirror(c: Context, m: Memory, b: BasicBlock, k: nat, addr: nat, v: u32)
    requires b.startPc % 4 == 0 && Fresh(c, m, b.startPc) == Some(b) && Contiguous(c, m, b.startPc, MAX_BLOCK_INSNS)
    requires k < |b.insns| && InRam(m, b.paddr + 4 * k, 4) && b.paddr + 4 * k < RDRAM_LIMIT
    requires addr < RDRAM_LIMIT && InRam(m, addr, 4)
    requires addr % |m.ram| == (b.paddr + 4 * k) % |m.ram| && v != Read32(m, addr)
    ensures Fresh(c, Write32(m, addr, v), b.startPc) != Some(b)
  {
    hide Translate, Straight, Contiguous, StopsAtBranch, Read32, Write32, InRam;
    var n, q := Write32(m, addr, v), b.paddr + 4 * k;
    SameWord(m, addr, q);
    StraightReadsMemory(c, m, b.startPc, MAX_BLOCK_INSNS, k);
    ReadThroughMirror(m, addr, v, q);
    if Fresh(c, n, b.startPc) == Some(b) {
      SameLine(c, m, n, b.startPc, MAX_BLOCK_INSNS);
      StraightReadsMemory(c, n, b.startPc, MAX_BLOCK_INSNS, k);
    }
  }

  /** Two addresses of one word of RDRAM read the same. */
  lemma SameWord(m: Memory, addr: nat, q: nat)
    requires InRam(m, addr, 4) && InRam(m, q, 4) && addr < RDRAM_LIMIT && q < RDRAM_LIMIT
    requires addr % |m.ram| == q % |m.ram|
    ensures Read32(m, addr) == Read32(m, q)
  {
    hide Word;
    assert Physical(addr) == addr && Physical(q) == q;
  }

  lemma ReadThroughMirror(m: Memory, addr: nat, v: u32, q: nat)
    requires InRam(m, addr, 4) && InRam(m, q, 4) && addr < RDRAM_LIMIT && q < RDRAM_LIMIT
    requires addr % |m.ram| == q % |m.ram|
    ensures Read32(Write32(m, addr, v), q) == v
  {
    ReadOwnWrite(m, addr, v);
    var n := Write32(m, addr, v);
    assert |n.ram| == |m.ram|;
    SameWord(n, addr, q);
  }

  /** The words a block still has to execute match memory after a store from inside it
      exactly when the store misses them or writes the word already there. */
  lemma SelfStoreExact(c: Context, mem: Memory, pc: u64, b: BasicBlock, i: nat, p: nat, v: u32)
    requires OnLine(c, mem, pc, b, i) && p % 4 == 0 && b.paddr % 4 == 0 && Settled(mem, p, 4)
    requires b.paddr + 4 * |b.insns| <= |mem.ram| <= RDRAM_LIMIT
    ensures (forall j :: i < j < |b.insns| ==> b.insns[j] == Read32(Write32(mem, p, v), b.paddr + 4 * j))
      <==> (p < b.paddr + 4 * (i + 1) || p >= b.paddr + 4 * |b.insns| || v == Read32(mem, p))
  {
    var n := Write32(mem, p, v);
    hide OnLine, Write32, Read32, Settled;
    forall j | i < j < |b.insns|
      ensures b.insns[j] == Read32(n, b.paddr + 4 * j) <==>
        (p != b.paddr + 4 * j || v == Read32(mem, p))
    {
      WordAfterStore(c, mem, pc, b, i, p, v, j);
    }
    if b.paddr + 4 * (i + 1) <= p < b.paddr + 4 * |b.insns| {
      var j := (p - b.paddr) / 4;
      assert p == b.paddr + 4 * j && i < j < |b.insns|;
      assert b.insns[j] == Read32(n, b.paddr + 4 * j) <==> v == Read32(mem, p);
    }
  }

  lemma WordAfterStore(c: Context, mem: Memory, pc: u64, b: BasicBlock, i: nat, p: nat, v: u32, j: nat)
    requires OnLine(c, mem, pc, b, i) && p % 4 == 0 && b.paddr % 4 == 0 && Settled(mem, p, 4)
    requires b.paddr + 4 * |b.insns| <= |mem.ram| <= RDRAM_LIMIT && i < j < |b.insns|
    ensures b.insns[j] == Read32(Write32(mem, p, v), b.paddr + 4 * j) <==>
      (p != b.paddr + 4 * j || v == Read32(mem, p))
  {
    hide OnLine, Write32, Read32, ChangedOnly, InRam;
    LineWord(c, mem, pc, b, i, j);
    var q := b.paddr + 4 * j;
    LowIndex(mem, q, 4);
    if p == q {
      ReadOwnWrite(mem, p, v);
    } else {
      Write32ChangesOnly(mem, p, v);
      ReadFrame(mem, Write32(mem, p, v), p, 4, q);
    }
  }

  lemma LineWord(c: Context, mem: Memory, pc: u64, b: BasicBlock, i: nat, j: nat)
    requires OnLine(c, mem, pc, b, i) && i <= j < |b.insns|
    ensures b.insns[j] == Read32(mem, b.paddr + 4 * j)
  {
    hide Translate, Read32, Straight, Contiguous, Settled;
    StraightReadsMemory(c, mem, pc, MAX_BLOCK_INSNS - i, j - i);
    assert b.insns[i..][j - i] == b.insns[j];
    assert b.paddr + 4 * i + 4 * (j - i) == b.paddr + 4 * j;
  }

  // ---------------------------------------------------------------- moves inside a block

  /** The words `KeepsLine` is about: DMTC0 to EntryHi or Status, and the encodings of ERET
      that do not end a block. */
  lemma OnlyMoves(s: CpuState, w: u32)
    requires MovesContext(s, w) && !IsTerminal(w)
    ensures UnguardedMove(w) || (Op(w) == 0x10 && Rs(w) > 0x10 && Fn(w) == 0x18)
    ensures !IsBranchOrJump(w)
  {
    hide Rt, SignedImm, Cop0Usable;
  }

  /** After a move inside a block the next cached word is the one the interpreter fetches if and
      only if the new context maps the next address to a frame that holds the same word; in KSEG0
      and KSEG1, if and only if the machine is still in kernel mode. */
  lemma MoveExact(m: Machine, b: BasicBlock, i: nat)
    requires OnTrack(m, b, i) && !m.cpu.branchPending && i + 1 < |b.insns|
    requires MovesContext(m.cpu, b.insns[i]) && !IsTerminal(b.insns[i])
    requires ExecuteWord(m, b.insns[i]).cpu.pc == Next(m.cpu.pc)
    ensures var t := ExecuteWord(m, b.insns[i]);
      && ((Fetches(t.cpu) && FetchedWord(t) == b.insns[i + 1]) <==>
          match Translate(Ctx(t.cpu), Next(m.cpu.pc), false)
          case Mapped(q) => Read32(m.mem, q) == Read32(m.mem, b.paddr + 4 * (i + 1))
          case Fault(_) => false)
      && (DirectSegment(Next(m.cpu.pc) % TWO_TO_32) ==>
          ((Fetches(t.cpu) && FetchedWord(t) == b.insns[i + 1]) <==> Ctx(t.cpu).mode == 0))
  {
    var w, t := b.insns[i], ExecuteWord(m, b.insns[i]);
    hide ExecuteWord, StoredAt, OnLine, ClearsCache, Fetches, FetchedWord, Read32, Ctx, Translate, Next, DirectSegment,
         UnguardedMove;
    assert OnLine(Ctx(m.cpu), m.mem, m.cpu.pc, b, i);
    WordEffects(m, w);
    OnlyMoves(m.cpu, w);
    MoveStoresNothing(m.cpu, w);
    NextFetched(Ctx(m.cpu), m.mem, m.cpu.pc, b, i, t);
  }

  /** Which word the interpreter fetches after word `i` of a line, in whatever context it is. */
  lemma NextFetched(c: Context, mem: Memory, pc: u64, b: BasicBlock, i: nat, t: Machine)
    requires OnLine(c, mem, pc, b, i) && i + 1 < |b.insns| && !IsBranchOrJump(b.insns[i])
    requires t.mem == mem && t.cpu.pc == Next(pc)
    ensures (Fetches(t.cpu) && FetchedWord(t) == b.insns[i + 1]) <==>
      match Translate(Ctx(t.cpu), Next(pc), false)
      case Mapped(q) => Read32(mem, q) == Read32(mem, b.paddr + 4 * (i + 1))
      case Fault(_) => false
    ensures DirectSegment(Next(pc) % TWO_TO_32) ==>
      ((Fetches(t.cpu) && FetchedWord(t) == b.insns[i + 1]) <==> Ctx(t.cpu).mode == 0)
  {
    hide OnLine, Fetches, FetchedWord, Read32, Ctx, Translate, Next, DirectSegment, IsBranchOrJump;
    LineAdvances(c, mem, pc, b, i);
    LineWord(c, mem, Next(pc), b, i + 1, i + 1);
    LineAt(c, mem, Next(pc), b, i + 1);
    FetchOf(t);
    if DirectSegment(Next(pc) % TWO_TO_32) {
      DirectTranslation(c, Next(pc), false);
      DirectTranslation(Ctx(t.cpu), Next(pc), false);
    }
  }

  lemma FetchOf(m: Machine)
    requires m.cpu.pc % 4 == 0
    ensures Fetches(m.cpu) <==> Translate(Ctx(m.cpu), m.cpu.pc, false).Mapped?
    ensures Fetches(m.cpu) ==> FetchedWord(m) == Read32(m.mem, Translate(Ctx(m.cpu), m.cpu.pc, false).paddr)
  {
    hide Translate, Read32;
  }

  lemma LineAt(c: Context, mem: Memory, pc: u64, b: BasicBlock, i: nat)
    requires OnLine(c, mem, pc, b, i)
    ensures Translate(c, pc, false) == Mapped(b.paddr + 4 * i) && pc % 4 == 0
  {
    hide Translate, Settled, Straight, Contiguous;
  }

  /** In KSEG0 and KSEG1, short of their last page, only the mode matters: a move that stays in
      kernel mode, such as one to a new ASID, keeps every line there. */
  lemma DirectMove(m: Machine, w: u32)
    requires Ctx(m.cpu).mode == 0 && Ctx(ExecuteWord(m, w).cpu).mode == 0
    requires Next(m.cpu.pc) % 4 == 0 && 0x8000_0000 <= Next(m.cpu.pc) % TWO_TO_32 < 0xBFFF_F000
    ensures KeepsLine(m, w)
  {
    var c, d, pc := Ctx(m.cpu), Ctx(ExecuteWord(m, w).cpu), Next(m.cpu.pc);
    hide Ctx, ExecuteWord, MovesContext, IsTerminal, Next, Translate, Straight, Contiguous;
    forall k | 0 <= k <= MAX_BLOCK_INSNS
      ensures Straight(c, m.mem, pc, k) == Straight(d, m.mem, pc, k)
      ensures Contiguous(c, m.mem, pc, k) == Contiguous(d, m.mem, pc, k)
    {
      DirectLine(c, d, m.mem, pc, k);
    }
    DirectTranslation(c, pc, false);
    DirectTranslation(d, pc, false);
  }

  lemma {:induction false} DirectLine(c: Context, d: Context, mem: Memory, pc: u64, budget: nat)
    requires c.mode == 0 && d.mode == 0 && pc % 4 == 0 && 0x8000_0000 <= pc % TWO_TO_32 < 0xBFFF_F000
    ensures Straight(c, mem, pc, budget) == Straight(d, mem, pc, budget)
    ensures Contiguous(c, mem, pc, budget) == Contiguous(d, mem, pc, budget)
    decreases budget
  {
    hide Translate, Read32, IsBranchOrJump, IsTerminal;
    DirectNext(pc);
    DirectTranslation(c, pc, false);
    DirectTranslation(d, pc, false);
    DirectTranslation(c, Next(pc), false);
    DirectTranslation(d, Next(pc), false);
    if budget > 0 && Next(pc) % PAGE != 0 {
      DirectLine(c, d, mem, Next(pc), budget - 1);
    }
  }

  lemma DirectNext(pc: u64)
    requires pc % 4 == 0 && 0x8000_0000 <= pc % TWO_TO_32 < 0xBFFF_F000
    ensures Next(pc) % 4 == 0 && Next(pc) % TWO_TO_32 == pc % TWO_TO_32 + 4
    ensures Next(pc) % PAGE != 0 ==> Next(pc) % TWO_TO_32 < 0xBFFF_F000
  {
    var h, v := pc / TWO_TO_32, pc % TWO_TO_32;
    SmallMod(pc + 4, TWO_TO_64);
    DivMod(pc + 4, TWO_TO_32, h, v + 4);
    DivMod(pc + 4, PAGE, 0x10_0000 * h + (v + 4) / PAGE, (v + 4) % PAGE);
  }

  // ---------------------------------------------------------------- the delay slot's frame

  /** A changing write to the delay slot is noticed, or harmless, if and only if the slot's frame
      follows the block's: with a branch as the last word of a page and its slot in any other
      frame, the block stays cached with the old word. For blocks of any length. */
  lemma SlotFrameExact(c: Context, m: Memory, pc: u64, s: u64, v: u32)
    requires pc % 4 == 0 && Translate(c, pc, false).Mapped?
    requires SlotAddress(c, m, pc, MAX_BLOCK_INSNS) == Some(s) && Translate(c, s, false).Mapped?
    requires var (p, q) := (Translate(c, pc, false).paddr, Translate(c, s, false).paddr);
      && q + 4 <= |m.ram| <= RDRAM_LIMIT && v != Read32(m, q)
      && Settled(m, p, 4 * |Straight(c, m, pc, MAX_BLOCK_INSNS)|)
    ensures var (p, q) := (Translate(c, pc, false).paddr, Translate(c, s, false).paddr);
      var b := FreshBlock(c, m, pc, p);
      (Overlaps(b, q, 4) || FreshBlock(c, Write32(m, q, v), pc, p) == b)
        <==> Contiguous(c, m, pc, MAX_BLOCK_INSNS)
  {
    var p, q := Translate(c, pc, false).paddr, Translate(c, s, false).paddr;
    var k := |Straight(c, m, pc, MAX_BLOCK_INSNS)| - 1;
    hide Translate, Read32, Write32, Straight, Contiguous, SlotAddress, StopsAtBranch, Settled;
    SlotPlace(c, m, pc, MAX_BLOCK_INSNS);
    if q != p + 4 * k {
      SlotStale(c, m, pc, s, v, p, q, k);
    }
  }

  lemma SlotStale(c: Context, m: Memory, pc: u64, s: u64, v: u32, p: u32, q: u32, k: nat)
    requires pc % 4 == 0 && Translate(c, pc, false) == Mapped(p) && Translate(c, s, false) == Mapped(q)
    requires SlotAddress(c, m, pc, MAX_BLOCK_INSNS) == Some(s) && k + 1 == |Straight(c, m, pc, MAX_BLOCK_INSNS)|
    requires q + 4 <= |m.ram| <= RDRAM_LIMIT && v != Read32(m, q) && Settled(m, p, 4 * (k + 1)) && q != p + 4 * k
    ensures q + 4 <= p || p + 4 * (k + 1) <= q
    ensures Straight(c, Write32(m, q, v), pc, MAX_BLOCK_INSNS) != Straight(c, m, pc, MAX_BLOCK_INSNS)
  {
    hide Translate, Read32, Write32, Straight, Contiguous, SlotAddress, StopsAtBranch, ChangedOnly, InRam, AgreeOn;
    SlotPlace(c, m, pc, MAX_BLOCK_INSNS);
    PagesApart(p, q, k);
    var n := Write32(m, q, v);
    SlotWritten(m, q, v);
    WordsBefore(m, q, v, p, k);
    SlotRewritten(c, m, n, pc, MAX_BLOCK_INSNS, k);
    SlotPlace(c, n, pc, MAX_BLOCK_INSNS);
  }

  lemma SlotWritten(m: Memory, q: nat, v: u32)
    requires q + 4 <= |m.ram| <= RDRAM_LIMIT
    ensures Read32(Write32(m, q, v), q) == v
  {
    LowIndex(m, q, 4);
    ReadOwnWrite(m, q, v);
    hide Read32, Write32;
  }

  lemma WordsBefore(m: Memory, q: nat, v: u32, p: nat, k: nat)
    requires q + 4 <= |m.ram| <= RDRAM_LIMIT && Settled(m, p, 4 * (k + 1))
    requires q + 4 <= p || p + 4 * k <= q
    ensures AgreeOn(m, Write32(m, q, v), p, k)
  {
    hide Read32, Write32, ChangedOnly;
    Write32ChangesOnly(m, q, v);
    SmallMod(q, BUS_LIMIT);
    forall i | 0 <= i < k
      ensures Read32(Write32(m, q, v), p + 4 * i) == Read32(m, p + 4 * i)
    {
      ReadFrame(m, Write32(m, q, v), q, 4, p + 4 * i);
    }
  }

  lemma PagesApart(p: nat, q: nat, k: nat)
    requires k <= MAX_BLOCK_INSNS && q % PAGE == 0 && p % PAGE + 4 * k == PAGE && q != p + 4 * k
    ensures q + 4 <= p || p + 4 * (k + 1) <= q
  {
    var a, e := p / PAGE, q / PAGE;
    assert p == PAGE * a + p % PAGE && q == PAGE * e;
  }

  // ---------------------------------------------------------------- privilege mode

  /** A block that is right in one mode is right in another if and only if the other may use its
      address and the two agree on whether its delay slot, if it ends with a branch, is within
      reach. In particular a trap into kernel mode makes no block stale whose slot the old mode
      could reach. For every segment and every pair of modes. */
  lemma ModeExact(c: Context, m: Memory, b: BasicBlock, mode: nat)
    requires UpToDate(c, m, b)
    ensures var (d, slot) := (c.(mode := mode), SlotAddress(Kernel(c), m, b.startPc, MAX_BLOCK_INSNS));
      UpToDate(d, m, b) <==>
        Reachable(mode, b.startPc % TWO_TO_32) && (SlotWithin(c, slot) <==> SlotWithin(d, slot))
  {
    var d := c.(mode := mode);
    TranslateByMode(c, b.startPc, false);
    TranslateByMode(d, b.startPc, false);
    assert Kernel(c) == Kernel(d);
    if Reachable(mode, b.startPc % TWO_TO_32) {
      StraightByMode(c, d, m, b.startPc, MAX_BLOCK_INSNS);
    }
    hide Translate, Straight, Contiguous, Settled, StopsAtBranch, Reachable, SlotWithin, SlotAddress;
  }

  /** Entering kernel mode: the exact condition, without the mode's own reach. */
  lemma KernelEntryExact(c: Context, m: Memory, b: BasicBlock)
    requires UpToDate(c, m, b)
    ensures UpToDate(Kernel(c), m, b) <==> SlotWithin(c, SlotAddress(Kernel(c), m, b.startPc, MAX_BLOCK_INSNS))
  {
    ModeExact(c, m, b, 0);
    hide UpToDate;
  }
}
