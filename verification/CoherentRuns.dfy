/** The cache over whole histories: instructions, compilations, writes by the processor or by
    any device that notifies the bus, in any order. */
module CoherentRuns {
  import opened Words
  import opened Translation
  import opened PhysicalMemory
  import opened Blocks
  import opened Processor
  import opened BlockCaching
  import opened Coherence
  import opened Refinement
  import opened CachedExecution
  import opened SystemBus

  /** `Instruction` is a step of the interpreter, interrupts and traps included; `ExecuteCached`
      executes whatever word a block holds, stale or not; `Transfer` is a device that stores to
      RDRAM itself and then notifies the bus. */
  datatype Event =
    | Instruction
    | ExecuteCached(insn: u32)
    | CompileAt(vaddr: u64)
    | Clear
    | BusWrite8(addr: nat, byte: u8)
    | BusWrite16(addr: nat, half: u16)
    | BusWrite32(addr: nat, word: u32)
    | BusWrite64(addr: nat, double: u64)
    | Transfer(after: Memory, addr: nat, size: nat)

  ghost function Apply(w: World, e: Event): World {
    var m := w.machine;
    match e
    case Instruction => StepWorld(w)
    case ExecuteCached(insn) => WordWorld(w, insn)
    case CompileAt(vaddr) =>
      (match Fresh(Ctx(m.cpu), m.mem, vaddr)
       case Some(b) => w.(cache := w.cache[SlotIndex(vaddr) := b])
       case None => w)
    case Clear => w.(cache := map[])
    case BusWrite8(addr, v) => World(m.(mem := Write8(m.mem, addr, v)), AfterWrite8(w.cache, addr))
    case BusWrite16(addr, v) => World(m.(mem := Write16(m.mem, addr, v)), AfterWrite16(w.cache, m.mem, addr))
    case BusWrite32(addr, v) => World(m.(mem := Write32(m.mem, addr, v)), AfterWrite32(w.cache, m.mem, addr))
    case BusWrite64(addr, v) =>
      World(m.(mem := Write64(m.mem, addr, v)), AfterWrite64(w.cache, m.mem, addr, v / 0x1_0000_0000))
    case Transfer(after, addr, size) => World(m.(mem := after), AfterInvalidate(w.cache, addr, size))
  }

  ghost function ApplyAll(w: World, events: seq<Event>): World
    decreases |events|
  {
    if events == [] then w else ApplyAll(Apply(w, events[0]), events[1..])
  }

  /** What the cache asks of each event: that a word's store and a device's writes stay out of the
      RDRAM mirrors, and that a line compiled can be cached. Nothing is asked of where a store
      goes, of moves to COP0, of traps or of the privilege mode. */
  ghost predicate Admissible(w: World, e: Event) {
    var m := w.machine;
    match e
    case Instruction => ExecutesWord(m) ==> StoreSettled(m, FetchedWord(m))
    case ExecuteCached(insn) => StoreSettled(m, insn)
    case CompileAt(vaddr) =>
      Translate(Ctx(m.cpu), vaddr, false).Mapped? ==> vaddr % 4 == 0 && LineSettled(Ctx(m.cpu), m.mem, vaddr)
    case Clear => true
    case BusWrite8(addr, _) => Settled(m.mem, addr, 1)
    case BusWrite16(addr, _) => Settled(m.mem, addr, 2)
    case BusWrite32(addr, _) => Settled(m.mem, addr, 4)
    case BusWrite64(addr, _) => Settled(m.mem, addr, 8)
    case Transfer(after, addr, size) => ChangedOnly(m.mem, after, addr, size)
  }

  ghost predicate AllAdmissible(w: World, events: seq<Event>)
    decreases |events|
  {
    events == [] || (Admissible(w, events[0]) && AllAdmissible(Apply(w, events[0]), events[1..]))
  }

  lemma CompiledIsUpToDate(m: Machine, vaddr: u64)
    requires Translate(Ctx(m.cpu), vaddr, false).Mapped? && vaddr % 4 == 0 && LineSettled(Ctx(m.cpu), m.mem, vaddr)
    ensures var (f, c) := (Fresh(Ctx(m.cpu), m.mem, vaddr), Ctx(m.cpu));
      f.Some? && f.value.startPc == vaddr && UpToDate(c, m.mem, f.value) && UpToDate(Kernel(c), m.mem, f.value)
  {
    SettledIsUpToDate(Ctx(m.cpu), m.mem, vaddr);
    FreshStarts(Ctx(m.cpu), m.mem, vaddr);
    hide Translate, LineSettled, UpToDate, FreshBlock, Ctx;
  }

  lemma CompileKeeps(w: World, vaddr: u64)
    requires WorldOk(w) && Admissible(w, CompileAt(vaddr))
    ensures WorldOk(Apply(w, CompileAt(vaddr)))
  {
    var m := w.machine;
    var f := Fresh(Ctx(m.cpu), m.mem, vaddr);
    if f.Some? {
      CompiledIsUpToDate(m, vaddr);
      hide Fresh, LineSettled, UpToDate, Ctx, Coherent, SlotIndex;
      InstallKeepsCoherence(w.cache, Ctx(m.cpu), m.mem, f.value);
    }
  }

  lemma ApplyKeeps(w: World, e: Event)
    requires WorldOk(w) && Admissible(w, e)
    ensures WorldOk(Apply(w, e))
  {
    var c, m := Ctx(w.machine.cpu), w.machine.mem;
    hide UpToDate, Coherent, Step, ExecuteWord, CacheAfterStep, CacheAfterExecute, Fresh, SlotIndex, Settled,
         ChangedOnly, Ctx, AfterInvalidate, AfterWrite8, AfterWrite16, AfterWrite32, AfterWrite64,
         Write8, Write16, Write32, Write64, LineSettled, StoreSettled, ExecutesWord, FetchedWord;
    match e
    case Instruction => StepKeepsCoherence(w.cache, w.machine);
    case ExecuteCached(insn) => WordKeepsCoherence(w.cache, w.machine, insn);
    case CompileAt(vaddr) => CompileKeeps(w, vaddr);
    case Clear => EmptyIsCoherent(c, m);
    case BusWrite8(addr, v) => Write8Coherent(w.cache, c, m, addr, v);
    case BusWrite16(addr, v) => Write16Coherent(w.cache, c, m, addr, v);
    case BusWrite32(addr, v) => Write32Coherent(w.cache, c, m, addr, v);
    case BusWrite64(addr, v) => Write64Coherent(w.cache, c, m, addr, v);
    case Transfer(after, addr, size) => WriteKeepsCoherence(w.cache, c, m, after, addr, size);
  }

  /** The cache never goes stale: after any admissible history every cached block is in its own
      slot and is what compiling its address in kernel mode would build at that moment. */
  lemma {:induction false} NeverStale(w: World, events: seq<Event>)
    requires WorldOk(w) && AllAdmissible(w, events)
    ensures WorldOk(ApplyAll(w, events))
    decreases |events|
  {
    hide WorldOk, Admissible, Apply;
    if events != [] {
      ApplyKeeps(w, events[0]);
      NeverStale(Apply(w, events[0]), events[1..]);
    }
  }

  /** What that means for a block found later: it is in the slot of its address, and in every mode
      that may use the address, that address still translates to the block's frame and each word
      is the word of memory at its place. */
  lemma CachedWordsAreMemory(machine: Machine, events: seq<Event>, i: nat, k: nat)
    requires AllAdmissible(World(machine, map[]), events)
    requires var w := ApplyAll(World(machine, map[]), events); i in w.cache && k < |w.cache[i].insns|
    ensures var w := ApplyAll(World(machine, map[]), events); var (b, c) := (w.cache[i], Ctx(w.machine.cpu));
      && i == SlotIndex(b.startPc)
      && (Reachable(c.mode, b.startPc % TWO_TO_32) ==> Translate(c, b.startPc, false) == Mapped(b.paddr))
      && b.insns[k] == Read32(w.machine.mem, b.paddr + 4 * k)
  {
    hide ApplyAll, AllAdmissible, UpToDate, Translate, Read32, Ctx, Apply, Admissible, WorldOk, Reachable;
    var start := World(machine, map[]);
    StartsCoherent(machine);
    NeverStale(start, events);
    HitIsMemory(ApplyAll(start, events), i, k);
  }

  lemma StartsCoherent(machine: Machine)
    ensures WorldOk(World(machine, map[]))
  {
    EmptyIsCoherent(Ctx(machine.cpu), machine.mem);
  }

  lemma HitIsMemory(w: World, i: nat, k: nat)
    requires WorldOk(w) && i in w.cache && k < |w.cache[i].insns|
    ensures var (b, c) := (w.cache[i], Ctx(w.machine.cpu));
      && i == SlotIndex(b.startPc)
      && (Reachable(c.mode, b.startPc % TWO_TO_32) ==> Translate(c, b.startPc, false) == Mapped(b.paddr))
      && b.insns[k] == Read32(w.machine.mem, b.paddr + 4 * k)
  {
    hide UpToDate, Translate, Read32, Ctx, Reachable, SlotIndex;
    var b, c := w.cache[i], Ctx(w.machine.cpu);
    TranslateByMode(c, b.startPc, false);
    BlockTranslates(Kernel(c), w.machine.mem, b);
    CachedWord(Kernel(c), w.machine.mem, b, k);
  }
}
