/** What is heard: the numbers a tick or a forced completion hands over, against the bytes of RDRAM,
    the halfwords and words stored there, and the bits of the registers that name them. */
module AudioSamples {
  import opened Words
  import opened Bits
  import opened PhysicalMemory
  import opened StoredBytes
  import opened AudioRing
  import opened AudioDma

  /** The bits of a sample. */
  function SampleBits(x: Sample): u16 {
    if x < 0 then x + 0x1_0000 else x
  }

  /** Sample `k` of what is new in `after` is the signed big-endian halfword at `addr`. */
  predicate Hears(before: Dma, after: Dma, k: nat, rdram: seq<u8>, addr: nat) {
    && |before.attempted| + k < |after.attempted| && before.attempted <= after.attempted && rdram != []
    && SampleBits(after.attempted[|before.attempted| + k])
       == rdram[addr % |rdram|] as int * 0x100 + rdram[(addr + 1) % |rdram|]
  }

  /** A tick plays the frames its cycles cover, as many as are left, each left and then right
      from its own two halfwords. */
  lemma TickHears(d: Dma, rdram: seq<u8>, cycles: nat, k: nat)
    requires DmaOk(d) && d.active && d.connected && rdram != []
    requires (k / 2 + 1) * d.perFrame <= d.accum + cycles && 4 * (k / 2 + 1) <= d.remaining
    ensures Hears(d, Tick(d, rdram, cycles), k, rdram, d.cursor + 2 * k)
  {
    DuePlays(d, cycles, k / 2);
    TickOwes(d, rdram, cycles);
    hide Tick, Due, DmaOk, Owed;
  }

  /** The frame is among those due. */
  lemma DuePlays(d: Dma, cycles: nat, i: nat)
    requires d.perFrame > 0 && (i + 1) * d.perFrame <= d.accum + cycles && 4 * (i + 1) <= d.remaining
    ensures i < Due(d, cycles)
  {
    QuotientReaches(d.accum + cycles, d.perFrame, i + 1);
  }

  lemma CompleteHears(d: Dma, rdram: seq<u8>, k: nat)
    requires DmaOk(d) && d.active && d.connected && rdram != [] && 2 * k < d.remaining
    ensures Hears(d, Complete(d, rdram), k, rdram, d.cursor + 2 * k)
  {
    CompleteOwes(d, rdram);
    hide Complete, Owed;
  }

  /** A tick plays exactly those frames and no more. */
  lemma TickCounts(d: Dma, rdram: seq<u8>, cycles: nat, frames: nat)
    requires DmaOk(d) && d.active && d.connected && |Tick(d, rdram, cycles).attempted| == |d.attempted| + 2 * frames
    ensures frames * d.perFrame <= d.accum + cycles && 4 * frames <= d.remaining
    ensures 4 * (frames + 1) <= d.remaining ==> (frames + 1) * d.perFrame > d.accum + cycles
  {
    TickOwes(d, rdram, cycles);
    DueFits(d, cycles);
    QuotientReaches(d.accum + cycles, d.perFrame, frames + 1);
    hide Tick, DmaOk, Owed, Stream;
  }

  // ---------------------------------------------------------------- what was stored

  /** A halfword stored where a sample is due is the sample heard. */
  lemma HalfwordHeard(d: Dma, m: Memory, x: Sample, cycles: nat, k: nat)
    requires DmaOk(d) && d.active && d.connected && |m.ram| >= 2 && d.cursor + 2 * k + 2 <= RDRAM_LIMIT
    requires (k / 2 + 1) * d.perFrame <= d.accum + cycles && 4 * (k / 2 + 1) <= d.remaining
    ensures var t := Tick(d, Write16(m, d.cursor + 2 * k, SampleBits(x)).ram, cycles);
      |t.attempted| > |d.attempted| + k && t.attempted[|d.attempted| + k] == x
  {
    var addr := d.cursor + 2 * k;
    var n := Write16(m, addr, SampleBits(x));
    StoredHalfword(m, addr, x);
    hide Tick, DmaOk, Write16, SampleBits;
    TickHears(d, n.ram, cycles, k);
    SameSample(d, Tick(d, n.ram, cycles), k, n.ram, addr, x);
  }

  /** The halfword at `addr` holds the sample. */
  predicate HoldsSample(rdram: seq<u8>, addr: nat, x: Sample) {
    rdram != [] && rdram[addr % |rdram|] as int * 0x100 + rdram[(addr + 1) % |rdram|] == SampleBits(x)
  }

  lemma SameSample(d: Dma, t: Dma, k: nat, rdram: seq<u8>, addr: nat, x: Sample)
    requires Hears(d, t, k, rdram, addr) && HoldsSample(rdram, addr, x)
    ensures |t.attempted| > |d.attempted| + k && t.attempted[|d.attempted| + k] == x
  {
  }

  lemma StoredHalfword(m: Memory, addr: nat, x: Sample)
    requires |m.ram| >= 2 && addr + 2 <= RDRAM_LIMIT
    ensures HoldsSample(Write16(m, addr, SampleBits(x)).ram, addr, x)
  {
    var n := Write16(m, addr, SampleBits(x));
    SmallMod(addr, BUS_LIMIT);
    Write16ReadsBack(m, addr, SampleBits(x));
    KeepsSize16(m, addr, SampleBits(x));
    RamByte(n, addr);
    RamByte(n, addr + 1);
    hide Write16, Read8, SampleBits;
  }

  lemma StoredFrame(m: Memory, addr: nat, left: Sample, right: Sample, word: u32)
    requires |m.ram| >= 4 && addr + 4 <= RDRAM_LIMIT && word == SampleBits(left) as int * 0x1_0000 + SampleBits(right)
    ensures var rdram := Write32(m, addr, word).ram;
      HoldsSample(rdram, addr, left) && HoldsSample(rdram, addr + 2, right)
  {
    hide Write32, Read8, Read32, SampleBits;
    var n := Write32(m, addr, word);
    SmallMod(addr, BUS_LIMIT);
    Write32ReadsBack(m, addr, word);
    FrameBytes(left, right, word);
    KeepsSize32(m, addr, word);
    RamByte(n, addr);
    RamByte(n, addr + 1);
    RamByte(n, addr + 2);
    RamByte(n, addr + 3);
  }

  lemma KeepsSize16(m: Memory, addr: nat, v: u16)
    ensures |Write16(m, addr, v).ram| == |m.ram|
  {
    hide Byte;
  }

  lemma KeepsSize32(m: Memory, addr: nat, v: u32)
    ensures |Write32(m, addr, v).ram| == |m.ram|
  {
    hide Byte, Physical;
  }

  lemma RamByte(m: Memory, addr: nat)
    requires addr < RDRAM_LIMIT && m.ram != []
    ensures Read8(m, addr) == m.ram[addr % |m.ram|]
  {
    SmallMod(addr, BUS_LIMIT);
  }

  /** A word stored where a frame is due, left sample above right, is the frame heard. */
  lemma WordHeard(d: Dma, m: Memory, left: Sample, right: Sample, word: u32, cycles: nat, i: nat)
    requires DmaOk(d) && d.active && d.connected && |m.ram| >= 4 && d.cursor + 4 * i + 4 <= RDRAM_LIMIT
    requires (i + 1) * d.perFrame <= d.accum + cycles && 4 * (i + 1) <= d.remaining
    requires word == SampleBits(left) as int * 0x1_0000 + SampleBits(right)
    ensures var t := Tick(d, Write32(m, d.cursor + 4 * i, word).ram, cycles);
      |t.attempted| > |d.attempted| + 2 * i + 1
      && t.attempted[|d.attempted| + 2 * i] == left && t.attempted[|d.attempted| + 2 * i + 1] == right
  {
    hide Tick, DmaOk, Write32, SampleBits;
    var addr := d.cursor + 4 * i;
    var rdram := Write32(m, addr, word).ram;
    StoredFrame(m, addr, left, right, word);
    TickHears(d, rdram, cycles, 2 * i);
    TickHears(d, rdram, cycles, 2 * i + 1);
    SameSample(d, Tick(d, rdram, cycles), 2 * i, rdram, addr, left);
    SameSample(d, Tick(d, rdram, cycles), 2 * i + 1, rdram, addr + 2, right);
  }

  lemma FrameBytes(left: Sample, right: Sample, word: u32)
    requires word == SampleBits(left) as int * 0x1_0000 + SampleBits(right)
    ensures word / 0x100_0000 * 0x100 + word / 0x1_0000 % 0x100 == SampleBits(left)
    ensures word / 0x100 % 0x100 * 0x100 + word % 0x100 == SampleBits(right)
  {
    var l, r: int := SampleBits(left), SampleBits(right);
    DivMod(word, 0x1_0000, l, r);
    DivMod(word, 0x100_0000, l / 0x100, l % 0x100 * 0x1_0000 + r);
    DivMod(word, 0x100, l * 0x100 + r / 0x100, r % 0x100);
    DivMod(l * 0x100 + r / 0x100, 0x100, l, r / 0x100);
  }

  // ---------------------------------------------------------------- rates and registers

  /** The sample rate is the clock over the divider plus one, rounded down, kept between 4 and 96 kHz;
      a divider of zero stands for 32 kHz. A frame takes the processor's clock over it. */
  lemma RateMeans(dacRate: nat)
    ensures var (divider, rate, cycles) := (dacRate % 0x4000 + 1, SampleRate(dacRate), PerFrame(dacRate));
      && (divider == 1 ==> rate == 32_000)
      && (divider > 1 ==>
            if 48_681_812 < 4_000 * divider then rate == 4_000
            else if 48_681_812 >= 96_001 * divider then rate == 96_000
            else rate * divider <= 48_681_812 < (rate + 1) * divider)
      && cycles * rate <= 93_750_000 < (cycles + 1) * rate
  {
    var divider, rate := dacRate % 0x4000 + 1, SampleRate(dacRate);
    QuotientNat(48_681_812, divider);
    QuotientReaches(48_681_812, divider, 4_000);
    QuotientReaches(48_681_812, divider, 96_001);
    QuotientNat(93_750_000, rate);
  }

  /** The length register holds bits 3 to 17 of what is written to it, the address 3 to 23. */
  lemma RegisterBits(v: u32, k: nat)
    ensures Bit(LengthBits(v), k) <==> 3 <= k < 18 && Bit(v, k)
    ensures Bit(AddressBits(v), k) <==> 3 <= k < 24 && Bit(v, k)
  {
    PowersOfTwo();
    hide Bit, Pow2;
    MiddleBits(v, 18, 0x4_0000, k);
    MiddleBits(v, 24, 0x100_0000, k);
  }

  lemma MiddleBits(v: u32, n: nat, p: nat, k: nat)
    requires n in {18, 24} && p == (if n == 18 then 0x4_0000 else 0x100_0000)
    ensures Bit(v % p / 8 * 8, k) <==> 3 <= k < n && Bit(v, k)
  {
    PowersOfTwo();
    hide Bit, Pow2;
    var low := v % p;
    SplitBits(n, p, v / p, low, v, k);
    FieldsBit(3, 8, low / 8, 0, low / 8 * 8, k);
    if k < 3 {
      NoBit(k);
    } else {
      SplitBits(3, 8, low / 8, low % 8, low, k - 3);
    }
  }

  /** The status register says whether a transfer is active in bit 30, whether one is queued in bit
      0, and nothing else. */
  lemma StatusMeans(d: Dma, k: nat)
    requires DmaOk(d) && k < 32
    ensures Bit(d.status, k) <==> (k == 30 && d.active) || (k == 0 && d.queued)
  {
    var low := if d.queued then 1 else 0;
    var high := if d.active then 1 else 0;
    PowersOfTwo();
    assert Pow2(1) == 2;
    hide Bit, Pow2;
    FieldsBit(30, 0x4000_0000, high, low, d.status, k);
    OneOrNone(high, if k >= 30 then k - 30 else k);
    OneOrNone(low, k);
  }

  lemma OneOrNone(x: nat, k: nat)
    requires x < 2
    ensures Bit(x, k) <==> x == 1 && k == 0
  {
    BitNext(x, 0);
    if k > 0 {
      NoBit(k - 1);
    }
  }

  /** An event completes at most one transfer and raises the interrupt exactly then; only a write to
      Status takes it back. A new rate counts at once, and every transfer starts with the rate that
      is set. */
  lemma EventSignals(d: Dma, e: Event)
    ensures var t := Apply(d, e);
      && (t.completed == d.completed || t.completed == d.completed + 1)
      && t.interrupt == (t.completed > d.completed || (d.interrupt && e != WriteStatusEvent))
      && (e.WriteDacEvent? ==> t.dacRate == e.value % 0x4000 && t.perFrame == PerFrame(e.value))
      && (t.current != d.current ==> t.perFrame == PerFrame(t.dacRate) && t.active && t.accum == 0)
  {
    hide Tick, Complete, WriteLen, PerFrame;
    match e
    case WriteLenEvent(value) => LengthSignals(d, value);
    case WriteDacEvent(value) => SameRate(value);
    case TickEvent(rdram, cycles) => TickSignals(d, rdram, cycles);
    case CompleteEvent(rdram) => CompleteSignals(d, rdram);
    case _ =>
  }

  lemma SameRate(value: nat)
    ensures PerFrame(value % 0x4000) == PerFrame(value)
  {
    SmallMod(value % 0x4000, 0x4000);
  }

  lemma LengthSignals(d: Dma, value: nat)
    ensures var t := WriteLen(d, value);
      && t.completed == d.completed && t.interrupt == d.interrupt
      && (t.current != d.current ==> t.perFrame == PerFrame(t.dacRate) && t.active && t.accum == 0)
  {
    hide LengthBits, AddressBits, PerFrame, StatusOf;
  }

  lemma CompleteSignals(d: Dma, rdram: seq<u8>)
    ensures var t := Complete(d, rdram);
      && (t.completed == d.completed || t.completed == d.completed + 1)
      && t.interrupt == (t.completed > d.completed || d.interrupt)
      && (t.current != d.current ==> t.perFrame == PerFrame(t.dacRate) && t.active && t.accum == 0)
  {
    hide Finish, Stream, PerFrame;
    if d.active {
      var frames := d.remaining / 4;
      var ended := d.(cursor := d.cursor + 4 * frames, remaining := 0,
                      attempted := d.attempted + Stream(rdram, d.cursor, frames));
      FinishSignals(if d.connected then ended else d.(remaining := 0));
    }
  }

  lemma FinishSignals(d: Dma)
    ensures var t := Finish(d);
      && t.completed == d.completed + 1 && t.interrupt
      && (t.current != d.current ==> t.perFrame == PerFrame(t.dacRate) && t.active && t.accum == 0)
  {
    hide PerFrame, StatusOf;
  }

  lemma TickSignals(d: Dma, rdram: seq<u8>, cycles: nat)
    ensures var t := Tick(d, rdram, cycles);
      && (t.completed == d.completed || t.completed == d.completed + 1)
      && t.interrupt == (t.completed > d.completed || d.interrupt)
      && (t.current != d.current ==> t.perFrame == PerFrame(t.dacRate) && t.active && t.accum == 0)
  {
    hide Finish, Due, Stream, LengthBits, PerFrame;
    if !AudioDma.Idle(d) {
      DueFits(d, cycles);
      FinishSignals(Play(d.(accum := d.accum + cycles), rdram, Due(d, cycles)).(remaining := 0));
    }
  }
}
