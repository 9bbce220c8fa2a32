/** The audio interface: one DMA active and one queued, timed by CPU cycles, feeding the
    sample ring. The state that matters to DMA is a value here; the class below updates
    its fields in place and is tied to it. */
module AudioDma {
  import opened Words
  import opened AudioRing

  const CPU_HZ: nat := 93_750_000
  const DAC_CLOCK_HZ: nat := 48_681_812
  const DEFAULT_RATE: nat := 32_000
  const STATUS_FULL: nat := 1
  const STATUS_BUSY: nat := 0x4000_0000

  datatype Job = Job(addr: nat, length: nat)

  /** `attempted` is the stream of samples handed to the ring, accepted there or not. */
  datatype Dma = Dma(
    active: bool, queued: bool, current: Job, next: Job,
    remaining: nat, cursor: nat, accum: nat, perFrame: nat,
    dramAddr: nat, len: nat, dacRate: nat, status: nat,
    interrupt: bool, completed: nat, connected: bool,
    attempted: seq<Sample>)

  // ---------------------------------------------------------------- memory and rates

  function SampleAt(rdram: seq<u8>, addr: nat): Sample {
    if rdram == [] then 0
    else
      var high: int, low: int := rdram[addr % |rdram|], rdram[(addr + 1) % |rdram|];
      var value := high * 256 + low;
      if value < 0x8000 then value else value - 0x1_0000
  }

  /** `frames` stereo frames in memory order: four bytes each, left then right. */
  function Stream(rdram: seq<u8>, cursor: nat, frames: nat): (s: seq<Sample>)
    ensures |s| == 2 * frames
  {
    seq(2 * frames, i requires 0 <= i => SampleAt(rdram, cursor + 2 * i))
  }

  lemma StreamAdd(rdram: seq<u8>, cursor: nat, a: nat, b: nat)
    ensures Stream(rdram, cursor, a + b) == Stream(rdram, cursor, a) + Stream(rdram, cursor + 4 * a, b)
  {
  }

  function SampleRate(dacRate: nat): (rate: nat)
    ensures 4000 <= rate <= 96000
  {
    var dac := dacRate % 0x4000;
    if dac == 0 then DEFAULT_RATE
    else
      var rate := DAC_CLOCK_HZ / (dac + 1);
      if rate < 4000 then 4000 else if rate > 96000 then 96000 else rate
  }

  /** CPU cycles per stereo frame. The rate is never zero and neither is the quotient, so the
      fallbacks for both are never taken. */
  function PerFrame(dacRate: nat): (cycles: nat)
    ensures 976 <= cycles <= 23437
  {
    var rate := SampleRate(dacRate);
    QuotientBetween(CPU_HZ, rate);
    CPU_HZ / rate
  }

  lemma QuotientBetween(n: nat, d: nat)
    requires n == 93_750_000 && 4000 <= d <= 96000
    ensures 976 <= n / d <= 23437
  {
    var q := n / d;
    assert n == d * q + n % d;
    MulGap(d, q - 976);
    MulGap(d, 23437 - q);
    assert d * (q - 976) == d * q - d * 976;
    assert d * (23437 - q) == d * 23437 - d * q;
  }

  // ---------------------------------------------------------------- operations on the value

  function StatusOf(active: bool, queued: bool): nat {
    (if queued then STATUS_FULL else 0) + (if active then STATUS_BUSY else 0)
  }

  function Begin(d: Dma, job: Job): Dma {
    d.(current := job, active := true, remaining := job.length, cursor := job.addr, len := job.length,
       accum := 0, perFrame := PerFrame(d.dacRate), status := StatusOf(true, d.queued))
  }

  function Finish(d: Dma): Dma {
    var done := d.(active := false, remaining := 0, len := 0, completed := d.completed + 1, interrupt := true,
                   status := StatusOf(false, d.queued));
    if d.queued then Begin(done.(queued := false, next := Job(0, 0)), d.next) else done
  }

  /** Keep the bits a 64-bit aligned, 18-bit length may have. */
  function LengthBits(value: nat): nat {
    value % 0x4_0000 / 8 * 8
  }

  function AddressBits(value: nat): nat {
    value % 0x100_0000 / 8 * 8
  }

  function StartOrQueue(d: Dma, lengthReg: nat): Dma {
    var length := lengthReg / 8 * 8;
    var job := Job(AddressBits(d.dramAddr), length);
    if length == 0 then d
    else if !d.active then Begin(d, job)
    else if !d.queued then d.(next := job, queued := true, status := StatusOf(d.active, true))
    else d
  }

  function WriteLen(d: Dma, value: nat): Dma {
    StartOrQueue(d.(len := LengthBits(value)), LengthBits(value))
  }

  function Min(a: nat, b: nat): nat {
    if a < b then a else b
  }

  /** The frames that `cycles` more cycles make due, in one step rather than one by one. */
  function Due(d: Dma, cycles: nat): nat
    requires d.perFrame > 0
  {
    hide PerFrame;
    QuotientNat(d.accum + cycles, d.perFrame);
    Min((d.accum + cycles) / d.perFrame, d.remaining / 4)
  }

  lemma QuotientNat(n: nat, d: nat)
    requires d > 0
    ensures 0 <= n / d && n / d * d <= n < (n / d + 1) * d
  {
    assert n == n / d * d + n % d;
    assert (n / d + 1) * d == n / d * d + d;
  }

  function Play(d: Dma, rdram: seq<u8>, frames: nat): Dma
    requires 4 * frames <= d.remaining && frames * d.perFrame <= d.accum
  {
    d.(accum := d.accum - frames * d.perFrame, cursor := d.cursor + 4 * frames, remaining := d.remaining - 4 * frames,
       len := if frames == 0 then d.len else LengthBits(d.remaining - 4 * frames),
       attempted := d.attempted + Stream(rdram, d.cursor, frames))
  }

  predicate Idle(d: Dma) {
    !d.active || d.remaining == 0 || d.perFrame == 0 || !d.connected
  }

  lemma DueFits(d: Dma, cycles: nat)
    requires d.perFrame > 0
    ensures 4 * Due(d, cycles) <= d.remaining && Due(d, cycles) * d.perFrame <= d.accum + cycles
  {
    var q := (d.accum + cycles) / d.perFrame;
    QuotientNat(d.accum + cycles, d.perFrame);
    var k := Due(d, cycles);
    if k < q {
      MulGap(d.perFrame, q - k);
      assert d.perFrame * (q - k) == q * d.perFrame - k * d.perFrame;
    }
  }

  function Tick(d: Dma, rdram: seq<u8>, cycles: nat): Dma {
    hide Due;
    if Idle(d) then d
    else
      DueFits(d, cycles);
      var played := Play(d.(accum := d.accum + cycles), rdram, Due(d, cycles));
      if played.remaining < 4 then Finish(played.(remaining := 0)) else played
  }

  function Complete(d: Dma, rdram: seq<u8>): Dma {
    if !d.active then d
    else if !d.connected then Finish(d.(remaining := 0))
    else
      var frames := d.remaining / 4;
      Finish(d.(cursor := d.cursor + 4 * frames, remaining := 0,
                attempted := d.attempted + Stream(rdram, d.cursor, frames)))
  }

  function WriteDacRate(d: Dma, value: nat): Dma {
    d.(dacRate := value % 0x4000, perFrame := PerFrame(value % 0x4000))
  }

  // ---------------------------------------------------------------- the invariant

  predicate JobOk(job: Job) {
    job.addr % 8 == 0 && job.length % 8 == 0 && job.length > 0
  }

  predicate DmaOk(d: Dma) {
    && (d.queued ==> d.active && JobOk(d.next))
    && (d.active ==> JobOk(d.current) && 0 < d.remaining <= d.current.length && d.remaining % 4 == 0
                     && d.cursor + d.remaining == d.current.addr + d.current.length)
    && (!d.active ==> d.remaining == 0)
    && d.perFrame > 0 && d.status == StatusOf(d.active, d.queued)
  }

  lemma FinishKeeps(d: Dma)
    requires d.perFrame > 0 && (d.queued ==> JobOk(d.next))
    ensures DmaOk(Finish(d))
  {
    if d.queued {
      JobWhole(d.next);
    }
    hide PerFrame, StatusOf, JobOk;
  }

  lemma JobWhole(job: Job)
    requires JobOk(job)
    ensures job.length > 0 && job.length % 4 == 0
  {
    DivMod(job.length, 4, 2 * (job.length / 8), 0);
  }

  lemma WriteLenKeeps(d: Dma, value: nat)
    requires DmaOk(d)
    ensures DmaOk(WriteLen(d, value))
  {
    BitsAligned(value);
    BitsAligned(d.dramAddr);
    hide LengthBits, AddressBits, PerFrame;
  }

  lemma BitsAligned(value: nat)
    ensures LengthBits(value) % 8 == 0 && LengthBits(value) / 8 * 8 == LengthBits(value)
    ensures AddressBits(value) % 8 == 0
  {
  }

  lemma PlayKeeps(d: Dma, rdram: seq<u8>, frames: nat)
    requires DmaOk(d) && d.active && 4 * frames < d.remaining && frames * d.perFrame <= d.accum
    ensures DmaOk(Play(d, rdram, frames))
  {
    hide LengthBits, Stream, StatusOf, JobOk;
  }

  lemma TickKeeps(d: Dma, rdram: seq<u8>, cycles: nat)
    requires DmaOk(d)
    ensures DmaOk(Tick(d, rdram, cycles))
  {
    hide Due, Stream, Finish;
    if !Idle(d) {
      DueFits(d, cycles);
      var k := Due(d, cycles);
      var more := d.(accum := d.accum + cycles);
      if 4 * k < d.remaining {
        PlayKeeps(more, rdram, k);
      } else {
        FinishKeeps(Play(more, rdram, k).(remaining := 0));
      }
    }
  }

  // ---------------------------------------------------------------- batching of cycles

  /** Splitting a stretch of cycles in two makes the same frames due, as long as the first
      part leaves the DMA unfinished. */
  lemma DueSplits(d: Dma, a: nat, b: nat)
    requires d.perFrame > 0 && 4 * Due(d, a) < d.remaining && d.remaining % 4 == 0
    ensures Due(d, a) * d.perFrame <= d.accum + a
    ensures var rest := d.(accum := d.accum + a - Due(d, a) * d.perFrame, remaining := d.remaining - 4 * Due(d, a));
      Due(d, a + b) == Due(d, a) + Due(rest, b)
  {
    var k := Due(d, a);
    DueFits(d, a);
    QuotientSplits(d.accum + a, d.perFrame, b);
    Quarter(d.remaining, k);
    hide PerFrame;
    assert k == (d.accum + a) / d.perFrame;
  }

  lemma Quarter(bytes: nat, k: nat)
    requires bytes % 4 == 0 && 4 * k <= bytes
    ensures (bytes - 4 * k) / 4 == bytes / 4 - k
  {
    DivMod(bytes - 4 * k, 4, bytes / 4 - k, 0);
  }

  lemma QuotientSplits(n: nat, p: nat, b: nat)
    requires p > 0
    ensures 0 <= n - n / p * p < p && (n + b) / p == n / p + (n - n / p * p + b) / p
  {
    QuotientNat(n, p);
    var k := n / p;
    var left := n - k * p + b;
    var q := left / p;
    SumTimes(k, q, p);
    DivMod(n + b, p, k + q, left % p);
  }

  lemma TickUnfinishedSplits(d: Dma, rdram: seq<u8>, a: nat, b: nat)
    requires DmaOk(d) && !Idle(d) && 4 * Due(d, a) < d.remaining
    ensures Tick(Tick(d, rdram, a), rdram, b) == Tick(d, rdram, a + b)
  {
    hide Stream, LengthBits, Finish, StatusOf, JobOk, PerFrame;
    var k := Due(d, a);
    DueFits(d, a);
    DueFits(d, a + b);
    DueSplits(d, a, b);
    var more := d.(accum := d.accum + a);
    var first := Play(more, rdram, k);
    DueFits(first, b);
    var m := Due(first, b);
    assert m == Due(d.(accum := first.accum, remaining := first.remaining), b);
    PlayTwice(more, rdram, b, k, m);
    hide Due, Play, Finish;
    assert Tick(d, rdram, a) == first;
  }

  lemma PlayTwice(d: Dma, rdram: seq<u8>, b: nat, k: nat, m: nat)
    requires 4 * k <= d.remaining && k * d.perFrame <= d.accum
    requires 4 * m <= d.remaining - 4 * k && m * d.perFrame <= d.accum - k * d.perFrame + b
    ensures 4 * (k + m) <= d.remaining && (k + m) * d.perFrame <= d.accum + b
    ensures var first := Play(d, rdram, k);
      Play(first.(accum := first.accum + b), rdram, m) == Play(d.(accum := d.accum + b), rdram, k + m)
  {
    hide Stream, LengthBits;
    SumTimes(k, m, d.perFrame);
    StreamTwice(d.attempted, rdram, d.cursor, k, m);
  }

  lemma SumTimes(k: nat, m: nat, p: nat)
    ensures (k + m) * p == k * p + m * p
  {
  }

  lemma StreamTwice(before: seq<Sample>, rdram: seq<u8>, cursor: nat, k: nat, m: nat)
    ensures (before + Stream(rdram, cursor, k)) + Stream(rdram, cursor + 4 * k, m)
         == before + Stream(rdram, cursor, k + m)
  {
    StreamAdd(rdram, cursor, k, m);
    hide Stream;
  }

  /** The frames due are all that are left exactly when the cycles cover them, and none exactly
      when the cycles do not reach the first. */
  lemma DueReaches(d: Dma, cycles: nat)
    requires d.perFrame > 0
    ensures Due(d, cycles) == d.remaining / 4 <==> d.accum + cycles >= d.remaining / 4 * d.perFrame
    ensures d.remaining >= 4 ==> (Due(d, cycles) == 0 <==> d.accum + cycles < d.perFrame)
  {
    QuotientReaches(d.accum + cycles, d.perFrame, d.remaining / 4);
    QuotientReaches(d.accum + cycles, d.perFrame, 1);
  }

  lemma QuotientReaches(n: nat, p: nat, k: nat)
    requires p > 0
    ensures n / p >= k <==> n >= k * p
  {
    QuotientNat(n, p);
    MulGap(p, n / p - k);
    MulGap(p, k - n / p - 1);
    assert p * (n / p - k) == n / p * p - k * p;
    assert p * (k - n / p - 1) == k * p - (n / p + 1) * p;
  }

  lemma TickMoves(d: Dma, rdram: seq<u8>, cycles: nat)
    requires DmaOk(d) && !Idle(d)
    ensures Tick(d, rdram, cycles) == d <==> cycles == 0 && d.accum < d.perFrame
  {
    DueFits(d, cycles);
    DueReaches(d, cycles);
    hide Due, PerFrame, LengthBits, Stream, StatusOf, JobOk;
    var k := Due(d, cycles);
    var t := Tick(d, rdram, cycles);
    assert |t.attempted| == |d.attempted| + 2 * k;
    if k == 0 {
      StreamEmpty(rdram, d.cursor);
    }
  }

  lemma StreamEmpty(rdram: seq<u8>, cursor: nat)
    ensures Stream(rdram, cursor, 0) == []
  {
  }

  /** The state a tick leaves when it plays the last frame. */
  function Ended(d: Dma, rdram: seq<u8>, cycles: nat): Dma
    requires d.remaining / 4 * d.perFrame <= d.accum + cycles
  {
    Finish(Play(d.(accum := d.accum + cycles), rdram, d.remaining / 4).(remaining := 0))
  }

  /** A tick finishes the transfer exactly when the cycles cover all of its frames. */
  lemma FinishesExactly(d: Dma, rdram: seq<u8>, cycles: nat)
    requires DmaOk(d) && !Idle(d)
    ensures Tick(d, rdram, cycles).completed == d.completed + 1 <==> d.accum + cycles >= d.remaining / 4 * d.perFrame
    ensures Tick(d, rdram, cycles).completed == d.completed <==> 4 * Due(d, cycles) < d.remaining
    ensures 4 * Due(d, cycles) == d.remaining ==>
      d.remaining / 4 * d.perFrame <= d.accum + cycles && Tick(d, rdram, cycles) == Ended(d, rdram, cycles)
  {
    DueFits(d, cycles);
    DueReaches(d, cycles);
    hide Due, PerFrame, LengthBits, Stream, JobOk, StatusOf;
  }

  /** Ending later leaves the same state but for the cycles over, which a queued transfer
      discards. */
  lemma EndedLater(d: Dma, rdram: seq<u8>, a: nat, b: nat)
    requires d.remaining / 4 * d.perFrame <= d.accum + a
    ensures var (t, u) := (Ended(d, rdram, a), Ended(d, rdram, a + b));
      if d.queued then u == t else !t.active && u == t.(accum := t.accum + b)
  {
    hide Stream, PerFrame, LengthBits;
  }

  /** `tick(a); tick(b)` is `tick(a + b)` exactly unless the first part finishes the transfer
      and cycles are left for the second: those would be discarded or, with a transfer queued,
      would start to play it. */
  lemma TickSplitsExactly(d: Dma, rdram: seq<u8>, a: nat, b: nat)
    requires DmaOk(d)
    ensures Tick(Tick(d, rdram, a), rdram, b) == Tick(d, rdram, a + b)
      <==> b == 0 || Tick(d, rdram, a).completed == d.completed
  {
    if !Idle(d) {
      FinishesExactly(d, rdram, a);
      DueFits(d, a);
      if 4 * Due(d, a) < d.remaining {
        TickUnfinishedSplits(d, rdram, a, b);
      } else {
        FinishesExactly(d, rdram, a + b);
        DueFits(d, a + b);
        EndedLater(d, rdram, a, b);
        var t := Ended(d, rdram, a);
        FinishKeeps(Play(d.(accum := d.accum + a), rdram, d.remaining / 4).(remaining := 0));
        assert d.queued ==> !Idle(t) && t.accum < t.perFrame;
        hide Due, Tick, Ended, PerFrame;
        if d.queued {
          TickMoves(t, rdram, b);
        }
      }
    }
  }

  // ---------------------------------------------------------------- conservation

  datatype Event =
    | WriteDramEvent(value: nat)
    | WriteLenEvent(value: nat)
    | WriteDacEvent(value: nat)
    | WriteStatusEvent
    | TickEvent(rdram: seq<u8>, cycles: nat)
    | CompleteEvent(rdram: seq<u8>)

  function Apply(d: Dma, e: Event): Dma {
    match e
    case WriteDramEvent(value) => d.(dramAddr := AddressBits(value))
    case WriteLenEvent(value) => WriteLen(d, value)
    case WriteDacEvent(value) => WriteDacRate(d, value)
    case WriteStatusEvent => d.(interrupt := false)
    case TickEvent(rdram, cycles) => Tick(d, rdram, cycles)
    case CompleteEvent(rdram) => Complete(d, rdram)
  }

  function ApplyAll(d: Dma, events: seq<Event>): Dma
    decreases |events|
  {
    if events == [] then d else ApplyAll(Apply(d, events[0]), events[1..])
  }

  /** The bytes an event programs that are taken: none when both places are occupied. */
  function Taken(d: Dma, e: Event): nat {
    if e.WriteLenEvent? && !d.queued then LengthBits(e.value) else 0
  }

  function AllTaken(d: Dma, events: seq<Event>): nat
    decreases |events|
  {
    if events == [] then 0 else Taken(d, events[0]) + AllTaken(Apply(d, events[0]), events[1..])
  }

  /** Bytes handed to the ring and bytes still to come. */
  function Account(d: Dma): nat {
    2 * |d.attempted| + d.remaining + (if d.queued then d.next.length else 0)
  }

  lemma TickAccount(d: Dma, rdram: seq<u8>, cycles: nat)
    requires DmaOk(d)
    ensures Account(Tick(d, rdram, cycles)) == Account(d)
  {
    if !Idle(d) {
      DueFits(d, cycles);
    }
    hide Due, PerFrame, LengthBits, Stream;
  }

  lemma CompleteAccount(d: Dma, rdram: seq<u8>)
    requires DmaOk(d)
    ensures d.connected ==> Account(Complete(d, rdram)) == Account(d)
  {
    hide PerFrame, LengthBits, Stream, StatusOf;
  }

  lemma CompleteKeeps(d: Dma, rdram: seq<u8>)
    requires DmaOk(d)
    ensures DmaOk(Complete(d, rdram)) && Complete(d, rdram).connected == d.connected
  {
    hide PerFrame, LengthBits, Stream, StatusOf, JobOk;
    if d.active {
      FinishKeeps(d.(remaining := 0));
      var k := d.remaining / 4;
      var s := Stream(rdram, d.cursor, k);
      FinishKeeps(d.(cursor := d.cursor + 4 * k, remaining := 0, attempted := d.attempted + s));
    }
    hide DmaOk;
  }

  lemma WriteLenAccount(d: Dma, value: nat)
    requires DmaOk(d)
    ensures Account(WriteLen(d, value)) == Account(d) + Taken(d, WriteLenEvent(value))
  {
    BitsAligned(value);
    hide PerFrame, LengthBits, AddressBits;
  }

  lemma ApplyKeeps(d: Dma, e: Event)
    requires DmaOk(d) && d.connected
    ensures DmaOk(Apply(d, e)) && Apply(d, e).connected
    ensures Account(Apply(d, e)) == Account(d) + Taken(d, e)
  {
    match e
    case WriteDramEvent(value) =>
    case WriteLenEvent(value) =>
      WriteLenKeeps(d, value);
      WriteLenAccount(d, value);
    case WriteDacEvent(value) =>
    case WriteStatusEvent =>
    case TickEvent(rdram, cycles) =>
      TickKeeps(d, rdram, cycles);
      TickAccount(d, rdram, cycles);
      TickConnected(d, rdram, cycles);
      hide Tick;
    case CompleteEvent(rdram) =>
      CompleteAccount(d, rdram);
      CompleteKeeps(d, rdram);
      hide Complete;
  }

  lemma TickConnected(d: Dma, rdram: seq<u8>, cycles: nat)
    ensures Tick(d, rdram, cycles).connected == d.connected
  {
    hide Due, PerFrame, LengthBits, Stream;
  }

  /** Over any run, every byte taken is played once or still owed, and the DMA state stays
      consistent: a queued transfer needs an active one, and what remains of the active one
      ends where it was programmed to end. */
  lemma {:induction false} BytesConserved(d: Dma, events: seq<Event>)
    requires DmaOk(d) && d.connected
    ensures DmaOk(ApplyAll(d, events))
    ensures Account(ApplyAll(d, events)) == Account(d) + AllTaken(d, events)
    decreases |events|
  {
    hide Apply, DmaOk, Account, Taken;
    if events != [] {
      ApplyKeeps(d, events[0]);
      BytesConserved(Apply(d, events[0]), events[1..]);
    }
  }

  // ---------------------------------------------------------------- order of one transfer

  /** `base` was played before the current transfer began, and the rest is the transfer so
      far, in memory order. */
  predicate Progress(d: Dma, base: seq<Sample>, rdram: seq<u8>) {
    && DmaOk(d) && d.active
    && d.attempted == base + Stream(rdram, d.current.addr, (d.current.length - d.remaining) / 4)
  }

  /** Playing on continues the transfer's own stream. */
  lemma PlaysOn(d: Dma, base: seq<Sample>, rdram: seq<u8>, k: nat)
    requires Progress(d, base, rdram) && 4 * k <= d.remaining
    ensures d.attempted + Stream(rdram, d.cursor, k)
         == base + Stream(rdram, d.current.addr, (d.current.length - (d.remaining - 4 * k)) / 4)
  {
    var played := (d.current.length - d.remaining) / 4;
    assert d.current.length - d.remaining == 4 * played;
    StreamAdd(rdram, d.current.addr, played, k);
    hide Stream;
    var s, t := Stream(rdram, d.current.addr, played), Stream(rdram, d.cursor, k);
    assert (base + s) + t == base + (s + t);
  }

  lemma FreshProgress(d: Dma, rdram: seq<u8>)
    requires DmaOk(d) && d.active && d.remaining == d.current.length
    ensures Progress(d, d.attempted, rdram)
  {
    assert Stream(rdram, d.current.addr, 0) == [];
  }

  /** A tick keeps to memory order; the tick that finishes has played exactly `length / 4`
      frames of the transfer, and a queued transfer then starts afresh. */
  lemma TickInOrder(d: Dma, base: seq<Sample>, rdram: seq<u8>, cycles: nat)
    requires Progress(d, base, rdram)
    ensures var t := Tick(d, rdram, cycles);
      if t.completed == d.completed then t.current == d.current && Progress(t, base, rdram)
      else
        && t.attempted == base + Stream(rdram, d.current.addr, d.current.length / 4)
        && (d.queued ==> t.current == d.next && Progress(t, t.attempted, rdram))
  {
    TickKeeps(d, rdram, cycles);
    if !Idle(d) {
      FinishesExactly(d, rdram, cycles);
      DueFits(d, cycles);
      PlaysOn(d, base, rdram, Due(d, cycles));
      var t := Tick(d, rdram, cycles);
      hide Due, PerFrame, LengthBits, Stream, DmaOk, StatusOf;
      if t.completed != d.completed && d.queued {
        assert t.active && t.remaining == t.current.length;
        FreshProgress(t, rdram);
      }
    }
  }

  lemma CompleteInOrder(d: Dma, base: seq<Sample>, rdram: seq<u8>)
    requires Progress(d, base, rdram) && d.connected
    ensures Complete(d, rdram).completed == d.completed + 1
    ensures Complete(d, rdram).attempted == base + Stream(rdram, d.current.addr, d.current.length / 4)
  {
    PlaysOn(d, base, rdram, d.remaining / 4);
    assert 4 * (d.remaining / 4) == d.remaining;
    hide PerFrame, LengthBits, Stream, DmaOk, StatusOf;
  }

  /** What the event reads of RDRAM agrees with `rdram` on the bytes of `job`. */
  predicate SameBuffer(e: Event, rdram: seq<u8>, job: Job) {
    match e
    case TickEvent(r, _) => SameBytes(r, rdram, job)
    case CompleteEvent(r) => SameBytes(r, rdram, job)
    case _ => true
  }

  predicate SameBytes(r: seq<u8>, rdram: seq<u8>, job: Job) {
    && |r| == |rdram|
    && (rdram != [] ==> forall a | job.addr <= a < job.addr + job.length :: r[a % |rdram|] == rdram[a % |rdram|])
  }

  lemma SameStream(r: seq<u8>, rdram: seq<u8>, job: Job, frames: nat)
    requires SameBytes(r, rdram, job) && 4 * frames <= job.length
    ensures Stream(r, job.addr, frames) == Stream(rdram, job.addr, frames)
  {
    forall i | 0 <= i < 2 * frames
      ensures SampleAt(r, job.addr + 2 * i) == SampleAt(rdram, job.addr + 2 * i)
    {
      var a := job.addr + 2 * i;
      assert job.addr <= a && a + 1 < job.addr + job.length;
    }
  }

  lemma SameProgress(d: Dma, base: seq<Sample>, r: seq<u8>, rdram: seq<u8>)
    requires SameBytes(r, rdram, d.current)
    ensures Progress(d, base, r) <==> Progress(d, base, rdram)
  {
    if DmaOk(d) && d.active {
      SameStream(r, rdram, d.current, (d.current.length - d.remaining) / 4);
    }
    hide Stream, SameBytes;
  }

  /** Whatever happens during a transfer, queueing the next one included, it stays in memory
      order; the event that completes it has played it whole. Without a bus nothing is played. */
  lemma EventInOrder(d: Dma, base: seq<Sample>, rdram: seq<u8>, e: Event)
    requires Progress(d, base, rdram) && SameBuffer(e, rdram, d.current)
    ensures var t := Apply(d, e);
      if t.completed == d.completed then t.current == d.current && Progress(t, base, rdram)
      else d.connected ==> base + Stream(rdram, d.current.addr, d.current.length / 4) == t.attempted
  {
    match e
    case WriteLenEvent(value) =>
      WriteLenKeeps(d, value);
      hide DmaOk, Stream, LengthBits, AddressBits, PerFrame, StatusOf;
    case TickEvent(r, cycles) =>
      SameProgress(d, base, r, rdram);
      TickInOrder(d, base, r, cycles);
      SameStream(r, rdram, d.current, d.current.length / 4);
      hide Tick, Progress, Stream, SameBytes;
      if Tick(d, r, cycles).completed == d.completed {
        SameProgress(Tick(d, r, cycles), base, r, rdram);
      }
    case CompleteEvent(r) =>
      SameProgress(d, base, r, rdram);
      SameStream(r, rdram, d.current, d.current.length / 4);
      if d.connected {
        CompleteInOrder(d, base, r);
      }
      hide Progress, Stream, SameBytes;
    case _ =>
      hide Stream;
  }

  /** What has been handed over is never taken back. */
  lemma EventAppends(d: Dma, e: Event)
    ensures d.attempted <= Apply(d, e).attempted && d.completed <= Apply(d, e).completed
    ensures Apply(d, e).connected == d.connected && (!d.connected ==> Apply(d, e).attempted == d.attempted)
  {
    hide Due, PerFrame, LengthBits, AddressBits, Stream, StatusOf;
  }

  lemma {:induction false} EventsAppend(d: Dma, events: seq<Event>)
    ensures var t := ApplyAll(d, events);
      && d.attempted <= t.attempted && d.completed <= t.completed
      && t.connected == d.connected && (!d.connected ==> t.attempted == d.attempted)
    decreases |events|
  {
    hide Apply;
    if events != [] {
      EventAppends(d, events[0]);
      EventsAppend(Apply(d, events[0]), events[1..]);
    }
  }

  /** Whatever else is written, acknowledged or queued meanwhile and however cycles are batched, a
      transfer that completes has attempted exactly its `length / 4` frames, in memory order, right
      after what came before it; until then it has attempted a first part of them. */
  lemma {:induction false} TransferInOrder(d: Dma, base: seq<Sample>, rdram: seq<u8>, events: seq<Event>)
    requires Progress(d, base, rdram) && forall e | e in events :: SameBuffer(e, rdram, d.current)
    ensures var t := ApplyAll(d, events);
      if t.completed == d.completed then t.current == d.current && Progress(t, base, rdram)
      else if d.connected then base + Stream(rdram, d.current.addr, d.current.length / 4) <= t.attempted
      else t.attempted == d.attempted
    decreases |events|
  {
    hide Apply, Progress, Stream, SameBuffer;
    if events != [] {
      var n := Apply(d, events[0]);
      EventInOrder(d, base, rdram, events[0]);
      EventAppends(d, events[0]);
      EventsAppend(n, events[1..]);
      if n.completed == d.completed {
        TransferInOrder(n, base, rdram, events[1..]);
      }
    }
  }

  // ---------------------------------------------------------------- order of all transfers

  /** The addresses of `n` frames in memory order. */
  function Frames(cursor: nat, n: nat): (frames: seq<nat>)
    ensures |frames| == n
  {
    seq(n, i requires 0 <= i => cursor + 4 * i)
  }

  lemma FramesAdd(cursor: nat, a: nat, b: nat)
    ensures Frames(cursor, a + b) == Frames(cursor, a) + Frames(cursor + 4 * a, b)
  {
  }

  /** The frames still to come: the rest of the active transfer, then the queued one. */
  function Owed(d: Dma): seq<nat> {
    Frames(d.cursor, d.remaining / 4) + Queued(d)
  }

  function Queued(d: Dma): seq<nat> {
    if d.queued then Frames(d.next.addr, d.next.length / 4) else []
  }

  /** The frames of the transfer an event programs: none when both places are occupied. */
  function Programmed(d: Dma, e: Event): seq<nat> {
    if e.WriteLenEvent? && !d.queued then Frames(AddressBits(d.dramAddr), LengthBits(e.value) / 4) else []
  }

  /** How many frames an event plays, from the cursor on. */
  function Plays(d: Dma, e: Event): nat {
    match e
    case TickEvent(_, cycles) => if Idle(d) then 0 else Due(d, cycles)
    case CompleteEvent(_) => if d.active && d.connected then d.remaining / 4 else 0
    case _ => 0
  }

  /** The samples it plays, read from RDRAM as it is then. */
  function Heard(d: Dma, e: Event): seq<Sample> {
    match e
    case TickEvent(rdram, _) => Stream(rdram, d.cursor, Plays(d, e))
    case CompleteEvent(rdram) => Stream(rdram, d.cursor, Plays(d, e))
    case _ => []
  }

  function AllProgrammed(d: Dma, events: seq<Event>): seq<nat>
    decreases |events|
  {
    if events == [] then [] else Programmed(d, events[0]) + AllProgrammed(Apply(d, events[0]), events[1..])
  }

  function AllPlayed(d: Dma, events: seq<Event>): seq<nat>
    decreases |events|
  {
    if events == [] then []
    else Frames(d.cursor, Plays(d, events[0])) + AllPlayed(Apply(d, events[0]), events[1..])
  }

  function AllHeard(d: Dma, events: seq<Event>): seq<Sample>
    decreases |events|
  {
    if events == [] then [] else Heard(d, events[0]) + AllHeard(Apply(d, events[0]), events[1..])
  }

  lemma PlayOwes(cursor: nat, total: nat, k: nat, rest: seq<nat>)
    requires k <= total
    ensures Frames(cursor, k) + (Frames(cursor + 4 * k, total - k) + rest) == Frames(cursor, total) + rest
  {
    FramesAdd(cursor, k, total - k);
  }

  lemma FinishOwes(d: Dma)
    requires d.remaining == 0
    ensures Owed(Finish(d)) == Queued(d) && Finish(d).attempted == d.attempted
  {
    hide PerFrame, StatusOf;
  }

  lemma TickOwes(d: Dma, rdram: seq<u8>, cycles: nat)
    requires DmaOk(d) && !Idle(d)
    ensures var (t, k) := (Tick(d, rdram, cycles), Due(d, cycles));
      && Frames(d.cursor, k) + Owed(t) == Owed(d)
      && t.attempted == d.attempted + Stream(rdram, d.cursor, k)
  {
    DueFits(d, cycles);
    var k := Due(d, cycles);
    PlayOwes(d.cursor, d.remaining / 4, k, Queued(d));
    var played := Play(d.(accum := d.accum + cycles), rdram, k);
    if 4 * k == d.remaining {
      FinishOwes(played.(remaining := 0));
    }
    hide Due, PerFrame, LengthBits, Stream, StatusOf, Finish, Frames;
  }

  lemma CompleteOwes(d: Dma, rdram: seq<u8>)
    requires DmaOk(d) && d.connected && d.active
    ensures var (t, k) := (Complete(d, rdram), d.remaining / 4);
      && Frames(d.cursor, k) + Owed(t) == Owed(d)
      && t.attempted == d.attempted + Stream(rdram, d.cursor, k)
  {
    var k := d.remaining / 4;
    FinishOwes(d.(cursor := d.cursor + 4 * k, remaining := 0, attempted := d.attempted + Stream(rdram, d.cursor, k)));
    hide PerFrame, Stream, StatusOf, Finish, Frames;
  }

  lemma WriteLenOwes(d: Dma, value: nat)
    requires DmaOk(d)
    ensures Owed(WriteLen(d, value)) == Owed(d) + Programmed(d, WriteLenEvent(value))
    ensures WriteLen(d, value).attempted == d.attempted
  {
    BitsAligned(value);
    hide PerFrame, LengthBits, AddressBits, StatusOf;
  }

  lemma EventOwes(d: Dma, e: Event)
    requires DmaOk(d) && d.connected
    ensures Frames(d.cursor, Plays(d, e)) + Owed(Apply(d, e)) == Owed(d) + Programmed(d, e)
    ensures Apply(d, e).attempted == d.attempted + Heard(d, e)
  {
    match e
    case WriteLenEvent(value) =>
      WriteLenOwes(d, value);
      hide WriteLen, Owed, Programmed;
    case TickEvent(rdram, cycles) =>
      if !Idle(d) {
        TickOwes(d, rdram, cycles);
        hide Tick, Owed, Stream;
      }
    case CompleteEvent(rdram) =>
      if d.active {
        CompleteOwes(d, rdram);
        hide Complete, Owed, Stream;
      }
    case _ =>
      hide Stream;
  }

  /** Over any run, the frames played and those still to come are those owed before followed by
      every transfer accepted, each whole and in memory order, in the order of acceptance; and
      what was handed over is what RDRAM held in those frames when they were played, whatever is
      written to it meanwhile. */
  lemma {:induction false} FramesInOrder(d: Dma, events: seq<Event>)
    requires DmaOk(d) && d.connected
    ensures var t := ApplyAll(d, events);
      && AllPlayed(d, events) + Owed(t) == Owed(d) + AllProgrammed(d, events)
      && t.attempted == d.attempted + AllHeard(d, events)
    decreases |events|
  {
    hide Apply, DmaOk, Owed, Programmed, Plays, Heard;
    if events != [] {
      ApplyKeeps(d, events[0]);
      EventOwes(d, events[0]);
      FramesInOrder(Apply(d, events[0]), events[1..]);
      Chained(Frames(d.cursor, Plays(d, events[0])), Owed(Apply(d, events[0])), Owed(d), Programmed(d, events[0]),
              AllPlayed(Apply(d, events[0]), events[1..]), Owed(ApplyAll(d, events)),
              AllProgrammed(Apply(d, events[0]), events[1..]));
    }
  }

  lemma Chained(a: seq<nat>, b: seq<nat>, c: seq<nat>, p: seq<nat>, x: seq<nat>, y: seq<nat>, q: seq<nat>)
    requires a + b == c + p && x + y == b + q
    ensures (a + x) + y == c + (p + q)
  {
    assert (a + x) + y == a + (x + y);
    assert (a + b) + q == a + (b + q);
    assert (c + p) + q == c + (p + q);
  }
}
