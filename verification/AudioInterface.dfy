/** The audio interface as an object: registers, DMA fields and ring updated in place. Both
    sides of the ring are called from one thread here; the interleaved steps are in AudioRing. */
module AudioDevice {
  import opened Words
  import opened AudioRing
  import opened AudioDma

  /** What a ring holding `held` holds after `offered` more samples: what fits, in order. */
  function Fill(held: seq<Sample>, offered: seq<Sample>): seq<Sample> {
    if |held| >= RING_SAMPLES then held
    else held + offered[..Min(RING_SAMPLES - |held|, |offered|)]
  }

  lemma FillMore(held: seq<Sample>, offered: seq<Sample>, left: Sample, right: Sample)
    requires |held| % 2 == 0 && |offered| % 2 == 0 && |held| <= RING_SAMPLES
    ensures Fill(Fill(held, offered), [left, right]) == Fill(held, offered + [left, right])
    ensures |Fill(held, offered)| % 2 == 0 && |Fill(held, offered)| <= RING_SAMPLES
  {
    var room := RING_SAMPLES - |held|;
    if |offered| < room {
      assert (offered + [left, right])[..|offered| + 2] == offered + [left, right];
      assert offered[..|offered|] == offered;
      assert [left, right][..2] == [left, right];
      assert (held + offered) + [left, right] == held + (offered + [left, right]);
    } else {
      assert (offered + [left, right])[..room] == offered[..room];
    }
  }

  lemma FillNone(held: seq<Sample>)
    ensures Fill(held, []) == held
  {
    assert held + [] == held;
  }

  /** The samples between the two indices, oldest first. */
  function Window(slots: seq<Sample>, r: nat, w: nat): (s: seq<Sample>)
    requires |slots| == RING_SAMPLES && r <= w
    ensures |s| == 2 * (w - r)
  {
    seq(2 * (w - r), k requires 0 <= k => slots[Slot(2 * r + k)])
  }

  lemma WindowGrows(slots: seq<Sample>, r: nat, w: nat, left: Sample, right: Sample)
    requires |slots| == RING_SAMPLES && r <= w < r + RING_FRAMES
    ensures w % RING_FRAMES * 2 + 1 < RING_SAMPLES
    ensures Window(slots[w % RING_FRAMES * 2 := left][w % RING_FRAMES * 2 + 1 := right], r, w + 1)
         == Window(slots, r, w) + [left, right]
  {
    SlotOfFrame(w);
    SlotsDistinct(2 * w, 2 * w + 1);
    var after := slots[Slot(2 * w) := left][Slot(2 * w + 1) := right];
    forall q | 2 * r <= q < 2 * w
      ensures after[Slot(q)] == slots[Slot(q)]
    {
      SlotsDistinct(q, 2 * w);
      SlotsDistinct(q, 2 * w + 1);
    }
    hide Slot;
    WindowNext(after, r, w);
    assert Window(after, r, w) == Window(slots, r, w);
  }

  lemma WindowNext(slots: seq<Sample>, r: nat, w: nat)
    requires |slots| == RING_SAMPLES && r <= w
    ensures Window(slots, r, w + 1) == Window(slots, r, w) + [slots[Slot(2 * w)], slots[Slot(2 * w + 1)]]
  {
    hide Slot;
    var n := 2 * (w - r);
    assert 2 * r + n == 2 * w && 2 * r + (n + 1) == 2 * w + 1;
  }

  lemma FillFrame(held: seq<Sample>, left: Sample, right: Sample)
    requires |held| % 2 == 0 && |held| <= RING_SAMPLES
    ensures Fill(held, [left, right]) == if |held| == RING_SAMPLES then held else held + [left, right]
  {
    assert [left, right][..2] == [left, right];
  }

  class AudioInterface {
    var dramAddr: nat
    var len: nat
    var dacRate: nat
    var status: nat
    var interrupt: bool

    var active: bool
    var queued: bool
    var current: Job
    var next: Job
    var remaining: nat
    var cursor: nat
    var accum: nat
    var perFrame: nat
    var completed: nat
    const connected: bool

    const ring: array<Sample>
    var readIndex: nat
    var writeIndex: nat
    var samplesPushed: nat
    var framesDropped: nat

    /** Every sample handed to `push_frame`. */
    ghost var attempted: seq<Sample>

    ghost predicate Valid()
      reads this
    {
      RingValid() && DmaOk(State())
    }

    ghost predicate RingValid()
      reads `readIndex, `writeIndex, `samplesPushed, `framesDropped, `attempted
    {
      && ring.Length == RING_SAMPLES
      && readIndex <= writeIndex <= readIndex + RING_FRAMES
      && samplesPushed == writeIndex + framesDropped
      && |attempted| == 2 * samplesPushed
    }

    ghost function State(): Dma
      reads this
    {
      Dma(active, queued, current, next, remaining, cursor, accum, perFrame,
          dramAddr, len, dacRate, status, interrupt, completed, connected, attempted)
    }

    /** The samples waiting in the ring, oldest first. */
    ghost function Buffered(): (s: seq<Sample>)
      requires ring.Length == RING_SAMPLES && readIndex <= writeIndex
      reads `readIndex, `writeIndex, ring
      ensures |s| == 2 * (writeIndex - readIndex)
    {
      Window(ring[..], readIndex, writeIndex)
    }

    constructor (connected: bool)
      ensures Valid() && fresh(ring) && Buffered() == [] && attempted == [] && this.connected == connected
      ensures !active && !queued && completed == 0
    {
      this.connected := connected;
      dramAddr, len, dacRate, status, interrupt := 0, 0, DAC_CLOCK_HZ / DEFAULT_RATE - 1, 0, false;
      active, queued, current, next := false, false, Job(0, 0), Job(0, 0);
      remaining, cursor, accum, completed := 0, 0, 0, 0;
      perFrame := PerFrame(DAC_CLOCK_HZ / DEFAULT_RATE - 1);
      ring := new Sample[RING_SAMPLES](i => 0);
      readIndex, writeIndex, samplesPushed, framesDropped := 0, 0, 0, 0;
      attempted := [];
    }

    // -------------------------------------------------------------- the ring

    /** A full ring rejects the newest frame; nothing unread is overwritten. */
    method PushFrame(left: Sample, right: Sample)
      requires RingValid()
      modifies `writeIndex, `samplesPushed, `framesDropped, `attempted, ring
      ensures RingValid() && State() == old(State()).(attempted := old(attempted) + [left, right])
      ensures Buffered() == Fill(old(Buffered()), [left, right])
    {
      hide Slot, Window;
      var w := writeIndex;
      var r := readIndex;
      FillFrame(Buffered(), left, right);
      hide Fill;
      samplesPushed := samplesPushed + 1;
      attempted := attempted + [left, right];
      if w - r >= RING_FRAMES {
        framesDropped := framesDropped + 1;
        return;
      }
      WindowGrows(ring[..], r, w, left, right);
      var slot := w % RING_FRAMES * 2;
      ring[slot] := left;
      ring[slot + 1] := right;
      assert ring[..] == old(ring[..])[slot := left][slot + 1 := right];
      writeIndex := w + 1;
    }

    /** Takes the oldest frames, as many as there are and the span has room for. */
    method PullFrames(out: array<Sample>) returns (n: nat)
      requires Valid() && out != ring
      modifies `readIndex, out
      ensures Valid() && State() == old(State())
      ensures n == Min(out.Length / 2, |old(Buffered())| / 2)
      ensures out[..2 * n] == old(Buffered())[..2 * n] && out[2 * n..] == old(out[2 * n..])
      ensures Buffered() == old(Buffered())[2 * n..]
    {
      var maxFrames := out.Length / 2;
      if maxFrames == 0 {
        return 0;
      }
      var r := readIndex;
      var w := writeIndex;
      if w <= r {
        return 0;
      }
      n := Min(maxFrames, w - r);
      for f := 0 to n
        invariant readIndex == r && ring[..] == old(ring[..])
        invariant forall k | 0 <= k < 2 * f :: out[k] == old(Buffered())[k]
        invariant forall k | 2 * f <= k < out.Length :: out[k] == old(out[k])
      {
        var slot := (r + f) % RING_FRAMES * 2;
        SlotOfFrame(r + f);
        assert 2 * (r + f) == 2 * r + 2 * f;
        out[f * 2] := ring[slot];
        out[f * 2 + 1] := ring[slot + 1];
        hide Slot;
      }
      readIndex := r + n;
    }

    // -------------------------------------------------------------- DMA control

    method UpdateStatusBits()
      modifies `status
      ensures State() == old(State()).(status := StatusOf(active, queued))
    {
      var st := 0;
      if queued {
        st := st + STATUS_FULL;
      }
      if active {
        st := st + STATUS_BUSY;
      }
      status := st;
    }

    method BeginDma(job: Job)
      modifies `current, `active, `remaining, `cursor, `len, `status, `accum, `perFrame
      ensures State() == Begin(old(State()), job)
    {
      hide PerFrame, StatusOf;
      LoadJob(job);
      UpdateStatusBits();
      accum := 0;
      perFrame := PerFrame(dacRate);
    }

    /** The transfer's own registers. */
    method LoadJob(job: Job)
      modifies `current, `active, `remaining, `cursor, `len
      ensures State() == old(State()).(current := job, active := true, remaining := job.length,
                                       cursor := job.addr, len := job.length)
    {
      current := job;
      active := true;
      remaining := job.length;
      cursor := job.addr;
      len := job.length;
    }

    method FinishCurrentDma()
      modifies `current, `active, `remaining, `cursor, `len, `status, `accum, `perFrame,
               `completed, `interrupt, `queued, `next
      ensures State() == Finish(old(State()))
    {
      hide PerFrame, StatusOf, Begin;
      DropJob();
      UpdateStatusBits();
      interrupt := true;
      StartQueued();
    }

    method DropJob()
      modifies `active, `remaining, `len, `completed
      ensures State() == var d := old(State());
        d.(active := false, remaining := 0, len := 0, completed := d.completed + 1)
    {
      active := false;
      remaining := 0;
      len := 0;
      completed := completed + 1;
    }

    /** Starts the queued transfer, if there is one. */
    method StartQueued()
      modifies `current, `active, `remaining, `cursor, `len, `status, `accum, `perFrame, `queued, `next
      ensures State() == var d := old(State());
        if d.queued then Begin(d.(queued := false, next := Job(0, 0)), d.next)
        else d.(status := StatusOf(d.active, false))
    {
      hide PerFrame, StatusOf, Begin;
      if queued {
        queued := false;
        var following := next;
        next := Job(0, 0);
        BeginDma(following);
      } else {
        UpdateStatusBits();
      }
    }

    method StartOrQueueDma(lengthReg: nat)
      modifies `current, `active, `remaining, `cursor, `len, `status, `accum, `perFrame, `queued, `next
      ensures State() == StartOrQueue(old(State()), lengthReg)
    {
      hide PerFrame, StatusOf, Begin, AddressBits;
      var length := lengthReg / 8 * 8;
      if length == 0 {
        return;
      }
      var job := Job(AddressBits(dramAddr), length);
      if !active {
        BeginDma(job);
      } else if !queued {
        next := job;
        queued := true;
        UpdateStatusBits();
      }
    }

    /** Writing LEN starts a transfer, queues it, or is refused when one is already queued. */
    method WriteLength(value: u32)
      requires Valid()
      modifies `current, `active, `remaining, `cursor, `len, `status, `accum, `perFrame, `queued, `next
      ensures Valid() && State() == WriteLen(old(State()), value)
    {
      WriteLenKeeps(State(), value);
      hide DmaOk, StartOrQueue, LengthBits;
      len := LengthBits(value);
      StartOrQueueDma(len);
    }

    /** Drains the active transfer at once. */
    method CompleteDma(rdram: seq<u8>)
      requires Valid()
      modifies this, ring
      ensures Valid() && State() == Complete(old(State()), rdram)
      ensures old(attempted) <= attempted
      ensures Buffered() == Fill(old(Buffered()), attempted[|old(attempted)|..])
      ensures readIndex == old(readIndex)
    {
      ghost var was, held := State(), Buffered();
      CompleteKeeps(was, rdram);
      FillNone(held);
      assert attempted[|was.attempted|..] == [];
      assert !active ==> Complete(was, rdram) == was;
      hide Fill, Stream, SampleAt, DmaOk, Finish, Window;
      if !active {
        return;
      }
      if connected {
        Drain(rdram);
      }
      remaining := 0;
      FinishCurrentDma();
    }

    /** The frames left, handed to the ring in memory order. */
    method Drain(rdram: seq<u8>)
      requires Valid() && connected
      modifies `remaining, `cursor, `writeIndex, `samplesPushed, `framesDropped, `attempted, ring
      ensures RingValid() && Draining(old(State()), rdram, old(remaining) / 4)
      ensures var offered := Stream(rdram, old(cursor), old(remaining) / 4);
        attempted[|old(attempted)|..] == offered && Buffered() == Fill(old(Buffered()), offered)
    {
      ghost var was, held := State(), Buffered();
      FillNone(held);
      StreamEmpty(rdram, cursor);
      hide Fill, Stream, SampleAt, DmaOk, Window;
      ghost var i := 0;
      while remaining >= 4
        invariant Draining(was, rdram, i) && Feeding(held, was.attempted, Stream(rdram, was.cursor, i))
        decreases remaining
      {
        DrainFrame(was, held, rdram, i);
        i := i + 1;
      }
      assert i == was.remaining / 4;
    }

    method DrainFrame(ghost was: Dma, ghost held: seq<Sample>, rdram: seq<u8>, ghost i: nat)
      requires remaining >= 4
      requires Draining(was, rdram, i) && Feeding(held, was.attempted, Stream(rdram, was.cursor, i))
      modifies `remaining, `cursor, `writeIndex, `samplesPushed, `framesDropped, `attempted, ring
      ensures Draining(was, rdram, i + 1) && Feeding(held, was.attempted, Stream(rdram, was.cursor, i + 1))
      ensures remaining == old(remaining) - 4
    {
      hide Fill, Stream, SampleAt, DmaOk, Window, Feeding;
      StreamNext(rdram, was.cursor, i);
      ghost var frame := [SampleAt(rdram, cursor), SampleAt(rdram, cursor + 2)];
      PlayFrame(rdram, held, was.attempted, Stream(rdram, was.cursor, i));
      remaining := remaining - 4;
      assert (was.attempted + Stream(rdram, was.cursor, i)) + frame == was.attempted + Stream(rdram, was.cursor, i + 1);
    }

    // -------------------------------------------------------------- timing

    /** Plays the frames that have fallen due, one by one, and ends the transfer with its last. */
    method Tick(rdram: seq<u8>, cycles: nat)
      requires Valid()
      modifies this, ring
      ensures Valid() && State() == AudioDma.Tick(old(State()), rdram, cycles)
      ensures old(attempted) <= attempted
      ensures Buffered() == Fill(old(Buffered()), attempted[|old(attempted)|..])
      ensures readIndex == old(readIndex)
    {
      ghost var was, held := State(), Buffered();
      TickKeeps(was, rdram, cycles);
      FillNone(held);
      StreamEmpty(rdram, cursor);
      assert attempted[|was.attempted|..] == [];
      hide Fill, Stream, SampleAt, DmaOk, Finish, Window, AudioDma.Tick;
      if !active || remaining == 0 || perFrame == 0 || !connected {
        IdleTick(was, rdram, cycles);
        return;
      }
      ghost var i := Due(was, cycles);
      DueFits(was, cycles);
      hide Due;
      PlayDue(rdram, cycles);
      LoopCount(was, rdram, cycles, i, accum, remaining);
      hide Play;
      EndIfDone();
    }

    /** Ends the transfer whose last frame has been played. */
    method EndIfDone()
      modifies `current, `active, `remaining, `cursor, `len, `status, `accum, `perFrame,
               `completed, `interrupt, `queued, `next
      ensures State() == var d := old(State());
        if d.active && d.remaining < 4 then Finish(d.(remaining := 0)) else d
    {
      hide Finish;
      if active && remaining < 4 {
        remaining := 0;
        FinishCurrentDma();
      }
    }

    /** The loop of `tick`. */
    method PlayDue(rdram: seq<u8>, cycles: nat)
      requires Valid() && !AudioDma.Idle(State())
      modifies `accum, `remaining, `cursor, `len, `writeIndex, `samplesPushed, `framesDropped, `attempted, ring
      ensures accum < perFrame || remaining < 4
      ensures Playing(old(State()).(accum := old(accum) + cycles), rdram, Due(old(State()), cycles))
      ensures var offered := Stream(rdram, old(cursor), Due(old(State()), cycles));
        && RingValid() && attempted == old(attempted) + offered
        && Buffered() == Fill(old(Buffered()), offered)
    {
      ghost var was, held := State(), Buffered();
      FillNone(held);
      accum := accum + cycles;
      ghost var due := was.(accum := was.accum + cycles);
      ghost var i := 0;
      PlayNone(due, rdram);
      hide Fill, Stream, SampleAt, DmaOk, Finish, Window, AudioDma.Tick;
      while active && accum >= perFrame && remaining >= 4
        invariant Playing(due, rdram, i) && Feeding(held, was.attempted, Stream(rdram, was.cursor, i))
        decreases remaining
      {
        AdvanceFrame(due, held, rdram, i);
        i := i + 1;
      }
      LoopCount(was, rdram, cycles, i, accum, remaining);
    }

    /** `i` due frames have been played since `due`. */
    ghost predicate Playing(due: Dma, rdram: seq<u8>, i: nat)
      reads this
    {
      4 * i <= due.remaining && i * due.perFrame <= due.accum && State() == Play(due, rdram, i)
    }

    method AdvanceFrame(ghost due: Dma, ghost held: seq<Sample>, rdram: seq<u8>, ghost i: nat)
      requires remaining >= 4 && accum >= perFrame
      requires Playing(due, rdram, i) && Feeding(held, due.attempted, Stream(rdram, due.cursor, i))
      modifies `accum, `remaining, `cursor, `len, `writeIndex, `samplesPushed, `framesDropped, `attempted, ring
      ensures Playing(due, rdram, i + 1) && Feeding(held, due.attempted, Stream(rdram, due.cursor, i + 1))
      ensures remaining == old(remaining) - 4
    {
      hide Fill, Stream, SampleAt, DmaOk, Window, LengthBits, Feeding;
      accum := accum - perFrame;
      StreamNext(rdram, due.cursor, i);
      ghost var frame := [SampleAt(rdram, cursor), SampleAt(rdram, cursor + 2)];
      PlayFrame(rdram, held, due.attempted, Stream(rdram, due.cursor, i));
      remaining := remaining - 4;
      len := LengthBits(remaining);
      assert (due.attempted + Stream(rdram, due.cursor, i)) + frame == due.attempted + Stream(rdram, due.cursor, i + 1);
      assert (i + 1) * due.perFrame == i * due.perFrame + due.perFrame;
    }

    /** `i` frames into draining the transfer that was active in `was`. */
    ghost predicate Draining(was: Dma, rdram: seq<u8>, i: nat)
      reads this
    {
      && 4 * i <= was.remaining
      && State() == was.(cursor := was.cursor + 4 * i, remaining := was.remaining - 4 * i,
                         attempted := was.attempted + Stream(rdram, was.cursor, i))
    }

    /** The ring has been offered `offered` since it held `held`. */
    ghost predicate Feeding(held: seq<Sample>, before: seq<Sample>, offered: seq<Sample>)
      reads `readIndex, `writeIndex, `samplesPushed, `framesDropped, `attempted, ring
    {
      && RingValid()
      && attempted == before + offered && |offered| % 2 == 0
      && |held| % 2 == 0 && |held| <= RING_SAMPLES && Buffered() == Fill(held, offered)
    }

    /** Fetches one frame at the cursor and offers it to the ring. */
    method PlayFrame(rdram: seq<u8>, ghost held: seq<Sample>, ghost before: seq<Sample>, ghost offered: seq<Sample>)
      requires Feeding(held, before, offered)
      modifies `cursor, `writeIndex, `samplesPushed, `framesDropped, `attempted, ring
      ensures var frame := [SampleAt(rdram, old(cursor)), SampleAt(rdram, old(cursor) + 2)];
        && Feeding(held, before, offered + frame)
        && State() == old(State()).(cursor := old(cursor) + 4, attempted := old(attempted) + frame)
    {
      var left := SampleAt(rdram, cursor);
      var right := SampleAt(rdram, cursor + 2);
      FillMore(held, offered, left, right);
      hide SampleAt, Fill;
      PushFrame(left, right);
      cursor := cursor + 4;
    }
  }

  lemma IdleTick(d: Dma, rdram: seq<u8>, cycles: nat)
    requires AudioDma.Idle(d)
    ensures Tick(d, rdram, cycles) == d
  {
  }

  lemma PlayNone(d: Dma, rdram: seq<u8>)
    ensures Play(d, rdram, 0) == d && Stream(rdram, d.cursor, 0) == []
  {
    assert d.attempted + [] == d.attempted;
  }

  /** The loop stops after exactly the number of frames due. */
  lemma LoopCount(d: Dma, rdram: seq<u8>, cycles: nat, i: nat, accum: nat, remaining: nat)
    requires !AudioDma.Idle(d) && 4 * i <= d.remaining && i * d.perFrame <= d.accum + cycles
    requires accum == d.accum + cycles - i * d.perFrame && remaining == d.remaining - 4 * i
    requires accum < d.perFrame || remaining < 4
    ensures i == Due(d, cycles)
    ensures var played := Play(d.(accum := d.accum + cycles), rdram, i);
      Tick(d, rdram, cycles) == if remaining < 4 then Finish(played.(remaining := 0)) else played
  {
    DueFits(d, cycles);
    var p, n := d.perFrame, d.accum + cycles;
    QuotientNat(n, p);
    if accum < p {
      assert n == p * i + accum;
      DivMod(n, p, i, accum);
    } else {
      MulGap(p, n / p + 1 - i);
      assert p * (n / p + 1 - i) == (n / p + 1) * p - i * p;
    }
    hide Play, Finish;
  }

  lemma StreamNext(rdram: seq<u8>, cursor: nat, frames: nat)
    ensures Stream(rdram, cursor, frames)
            + [SampleAt(rdram, cursor + 4 * frames), SampleAt(rdram, cursor + 4 * frames + 2)]
         == Stream(rdram, cursor, frames + 1)
  {
    hide SampleAt;
  }
}
