/** The lock-free ring between the emulator thread, which pushes stereo frames, and the host
    audio callback, which pulls them. Each thread is a sequence of atomic steps on shared
    memory; between its steps the other thread may take any number of its own. */
module AudioRing {
  const RING_FRAMES: nat := 8192
  const RING_SAMPLES: nat := 16384

  type Sample = x: int | -0x8000 <= x < 0x8000

  /** Where the interleaved sample number `q` lives: frame `q / 2`, left then right. */
  function Slot(q: nat): (slot: nat)
    ensures slot < RING_SAMPLES
  {
    q / 2 % RING_FRAMES * 2 + q % 2
  }

  /** Samples less than a ring apart never share a slot. */
  lemma SlotsDistinct(p: nat, q: nat)
    requires p < q < p + RING_SAMPLES
    ensures Slot(p) != Slot(q)
  {
  }

  // ---------------------------------------------------------------- the machine

  /** The producer's program counter in `push_frame`, with the indices it has read; `r` may
      be out of date by the time it is used. */
  datatype Producer =
    | Idle
    | LoadedW(left: Sample, right: Sample, w: nat)
    | StoreLeft(left: Sample, right: Sample, w: nat, r: nat)
    | StoreRight(left: Sample, right: Sample, w: nat, r: nat)
    | Publish(left: Sample, right: Sample, w: nat, r: nat)

  /** The consumer's program counter in `pull_frames`; `w` may be out of date. */
  datatype Consumer =
    | Waiting
    | LoadedR(max: nat, r: nat)
    | Copying(r: nat, w: nat, n: nat, copied: seq<Sample>)

  /** The shared memory, both threads, and what has been published by each so far as streams
      of interleaved samples. */
  datatype Ring = Ring(
    slots: seq<Sample>, r: nat, w: nat,
    samplesPushed: nat, framesDropped: nat,
    producer: Producer, consumer: Consumer,
    accepted: seq<Sample>, pulled: seq<Sample>)

  datatype Action =
    | Push(left: Sample, right: Sample)
    | ProducerStep
    | Pull(max: nat)
    | ConsumerStep

  /** `push_frame` is entered and reads the index it owns. */
  function BeginPush(s: Ring, left: Sample, right: Sample): Ring {
    if s.producer.Idle? then s.(producer := LoadedW(left, right, s.w)) else s
  }

  /** One shared access of the producer, with the local work up to the next one. */
  function StepProducer(s: Ring): Ring {
    match s.producer
    case Idle => s
    case LoadedW(left, right, w) =>
      var counted := s.(samplesPushed := s.samplesPushed + 1);
      if w - s.r >= RING_FRAMES
      then counted.(framesDropped := s.framesDropped + 1, producer := Idle)
      else counted.(producer := StoreLeft(left, right, w, s.r))
    case StoreLeft(left, right, w, r) =>
      Write(s, w % RING_FRAMES * 2, left).(producer := StoreRight(left, right, w, r))
    case StoreRight(left, right, w, r) =>
      Write(s, w % RING_FRAMES * 2 + 1, right).(producer := Publish(left, right, w, r))
    case Publish(left, right, w, r) =>
      s.(w := w + 1, accepted := s.accepted + [left, right], producer := Idle)
  }

  function Write(s: Ring, slot: nat, value: Sample): Ring {
    if slot < |s.slots| then s.(slots := s.slots[slot := value]) else s
  }

  function Read(s: Ring, slot: nat): Sample {
    if slot < |s.slots| then s.slots[slot] else 0
  }

  /** `pull_frames` is entered and reads the index it owns; an empty span returns at once. */
  function BeginPull(s: Ring, max: nat): Ring {
    if s.consumer.Waiting? && max > 0 then s.(consumer := LoadedR(max, s.r)) else s
  }

  /** One shared access of the consumer. */
  function StepConsumer(s: Ring): Ring {
    match s.consumer
    case Waiting => s
    case LoadedR(max, r) =>
      if s.w <= r then s.(consumer := Waiting)
      else s.(consumer := Copying(r, s.w, if max < s.w - r then max else s.w - r, []))
    case Copying(r, w, n, copied) =>
      if |copied| < 2 * n
      then
        var slot := (r + |copied| / 2) % RING_FRAMES * 2 + |copied| % 2;
        s.(consumer := Copying(r, w, n, copied + [Read(s, slot)]))
      else s.(r := r + n, pulled := s.pulled + copied, consumer := Waiting)
  }

  function Act(s: Ring, a: Action): Ring {
    match a
    case Push(left, right) => BeginPush(s, left, right)
    case ProducerStep => StepProducer(s)
    case Pull(max) => BeginPull(s, max)
    case ConsumerStep => StepConsumer(s)
  }

  predicate Initial(s: Ring) {
    && |s.slots| == RING_SAMPLES && s.r == s.w == s.samplesPushed == s.framesDropped == 0
    && s.producer == Idle && s.consumer == Waiting && s.accepted == s.pulled == []
  }

  /** Any interleaving of calls and steps. */
  function Interleave(s: Ring, actions: seq<Action>): Ring
    decreases |actions|
  {
    if actions == [] then s else Interleave(Act(s, actions[0]), actions[1..])
  }

  // ---------------------------------------------------------------- the invariant

  /** A frame the producer has counted but not yet published. */
  function InFlight(p: Producer): nat {
    if p.Idle? || p.LoadedW? then 0 else 1
  }

  /** Everything accepted and not yet released by the consumer is intact in its slot. */
  predicate Intact(s: Ring)
    requires |s.slots| == RING_SAMPLES && |s.accepted| == 2 * s.w
  {
    forall q | 2 * s.r <= q < 2 * s.w :: s.slots[Slot(q)] == s.accepted[q]
  }

  predicate ProducerOk(s: Ring)
    requires |s.slots| == RING_SAMPLES
  {
    match s.producer
    case Idle => true
    case LoadedW(left, right, w) => w == s.w
    case StoreLeft(left, right, w, r) => Room(s, w, r)
    case StoreRight(left, right, w, r) => Room(s, w, r) && s.slots[Slot(2 * w)] == left
    case Publish(left, right, w, r) =>
      Room(s, w, r) && s.slots[Slot(2 * w)] == left && s.slots[Slot(2 * w + 1)] == right
  }

  /** The producer's stale view of the read index still guarantees a free slot. */
  predicate Room(s: Ring, w: nat, r: nat) {
    w == s.w && r <= s.r && w < r + RING_FRAMES
  }

  predicate ConsumerOk(s: Ring)
    requires |s.accepted| == 2 * s.w
  {
    match s.consumer
    case Waiting => true
    case LoadedR(max, r) => r == s.r && max > 0
    case Copying(r, w, n, copied) =>
      && r == s.r && w <= s.w && 0 < n && r + n <= w && |copied| <= 2 * n
      && copied == s.accepted[2 * r..2 * r + |copied|]
  }

  predicate Indices(s: Ring) {
    && |s.slots| == RING_SAMPLES && s.r <= s.w <= s.r + RING_FRAMES
    && |s.accepted| == 2 * s.w && s.pulled == s.accepted[..2 * s.r]
    && s.samplesPushed == s.w + s.framesDropped + InFlight(s.producer)
  }

  predicate Inv(s: Ring) {
    Indices(s) && Intact(s) && ProducerOk(s) && ConsumerOk(s)
  }

  lemma BeginKeeps(s: Ring, left: Sample, right: Sample, max: nat)
    requires Inv(s)
    ensures Inv(BeginPush(s, left, right)) && Inv(BeginPull(s, max))
  {
  }

  /** Storing half a frame touches no slot that holds an unread sample. */
  lemma StoreKeeps(s: Ring, q: nat, value: Sample)
    requires Indices(s) && Intact(s)
    requires 2 * s.w <= q < 2 * s.r + RING_SAMPLES
    ensures Slot(q) < |s.slots| && Intact(s.(slots := s.slots[Slot(q) := value]))
  {
    forall p | 2 * s.r <= p < 2 * s.w
      ensures s.slots[Slot(q) := value][Slot(p)] == s.accepted[p]
    {
      SlotsDistinct(p, q);
    }
  }

  lemma PublishKeeps(s: Ring)
    requires Inv(s) && s.producer.Publish?
    ensures Inv(StepProducer(s))
  {
    var p, t := s.producer, StepProducer(s);
    forall q | 2 * t.r <= q < 2 * t.w
      ensures t.slots[Slot(q)] == t.accepted[q]
    {
      hide Slot;
      assert q < 2 * s.w || q == 2 * s.w || q == 2 * s.w + 1;
    }
    hide Slot;
    assert t.accepted[..2 * t.r] == s.accepted[..2 * s.r];
    if s.consumer.Copying? {
      var c := s.consumer;
      assert t.accepted[2 * c.r..2 * c.r + |c.copied|] == s.accepted[2 * c.r..2 * c.r + |c.copied|];
    }
  }

  lemma SlotOfFrame(w: nat)
    ensures Slot(2 * w) == w % RING_FRAMES * 2 && Slot(2 * w + 1) == w % RING_FRAMES * 2 + 1
  {
  }

  lemma StoreLeftKeeps(s: Ring)
    requires Inv(s) && s.producer.StoreLeft?
    ensures Inv(StepProducer(s))
  {
    var p := s.producer;
    SlotOfFrame(p.w);
    StoreKeeps(s, 2 * p.w, p.left);
    hide Slot, Intact;
  }

  lemma StoreRightKeeps(s: Ring)
    requires Inv(s) && s.producer.StoreRight?
    ensures Inv(StepProducer(s))
  {
    var p := s.producer;
    SlotOfFrame(p.w);
    StoreKeeps(s, 2 * p.w + 1, p.right);
    hide Slot, Intact;
  }

  lemma StepProducerKeeps(s: Ring)
    requires Inv(s)
    ensures Inv(StepProducer(s))
  {
    hide Slot;
    if s.producer.StoreLeft? {
      StoreLeftKeeps(s);
    } else if s.producer.StoreRight? {
      StoreRightKeeps(s);
    } else if s.producer.Publish? {
      PublishKeeps(s);
    }
  }

  /** The next sample copied is the next one of the accepted stream. */
  lemma CopyKeeps(s: Ring)
    requires Inv(s) && s.consumer.Copying? && |s.consumer.copied| < 2 * s.consumer.n
    ensures Inv(StepConsumer(s))
  {
    var c := s.consumer;
    var q := 2 * c.r + |c.copied|;
    assert Slot(q) == (c.r + |c.copied| / 2) % RING_FRAMES * 2 + |c.copied| % 2;
    assert s.slots[Slot(q)] == s.accepted[q];
    hide Slot, Intact;
    assert s.accepted[2 * c.r..q] + [s.accepted[q]] == s.accepted[2 * c.r..q + 1];
  }

  lemma ReleaseKeeps(s: Ring)
    requires Inv(s) && s.consumer.Copying? && |s.consumer.copied| >= 2 * s.consumer.n
    ensures Inv(StepConsumer(s))
  {
    hide Slot;
    var c := s.consumer;
    var q := 2 * c.r + |c.copied|;
    assert s.accepted[..2 * c.r] + s.accepted[2 * c.r..q] == s.accepted[..q];
  }

  lemma StepConsumerKeeps(s: Ring)
    requires Inv(s)
    ensures Inv(StepConsumer(s))
  {
    hide Slot;
    if s.consumer.Copying? {
      if |s.consumer.copied| < 2 * s.consumer.n {
        CopyKeeps(s);
      } else {
        ReleaseKeeps(s);
      }
    }
  }

  lemma ActKeeps(s: Ring, a: Action)
    requires Inv(s)
    ensures Inv(Act(s, a))
  {
    hide Inv, StepProducer, StepConsumer, BeginPush, BeginPull;
    match a
    case Push(left, right) => BeginKeeps(s, left, right, 0);
    case ProducerStep => StepProducerKeeps(s);
    case Pull(max) => BeginKeeps(s, 0, 0, max);
    case ConsumerStep => StepConsumerKeeps(s);
  }

  lemma {:induction false} InterleaveKeeps(s: Ring, actions: seq<Action>)
    requires Inv(s)
    ensures Inv(Interleave(s, actions))
    decreases |actions|
  {
    hide Inv, Act;
    if actions != [] {
      ActKeeps(s, actions[0]);
      InterleaveKeeps(Act(s, actions[0]), actions[1..]);
    }
  }

  // ---------------------------------------------------------------- what every interleaving gives

  /** First in, first out: whatever the schedule, the samples pulled are a prefix of the samples
      accepted, the ring never holds more than its capacity, and every frame offered was
      accepted, dropped, or is the one still in flight. */
  lemma FifoUnderEveryInterleaving(start: Ring, actions: seq<Action>)
    requires Initial(start)
    ensures var s := Interleave(start, actions);
      && s.pulled <= s.accepted && |s.pulled| == 2 * s.r && |s.accepted| == 2 * s.w
      && 0 <= s.w - s.r <= RING_FRAMES
      && s.samplesPushed == s.w + s.framesDropped + InFlight(s.producer)
  {
    InterleaveKeeps(start, actions);
  }

  /** The slot the producer is about to write. */
  function Writing(p: Producer): (slot: int) {
    if p.StoreLeft? then p.w % RING_FRAMES * 2
    else if p.StoreRight? then p.w % RING_FRAMES * 2 + 1
    else -1
  }

  /** The slots the consumer may still read in the current call. */
  predicate StillReads(c: Consumer, slot: int) {
    c.Copying? && exists q: nat | 2 * c.r <= q < 2 * (c.r + c.n) :: Slot(q) == slot
  }

  /** No slot is ever written while the consumer may still be copying it, however old the
      producer's copy of the read index and the consumer's copy of the write index. */
  lemma NeverWritesWhatIsRead(start: Ring, actions: seq<Action>)
    requires Initial(start)
    ensures var s := Interleave(start, actions);
      !StillReads(s.consumer, Writing(s.producer))
  {
    InterleaveKeeps(start, actions);
    var s := Interleave(start, actions);
    hide Interleave;
    WritesElsewhere(s);
  }

  lemma WritesElsewhere(s: Ring)
    requires Inv(s)
    ensures !StillReads(s.consumer, Writing(s.producer))
  {
    var p, c := s.producer, s.consumer;
    if c.Copying? {
      if p.StoreLeft? || p.StoreRight? {
        SlotOfFrame(p.w);
      }
      forall q: nat | 2 * c.r <= q < 2 * (c.r + c.n)
        ensures Slot(q) != Writing(p)
      {
        if p.StoreLeft? {
          SlotsDistinct(q, 2 * p.w);
        } else if p.StoreRight? {
          SlotsDistinct(q, 2 * p.w + 1);
        }
      }
    }
    hide Slot, Writing;
  }

  /** A frame is dropped exactly when the ring is full as the producer reads the read index. */
  lemma DropsExactlyWhenFull(start: Ring, actions: seq<Action>)
    requires Initial(start)
    ensures var s := Interleave(start, actions);
      (Act(s, ProducerStep).framesDropped != s.framesDropped) <==> (s.producer.LoadedW? && s.w - s.r == RING_FRAMES)
  {
    InterleaveKeeps(start, actions);
  }

  /** Inside a call of the consumer that saw `n` frames from index `r` on, after `base` was pulled. */
  predicate InCall(s: Ring, r: nat, w: nat, n: nat, base: seq<Sample>) {
    s.consumer.Copying? && s.consumer.r == r && s.consumer.w == w && s.consumer.n == n && s.pulled == base
  }

  /** The call has returned those frames, in order, right after `base`. */
  predicate Returned(s: Ring, r: nat, n: nat, base: seq<Sample>) {
    2 * (r + n) <= |s.accepted| && base + s.accepted[2 * r..2 * (r + n)] <= s.pulled
  }

  /** Streams only grow. */
  lemma ActGrows(s: Ring, a: Action)
    ensures s.accepted <= Act(s, a).accepted && s.pulled <= Act(s, a).pulled
  {
  }

  lemma ReturnedStays(s: Ring, a: Action, r: nat, n: nat, base: seq<Sample>)
    requires Returned(s, r, n, base)
    ensures Returned(Act(s, a), r, n, base)
  {
    ActGrows(s, a);
    hide Act;
    assert Act(s, a).accepted[2 * r..2 * (r + n)] == s.accepted[2 * r..2 * (r + n)];
  }

  /** The last access of a call releases what it copied; no other step touches the call. */
  lemma ActInCall(s: Ring, a: Action, r: nat, w: nat, n: nat, base: seq<Sample>)
    requires Inv(s) && InCall(s, r, w, n, base)
    ensures InCall(Act(s, a), r, w, n, base) || Returned(Act(s, a), r, n, base)
  {
    hide Slot, Intact, ProducerOk;
    var c := s.consumer;
    if a.ConsumerStep? && |c.copied| >= 2 * n {
      assert |c.copied| == 2 * n;
      assert Act(s, a).pulled == base + s.accepted[2 * r..2 * (r + n)];
    }
  }

  /** Whatever the producer does meanwhile, a call that saw `n` frames is still copying or has
      returned exactly the next `n` accepted frames, in order, after those pulled before it. */
  lemma {:induction false} PullDelivers(s: Ring, actions: seq<Action>, r: nat, w: nat, n: nat, base: seq<Sample>)
    requires Inv(s) && (InCall(s, r, w, n, base) || Returned(s, r, n, base))
    ensures var t := Interleave(s, actions); InCall(t, r, w, n, base) || Returned(t, r, n, base)
    decreases |actions|
  {
    hide Inv, Act, InCall, Returned;
    if actions != [] {
      var a := actions[0];
      ActKeeps(s, a);
      if InCall(s, r, w, n, base) {
        ActInCall(s, a, r, w, n, base);
      } else {
        ReturnedStays(s, a, r, n, base);
      }
      PullDelivers(Act(s, a), actions[1..], r, w, n, base);
    }
  }

  /** The consumer's own next `2 * n + 1` accesses finish the call, so it never waits for the
      producer: its part of the schedule alone decides when it returns. */
  lemma {:induction false} PullFinishes(s: Ring, actions: seq<Action>, r: nat, w: nat, n: nat, base: seq<Sample>)
    requires Inv(s) && InCall(s, r, w, n, base)
    requires ConsumerSteps(actions) > 2 * n - |s.consumer.copied|
    ensures Returned(Interleave(s, actions), r, n, base)
    decreases |actions|
  {
    if actions != [] {
      var a := actions[0];
      ActKeeps(s, a);
      ActInCall(s, a, r, w, n, base);
      CallProgress(s, a);
      hide Inv, Act, Returned;
      var t := Act(s, a);
      if InCall(t, r, w, n, base) {
        PullFinishes(t, actions[1..], r, w, n, base);
      } else {
        PullDelivers(t, actions[1..], r, w, n, base);
        ReturnedForEver(t, actions[1..], r, n, base);
      }
    }
  }

  function ConsumerSteps(actions: seq<Action>): nat
    decreases |actions|
  {
    if actions == [] then 0 else (if actions[0].ConsumerStep? then 1 else 0) + ConsumerSteps(actions[1..])
  }

  lemma {:induction false} ReturnedForEver(s: Ring, actions: seq<Action>, r: nat, n: nat, base: seq<Sample>)
    requires Returned(s, r, n, base)
    ensures Returned(Interleave(s, actions), r, n, base)
    decreases |actions|
  {
    hide Act, Returned;
    if actions != [] {
      ReturnedStays(s, actions[0], r, n, base);
      ReturnedForEver(Act(s, actions[0]), actions[1..], r, n, base);
    }
  }

  lemma CallProgress(s: Ring, a: Action)
    requires Inv(s) && s.consumer.Copying?
    ensures var t := Act(s, a);
      t.consumer.Copying? ==>
        |t.consumer.copied| == |s.consumer.copied| + (if a.ConsumerStep? then 1 else 0)
    ensures a.ConsumerStep? && |s.consumer.copied| >= 2 * s.consumer.n ==> !Act(s, a).consumer.Copying?
  {
    hide Slot, Intact, ProducerOk;
  }
}
