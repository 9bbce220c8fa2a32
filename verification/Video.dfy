/** Video timing: CPU cycles become line steps, line steps become frames, and each frame
    reaches the programmed interrupt line once. */
module Video {
  import opened Words

  const CYCLES_PER_LINE: nat := 5963
  const DEFAULT_LINES: nat := 262

  /** The registers and fields timing depends on; `raised` counts the interrupts sent to the
      interrupt controller. */
  datatype Timing = Timing(
    cycleAccum: nat, linesPerFrame: nat, vIntr: u32, vCurrent: nat,
    frames: nat, frameReady: bool, interruptLine: bool, raised: nat)

  /** The mask 0x3FE: ten bits without the field bit. */
  function EvenLine(value: nat): (line: nat)
    ensures line % 2 == 0 && line <= 1022
  {
    value % 0x400 / 2 * 2
  }

  lemma EvenStays(line: nat)
    requires line % 2 == 0 && line <= 1022
    ensures EvenLine(line) == line
  {
  }

  /** The last line of a frame. */
  function LastLine(v: Timing): nat {
    EvenLine(v.linesPerFrame)
  }

  /** One turn of the loop in `tick`, once its line's worth of cycles has been taken. */
  function LineStep(v: Timing): Timing {
    var next := EvenLine(v.vCurrent % 0x400 + 2);
    var wraps := next > LastLine(v) || next == 0;
    var line := if wraps then 0 else next;
    var moved := if wraps
      then v.(vCurrent := line, frames := v.frames + 1, frameReady := true, interruptLine := false)
      else v.(vCurrent := line);
    var intr := EvenLine(v.vIntr);
    if !moved.interruptLine && intr != 0 && line == intr
    then moved.(interruptLine := true, raised := moved.raised + 1)
    else moved
  }

  function LineSteps(v: Timing, n: nat): Timing
    decreases n
  {
    if n == 0 then v else LineStep(LineSteps(v, n - 1))
  }

  /** All the lines that `cycles` more cycles cover, and the cycles left over. */
  function Ticked(v: Timing, cycles: nat): Timing {
    LineSteps(v, (v.cycleAccum + cycles) / CYCLES_PER_LINE).(cycleAccum := (v.cycleAccum + cycles) % CYCLES_PER_LINE)
  }

  predicate TimingOk(v: Timing) {
    v.cycleAccum < CYCLES_PER_LINE && v.vCurrent % 2 == 0 && v.vCurrent <= 1022 && 100 <= v.linesPerFrame < 800
  }

  class VideoInterface {
    var cycleAccum: nat
    var linesPerFrame: nat
    var vIntr: u32
    var vCurrent: nat
    var frames: nat
    var frameReady: bool
    var interruptLine: bool
    ghost var raised: nat

    ghost function State(): Timing
      reads this
    {
      Timing(cycleAccum, linesPerFrame, vIntr, vCurrent, frames, frameReady, interruptLine, raised)
    }

    constructor ()
      ensures TimingOk(State()) && vCurrent == 0 && !interruptLine && frames == 0 && linesPerFrame == DEFAULT_LINES
    {
      cycleAccum, linesPerFrame, vIntr, vCurrent := 0, DEFAULT_LINES, 2, 0;
      frames, frameReady, interruptLine, raised := 0, false, false, 0;
    }

    method RaiseInterrupt()
      modifies `interruptLine, `raised
      ensures State() == old(State()).(interruptLine := true, raised := old(raised) + 1)
    {
      interruptLine := true;
      raised := raised + 1;
    }

    /** V_SYNC sets the frame length only in the range it accepts. */
    method WriteVSync(value: u32)
      modifies `linesPerFrame
      ensures linesPerFrame == if 100 <= value % 0x400 < 800 then value % 0x400 else old(linesPerFrame)
      ensures TimingOk(old(State())) ==> TimingOk(State())
    {
      var vs := value % 0x400;
      if vs >= 100 && vs < 800 {
        linesPerFrame := vs;
      }
    }

    /** Writing V_CURRENT acknowledges the interrupt and leaves the line alone. */
    method WriteVCurrent()
      modifies `interruptLine
      ensures !interruptLine
    {
      interruptLine := false;
    }

    method Tick(cycles: nat)
      requires TimingOk(State())
      modifies this
      ensures TimingOk(State()) && State() == Ticked(old(State()), cycles)
    {
      ghost var was := State();
      TickNone(was);
      if cycles == 0 {
        return;
      }
      cycleAccum := cycleAccum + cycles;
      ghost var total, i := cycleAccum, 0;
      hide LineStep, Ticked;
      while cycleAccum >= CYCLES_PER_LINE
        invariant total == CYCLES_PER_LINE * i + cycleAccum && TimingOk(State().(cycleAccum := 0))
        invariant State() == LineSteps(was, i).(cycleAccum := cycleAccum)
        decreases cycleAccum
      {
        cycleAccum := cycleAccum - CYCLES_PER_LINE;
        StepIgnoresCycles(LineSteps(was, i), cycleAccum);
        StepLine();
        i := i + 1;
      }
      DivMod(total, CYCLES_PER_LINE, i, cycleAccum);
      TickIs(was, cycles, i, cycleAccum);
    }

    method StepLine()
      requires TimingOk(State().(cycleAccum := 0))
      modifies `vCurrent, `frames, `frameReady, `interruptLine, `raised
      ensures State() == LineStep(old(State())) && TimingOk(State().(cycleAccum := 0))
    {
      hide EvenLine;
      var line := EvenLine(vCurrent % 0x400 + 2);
      if line > EvenLine(linesPerFrame) || line == 0 {
        line := 0;
        frames := frames + 1;
        frameReady := true;
        interruptLine := false;
      }
      EvenStays(line);
      vCurrent := EvenLine(line);
      var intr := EvenLine(vIntr);
      if !interruptLine && intr != 0 && line == intr {
        RaiseInterrupt();
      }
    }
  }

  lemma TickNone(v: Timing)
    requires TimingOk(v)
    ensures Ticked(v, 0) == v
  {
  }

  lemma TickIs(v: Timing, cycles: nat, n: nat, rest: nat)
    requires (v.cycleAccum + cycles) / CYCLES_PER_LINE == n && (v.cycleAccum + cycles) % CYCLES_PER_LINE == rest
    ensures Ticked(v, cycles) == LineSteps(v, n).(cycleAccum := rest)
  {
  }

  lemma StepIgnoresCycles(v: Timing, accum: nat)
    ensures LineStep(v.(cycleAccum := accum)) == LineStep(v).(cycleAccum := accum)
  {
  }

  // ---------------------------------------------------------------- batching

  lemma {:induction false} StepsIgnoreCycles(v: Timing, accum: nat, n: nat)
    ensures LineSteps(v.(cycleAccum := accum), n) == LineSteps(v, n).(cycleAccum := accum)
    decreases n
  {
    if n > 0 {
      StepsIgnoreCycles(v, accum, n - 1);
      StepIgnoresCycles(LineSteps(v, n - 1), accum);
    }
    hide LineStep;
  }

  lemma {:induction false} StepsAdd(v: Timing, a: nat, b: nat)
    ensures LineSteps(LineSteps(v, a), b) == LineSteps(v, a + b)
    decreases b
  {
    hide LineStep;
    if b > 0 {
      StepsAdd(v, a, b - 1);
    }
  }

  /** How cycles are batched cannot be observed. */
  lemma BatchingInvisible(v: Timing, a: nat, b: nat)
    ensures Ticked(Ticked(v, a), b) == Ticked(v, a + b)
  {
    hide LineSteps, LineStep;
    var n, rest := (v.cycleAccum + a) / CYCLES_PER_LINE, (v.cycleAccum + a) % CYCLES_PER_LINE;
    var m, left := (rest + b) / CYCLES_PER_LINE, (rest + b) % CYCLES_PER_LINE;
    DivMod(v.cycleAccum + a + b, CYCLES_PER_LINE, n + m, left);
    StepsIgnoreCycles(LineSteps(v, n), rest, m);
    StepsAdd(v, n, m);
  }

  // ---------------------------------------------------------------- frames

  datatype Event = Line | Acknowledge

  function Apply(v: Timing, e: Event): Timing {
    if e.Line? then LineStep(v) else v.(interruptLine := false)
  }

  function ApplyAll(v: Timing, events: seq<Event>): Timing
    decreases |events|
  {
    if events == [] then v else Apply(ApplyAll(v, events[..|events| - 1]), events[|events| - 1])
  }

  function Lines(events: seq<Event>): nat
    decreases |events|
  {
    if events == [] then 0 else Lines(events[..|events| - 1]) + (if events[|events| - 1].Line? then 1 else 0)
  }

  /** How often a frame of this length reaches the interrupt line. */
  function PerFrame(v: Timing): nat {
    if 0 < EvenLine(v.vIntr) <= LastLine(v) then 1 else 0
  }

  /** Line steps in a frame. */
  function Period(v: Timing): nat {
    LastLine(v) / 2 + 1
  }

  predicate FrameStart(v: Timing) {
    TimingOk(v) && v.vCurrent == 0 && !v.interruptLine
  }

  /** `k` lines into the frame that began in `start`. */
  predicate InFrame(v: Timing, start: Timing, k: nat) {
    && TimingOk(v) && v.linesPerFrame == start.linesPerFrame && v.vIntr == start.vIntr
    && v.vCurrent == 2 * k <= LastLine(v) && v.frames == start.frames
    && v.raised == start.raised + (if 0 < EvenLine(v.vIntr) <= 2 * k then 1 else 0)
    && (v.interruptLine ==> 0 < EvenLine(v.vIntr) <= 2 * k)
  }

  /** The next line, masks done. */
  lemma NextLine(v: Timing)
    requires TimingOk(v)
    ensures EvenLine(v.vCurrent % 0x400 + 2) == if v.vCurrent == 1022 then 0 else v.vCurrent + 2
    ensures LastLine(v) % 2 == 0 && 100 <= LastLine(v) <= 798
    ensures EvenLine(v.vIntr) % 2 == 0
  {
  }

  lemma LineInFrame(v: Timing, start: Timing, k: nat)
    requires InFrame(v, start, k)
    ensures 2 * k < LastLine(v) ==> InFrame(LineStep(v), start, k + 1)
    ensures 2 * k == LastLine(v) ==>
      var t := LineStep(v);
      && FrameStart(t) && t.frames == start.frames + 1 && t.raised == start.raised + PerFrame(start)
      && t.linesPerFrame == start.linesPerFrame && t.vIntr == start.vIntr
  {
    NextLine(v);
    hide EvenLine;
  }

  lemma {:induction false} EventsInFrame(start: Timing, events: seq<Event>)
    requires FrameStart(start) && 2 * Lines(events) <= LastLine(start)
    ensures InFrame(ApplyAll(start, events), start, Lines(events))
    decreases |events|
  {
    if events != [] {
      var before, e := events[..|events| - 1], events[|events| - 1];
      EventsInFrame(start, before);
      if e.Line? {
        LineInFrame(ApplyAll(start, before), start, Lines(before));
      }
      hide LineStep;
    }
  }

  /** A frame is `L / 2 + 1` line steps, and raises the interrupt exactly once when the even
      V_INTR is neither zero nor beyond the last line, and never otherwise, whenever the
      program acknowledges it and however often. */
  lemma OneInterruptPerFrame(start: Timing, events: seq<Event>)
    requires FrameStart(start) && Lines(events) == LastLine(start) / 2
    ensures var t := Apply(ApplyAll(start, events), Line);
      && FrameStart(t) && t.frames == start.frames + 1 && t.raised == start.raised + PerFrame(start)
      && t.linesPerFrame == start.linesPerFrame && t.vIntr == start.vIntr
    ensures ApplyAll(start, events).frames == start.frames
  {
    EventsInFrame(start, events);
    LineInFrame(ApplyAll(start, events), start, Lines(events));
    hide LineStep;
  }

  /** Line steps from the start of a frame, left alone by the program. */
  lemma {:induction false} StepsAreEvents(v: Timing, n: nat)
    ensures Lines(seq(n, i => Line)) == n && ApplyAll(v, seq(n, i => Line)) == LineSteps(v, n)
    decreases n
  {
    hide LineStep;
    if n > 0 {
      StepsAreEvents(v, n - 1);
      assert seq(n, i => Line)[..n - 1] == seq(n - 1, i => Line);
    }
  }

  lemma OneFrame(start: Timing)
    requires FrameStart(start)
    ensures var t := LineSteps(start, Period(start));
      && FrameStart(t) && t.frames == start.frames + 1 && t.raised == start.raised + PerFrame(start)
      && t.linesPerFrame == start.linesPerFrame && t.vIntr == start.vIntr
  {
    var n := LastLine(start) / 2;
    StepsAreEvents(start, n);
    OneInterruptPerFrame(start, seq(n, i => Line));
    hide LineStep;
  }

  /** With the registers left alone, frames and interrupts recur for ever with that period. */
  lemma {:induction false} FramesRecur(start: Timing, n: nat)
    requires FrameStart(start)
    ensures var t := LineSteps(start, n * Period(start));
      && FrameStart(t) && t.frames == start.frames + n && t.raised == start.raised + n * PerFrame(start)
      && t.linesPerFrame == start.linesPerFrame && t.vIntr == start.vIntr
    decreases n
  {
    if n > 0 {
      hide LineSteps, LastLine, PerFrame, EvenLine, FrameStart, Period;
      var period := Period(start);
      Distribute(n, period);
      Distribute(n, PerFrame(start));
      FramesRecur(start, n - 1);
      var t := LineSteps(start, (n - 1) * period);
      SamePeriod(start, t);
      OneFrame(t);
      StepsAdd(start, (n - 1) * period, period);
    }
  }

  lemma SamePeriod(v: Timing, t: Timing)
    requires t.linesPerFrame == v.linesPerFrame && t.vIntr == v.vIntr
    ensures Period(t) == Period(v) && PerFrame(t) == PerFrame(v)
  {
  }

  lemma Distribute(n: nat, p: nat)
    requires n > 0
    ensures 0 <= (n - 1) * p && (n - 1) * p + p == n * p
  {
  }

  /** Line steps until the next wrap, whatever the line and the registers are now. */
  function StepsToWrap(v: Timing): nat {
    if v.vCurrent >= LastLine(v) then 1 else (LastLine(v) - v.vCurrent) / 2 + 1
  }

  lemma WrapsNext(v: Timing)
    requires TimingOk(v)
    ensures TimingOk(LineStep(v)) && LineStep(v).linesPerFrame == v.linesPerFrame
    ensures if StepsToWrap(v) == 1 then LineStep(v).frames == v.frames + 1 && FrameStart(LineStep(v))
            else LineStep(v).frames == v.frames && StepsToWrap(LineStep(v)) == StepsToWrap(v) - 1
  {
    NextLine(v);
    hide EvenLine;
  }

  /** Every reachable state reaches the start of a frame after exactly that many steps. */
  lemma {:induction false} ReachesFrame(v: Timing, n: nat)
    requires TimingOk(v) && n <= StepsToWrap(v)
    ensures var t := LineSteps(v, n);
      && TimingOk(t) && t.frames == v.frames + (if n == StepsToWrap(v) then 1 else 0)
      && (n < StepsToWrap(v) ==> StepsToWrap(t) == StepsToWrap(v) - n)
      && (n == StepsToWrap(v) ==> FrameStart(t))
    decreases n
  {
    if n > 0 {
      ReachesFrame(v, n - 1);
      WrapsNext(LineSteps(v, n - 1));
      hide LineStep;
    }
  }
}
