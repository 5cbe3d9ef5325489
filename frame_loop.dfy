/**
  The control flow of the renderer's frame loop (src/main.rs:240-445): the
  `recreate_swapchain` flag, the `previous_frame` token, the drag-rotation
  state `x_delta`, `y_delta`, `mouse_state`, and how each pass of the `loop`
  moves them on the answers of the window and the graphics backend.

  The backend is an oracle: each pass receives its answers as a `Tick`, and an
  answer is consulted only when the pass reaches the call that produces it.
*/
module FrameLoop {
  import opened Geometry

  /** `DAMPENING` (src/main.rs:47): radians per pixel of pointer motion. */
  const Dampening: real := 0.01

  /** `winit::ElementState`. */
  datatype ElementState = Pressed | Released

  /**
    `previous_frame`: `sync::now(..)`, a future that is already signalled, or
    the future of the last flushed submission.
  */
  datatype FrameToken = Now | InFlight

  /** The physical pixel size of the window's client area. */
  datatype Size = Size(width: nat, height: nat)

  /** `recreate_with_dimension`: a new swapchain, `UnsupportedDimensions`, or any other error. */
  datatype RecreateOutcome = Recreated | UnsupportedDimensions | RecreateError

  /** `acquire_next_image`: an image, `AcquireError::OutOfDate`, or any other error. */
  datatype AcquireOutcome = Acquired | AcquireOutOfDate | AcquireError

  /** `then_signal_fence_and_flush`: a future, `FlushError::OutOfDate`, or any other error. */
  datatype FlushOutcome = Flushed | FlushOutOfDate | FlushError

  /** The events the `poll_events` closure distinguishes; every other event is `Other`. */
  datatype Event =
    | CloseRequested
    | Resized
    | MouseInput(state: ElementState)
    | MouseMotion(dx: real, dy: real)
    | Other

  /** The answers one pass of the loop may ask for, in the order it asks. */
  datatype Tick = Tick(
    size: Option<Size>,
    recreate: RecreateOutcome,
    acquire: AcquireOutcome,
    flush: FlushOutcome,
    events: seq<Event>)

  /** How a pass ends: on to the next pass, `return` from `main`, or a panic. */
  datatype Control = Continue | Exit | Panic

  /**
    What a pass did: how it ended, whether it replaced the swapchain, whether
    it built and submitted a command buffer, and whether it polled events.
  */
  datatype Report = Report(control: Control, recreated: bool, submitted: bool, polled: bool)

  /** The loop's variables. */
  datatype LoopState = LoopState(
    recreateSwapchain: bool,
    dimensions: Size,
    previousFrame: FrameToken,
    xDelta: real,
    yDelta: real,
    mouseState: ElementState)

  /** The values set before the loop (src/main.rs:240-250). */
  function Initial(dimensions: Size): (s: LoopState)
    ensures !s.recreateSwapchain && s.previousFrame == Now && s.mouseState == Released
    ensures s.xDelta == 0.0 && s.yDelta == 0.0 && s.dimensions == dimensions
  {
    LoopState(false, dimensions, Now, 0.0, 0.0, Released)
  }

  // ---------------------------------------------------------------------------
  // Events

  /** The closure passed to `poll_events` (src/main.rs:417-441), with its captured `done`. */
  function ApplyEvent(s: LoopState, done: bool, ev: Event): (LoopState, bool) {
    match ev
    case CloseRequested => (s, true)
    case Resized => (s.(recreateSwapchain := true), done)
    case MouseInput(state) => (s.(mouseState := state), done)
    case MouseMotion(dx, dy) =>
      if s.mouseState == Pressed then
        (s.(xDelta := s.xDelta + Dampening * dy, yDelta := s.yDelta - Dampening * dx), done)
      else (s, done)
    case Other => (s, done)
  }

  /**
    The whole batch of one `poll_events` call, in order. The batch always runs
    to its end: `CloseRequested` only sets `done`.
  */
  function ApplyEvents(s: LoopState, done: bool, events: seq<Event>): (r: (LoopState, bool))
    decreases |events|
    ensures r.1 <==> done || CloseRequested in events
    ensures r.0.recreateSwapchain <==> s.recreateSwapchain || Resized in events
    ensures r.0.previousFrame == s.previousFrame && r.0.dimensions == s.dimensions
  {
    if events == [] then (s, done)
    else
      var (before, doneBefore) := ApplyEvents(s, done, events[..|events| - 1]);
      assert events == events[..|events| - 1] + [events[|events| - 1]];
      ApplyEvent(before, doneBefore, events[|events| - 1])
  }

  // ---------------------------------------------------------------------------
  // One pass of the loop

  /**
    One pass of `loop` (src/main.rs:268-445):
    - with the flag set, a missing window size returns from `main`; otherwise
      the size is recorded, and `UnsupportedDimensions` continues, any other
      recreation error panics, and success clears the flag;
    - `OutOfDate` from acquiring sets the flag and continues; any other
      acquisition error panics;
    - the command buffer is built and submitted, and the flush's answer sets
      `previous_frame` (and, for `OutOfDate`, the flag);
    - the events are polled, and `done` returns from `main`.
  */
  function Step(s: LoopState, tick: Tick): (LoopState, Report) {
    if s.recreateSwapchain && tick.size.None? then
      (s, Report(Exit, false, false, false))
    else
      var sized := if s.recreateSwapchain then s.(dimensions := tick.size.value) else s;
      if s.recreateSwapchain && tick.recreate == UnsupportedDimensions then
        (sized, Report(Continue, false, false, false))
      else if s.recreateSwapchain && tick.recreate == RecreateError then
        (sized, Report(Panic, false, false, false))
      else
        var recreated := s.recreateSwapchain;
        var ready := sized.(recreateSwapchain := false);
        match tick.acquire
        case AcquireOutOfDate =>
          (ready.(recreateSwapchain := true), Report(Continue, recreated, false, false))
        case AcquireError =>
          (ready, Report(Panic, recreated, false, false))
        case Acquired =>
          var presented := match tick.flush
            case Flushed => ready.(previousFrame := InFlight)
            case FlushOutOfDate => ready.(recreateSwapchain := true, previousFrame := Now)
            case FlushError => ready.(previousFrame := Now);
          var (after, done) := ApplyEvents(presented, false, tick.events);
          (after, Report(if done then Exit else Continue, recreated, true, true))
  }

  /**
    Passes over `ticks` until one returns or panics, or the ticks run out: the
    final state, how the last pass ended, and how many passes ran.
  */
  function Run(s: LoopState, ticks: seq<Tick>): (r: (LoopState, Control, nat))
    decreases |ticks|
    ensures r.2 <= |ticks|
    ensures r.1 == Continue ==> r.2 == |ticks|
    ensures r.1 != Continue ==> r.2 > 0
  {
    if ticks == [] then (s, Continue, 0)
    else
      var (next, report) := Step(s, ticks[0]);
      if report.control != Continue then (next, report.control, 1)
      else
        var (final, control, passes) := Run(next, ticks[1..]);
        (final, control, passes + 1)
  }

  // ---------------------------------------------------------------------------
  // The loop's variables, updated in place

  class RenderLoop {
    var recreateSwapchain: bool
    var dimensions: Size
    var previousFrame: FrameToken
    var xDelta: real
    var yDelta: real
    var mouseState: ElementState

    function State(): LoopState
      reads this
    {
      LoopState(recreateSwapchain, dimensions, previousFrame, xDelta, yDelta, mouseState)
    }

    constructor (size: Size)
      ensures State() == Initial(size)
    {
      recreateSwapchain := false;
      dimensions := size;
      previousFrame := Now;
      xDelta := 0.0;
      yDelta := 0.0;
      mouseState := Released;
    }

    /** The `poll_events` closure applied to one event. */
    method HandleEvent(ev: Event, done: bool) returns (done': bool)
      modifies this
      ensures (State(), done') == ApplyEvent(old(State()), done, ev)
    {
      done' := done;
      match ev
      case CloseRequested =>
        done' := true;
      case Resized =>
        recreateSwapchain := true;
      case MouseInput(state) =>
        mouseState := state;
      case MouseMotion(dx, dy) =>
        if mouseState == Pressed {
          xDelta := xDelta + Dampening * dy;
          yDelta := yDelta - Dampening * dx;
        }
      case Other =>
    }

    /** `poll_events` over one batch, with `done` starting false. */
    method PollEvents(events: seq<Event>) returns (done: bool)
      modifies this
      ensures (State(), done) == ApplyEvents(old(State()), false, events)
    {
      done := false;
      var q := 0;
      while q < |events|
        invariant 0 <= q <= |events|
        invariant (State(), done) == ApplyEvents(old(State()), false, events[..q])
      {
        assert events[..q + 1][..q] == events[..q];
        done := HandleEvent(events[q], done);
        q := q + 1;
      }
      assert events[..q] == events;
    }

    /** One pass of the loop body. */
    method Iterate(tick: Tick) returns (report: Report)
      modifies this
      ensures (State(), report) == Step(old(State()), tick)
    {
      var recreated := false;
      if recreateSwapchain {
        if tick.size.None? {
          return Report(Exit, false, false, false);
        }
        dimensions := tick.size.value;
        match tick.recreate {
          case UnsupportedDimensions =>
            return Report(Continue, false, false, false);
          case RecreateError =>
            return Report(Panic, false, false, false);
          case Recreated =>
            recreateSwapchain := false;
            recreated := true;
        }
      }
      match tick.acquire {
        case AcquireOutOfDate =>
          recreateSwapchain := true;
          return Report(Continue, recreated, false, false);
        case AcquireError =>
          return Report(Panic, recreated, false, false);
        case Acquired =>
      }
      match tick.flush {
        case Flushed =>
          previousFrame := InFlight;
        case FlushOutOfDate =>
          recreateSwapchain := true;
          previousFrame := Now;
        case FlushError =>
          previousFrame := Now;
      }
      var done := PollEvents(tick.events);
      report := Report(if done then Exit else Continue, recreated, true, true);
    }

    /** The `loop` itself, over the answers of `ticks`. */
    method RunLoop(ticks: seq<Tick>) returns (control: Control, passes: nat)
      modifies this
      ensures (State(), control, passes) == Run(old(State()), ticks)
    {
      passes := 0;
      control := Continue;
      while passes < |ticks|
        invariant 0 <= passes <= |ticks|
        invariant
          var (final, c, n) := Run(State(), ticks[passes..]);
          Run(old(State()), ticks) == (final, c, n + passes)
      {
        assert ticks[passes..][1..] == ticks[passes + 1..];
        var report := Iterate(ticks[passes]);
        passes := passes + 1;
        if report.control != Continue {
          return report.control, passes;
        }
      }
    }
  }

  // ---------------------------------------------------------------------------
  // Properties of a pass

  /** With the flag set and no window size, `main` returns and nothing else happens. */
  lemma MissingSizeExits(s: LoopState, tick: Tick)
    requires s.recreateSwapchain && tick.size.None?
    ensures Step(s, tick) == (s, Report(Exit, false, false, false))
  {
  }

  /**
    `UnsupportedDimensions` ends the pass with the flag still set: only the
    recorded size changes, and nothing is acquired, submitted or polled.
  */
  lemma UnsupportedKeepsFlag(s: LoopState, tick: Tick)
    requires s.recreateSwapchain && tick.size.Some? && tick.recreate == UnsupportedDimensions
    ensures Step(s, tick).0 == s.(dimensions := tick.size.value)
    ensures Step(s, tick).0.recreateSwapchain
    ensures Step(s, tick).1 == Report(Continue, false, false, false)
  {
  }

  /** A pass replaces the swapchain exactly when the flag was set, a size was there, and recreation succeeded. */
  lemma RecreatedExactlyWhenFlagged(s: LoopState, tick: Tick)
    ensures Step(s, tick).1.recreated <==> s.recreateSwapchain && tick.size.Some? && tick.recreate == Recreated
  {
  }

  /** A set flag is found clear after a pass only if that pass replaced the swapchain. */
  lemma FlagClearedOnlyByRecreation(s: LoopState, tick: Tick)
    requires s.recreateSwapchain && !Step(s, tick).0.recreateSwapchain
    ensures Step(s, tick).1.recreated
  {
  }

  /** A command buffer is submitted only after the flag is clear: never while recreation is pending. */
  lemma SubmitOnlyWhenReady(s: LoopState, tick: Tick)
    requires Step(s, tick).1.submitted
    ensures !s.recreateSwapchain || Step(s, tick).1.recreated
    ensures tick.acquire == Acquired
  {
  }

  /**
    `OutOfDate` on acquiring, whether the pass began ready or has just
    replaced the swapchain, sets the flag and ends the pass: no command
    buffer, `previous_frame` and the rotation state untouched, no polling.
  */
  lemma AcquireOutOfDateSkipsFrame(s: LoopState, tick: Tick)
    requires !s.recreateSwapchain || (tick.size.Some? && tick.recreate == Recreated)
    requires tick.acquire == AcquireOutOfDate
    ensures Step(s, tick).0 ==
      s.(dimensions := if s.recreateSwapchain then tick.size.value else s.dimensions, recreateSwapchain := true)
    ensures Step(s, tick).1 == Report(Continue, s.recreateSwapchain, false, false)
  {
  }

  /**
    After a submission, `previous_frame` is the flushed future on success and
    `now` after any flush error; the flag ends set exactly when the flush
    reported `OutOfDate` or the batch held a `Resized`.
  */
  lemma FlushSetsPreviousFrame(s: LoopState, tick: Tick)
    requires Step(s, tick).1.submitted
    ensures Step(s, tick).0.previousFrame == (if tick.flush == Flushed then InFlight else Now)
    ensures Step(s, tick).0.recreateSwapchain <==> tick.flush == FlushOutOfDate || Resized in tick.events
  {
  }

  /** Every pass that polls sees the whole batch: a `Resized` anywhere in it sets the flag. */
  lemma ResizedSetsFlag(s: LoopState, tick: Tick)
    requires Step(s, tick).1.polled && Resized in tick.events
    ensures Step(s, tick).0.recreateSwapchain
  {
  }

  /** `main` returns only on a missing window size or after a polled batch holding `CloseRequested`. */
  lemma ExitOnlyViaCloseOrMissingSize(s: LoopState, tick: Tick)
    requires Step(s, tick).1.control == Exit
    ensures (s.recreateSwapchain && tick.size.None?) ||
      (Step(s, tick).1.polled && CloseRequested in tick.events)
  {
  }

  /** A polled batch holding `CloseRequested` always ends `main`. */
  lemma CloseEndsLoop(s: LoopState, tick: Tick)
    requires Step(s, tick).1.polled && CloseRequested in tick.events
    ensures Step(s, tick).1.control == Exit
  {
  }

  // ---------------------------------------------------------------------------
  // Properties of the event batch

  /** The accumulated vertical motion of a batch, scaled into `x_delta`. */
  function SumDy(events: seq<Event>): real
    decreases |events|
  {
    if events == [] then 0.0
    else SumDy(events[..|events| - 1]) + (match events[|events| - 1] case MouseMotion(_, dy) => dy case _ => 0.0)
  }

  /** The accumulated horizontal motion of a batch, scaled into `y_delta`. */
  function SumDx(events: seq<Event>): real
    decreases |events|
  {
    if events == [] then 0.0
    else SumDx(events[..|events| - 1]) + (match events[|events| - 1] case MouseMotion(dx, _) => dx case _ => 0.0)
  }

  /** A batch that presses, releases or clicks no button. */
  predicate NoButtons(events: seq<Event>) {
    forall k :: 0 <= k < |events| ==> !events[k].MouseInput?
  }

  /**
    While the button stays pressed, the batch rotates by `DAMPENING` times
    its motion: `x_delta` by the vertical, `y_delta` against the horizontal.
  */
  lemma {:induction false} DragRotates(s: LoopState, done: bool, events: seq<Event>)
    requires s.mouseState == Pressed && NoButtons(events)
    ensures ApplyEvents(s, done, events).0.xDelta == s.xDelta + Dampening * SumDy(events)
    ensures ApplyEvents(s, done, events).0.yDelta == s.yDelta - Dampening * SumDx(events)
    ensures ApplyEvents(s, done, events).0.mouseState == Pressed
  {
    if events != [] {
      var prefix := events[..|events| - 1];
      DragRotates(s, done, prefix);
    }
  }

  /** While the button stays released, motion leaves the rotation alone. */
  lemma {:induction false} ReleasedIgnoresMotion(s: LoopState, done: bool, events: seq<Event>)
    requires s.mouseState == Released && NoButtons(events)
    ensures ApplyEvents(s, done, events).0.xDelta == s.xDelta
    ensures ApplyEvents(s, done, events).0.yDelta == s.yDelta
    ensures ApplyEvents(s, done, events).0.mouseState == Released
  {
    if events != [] {
      ReleasedIgnoresMotion(s, done, events[..|events| - 1]);
    }
  }

  /** The button state after a batch is the last one it reports, or the old one. */
  lemma {:induction false} LastButtonWins(s: LoopState, done: bool, events: seq<Event>, k: nat)
    requires k < |events| && events[k].MouseInput? && NoButtons(events[k + 1..])
    ensures ApplyEvents(s, done, events).0.mouseState == events[k].state
  {
    if k < |events| - 1 {
      var prefix := events[..|events| - 1];
      assert prefix[k + 1..] == events[k + 1..|events| - 1];
      LastButtonWins(s, done, prefix, k);
      assert events[k + 1..][|events| - 2 - k] == events[|events| - 1];
    }
  }

  /** `done` never cuts a batch short: the state after it does not depend on it. */
  lemma {:induction false} CloseAfterWholeBatch(s: LoopState, d1: bool, d2: bool, events: seq<Event>)
    ensures ApplyEvents(s, d1, events).0 == ApplyEvents(s, d2, events).0
  {
    if events != [] {
      CloseAfterWholeBatch(s, d1, d2, events[..|events| - 1]);
    }
  }

  /** A batch split in two: the second part starts from where the first left off. */
  lemma {:induction false} ApplyEventsSplit(s: LoopState, done: bool, a: seq<Event>, b: seq<Event>)
    decreases |b|
    ensures ApplyEvents(s, done, a + b) == ApplyEvents(ApplyEvents(s, done, a).0, ApplyEvents(s, done, a).1, b)
  {
    if b == [] {
      assert a + b == a;
    } else {
      var front := b[..|b| - 1];
      assert (a + b)[..|a + b| - 1] == a + front;
      assert (a + b)[|a + b| - 1] == b[|b| - 1];
      ApplyEventsSplit(s, done, a, front);
    }
  }

  /**
    A press, a drag, a release and a further move: only the motion made while
    the button was down rotates the model, and the button ends released.
  */
  lemma PressDragRelease(s: LoopState, done: bool, drag: seq<Event>, moves: seq<Event>)
    requires NoButtons(drag) && NoButtons(moves)
    ensures var r := ApplyEvents(s, done, [MouseInput(Pressed)] + drag + [MouseInput(Released)] + moves).0;
      && r.xDelta == s.xDelta + Dampening * SumDy(drag)
      && r.yDelta == s.yDelta - Dampening * SumDx(drag)
      && r.mouseState == Released
  {
    var press, release := [MouseInput(Pressed)], [MouseInput(Released)];
    ApplyEventsSplit(s, done, press + drag + release, moves);
    ApplyEventsSplit(s, done, press + drag, release);
    ApplyEventsSplit(s, done, press, drag);
    var (pressed, d1) := ApplyEvents(s, done, press);
    assert ApplyEvents(s, done, press) == ApplyEvent(s, done, MouseInput(Pressed)) by {
      assert press[..0] == [];
    }
    DragRotates(pressed, d1, drag);
    var (dragged, d2) := ApplyEvents(s, done, press + drag);
    assert ApplyEvents(dragged, d2, release) == ApplyEvent(dragged, d2, MouseInput(Released)) by {
      assert release[..0] == [];
    }
    var (released, d3) := ApplyEvents(s, done, press + drag + release);
    ReleasedIgnoresMotion(released, d3, moves);
  }

  // ---------------------------------------------------------------------------
  // Whole runs

  /**
    A tick on which the window keeps a size, no backend call fails with a
    panicking error, and nobody asks to close.
  */
  predicate Benign(tick: Tick) {
    tick.size.Some? && tick.recreate != RecreateError && tick.acquire != AcquireError &&
    CloseRequested !in tick.events
  }

  /** A benign tick never ends the loop. */
  lemma BenignStepContinues(s: LoopState, tick: Tick)
    requires Benign(tick)
    ensures Step(s, tick).1.control == Continue
  {
  }

  /** Over benign ticks the loop never returns or panics: it runs every pass. */
  lemma {:induction false} BenignRunNeverStops(s: LoopState, ticks: seq<Tick>)
    requires forall k :: 0 <= k < |ticks| ==> Benign(ticks[k])
    decreases |ticks|
    ensures Run(s, ticks).1 == Continue && Run(s, ticks).2 == |ticks|
  {
    if ticks != [] {
      BenignStepContinues(s, ticks[0]);
      BenignRunNeverStops(Step(s, ticks[0]).0, ticks[1..]);
    }
  }

  /** A run's passes are the passes of its first tick and of the rest. */
  lemma RunUnfolds(s: LoopState, tick: Tick, rest: seq<Tick>)
    requires Step(s, tick).1.control == Continue
    ensures var r := Run(Step(s, tick).0, rest);
      Run(s, [tick] + rest) == (r.0, r.1, r.2 + 1)
  {
    assert ([tick] + rest)[1..] == rest;
  }

  /** A tick whose window offers a size, on which every backend call succeeds and nothing is polled. */
  function Smooth(size: Size): Tick {
    Tick(Some(size), Recreated, Acquired, Flushed, [])
  }

  /**
    Four passes whose answers are acquire `Ok`, acquire `OutOfDate`, recreate
    `UnsupportedDimensions`, recreate `Ok`: the flag goes clear, set, set,
    clear, and only the first and last pass submit.
  */
  lemma FourPassScenario(size: Size)
    ensures var s0 := Initial(size);
      var t1 := Smooth(size);
      var t2 := Smooth(size).(acquire := AcquireOutOfDate);
      var t3 := Smooth(size).(recreate := UnsupportedDimensions);
      var t4 := Smooth(size);
      var (s1, r1) := Step(s0, t1);
      var (s2, r2) := Step(s1, t2);
      var (s3, r3) := Step(s2, t3);
      var (s4, r4) := Step(s3, t4);
      && !s1.recreateSwapchain && s2.recreateSwapchain && s3.recreateSwapchain && !s4.recreateSwapchain
      && r1.submitted && !r2.submitted && !r3.submitted && r4.submitted
      && r4.recreated
      && Run(s0, [t1, t2, t3, t4]) == (s4, Continue, 4)
  {
    var s0 := Initial(size);
    var t1 := Smooth(size);
    var t2 := Smooth(size).(acquire := AcquireOutOfDate);
    var t3 := Smooth(size).(recreate := UnsupportedDimensions);
    var t4 := Smooth(size);
    var s1 := Step(s0, t1).0;
    var s2 := Step(s1, t2).0;
    var s3 := Step(s2, t3).0;
    RunUnfolds(s3, t4, []);
    RunUnfolds(s2, t3, [t4]);
    RunUnfolds(s1, t2, [t3, t4]);
    RunUnfolds(s0, t1, [t2, t3, t4]);
  }
}
