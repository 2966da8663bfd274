/** The Stopwatch of snippets.js: a two-state machine (idle, running) with
    guarded start and stop, an unconditional reset, and a read-only
    accumulated duration. The wall clock is a parameter: every call that
    reads the time takes the current time in integer milliseconds. */
module Stopwatch {

  datatype Option<T> = None | Some(value: T)

  /** The two invalid transitions; each carries the source's message. */
  datatype Error = AlreadyStarted | AlreadyStopped
  {
    function Message(): string
    {
      match this
      case AlreadyStarted => "Stopwatch already started."
      case AlreadyStopped => "Timer already stopped."
    }
  }

  /** Whether a call returned normally or threw. */
  datatype Outcome = Done | Threw(error: Error)

  /** The closure's private variables. An undefined or null time is None;
      elapsedMs is the duration kept in milliseconds. */
  datatype Watch = Watch(running: bool, startTime: Option<int>, endTime: Option<int>, elapsedMs: int)

  /** The watch after a call, together with how the call ended. */
  datatype Call = Call(watch: Watch, outcome: Outcome)

  /** A running watch always knows when it started. */
  predicate Valid(w: Watch)
  {
    w.running ==> w.startTime.Some?
  }

  /** The Stopwatch constructor: not running, no start or end time, and a
      duration of zero. */
  function New(): (w: Watch)
    ensures !w.running && w.startTime.None? && w.endTime.None?
    ensures w.elapsedMs == 0 && Duration(w) == 0.0
    ensures Valid(w)
  {
    Watch(false, None, None, 0)
  }

  /** The duration getter, in seconds. The source divides each elapsed
      millisecond count by 1000 before adding it up; the exact sum of those
      quotients is the millisecond total divided by 1000. */
  function Duration(w: Watch): (seconds: real)
    ensures seconds * 1000.0 == w.elapsedMs as real
  {
    w.elapsedMs as real / 1000.0
  }

  /** start: throws while running, leaving the watch untouched; otherwise
      records now as the start time and runs. */
  function Start(w: Watch, now: int): (c: Call)
    ensures c.outcome.Threw? <==> w.running
    ensures w.running ==> c == Call(w, Threw(AlreadyStarted))
    ensures !w.running ==> c.watch.running && c.watch.startTime == Some(now)
    ensures Duration(c.watch) == Duration(w)
    ensures Valid(w) ==> Valid(c.watch)
  {
    if w.running then Call(w, Threw(AlreadyStarted))
    else Call(w.(running := true, startTime := Some(now)), Done)
  }

  /** stop: throws while idle, leaving the watch untouched; otherwise
      records now as the end time, stops, and adds the time since the
      start to the duration. */
  function Stop(w: Watch, now: int): (c: Call)
    requires Valid(w)
    ensures c.outcome.Threw? <==> !w.running
    ensures !w.running ==> c == Call(w, Threw(AlreadyStopped))
    ensures w.running ==> !c.watch.running && c.watch.endTime == Some(now)
    ensures w.running ==> c.watch.elapsedMs - w.elapsedMs == now - w.startTime.value
    ensures w.running && w.startTime.value <= now ==> Duration(w) <= Duration(c.watch)
    ensures Valid(c.watch)
  {
    if !w.running then Call(w, Threw(AlreadyStopped))
    else
      var elapsed := now - w.startTime.value;
      Call(w.(running := false, endTime := Some(now), elapsedMs := w.elapsedMs + elapsed), Done)
  }

  /** reset: from any state, idle with a zero duration and no times. */
  function Reset(w: Watch): (r: Watch)
    ensures !r.running && Duration(r) == 0.0
    ensures r == New()
  {
    Watch(false, None, None, 0)
  }

  /** One call on the watch, with the time it is made at. */
  datatype Op = StartAt(t: int) | StopAt(t: int) | ResetOp

  function Apply(w: Watch, op: Op): (c: Call)
    requires Valid(w)
    ensures Valid(c.watch)
  {
    match op
    case StartAt(t) => Start(w, t)
    case StopAt(t) => Stop(w, t)
    case ResetOp => Call(Reset(w), Done)
  }

  /** A sequence of calls; a call that throws leaves the watch as it was
      and the next call proceeds from there. */
  function Run(w: Watch, ops: seq<Op>): (r: Watch)
    requires Valid(w)
    ensures Valid(r)
    decreases |ops|
  {
    if |ops| == 0 then w else Run(Apply(w, ops[0]).watch, ops[1..])
  }

  /** The clock never runs backwards: every call at or after t0 is made
      no earlier than the call before it. */
  predicate ClockFrom(t0: int, ops: seq<Op>)
    decreases |ops|
  {
    if |ops| == 0 then true
    else match ops[0]
      case StartAt(t) => t0 <= t && ClockFrom(t, ops[1..])
      case StopAt(t) => t0 <= t && ClockFrom(t, ops[1..])
      case ResetOp => ClockFrom(t0, ops[1..])
  }

  /** What holds between calls when the last reading of the clock was t. */
  predicate Settled(w: Watch, t: int)
  {
    Valid(w) && w.elapsedMs >= 0 && (w.running ==> w.startTime.value <= t)
  }

  /** Under a clock that never runs backwards, the duration never goes
      negative, whatever the calls and whichever of them throw. */
  lemma {:induction false} DurationStaysNonNegative(w: Watch, t0: int, ops: seq<Op>)
    requires Settled(w, t0) && ClockFrom(t0, ops)
    ensures Run(w, ops).elapsedMs >= 0
    ensures Duration(Run(w, ops)) >= 0.0
    decreases |ops|
  {
    if |ops| > 0 {
      var next := Apply(w, ops[0]).watch;
      match ops[0]
      case StartAt(t) =>
        DurationStaysNonNegative(next, t, ops[1..]);
      case StopAt(t) =>
        DurationStaysNonNegative(next, t, ops[1..]);
      case ResetOp =>
        DurationStaysNonNegative(next, t0, ops[1..]);
    }
  }

  /** Between resets the duration only grows: with no reset among the calls
      and a clock that never runs backwards, the final duration is at least
      the initial one. */
  lemma {:induction false} DurationMonotoneWithoutReset(w: Watch, t0: int, ops: seq<Op>)
    requires Settled(w, t0) && ClockFrom(t0, ops)
    requires forall i :: 0 <= i < |ops| ==> !ops[i].ResetOp?
    ensures Duration(w) <= Duration(Run(w, ops))
    decreases |ops|
  {
    if |ops| > 0 {
      var next := Apply(w, ops[0]).watch;
      match ops[0]
      case StartAt(t) =>
        DurationMonotoneWithoutReset(next, t, ops[1..]);
      case StopAt(t) =>
        DurationMonotoneWithoutReset(next, t, ops[1..]);
    }
  }

  /** A reset anywhere in a run discards everything timed before it: the
      run ends as if it had started from a fresh watch after the reset. */
  lemma {:induction false} ResetForgetsHistory(w: Watch, before: seq<Op>, after: seq<Op>)
    requires Valid(w)
    ensures Run(w, before + [ResetOp] + after) == Run(New(), after)
    decreases |before|
  {
    if |before| == 0 {
      assert before + [ResetOp] + after == [ResetOp] + after;
      assert ([ResetOp] + after)[1..] == after;
    } else {
      assert (before + [ResetOp] + after)[0] == before[0];
      assert (before + [ResetOp] + after)[1..] == before[1..] + [ResetOp] + after;
      ResetForgetsHistory(Apply(w, before[0]).watch, before[1..], after);
    }
  }

  /** Starting twice in a row: the second start throws and the duration is
      the one before the first start. */
  lemma StartTwiceThrows(w: Watch, t1: int, t2: int)
    requires Valid(w) && !w.running
    ensures Start(Start(w, t1).watch, t2).outcome == Threw(AlreadyStarted)
    ensures Duration(Start(Start(w, t1).watch, t2).watch) == Duration(w)
  {
  }

  /** Stopping a fresh watch throws and leaves the duration at zero. */
  lemma StopBeforeStartThrows(t: int)
    ensures Stop(New(), t).outcome == Threw(AlreadyStopped)
    ensures Duration(Stop(New(), t).watch) == 0.0
  {
  }

  /** A stop at the same instant as the start adds nothing. */
  lemma InstantStopAddsNothing(w: Watch, t: int)
    requires Valid(w) && !w.running
    ensures Duration(Stop(Start(w, t).watch, t).watch) == Duration(w)
  {
  }

  /** One second, then half a second more, reads 1.5 seconds. */
  lemma TwoCycles()
    ensures Duration(Run(New(), [StartAt(0), StopAt(1000)])) == 1.0
    ensures Duration(Run(New(), [StartAt(0), StopAt(1000), StartAt(4000), StopAt(4500)])) == 1.5
  {
  }
}
