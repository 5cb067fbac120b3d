/**
  The timer's state as a value and the effect of each handler on it. The
  controller class in TimerController changes its fields exactly as these
  functions say; the lemmas here state what every reachable state satisfies.
 */
module TimerSpec {
  import opened Wrappers
  import opened Grid

  /** Period of the recurring tick, and the milliseconds it adds to the elapsed time. */
  const TickMs: nat := 10
  /** One activation pass per this many elapsed milliseconds. */
  const TriggerIntervalMs: nat := 10000

  /** setInterval hands out positive ids, so a stored handle is never falsy. */
  type IntervalId = n: nat | n > 0 witness 1

  datatype Snapshot = Snapshot(
    time: nat,
    isRunning: bool,
    timerHandle: Option<IntervalId>,
    lastTriggerInterval: nat,
    grid: seq<bool>)

  /** The state when the script has loaded, before the grid is built. */
  function Initial(): Snapshot {
    Snapshot(0, false, None, 0, [])
  }

  /** The number of whole trigger intervals in `time`. */
  function IntervalOf(time: nat): nat {
    time / TriggerIntervalMs
  }

  /** The decision of checkGridTrigger: the interval to record when a pass fires, None when nothing happens. */
  function TriggerDue(time: nat, last: nat): Option<nat> {
    var current := IntervalOf(time);
    if current > 0 && current > last then Some(current) else None
  }

  /** checkGridTrigger: at most one activation pass, and the current interval recorded when it fires. */
  function AfterCheck(s: Snapshot, flips: seq<bool>): Snapshot
    requires |flips| == |s.grid|
  {
    match TriggerDue(s.time, s.lastTriggerInterval)
    case Some(current) => s.(lastTriggerInterval := current, grid := Activate(s.grid, flips))
    case None => s
  }

  /** tick: ten more milliseconds, then the trigger check. */
  function AfterTick(s: Snapshot, flips: seq<bool>): Snapshot
    requires |flips| == |s.grid|
  {
    AfterCheck(s.(time := s.time + TickMs), flips)
  }

  /** Whether the tick from `s` runs an activation pass. */
  predicate TickFires(s: Snapshot) {
    TriggerDue(s.time + TickMs, s.lastTriggerInterval).Some?
  }

  /** handleStartStop: pause drops the handle; start stores the one setInterval returned. */
  function AfterStartStop(s: Snapshot, newHandle: IntervalId): Snapshot {
    if s.isRunning then s.(timerHandle := None, isRunning := false)
    else s.(timerHandle := Some(newHandle), isRunning := true)
  }

  /** handleReset: stopped, no handle, zero time and interval, every cell gray. */
  function AfterReset(s: Snapshot): Snapshot {
    Snapshot(0, false, None, 0, Gray(|s.grid|))
  }

  /** initializeGrid: GridSize gray cells appended. */
  function AfterInitializeGrid(s: Snapshot): Snapshot {
    s.(grid := s.grid + Gray(GridSize))
  }

  /** What holds in every reachable state. */
  predicate Consistent(s: Snapshot) {
    && s.time % TickMs == 0
    && s.lastTriggerInterval == IntervalOf(s.time)
    && (s.isRunning <==> s.timerHandle.Some?)
  }

  // ----- the trigger check on its own -----

  /**
    A check leaves the recorded interval at the larger of the old one and the
    current one, and runs one pass exactly when that raised it.
   */
  lemma CheckRecordsLatest(s: Snapshot, flips: seq<bool>)
    requires |flips| == |s.grid|
    ensures var t := AfterCheck(s, flips);
      && t.lastTriggerInterval == (if IntervalOf(s.time) > s.lastTriggerInterval then IntervalOf(s.time) else s.lastTriggerInterval)
      && t.grid == (if t.lastTriggerInterval > s.lastTriggerInterval then Activate(s.grid, flips) else s.grid)
  {
  }

  /** No catch-up: a jump over several boundaries is one pass, and the skipped intervals get none. */
  lemma NoCatchUp(s: Snapshot, flips: seq<bool>)
    requires |flips| == |s.grid|
    requires IntervalOf(s.time) > s.lastTriggerInterval + 1
    ensures AfterCheck(s, flips) == s.(lastTriggerInterval := IntervalOf(s.time), grid := Activate(s.grid, flips))
    ensures AfterCheck(AfterCheck(s, flips), flips) == AfterCheck(s, flips)
  {
  }

  /** The check never lowers the recorded interval and never turns a cell gray. */
  lemma CheckMonotone(s: Snapshot, flips: seq<bool>)
    requires |flips| == |s.grid|
    ensures var t := AfterCheck(s, flips);
      && t.lastTriggerInterval >= s.lastTriggerInterval
      && t.time == s.time && t.isRunning == s.isRunning && t.timerHandle == s.timerHandle
      && |t.grid| == |s.grid|
      && forall i :: 0 <= i < |s.grid| && s.grid[i] ==> t.grid[i]
  {
    ActivateKeepsOrange(s.grid, flips);
  }

  // ----- one step at a time from a consistent state -----

  /** Ten milliseconds cross an interval boundary exactly when they land on one. */
  lemma {:induction false} NextInterval(time: nat)
    requires time % TickMs == 0
    ensures IntervalOf(time + TickMs) == IntervalOf(time) + (if (time + TickMs) % TriggerIntervalMs == 0 then 1 else 0)
  {
    var q := time / TriggerIntervalMs;
    var r := time % TriggerIntervalMs;
    assert time == q * TriggerIntervalMs + r;
    assert r % TickMs == 0;
    if r + TickMs == TriggerIntervalMs {
      assert time + TickMs == (q + 1) * TriggerIntervalMs;
    } else {
      assert r + TickMs < TriggerIntervalMs;
    }
  }

  lemma InitialConsistent()
    ensures Consistent(Initial())
  {
  }

  /**
    From a consistent state a tick adds exactly 10 ms, fires a pass exactly
    when the new time is a multiple of the interval, and then records one more
    interval; so the recorded interval keeps up with the time.
   */
  lemma {:induction false} TickStep(s: Snapshot, flips: seq<bool>)
    requires Consistent(s) && |flips| == |s.grid|
    ensures var t := AfterTick(s, flips);
      && Consistent(t)
      && t.time == s.time + TickMs
      && (TickFires(s) <==> t.time % TriggerIntervalMs == 0)
      && t.lastTriggerInterval == s.lastTriggerInterval + (if TickFires(s) then 1 else 0)
      && t.grid == (if TickFires(s) then Activate(s.grid, flips) else s.grid)
      && t.isRunning == s.isRunning && t.timerHandle == s.timerHandle
  {
    var moved := s.(time := s.time + TickMs);
    NextInterval(s.time);
    if (s.time + TickMs) % TriggerIntervalMs == 0 {
      assert TriggerDue(moved.time, s.lastTriggerInterval) == Some(s.lastTriggerInterval + 1);
    } else {
      assert TriggerDue(moved.time, s.lastTriggerInterval) == None;
    }
  }

  /** Start/pause flips the run state, keeps "handle present iff running", and touches nothing else. */
  lemma StartStopStep(s: Snapshot, newHandle: IntervalId)
    requires Consistent(s)
    ensures var t := AfterStartStop(s, newHandle);
      && Consistent(t)
      && t.isRunning == !s.isRunning
      && (t.isRunning ==> t.timerHandle == Some(newHandle))
      && t.time == s.time && t.lastTriggerInterval == s.lastTriggerInterval && t.grid == s.grid
  {
  }

  /** Start then pause from a stopped state gives back that state: nothing is lost by pausing. */
  lemma StartPauseRestores(s: Snapshot, h1: IntervalId, h2: IntervalId)
    requires Consistent(s) && !s.isRunning
    ensures AfterStartStop(AfterStartStop(s, h1), h2) == s
  {
  }

  /** A reset reaches the same consistent, all-gray state from anywhere, so a second reset changes nothing. */
  lemma ResetStep(s: Snapshot)
    ensures var t := AfterReset(s);
      && Consistent(t)
      && !t.isRunning && t.timerHandle == None && t.time == 0 && t.lastTriggerInterval == 0
      && |t.grid| == |s.grid| && AllGray(t.grid) && CountOrange(t.grid) == 0
      && AfterReset(t) == t
  {
    CountOrangeGray(|s.grid|);
  }

  /** Building the grid adds 625 gray cells and keeps everything else. */
  lemma InitializeGridStep(s: Snapshot)
    requires Consistent(s)
    ensures var t := AfterInitializeGrid(s);
      && Consistent(t)
      && |t.grid| == |s.grid| + 625
      && t.grid[..|s.grid|] == s.grid
      && AllGray(t.grid[|s.grid|..])
  {
    var t := AfterInitializeGrid(s);
    assert t.grid[|s.grid|..] == Gray(GridSize);
  }

  // ----- runs of events -----

  /** What can happen to the controller: a tick (with the draws of a pass), a click on either button, the page load. */
  datatype Event =
    | TickEvent(flips: seq<bool>)
    | StartStopEvent(newHandle: IntervalId)
    | ResetEvent
    | InitializeGridEvent

  /** A tick must come with one draw per cell. */
  predicate Fits(s: Snapshot, e: Event) {
    e.TickEvent? ==> |e.flips| == |s.grid|
  }

  function Step(s: Snapshot, e: Event): Snapshot
    requires Fits(s, e)
  {
    match e
    case TickEvent(flips) => AfterTick(s, flips)
    case StartStopEvent(h) => AfterStartStop(s, h)
    case ResetEvent => AfterReset(s)
    case InitializeGridEvent => AfterInitializeGrid(s)
  }

  predicate Feasible(s: Snapshot, events: seq<Event>)
    decreases |events|
  {
    events == [] || (Fits(s, events[0]) && Feasible(Step(s, events[0]), events[1..]))
  }

  function Run(s: Snapshot, events: seq<Event>): Snapshot
    requires Feasible(s, events)
    decreases |events|
  {
    if events == [] then s else Run(Step(s, events[0]), events[1..])
  }

  /** The number of activation passes during a run. */
  function Passes(s: Snapshot, events: seq<Event>): nat
    requires Feasible(s, events)
    decreases |events|
  {
    if events == [] then 0
    else (if events[0].TickEvent? && TickFires(s) then 1 else 0) + Passes(Step(s, events[0]), events[1..])
  }

  predicate NoReset(events: seq<Event>) {
    forall k :: 0 <= k < |events| ==> !events[k].ResetEvent?
  }

  lemma StepConsistent(s: Snapshot, e: Event)
    requires Consistent(s) && Fits(s, e)
    ensures Consistent(Step(s, e))
  {
    match e
    case TickEvent(flips) => TickStep(s, flips);
    case StartStopEvent(h) => StartStopStep(s, h);
    case ResetEvent => ResetStep(s);
    case InitializeGridEvent => InitializeGridStep(s);
  }

  /** Every state reachable from a consistent one is consistent. */
  lemma {:induction false} RunConsistent(s: Snapshot, events: seq<Event>)
    requires Consistent(s) && Feasible(s, events)
    ensures Consistent(Run(s, events))
    decreases |events|
  {
    if events != [] {
      StepConsistent(s, events[0]);
      RunConsistent(Step(s, events[0]), events[1..]);
    }
  }

  /** In every state reachable from page load, the recorded interval is the elapsed time's whole intervals. */
  lemma Reachable(events: seq<Event>)
    requires Feasible(Initial(), events)
    ensures var t := Run(Initial(), events);
      t.time % TickMs == 0 && t.lastTriggerInterval == t.time / TriggerIntervalMs
  {
    RunConsistent(Initial(), events);
  }

  /**
    Without a reset, a run makes exactly one activation pass per interval
    boundary its time crosses, and an orange cell stays orange.
   */
  lemma {:induction false} RunWithoutReset(s: Snapshot, events: seq<Event>)
    requires Consistent(s) && Feasible(s, events) && NoReset(events)
    ensures var t := Run(s, events);
      && t.time >= s.time
      && Passes(s, events) == IntervalOf(t.time) - IntervalOf(s.time)
      && |t.grid| >= |s.grid|
      && forall i :: 0 <= i < |s.grid| && s.grid[i] ==> t.grid[i]
    decreases |events|
  {
    if events != [] {
      var e := events[0];
      var u := Step(s, e);
      StepConsistent(s, e);
      assert NoReset(events[1..]) by {
        assert forall k :: 0 <= k < |events[1..]| ==> events[1..][k] == events[k + 1];
      }
      RunWithoutReset(u, events[1..]);
      assert !e.ResetEvent? by { assert events[0] == e; }
      match e
      case TickEvent(flips) =>
        TickStep(s, flips);
        ActivateKeepsOrange(s.grid, flips);
      case StartStopEvent(h) =>
      case InitializeGridEvent =>
        assert forall i :: 0 <= i < |s.grid| ==> u.grid[i] == s.grid[i];
    }
  }

  /**
    The scenario of a run that starts, reaches 9990 ms and 10000 ms by ticks,
    and then jumps to 35000 ms: no pass before 10000 ms, one pass at it, and
    for the jump across the 20000 and 30000 ms boundaries one more pass only.
   */
  lemma BoundaryScenario(cells: seq<bool>, flips1: seq<bool>, flips2: seq<bool>)
    requires |flips1| == |cells| && |flips2| == |cells|
    ensures var s := Snapshot(9990, true, Some(1), 0, cells);
      && Consistent(s)
      && TriggerDue(9999, 0) == None
      && var t := AfterTick(s, flips1);
      && t.time == 10000 && t.lastTriggerInterval == 1 && t.grid == Activate(cells, flips1)
      && var u := AfterCheck(t.(time := 35000), flips2);
      && IntervalOf(35000) - IntervalOf(10000) == 2
      && u.lastTriggerInterval == 3 && u.grid == Activate(t.grid, flips2)
  {
  }
}
