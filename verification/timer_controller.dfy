/**
  The timer and its world grid as an object: the script's module-level
  state becomes the fields, and each handler a method that updates them in
  place. Tick, HandleStartStop, HandleReset and InitializeGrid change the
  state exactly as the matching function of TimerSpec says and keep Valid(),
  the invariant of every reachable state; CheckGridTrigger follows
  AfterCheck over any time, and the two grid loops follow Activate and Gray.
 */
module TimerController {
  import opened Wrappers
  import opened Grid
  import opened TimeFormat
  import opened TimerSpec

  class TimerGrid {
    /** Elapsed milliseconds since the last reset. */
    var time: nat
    var isRunning: bool
    /** The id of the recurring tick while one is scheduled. */
    var timerHandle: Option<IntervalId>
    /** The last interval for which an activation pass ran. */
    var lastTriggerInterval: nat
    /** The cells of the world, `true` for orange. */
    var grid: array<bool>

    /** The state as a value. */
    function Current(): Snapshot
      reads this, grid
    {
      Snapshot(time, isRunning, timerHandle, lastTriggerInterval, grid[..])
    }

    predicate Valid()
      reads this, grid
    {
      Consistent(Current())
    }

    /** The state as the script is loaded: stopped, at zero, with no cells yet. */
    constructor ()
      ensures Current() == Initial() && Valid()
    {
      time := 0;
      isRunning := false;
      timerHandle := None;
      lastTriggerInterval := 0;
      grid := new bool[0];
    }

    /** handleIntervalTrigger: every cell whose draw came up turns orange, in place. */
    method HandleIntervalTrigger(flips: seq<bool>)
      requires |flips| == grid.Length
      modifies grid
      ensures grid[..] == Activate(old(grid[..]), flips)
      ensures forall i :: 0 <= i < grid.Length ==> (grid[i] <==> old(grid[i]) || flips[i])
    {
      for i := 0 to grid.Length
        invariant forall k :: 0 <= k < i ==> (grid[k] <==> old(grid[k]) || flips[k])
        invariant forall k :: i <= k < grid.Length ==> grid[k] == old(grid[k])
      {
        if flips[i] {
          grid[i] := true;
        }
      }
      ActivatePointwise(old(grid[..]), flips);
    }

    /** checkGridTrigger: one activation pass when a new interval has been reached. */
    method CheckGridTrigger(flips: seq<bool>)
      requires |flips| == grid.Length
      modifies this, grid
      ensures grid == old(grid)
      ensures Current() == AfterCheck(old(Current()), flips)
    {
      var currentInterval := time / TriggerIntervalMs;
      if currentInterval > 0 && currentInterval > lastTriggerInterval {
        lastTriggerInterval := currentInterval;
        HandleIntervalTrigger(flips);
      }
    }

    /** tick: ten milliseconds more, the face redrawn, the trigger checked. */
    method Tick(flips: seq<bool>) returns (shown: Display)
      requires Valid() && |flips| == grid.Length
      modifies this, grid
      ensures Valid() && grid == old(grid)
      ensures Current() == AfterTick(old(Current()), flips)
      ensures shown == FormatTime(time)
    {
      ghost var before := Current();
      TickStep(before, flips);
      time := time + TickMs;
      shown := FormatTime(time);
      assert Current() == before.(time := before.time + TickMs);
      CheckGridTrigger(flips);
    }

    /** handleStartStop: pause cancels the tick, start stores the id of the new one. */
    method HandleStartStop(newHandle: IntervalId)
      requires Valid()
      modifies this
      ensures Valid() && grid == old(grid)
      ensures Current() == AfterStartStop(old(Current()), newHandle)
    {
      StartStopStep(Current(), newHandle);
      if isRunning {
        timerHandle := None;
        isRunning := false;
      } else {
        timerHandle := Some(newHandle);
        isRunning := true;
      }
    }

    /** handleReset: from any state, stopped at zero with every cell gray; the face shows 00:00.00. */
    method HandleReset() returns (shown: Display)
      modifies this, grid
      ensures Valid() && grid == old(grid)
      ensures Current() == AfterReset(old(Current()))
      ensures forall i :: 0 <= i < grid.Length ==> !grid[i]
      ensures shown == Display("00", "00", "00")
    {
      ResetStep(Current());
      if timerHandle.Some? {
        timerHandle := None;
      }
      isRunning := false;
      time := 0;
      lastTriggerInterval := 0;
      FormatTimeZero();
      shown := FormatTime(0);
      PaintGray();
    }

    /** The loop of handleReset that turns every cell gray. */
    method PaintGray()
      modifies grid
      ensures grid[..] == Gray(grid.Length)
    {
      for i := 0 to grid.Length
        invariant forall k :: 0 <= k < i ==> !grid[k]
      {
        grid[i] := false;
      }
    }

    /** initializeGrid: GridSize gray cells pushed after the existing ones. */
    method InitializeGrid()
      requires Valid()
      modifies this
      ensures Valid() && fresh(grid)
      ensures Current() == AfterInitializeGrid(old(Current()))
      ensures grid.Length == old(grid.Length) + 625
    {
      InitializeGridStep(Current());
      var elements := grid;
      var n := elements.Length;
      var cells := new bool[n + GridSize];
      forall k | 0 <= k < n {
        cells[k] := elements[k];
      }
      for i := 0 to GridSize
        modifies cells
        invariant forall k :: 0 <= k < n ==> cells[k] == elements[k]
        invariant forall k :: n <= k < n + i ==> !cells[k]
      {
        cells[n + i] := false;
      }
      assert cells[..] == elements[..] + Gray(GridSize);
      grid := cells;
    }
  }

  /**
    A page session: load, build the grid, start, run the ticks to the first
    boundary, pause and reset. The controller's contracts alone show what the
    face and the counters hold at each point.
   */
  method Session(h: IntervalId, flips: seq<bool>)
    requires |flips| == 625
  {
    var c := new TimerGrid();
    c.InitializeGrid();
    assert c.grid.Length == 625;
    c.HandleStartStop(h);
    assert c.isRunning && c.timerHandle == Some(h);
    var shown := c.Tick(flips);
    assert c.time == 10 && c.lastTriggerInterval == 0;
    c.HandleStartStop(h);
    assert !c.isRunning && c.timerHandle == None && c.time == 10;
    shown := c.HandleReset();
    assert shown == Display("00", "00", "00") && c.time == 0;
  }
}
