# Timer world: a verified model of the stopwatch and its grid

The browser script `CIS-3296-Project/JS/timer.js` drives a stopwatch with
start/pause and reset buttons. Beside it is a 25x25 "world" grid of cells.
While the stopwatch runs, a tick every 10 ms adds 10 ms to the elapsed time
and redraws the face as `MM`, `SS` and centiseconds. Each time the elapsed
time reaches a new 10-second interval, an activation pass gives every cell a
5% chance of turning from gray to orange. Reset stops the timer, zeroes the
time and turns every cell gray again.

This project models that state machine in Dafny:

- `wrappers.dfy`: module `Wrappers`, the `Option` type used for the interval
  handle (`null` or an id).
- `time_format.dfy`: module `TimeFormat`. It holds the arithmetic of
  `formatTime` (minutes, seconds, centiseconds) and the `pad` helper as
  functions over decimal numerals. The lemmas prove exact decomposition and
  uniqueness, and that the padded fields read back as their numbers.
- `grid.dfy`: module `Grid`. Cells are a `seq<bool>`, with `true` for
  orange. The activation pass is the function `Activate`, driven by one coin
  flip per cell. Lemmas prove what it does to each cell and to the orange
  count.
- `timer_spec.dfy`: module `TimerSpec`. The script's module-level state is
  the value `Snapshot`, and each handler is a function on it. The invariant
  `Consistent` holds in every reachable state. It says time is a multiple of
  10 and `lastTriggerInterval == time / 10000`, and that a handle is present
  exactly when the timer runs. Lemmas prove it is kept step by step and over
  whole runs. Without a reset, a run makes exactly one pass per boundary it
  crosses, and no cell turns gray.
- `timer_controller.dfy`: module `TimerController`. The class `TimerGrid`
  holds the script's state as fields, with the grid as an `array<bool>`
  updated in place by loops. `Tick`, `HandleStartStop`, `HandleReset` and
  `InitializeGrid` tie the new state to the matching `TimerSpec` function
  and keep `Valid()`. `CheckGridTrigger` follows `AfterCheck` for any time
  value, so it does not assume `Valid()`, because `tick` calls it after
  advancing the time. The two grid loops, `HandleIntervalTrigger` and
  `PaintGray`, follow `Grid.Activate` and `Grid.Gray`.

Inputs the script takes from its host are parameters of the model. These
are the random draws (`Math.random() <= 0.05` becomes a `seq<bool>`, one
flip per cell) and the id that `setInterval` returns. The id is typed as a
positive integer, because timer ids are never 0, so `if (timerInterval)`
is a presence test. The text that `formatTime` writes is not stored as
state. Instead, `Tick` and `HandleReset` return the `Display` that would be
shown.

Notes on the script's behaviour:

- `handleIntervalTrigger` draws a random number for every cell, orange ones
  included. A draw for an orange cell has no effect. So `Activate` takes one
  flip per cell.
- `lastTriggerInterval == time / 10000` holds in every reachable state,
  whether the timer runs or not. Pausing and resetting both keep it.
- `handleStartStop` has no separate guard against starting twice. The single
  button toggles, and the invariant "handle present iff running" is what
  rules out a second interval.

## Model

| member | source | states |
|---|---|---|
| TimeFormat.Decompose | CIS-3296-Project/JS/timer.js:30-33 | seconds < 60, centiseconds < 100, and minutes*60000 + seconds*1000 + centiseconds*10 <= ms < that + 10 |
| TimeFormat.DecomposeUnique | CIS-3296-Project/JS/timer.js:30-33 | any (minutes, seconds, centiseconds) with those bounds that accounts for ms is the one formatTime computes |
| TimeFormat.Digits | CIS-3296-Project/JS/timer.js:35 | String(n) is a non-empty digit string with no leading zero, of length 1 exactly when n < 10 |
| TimeFormat.DigitsRoundTrip | CIS-3296-Project/JS/timer.js:35 | reading String(n) back as a decimal gives n |
| TimeFormat.DigitsCanonical | CIS-3296-Project/JS/timer.js:35 | every digit string without a leading zero is String of its own value (the other direction of the round trip) |
| TimeFormat.PadStart | CIS-3296-Project/JS/timer.js:35 | padStart gives length max(width, old length), keeps the string as its suffix and fills the front with the pad character |
| TimeFormat.Pad | CIS-3296-Project/JS/timer.js:35 | pad(n) is String(n) left-padded with '0' to length 2, computed by PadStart over Digits; its properties are PadRoundTrip |
| TimeFormat.PadRoundTrip | CIS-3296-Project/JS/timer.js:35 | pad(n) is decimal, reads back as n, has at least 2 characters, exactly 2 iff n < 100, and equals String(n) from 10 up |
| TimeFormat.FormatTime | CIS-3296-Project/JS/timer.js:30-39 | the three texts formatTime writes: pad of minutes, seconds and centiseconds from Decompose; its properties are FormatTimeReadsBack and FormatTimeZero |
| TimeFormat.FormatTimeReadsBack | CIS-3296-Project/JS/timer.js:30-39 | the three written fields read back as an exact decomposition of ms; seconds and centiseconds always show 2 digits, minutes 2 digits iff ms < 6000000 |
| TimeFormat.FormatTimeZero | CIS-3296-Project/JS/timer.js:122 | formatTime(0) shows "00", "00", "00" |
| Grid.Activate | CIS-3296-Project/JS/timer.js:45-54 | an activation pass keeps the number of cells |
| Grid.ActivatePointwise | CIS-3296-Project/JS/timer.js:46-53 | after a pass, cell i is orange iff it was orange before or its draw came up |
| Grid.ActivateKeepsOrange | CIS-3296-Project/JS/timer.js:52 | a pass never turns an orange cell gray |
| Grid.ActivateIdempotent | CIS-3296-Project/JS/timer.js:46-53 | a second pass with the same draws changes nothing |
| Grid.ActivateCount | CIS-3296-Project/JS/timer.js:46-53 | the orange count grows by exactly the gray cells whose draw came up, at most the number of gray cells |
| Grid.CountOrangeGray | CIS-3296-Project/JS/timer.js:147 | a freshly gray grid has every cell gray and no orange cell |
| TimerSpec.TriggerDue | CIS-3296-Project/JS/timer.js:60-62 | the guard of checkGridTrigger: the current interval time/10000 when it is positive and above the recorded one, otherwise nothing; its consequences are stated by CheckRecordsLatest and NoCatchUp |
| TimerSpec.AfterCheck | CIS-3296-Project/JS/timer.js:59-66 | the state after checkGridTrigger: when the guard holds, the current interval is recorded and one activation pass runs, otherwise nothing changes; its properties are CheckRecordsLatest, NoCatchUp and CheckMonotone |
| TimerSpec.CheckRecordsLatest | CIS-3296-Project/JS/timer.js:59-66 | after a check, the recorded interval is the larger of the old one and time/10000, and a pass ran exactly when that raised it |
| TimerSpec.NoCatchUp | CIS-3296-Project/JS/timer.js:60-65 | a jump over several boundaries runs one pass, records the current interval, and a repeated check does nothing more |
| TimerSpec.CheckMonotone | CIS-3296-Project/JS/timer.js:59-66 | the check never lowers the recorded interval, never turns a cell gray, and leaves time, run state and handle alone |
| TimerSpec.NextInterval | CIS-3296-Project/JS/timer.js:60 | from a multiple of 10, adding 10 ms raises time/10000 by one exactly when it lands on a boundary, and otherwise leaves it |
| TimerSpec.AfterTick | CIS-3296-Project/JS/timer.js:71-75 | the state after tick: 10 ms more, then the trigger check; its properties are TickStep and RunWithoutReset |
| TimerSpec.AfterStartStop | CIS-3296-Project/JS/timer.js:80-106 | the state after handleStartStop: pausing drops the handle and clears isRunning, starting stores the new id and sets it; its properties are StartStopStep and StartPauseRestores |
| TimerSpec.AfterReset | CIS-3296-Project/JS/timer.js:111-136 | the state after handleReset: stopped, no handle, time and interval 0, as many cells as before, all gray; its properties are ResetStep |
| TimerSpec.AfterInitializeGrid | CIS-3296-Project/JS/timer.js:143-151 | the state after initializeGrid: GridSize (25*25) gray cells appended; its properties are InitializeGridStep |
| TimerSpec.InitialConsistent | CIS-3296-Project/JS/timer.js:20-23 | the state at load satisfies the invariant |
| TimerSpec.TickStep | CIS-3296-Project/JS/timer.js:71-75 | a tick adds exactly 10 ms, fires a pass iff the new time is a multiple of 10000, then records one more interval, and keeps the invariant |
| TimerSpec.StartStopStep | CIS-3296-Project/JS/timer.js:80-106 | start/pause negates isRunning, keeps "handle present iff running", stores the new id on start, and leaves time, interval and cells unchanged |
| TimerSpec.StartPauseRestores | CIS-3296-Project/JS/timer.js:80-97 | start then pause from a stopped state returns exactly that state, so time, interval and cells survive a pause |
| TimerSpec.ResetStep | CIS-3296-Project/JS/timer.js:111-136 | from any state: stopped, no handle, time 0, interval 0, same number of cells all gray, invariant holds, and a second reset changes nothing |
| TimerSpec.InitializeGridStep | CIS-3296-Project/JS/timer.js:143-151 | building the grid appends 625 gray cells after the existing ones and keeps the invariant |
| TimerSpec.StepConsistent | CIS-3296-Project/JS/timer.js:71-151 | each of tick, start/pause, reset and grid building keeps the invariant |
| TimerSpec.RunConsistent | CIS-3296-Project/JS/timer.js:71-151 | every state reached by a run of those events from a consistent state is consistent |
| TimerSpec.Reachable | CIS-3296-Project/JS/timer.js:20-23 | every state reachable from load has time % 10 == 0 and lastTriggerInterval == time / 10000 |
| TimerSpec.RunWithoutReset | CIS-3296-Project/JS/timer.js:45-106 | without a reset, time never decreases, the passes equal the interval boundaries crossed, and orange cells stay orange |
| TimerSpec.BoundaryScenario | CIS-3296-Project/JS/timer.js:59-75 | no pass at 9999 ms, one pass on the tick to 10000 ms (interval 1), and on a jump to 35000 ms, across two boundaries, a single further pass (interval 3) |
| TimerController.TimerGrid.constructor | CIS-3296-Project/JS/timer.js:20-24 | the load state: time 0, stopped, no handle, interval 0, no cells; invariant holds |
| TimerController.TimerGrid.HandleIntervalTrigger | CIS-3296-Project/JS/timer.js:45-54 | the grid array is updated in place to the activation pass of its old contents |
| TimerController.TimerGrid.CheckGridTrigger | CIS-3296-Project/JS/timer.js:59-66 | fields and cells change exactly as the trigger check says, over any time value; same grid array |
| TimerController.TimerGrid.Tick | CIS-3296-Project/JS/timer.js:71-75 | state changes as a tick, the invariant is kept, and the returned face is formatTime of the new time |
| TimerController.TimerGrid.HandleStartStop | CIS-3296-Project/JS/timer.js:80-106 | state changes as start/pause with the given interval id; the invariant is kept |
| TimerController.TimerGrid.HandleReset | CIS-3296-Project/JS/timer.js:111-136 | from any state, state changes as reset, every cell of the same array is gray, and the face shows 00:00.00 |
| TimerController.TimerGrid.PaintGray | CIS-3296-Project/JS/timer.js:132-135 | the grid array is updated in place so that every cell is gray |
| TimerController.TimerGrid.InitializeGrid | CIS-3296-Project/JS/timer.js:143-151 | a new array holding the old cells followed by 625 gray ones; the invariant is kept |

## Left out

- DOM lookups, `textContent` writes, button and icon class changes, and the
  `window.onload` wiring (lines 9-17, 37-39, 88-92, 100-104, 125-129, 154-161) are
  presentation only. The texts the face would show are returned by `Tick` and
  `HandleReset`. `TimerController.Session` walks through a load, start,
  tick, pause and reset against the contracts, but it does not model the
  event wiring.
- `setInterval`/`clearInterval` scheduling is host timing. The interval id is
  a parameter of `HandleStartStop`. `Tick` is invoked explicitly by the
  caller, and it does not check that the timer runs, because the source's
  `tick` does not either.
- `Math.random()` and the 5% chance are not modelled. Each draw is an
  injected flip. The expectation of about 31 new orange cells per pass is
  statistical and is not stated.
- JavaScript floating-point numbers are not modelled. Every value in the core
  is a non-negative integer far below 2^53, so `time` is a `nat` and
  `Math.floor(a / b)` is integer division.
