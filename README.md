# Four-way traffic-light simulator: a Dafny model

The simulator runs a four-quadrant intersection. One quadrant at a time is
green for 10 seconds and then yellow for 3 seconds. After that the next
quadrant, modulo 4, becomes active. Four worker threads, one per quadrant,
tick once a second. On each tick a worker lets one vehicle leave its quadrant
if that quadrant is active and not empty. It also adds one vehicle every fifth
tick. Each worker keeps two private counters for this: `redCounter` counts
ticks while its quadrant is not active, and `greenCounter` counts ticks while
it is. A scheduler thread owns the rotation. It redraws the intersection at the
start of each phase and clears `programRunning` once the configured run time
has passed.

This project models the sequential logic of that program with the threads,
the mutex and the sleeps taken out. Every worker tick and every scheduler step
is an atomic operation.

- `config.dfy` (`Config`): the constants `greenTime`, `yellowTime`,
  `redWaitTimes` and `numberOfRoads`.
- `lights.dfy` (`Lights`): the light letters and arrow glyphs that one redraw
  computes.
- `wait_times.dfy` (`WaitTimes`): the "seconds remaining" figure shown for each
  quadrant.
- `schedule.dfy` (`Schedule`): the rotation `(g + 1) % 4` and the stop rule of
  the scheduler loop.
- `display.dfy` (`Display`): one redraw as a value (`Render`), and the sequence
  of redraw calls that a run makes.
- `quadrant_worker.dfy` (`QuadrantWorker`): the tick rule as a pure function on
  a worker's count and counters, and what runs of ticks do.
- `intersection.dfy` (`Intersection`): the shared state as a class.
  `vehicleCounts` is an `array<int>` of length 4, and the class also holds
  `currentGreenRoad` and `programRunning`. Its methods are the worker tick
  `Tick`, the worker loop `VehicleUpdater`, the scheduler's `StopCheck` and
  `Advance`, and the scheduler loop `TrafficLightControl`. Each method is proved
  against the pure functions above.
- `simulation.dfy` (`Simulation`): a whole run in one serial order. In each
  cycle every worker ticks once per second, and then the scheduler advances.

Wall-clock time is an abstract clock. The scheduler's `elapsed` grows by
`greenTime + yellowTime` = 13 seconds per iteration, because each iteration
sleeps for exactly those two phases.

Notes on behaviour that the proofs bring out:
- The run time is checked only at the top of each scheduler iteration. A run
  therefore lasts `Cycles(runtime) * 13` seconds: the least multiple of 13 that
  is at least the run time. For example, a 15-second run shows two full cycles
  and stops at 26 seconds (`Display.FifteenSecondRun`). The closing message in
  `main` still reports the configured run time.
- The active quadrant gains a vehicle on every fifth active tick, even while
  vehicles are leaving it. So an empty active quadrant does not stay empty
  (`QuadrantWorker.TickRule`, `QuadrantWorker.GreenTicks`).
- The floor at 0 in the yellow-phase red wait never takes effect. The smallest
  value is 13 - 10 = 3 (`WaitTimes.RedWaitTime`).
- During yellow, the next quadrant is shown the same 3 seconds as the yellow
  one (`Display.NextWaitsForYellow`).

## Model

| member | source | states |
|---|---|---|
| `Lights.Quadrants` | roadparallel.cpp:46-57 | Exactly one of the four letters is not "R". That letter is at `currentGreenRoad`, and it is "Y" exactly when `isYellow`, else "G". |
| `Lights.Arrows` | roadparallel.cpp:59-75 | Exactly one arrow is blank: the one at `(g + 2) % 4`, opposite the active quadrant. Every other arrow is that quadrant's fixed glyph (">", "v", "<", "^"). |
| `Lights.OccurrencesAllBut` | roadparallel.cpp:50-57 | A sequence that differs from `x` at exactly one index has all but one entry equal to `x`. This is the counting fact behind "one light is not red". |
| `Lights.OccurrencesOnlyAt` | roadparallel.cpp:51-75 | A sequence that equals `x` at exactly one index has one entry equal to `x`. This is the counting fact behind "one arrow is blank". |
| `WaitTimes.RotationOffset` | roadparallel.cpp:113 | The table index `(road - g + 4) % 4` is the number of places `road` stands after `g` in the rotation, in [0,3], and it is 0 only for `road == g`. |
| `WaitTimes.RedWaitTime` | roadparallel.cpp:113-116 | For a red quadrant the offset is in {1,2,3}. During green the wait is offset × 13. During yellow it is 3 + (offset − 1) × 13. It is never below 3, so the floor at 0 never binds. |
| `WaitTimes.RemainingTime` | roadparallel.cpp:105-117 | The active quadrant shows the full phase length (10 green, 3 yellow). Each red quadrant shows its red wait. Every figure is positive. |
| `Display.Render` | roadparallel.cpp:42-117 | One redraw has four lights, four arrows and four positive remaining times. Three of the lights are red, and the active one is green or yellow by phase. |
| `Display.DisplayCalls` | roadparallel.cpp:161-167 | `n` scheduler iterations make `2n` display calls, all for valid quadrants. |
| `Display.DisplayCallsAt` | roadparallel.cpp:161-170 | Display call `2k` shows iteration `k`'s quadrant green, and call `2k+1` shows it yellow. Iteration `k`'s quadrant is `k` advances after the start. |
| `Display.RedWaitIsTimeToGreen` | roadparallel.cpp:14 | A red quadrant's green-phase wait equals the number of scheduler iterations before it turns green, times 13. The rotation reaches it after exactly that many advances and not before. |
| `Display.NextWaitsForYellow` | roadparallel.cpp:106-116 | During yellow, the next quadrant's figure equals the active quadrant's 3 seconds. During green it is the active quadrant's 10 seconds plus 3. |
| `Display.FifteenSecondRun` | roadparallel.cpp:154-170 | A 15-second run from quadrant 0 makes two iterations and stops at 26 seconds, with quadrant 2 active. Its display calls are (0, green), (0, yellow), (1, green), (1, yellow). |
| `Schedule.NextRoad` | roadparallel.cpp:170 | The next road is a valid quadrant and differs from the current one. It is `g + 1`, wrapping from 3 to 0. |
| `Schedule.AdvanceBy` | roadparallel.cpp:154-171 | After any number of scheduler iterations the active quadrant is still in [0,3]. |
| `Schedule.AdvanceByIsModular` | roadparallel.cpp:170 | `k` advances from `g` give `(g + k) % 4`. |
| `Schedule.AdvanceWithinRound` | roadparallel.cpp:170 | Fewer than four advances move the active quadrant forward by that many places, wrapping past 3. |
| `Schedule.FourAdvancesReturn` | roadparallel.cpp:170 | Four more advances bring the active quadrant back to where it was. |
| `Schedule.EveryQuadrantOncePerRound` | roadparallel.cpp:154-171 | In any four consecutive iterations every quadrant is active, and no quadrant is active twice. |
| `Schedule.Cycles` | roadparallel.cpp:154-159 | The number of iterations before the stop check fires is the least `n` with `n × 13 ≥ runtimeSeconds`. |
| `Schedule.CyclesUnique` | roadparallel.cpp:154-159 | No other number of iterations meets the stop rule. |
| `Schedule.StopsWithinOneCycle` | roadparallel.cpp:153-159 | For a non-negative run time, the scheduler stops at or after the run time and less than 13 seconds after it. |
| `QuadrantWorker.TickRule` | roadparallel.cpp:131-147 | A tick keeps a non-negative count non-negative and keeps both counters in [0,4]. An inactive tick changes only `redCounter`, stepping it modulo 5, and adds one vehicle exactly when it wraps. An active tick changes only `greenCounter` the same way. It removes one vehicle when the count was positive and adds one when `greenCounter` wraps, so the count moves by −1, 0 or +1, and both changes can happen on the same tick. |
| `QuadrantWorker.RunTicks` | roadparallel.cpp:128-148 | Any sequence of ticks keeps the count non-negative and the counters in [0,4]. |
| `QuadrantWorker.RunTicksConcat` | roadparallel.cpp:128-148 | Running two stretches of ticks in turn is the same as running their concatenation. The counters carry over across phase changes. |
| `QuadrantWorker.CountersTrackTicks` | roadparallel.cpp:125-147 | For any interleaving of active and inactive ticks, `redCounter` ends at its start plus the number of inactive ticks, modulo 5. `greenCounter` does the same with the active ticks. So a counter does not move while its quadrant is in the other phase. |
| `QuadrantWorker.RedTicks` | roadparallel.cpp:138-141 | Over `n` inactive ticks the count grows by `(redCounter + n) / 5`, never falls, and `greenCounter` is unchanged. |
| `QuadrantWorker.FiveRedTicksAddOne` | roadparallel.cpp:138-141 | From `redCounter == 0`, the first four inactive ticks add nothing and the fifth adds exactly one vehicle and resets the counter. |
| `QuadrantWorker.GreenTicks` | roadparallel.cpp:133-147 | Over `n` active ticks with at least `n` vehicles queued, one vehicle leaves per tick and `(greenCounter + n) / 5` arrive. |
| `Intersection.SimulationState.constructor` | roadparallel.cpp:179-185 | From a 1-based starting quadrant and four counts in [1,100], the state holds those counts, the 0-based active quadrant, and `programRunning` set. |
| `Intersection.SimulationState.Tick` | roadparallel.cpp:131-147 | The new count and counters of `quadrantID` are `TickRule` applied to the old ones, with "active" meaning `quadrantID == currentGreenRoad`. The other three counts, the active quadrant and the run flag do not change, and all counts stay non-negative. |
| `Intersection.SimulationState.VehicleUpdater` | roadparallel.cpp:123-149 | `ticks` iterations of the worker loop leave its quadrant's count and counters at `RunTicks` of that many equal ticks. The other counts are unchanged. |
| `Intersection.SimulationState.StopCheck` | roadparallel.cpp:154-159 | The check stops exactly when `elapsed >= runtimeSeconds`. It then clears `programRunning`, which is the only way the flag changes, and only from true to false. |
| `Intersection.SimulationState.Advance` | roadparallel.cpp:170 | The active quadrant becomes `NextRoad` of the old one and stays in [0,3]. |
| `Intersection.SimulationState.TrafficLightControl` | roadparallel.cpp:152-172 | The loop ends with `programRunning` cleared. It runs `Cycles(runtimeSeconds)` iterations, or none if the flag was already clear. It ends with the active quadrant at `(start + iterations) % 4`, the elapsed time at iterations × 13 (within 13 seconds after the run time), and the display calls at `DisplayCalls`. It never advances after the stop check fires, and the counts do not change. |
| `Simulation.Activity` | roadparallel.cpp:128-170 | For `n` scheduler iterations, each worker sees `n × 13` ticks. |
| `Simulation.ActiveOncePerRound` | roadparallel.cpp:170 | Over any four iterations, each quadrant is active for exactly 13 of its ticks. |
| `Simulation.WorkersRunCycle` | roadparallel.cpp:128-148 | During one cycle, each of the four workers makes 13 ticks against the unchanged active quadrant. Each quadrant's count and counters end at `RunTicks` of those ticks. |
| `Simulation.RunSimulation` | roadparallel.cpp:190-202 | A serial run ends with `programRunning` cleared and the same elapsed time and active quadrant as `TrafficLightControl`. Each quadrant's final count is its tick rule run over its own activity sequence, starting from fresh counters. Counts stay non-negative throughout. |

## Left out

- Threads, `mutex` and `lock_guard`, `sleep_for`, thread start and `join`. Every tick and every scheduler step is modelled as atomic. The source does not actually keep these steps atomic:
  - The scheduler writes `currentGreenRoad` (line 170) without holding `mtx`.
  - The workers read `programRunning` (line 128) without holding `mtx`.
  - Each thread writes `quadrantThreadIDs` (line 124) without holding `mtx`.
- Timing races: no such race is modelled. A worker tick and the scheduler's advance can land on the same second. `Simulation.RunSimulation` fixes one order, in which all of a cycle's ticks happen before the advance.
- `Simulation.RunSimulation`: the timing also differs from the source. A worker may make one more tick after the scheduler stops, before it observes the cleared flag. This serial order does not model that tick.
- Wall-clock time: `steady_clock` is replaced by the abstract clock described above, and the time spent redrawing is taken as zero. The `duration_cast` to whole seconds therefore has no effect in the model.
- `clearInputStream`, `getValidatedInput` and the prompts in `main` (console input). Only the validated ranges remain, as preconditions of the constructor. The run time's range in [10,1000] is not needed by any member, so no member requires it.
- `system("CLS")` and all console drawing. A redraw is modelled as the values it computes (`Display.Render`). Each display call is recorded as its arguments (`Display.DisplayCall`). The vehicle counts and thread IDs that a redraw prints are not part of `Render`.
- `quadrantThreadIDs`: it is only used for display, and it has no effect on behaviour.
- 32-bit `int` overflow: counts and the clock are unbounded integers. Over runs of at most 1000 seconds they stay far below the 32-bit limit.
