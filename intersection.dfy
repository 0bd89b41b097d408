/**
 * The shared state of the simulation and the operations the worker threads and
 * the scheduler thread perform on it, each as one atomic step
 * (roadparallel.cpp lines 17-20, 123-172, 179-185).
 */
module Intersection {
  import opened Config
  import opened QuadrantWorker
  import opened Schedule
  import opened Display

  class SimulationState {
    /** Vehicles waiting in each quadrant, indexed by quadrant. */
    const vehicleCounts: array<int>
    /** The quadrant that is green or yellow. */
    var currentGreenRoad: int
    /** Cleared once by the scheduler when the run time is over. */
    var programRunning: bool

    ghost predicate Valid()
      reads this, vehicleCounts
    {
      && vehicleCounts.Length == NumberOfRoads
      && IsQuadrant(currentGreenRoad)
      && forall q :: 0 <= q < vehicleCounts.Length ==> vehicleCounts[q] >= 0
    }

    /**
     * The state main sets up from its validated input: a 1-based starting
     * quadrant and an initial count per quadrant.
     */
    constructor (startingQuadrant: int, initialCounts: seq<int>)
      requires 1 <= startingQuadrant <= NumberOfRoads
      requires |initialCounts| == NumberOfRoads
      requires forall q :: 0 <= q < NumberOfRoads ==> 1 <= initialCounts[q] <= 100
      ensures Valid() && fresh(vehicleCounts)
      ensures vehicleCounts[..] == initialCounts
      ensures currentGreenRoad == startingQuadrant - 1
      ensures programRunning
    {
      var counts := new int[NumberOfRoads];
      for i := 0 to NumberOfRoads
        invariant forall q :: 0 <= q < i ==> counts[q] == initialCounts[q]
      {
        counts[i] := initialCounts[i];
      }
      vehicleCounts := counts;
      currentGreenRoad := startingQuadrant - 1;
      programRunning := true;
    }

    /**
     * One tick of the worker for `quadrantID`, whose private counters come in
     * as `redCounter` and `greenCounter` and go out as `red` and `green`. Only
     * that quadrant's count is written.
     */
    method Tick(quadrantID: int, redCounter: int, greenCounter: int) returns (red: int, green: int)
      requires Valid() && IsQuadrant(quadrantID)
      modifies vehicleCounts
      ensures Valid()
      ensures WorkerState(vehicleCounts[quadrantID], red, green)
        == TickRule(quadrantID == currentGreenRoad, WorkerState(old(vehicleCounts[quadrantID]), redCounter, greenCounter))
      ensures forall q :: 0 <= q < NumberOfRoads && q != quadrantID ==> vehicleCounts[q] == old(vehicleCounts[q])
    {
      red, green := redCounter, greenCounter;
      if quadrantID == currentGreenRoad && vehicleCounts[quadrantID] > 0 {
        vehicleCounts[quadrantID] := vehicleCounts[quadrantID] - 1;
      }
      if quadrantID != currentGreenRoad {
        red := red + 1;
        if red == ArrivalPeriod {
          vehicleCounts[quadrantID] := vehicleCounts[quadrantID] + 1;
          red := 0;
        }
      }
      if quadrantID == currentGreenRoad {
        green := green + 1;
        if green == ArrivalPeriod {
          vehicleCounts[quadrantID] := vehicleCounts[quadrantID] + 1;
          green := 0;
        }
      }
    }

    /**
     * The worker loop for `quadrantID` over `ticks` ticks during which the
     * active quadrant does not change.
     */
    method VehicleUpdater(quadrantID: int, ticks: nat, redCounter: int, greenCounter: int) returns (red: int, green: int)
      requires Valid() && IsQuadrant(quadrantID)
      modifies vehicleCounts
      ensures Valid()
      ensures WorkerState(vehicleCounts[quadrantID], red, green)
        == RunTicks(Repeat(quadrantID == currentGreenRoad, ticks), WorkerState(old(vehicleCounts[quadrantID]), redCounter, greenCounter))
      ensures forall q :: 0 <= q < NumberOfRoads && q != quadrantID ==> vehicleCounts[q] == old(vehicleCounts[q])
    {
      ghost var active := quadrantID == currentGreenRoad;
      ghost var start := WorkerState(vehicleCounts[quadrantID], redCounter, greenCounter);
      red, green := redCounter, greenCounter;
      for i := 0 to ticks
        invariant Valid()
        invariant WorkerState(vehicleCounts[quadrantID], red, green) == RunTicks(Repeat(active, i), start)
        invariant forall q :: 0 <= q < NumberOfRoads && q != quadrantID ==> vehicleCounts[q] == old(vehicleCounts[q])
      {
        RepeatSnoc(active, i);
        assert Repeat(active, i + 1)[..i] == Repeat(active, i);
        red, green := Tick(quadrantID, red, green);
      }
    }

    /**
     * The scheduler's check at the top of each iteration: once `elapsed`
     * reaches the run time it clears `programRunning`.
     */
    method StopCheck(elapsed: int, runtimeSeconds: int) returns (stop: bool)
      requires programRunning
      modifies this`programRunning
      ensures stop <==> elapsed >= runtimeSeconds
      ensures programRunning == !stop
    {
      stop := elapsed >= runtimeSeconds;
      if stop {
        programRunning := false;
      }
    }

    /** The scheduler's move to the next quadrant after a yellow phase. */
    method Advance()
      requires Valid()
      modifies this`currentGreenRoad
      ensures Valid()
      ensures currentGreenRoad == NextRoad(old(currentGreenRoad))
    {
      currentGreenRoad := (currentGreenRoad + 1) % NumberOfRoads;
    }

    /**
     * The scheduler loop with an abstract clock: every iteration that passes
     * the stop check shows the active quadrant green then yellow, lets
     * `CycleTime` seconds pass and advances. Returns the elapsed time and the
     * display calls made.
     */
    method TrafficLightControl(runtimeSeconds: int) returns (elapsed: int, calls: seq<DisplayCall>)
      requires Valid()
      modifies this`currentGreenRoad, this`programRunning
      ensures Valid() && !programRunning
      ensures var n := if old(programRunning) then Cycles(runtimeSeconds) else 0;
        && elapsed == n * CycleTime
        && currentGreenRoad == AdvanceBy(old(currentGreenRoad), n)
        && calls == DisplayCalls(old(currentGreenRoad), n)
        && currentGreenRoad == (old(currentGreenRoad) + n) % NumberOfRoads
    ensures old(programRunning) && runtimeSeconds >= 0 ==> runtimeSeconds <= elapsed < runtimeSeconds + CycleTime
    {
      ghost var g0 := currentGreenRoad;
      ghost var n: nat := 0;
      elapsed, calls := 0, [];
      while programRunning
        invariant Valid()
        invariant elapsed == n * CycleTime
        invariant currentGreenRoad == AdvanceBy(g0, n)
        invariant calls == DisplayCalls(g0, n)
        invariant n > 0 ==> (n - 1) * CycleTime < runtimeSeconds && old(programRunning)
        invariant !programRunning ==> n == if old(programRunning) then Cycles(runtimeSeconds) else 0
        decreases programRunning, runtimeSeconds - elapsed
      {
        var stop := StopCheck(elapsed, runtimeSeconds);
        if stop {
          CyclesUnique(runtimeSeconds, n);
          break;
        }
        calls := calls + [DisplayCall(currentGreenRoad, false), DisplayCall(currentGreenRoad, true)];
        elapsed := elapsed + GreenTime + YellowTime;
        Advance();
        n := n + 1;
      }
      AdvanceByIsModular(g0, n);
    }
  }
}
