/**
 * The whole run with the threads taken away (roadparallel.cpp lines 123-172,
 * 190-202): the scheduler loop, with every worker ticking once per second of
 * each green-and-yellow cycle before the scheduler advances. Workers touch
 * disjoint counts and only read the active quadrant, which does not change
 * within a cycle, so the order of their ticks inside a cycle does not matter.
 */
module Simulation {
  import opened Config
  import opened QuadrantWorker
  import opened Schedule
  import opened Intersection

  /**
   * Whether quadrant `q` is active at each tick of the first `n` scheduler
   * iterations from quadrant `g`, `CycleTime` ticks per iteration.
   */
  function Activity(q: int, g: int, n: nat): (actives: seq<bool>)
    requires IsQuadrant(g)
    ensures |actives| == n * CycleTime
  {
    if n == 0 then [] else Activity(q, g, n - 1) + Repeat(q == AdvanceBy(g, n - 1), CycleTime)
  }

  lemma {:induction false} CountTicksConcat(a: seq<bool>, b: seq<bool>, kind: bool)
    ensures CountTicks(a + b, kind) == CountTicks(a, kind) + CountTicks(b, kind)
    decreases |b|
  {
    if b == [] {
      assert a + b == a;
    } else {
      var b' := b[..|b| - 1];
      assert (a + b)[..|a + b| - 1] == a + b';
      CountTicksConcat(a, b', kind);
    }
  }

  lemma {:induction false} CountTicksRepeat(active: bool, n: nat, kind: bool)
    ensures CountTicks(Repeat(active, n), kind) == if active == kind then n else 0
  {
    if n > 0 {
      RepeatSnoc(active, n - 1);
      assert Repeat(active, n)[..n - 1] == Repeat(active, n - 1);
      CountTicksRepeat(active, n - 1, kind);
    }
  }

  lemma CountTicksActivityStep(q: int, g: int, n: nat)
    requires IsQuadrant(g)
    ensures CountTicks(Activity(q, g, n + 1), true)
      == CountTicks(Activity(q, g, n), true) + if AdvanceBy(g, n) == q then CycleTime else 0
  {
    CountTicksConcat(Activity(q, g, n), Repeat(q == AdvanceBy(g, n), CycleTime), true);
    CountTicksRepeat(q == AdvanceBy(g, n), CycleTime, true);
  }

  /** Over any four scheduler iterations every quadrant is active for exactly one cycle. */
  lemma ActiveOncePerRound(q: int, g: int)
    requires IsQuadrant(q) && IsQuadrant(g)
    ensures CountTicks(Activity(q, g, NumberOfRoads), true) == CycleTime
  {
    EveryQuadrantOncePerRound(g, q);
    CountTicksActivityStep(q, g, 0);
    CountTicksActivityStep(q, g, 1);
    CountTicksActivityStep(q, g, 2);
    CountTicksActivityStep(q, g, 3);
  }

  /**
   * One cycle of the four workers: each makes `CycleTime` ticks, one per
   * second of the green and yellow phases, while the active quadrant stays put.
   */
  method WorkersRunCycle(s: SimulationState, reds: seq<int>, greens: seq<int>) returns (reds': seq<int>, greens': seq<int>)
    requires s.Valid() && |reds| == |greens| == NumberOfRoads
    modifies s.vehicleCounts
    ensures s.Valid() && |reds'| == |greens'| == NumberOfRoads
    ensures forall q :: 0 <= q < NumberOfRoads ==>
      WorkerState(s.vehicleCounts[q], reds'[q], greens'[q])
        == RunTicks(Repeat(q == s.currentGreenRoad, CycleTime), WorkerState(old(s.vehicleCounts[q]), reds[q], greens[q]))
  {
    reds', greens' := reds, greens;
    for q := 0 to NumberOfRoads
      invariant s.Valid() && |reds'| == |greens'| == NumberOfRoads
      invariant forall p :: 0 <= p < q ==>
        WorkerState(s.vehicleCounts[p], reds'[p], greens'[p])
          == RunTicks(Repeat(p == s.currentGreenRoad, CycleTime), WorkerState(old(s.vehicleCounts[p]), reds[p], greens[p]))
      invariant forall p :: q <= p < NumberOfRoads ==>
        s.vehicleCounts[p] == old(s.vehicleCounts[p]) && reds'[p] == reds[p] && greens'[p] == greens[p]
    {
      var red, green := s.VehicleUpdater(q, CycleTime, reds'[q], greens'[q]);
      reds', greens' := reds'[q := red], greens'[q := green];
    }
  }

  /**
   * Runs the scheduler and the four workers, starting from fresh worker
   * counters, until the stop check fires. Returns the elapsed time.
   */
  method RunSimulation(s: SimulationState, runtimeSeconds: int) returns (elapsed: int)
    requires s.Valid() && s.programRunning
    modifies s, s.vehicleCounts
    ensures s.Valid() && !s.programRunning
    ensures elapsed == Cycles(runtimeSeconds) * CycleTime
    ensures s.currentGreenRoad == AdvanceBy(old(s.currentGreenRoad), Cycles(runtimeSeconds))
    ensures forall q :: 0 <= q < NumberOfRoads ==>
      s.vehicleCounts[q] == RunTicks(Activity(q, old(s.currentGreenRoad), Cycles(runtimeSeconds)), WorkerState(old(s.vehicleCounts[q]), 0, 0)).count
  {
    var reds, greens := [0, 0, 0, 0], [0, 0, 0, 0];
    ghost var g0 := s.currentGreenRoad;
    ghost var initial := s.vehicleCounts[..];
    ghost var n: nat := 0;
    elapsed := 0;
    while s.programRunning
      invariant s.Valid() && |reds| == |greens| == NumberOfRoads
      invariant elapsed == n * CycleTime
      invariant s.currentGreenRoad == AdvanceBy(g0, n)
      invariant forall q :: 0 <= q < NumberOfRoads ==>
        WorkerState(s.vehicleCounts[q], reds[q], greens[q]) == RunTicks(Activity(q, g0, n), WorkerState(initial[q], 0, 0))
      invariant n > 0 ==> (n - 1) * CycleTime < runtimeSeconds
      invariant !s.programRunning ==> n == Cycles(runtimeSeconds)
      decreases s.programRunning, runtimeSeconds - elapsed
    {
      var stop := s.StopCheck(elapsed, runtimeSeconds);
      if stop {
        CyclesUnique(runtimeSeconds, n);
        break;
      }
      ghost var before := s.vehicleCounts[..];
      ghost var reds0, greens0 := reds, greens;
      assert forall q :: 0 <= q < NumberOfRoads ==>
        WorkerState(before[q], reds0[q], greens0[q]) == RunTicks(Activity(q, g0, n), WorkerState(initial[q], 0, 0));
      reds, greens := WorkersRunCycle(s, reds, greens);
      forall q | 0 <= q < NumberOfRoads
        ensures WorkerState(s.vehicleCounts[q], reds[q], greens[q]) == RunTicks(Activity(q, g0, n + 1), WorkerState(initial[q], 0, 0))
      {
        RunTicksConcat(Activity(q, g0, n), Repeat(q == AdvanceBy(g0, n), CycleTime), WorkerState(initial[q], 0, 0));
      }
      elapsed := elapsed + CycleTime;
      s.Advance();
      n := n + 1;
    }
  }
}
