/**
 * The update rule one vehicleUpdater thread applies on every tick
 * (roadparallel.cpp lines 123-149), as a function of the state it touches.
 */
module QuadrantWorker {
  /**
   * What one worker's tick reads and writes: its quadrant's vehicle count and
   * the worker's two private tick counters.
   */
  datatype WorkerState = WorkerState(count: int, redCounter: int, greenCounter: int)

  /** Every fifth tick of the same kind adds a vehicle. */
  const ArrivalPeriod: int := 5

  /** A worker state that can be reached from a non-negative count and fresh counters. */
  predicate WellFormed(s: WorkerState)
  {
    s.count >= 0 && 0 <= s.redCounter < ArrivalPeriod && 0 <= s.greenCounter < ArrivalPeriod
  }

  /**
   * One tick of the worker whose quadrant is active (green or yellow) iff
   * `active`. The active quadrant loses a vehicle if it has one; then exactly
   * one counter is stepped, the red one on an inactive tick and the green one
   * on an active tick, and a vehicle arrives when the stepped counter wraps.
   */
  function TickRule(active: bool, s: WorkerState): (r: WorkerState)
    ensures s.count >= 0 ==> r.count >= 0
    ensures WellFormed(s) ==> WellFormed(r)
    ensures active ==> r.redCounter == s.redCounter && s.count - 1 <= r.count <= s.count + 1
    ensures !active ==> r.greenCounter == s.greenCounter && s.count <= r.count <= s.count + 1
    ensures WellFormed(s) && !active ==>
      && r.redCounter == (s.redCounter + 1) % ArrivalPeriod
      && r.count == s.count + (if r.redCounter == 0 then 1 else 0)
    ensures WellFormed(s) && active ==>
      && r.greenCounter == (s.greenCounter + 1) % ArrivalPeriod
      && r.count == s.count - (if s.count > 0 then 1 else 0) + (if r.greenCounter == 0 then 1 else 0)
  {
    // The active quadrant lets one vehicle go.
    var afterDeparture := if active && s.count > 0 then s.count - 1 else s.count;
    // `&&` short-circuits: the red counter is stepped only on inactive ticks.
    var red := if !active then s.redCounter + 1 else s.redCounter;
    var afterRed := if !active && red == ArrivalPeriod then afterDeparture + 1 else afterDeparture;
    var red' := if !active && red == ArrivalPeriod then 0 else red;
    // Likewise the green counter is stepped only on active ticks.
    var green := if active then s.greenCounter + 1 else s.greenCounter;
    var afterGreen := if active && green == ArrivalPeriod then afterRed + 1 else afterRed;
    var green' := if active && green == ArrivalPeriod then 0 else green;
    WorkerState(afterGreen, red', green')
  }

  /** The state after one tick per entry of `actives`, in order; `actives[i]` says whether the quadrant was active at tick i. */
  function RunTicks(actives: seq<bool>, s: WorkerState): (r: WorkerState)
    ensures s.count >= 0 ==> r.count >= 0
    ensures WellFormed(s) ==> WellFormed(r)
    decreases |actives|
  {
    if actives == [] then s
    else TickRule(actives[|actives| - 1], RunTicks(actives[..|actives| - 1], s))
  }

  /** `n` ticks that all see the same activity. */
  function Repeat(active: bool, n: nat): (r: seq<bool>)
    ensures |r| == n && forall i :: 0 <= i < n ==> r[i] == active
  {
    seq(n, _ => active)
  }

  /** Number of ticks in `actives` on which the quadrant was active (`kind`) or inactive (`!kind`). */
  function CountTicks(actives: seq<bool>, kind: bool): (n: nat)
    ensures n <= |actives|
    decreases |actives|
  {
    if actives == [] then 0
    else CountTicks(actives[..|actives| - 1], kind) + (if actives[|actives| - 1] == kind then 1 else 0)
  }

  /** Running two stretches of ticks one after the other is running their concatenation. */
  lemma {:induction false} RunTicksConcat(a: seq<bool>, b: seq<bool>, s: WorkerState)
    ensures RunTicks(a + b, s) == RunTicks(b, RunTicks(a, s))
    decreases |b|
  {
    if b != [] {
      var b' := b[..|b| - 1];
      assert (a + b)[..|a + b| - 1] == a + b';
      RunTicksConcat(a, b', s);
    } else {
      assert a + b == a;
    }
  }

  lemma RepeatSnoc(active: bool, n: nat)
    ensures Repeat(active, n + 1) == Repeat(active, n) + [active]
  {
  }

  lemma ModSucc(x: int, c: nat)
    requires 0 <= x < ArrivalPeriod
    ensures ((x + c) % ArrivalPeriod + 1) % ArrivalPeriod == (x + c + 1) % ArrivalPeriod
  {
  }

  /**
   * Each counter advances only on ticks of its own kind, whatever the order of
   * active and inactive ticks: a phase change leaves the other counter where it was.
   */
  lemma {:induction false} CountersTrackTicks(actives: seq<bool>, s: WorkerState)
    requires WellFormed(s)
    ensures RunTicks(actives, s).redCounter == (s.redCounter + CountTicks(actives, false)) % ArrivalPeriod
    ensures RunTicks(actives, s).greenCounter == (s.greenCounter + CountTicks(actives, true)) % ArrivalPeriod
    decreases |actives|
  {
    if actives != [] {
      var init := actives[..|actives| - 1];
      CountersTrackTicks(init, s);
      ModSucc(s.redCounter, CountTicks(init, false));
      ModSucc(s.greenCounter, CountTicks(init, true));
    }
  }

  lemma DivSucc(x: int, c: nat)
    requires 0 <= x < ArrivalPeriod
    ensures (x + c + 1) / ArrivalPeriod == (x + c) / ArrivalPeriod + (if (x + c + 1) % ArrivalPeriod == 0 then 1 else 0)
  {
  }

  /**
   * A quadrant that stays red for `n` ticks gains one vehicle each time its red
   * counter wraps and never loses one.
   */
  lemma {:induction false} RedTicks(s: WorkerState, n: nat)
    requires WellFormed(s)
    ensures RunTicks(Repeat(false, n), s)
      == WorkerState(s.count + (s.redCounter + n) / ArrivalPeriod, (s.redCounter + n) % ArrivalPeriod, s.greenCounter)
  {
    if n > 0 {
      RepeatSnoc(false, n - 1);
      assert Repeat(false, n)[..n - 1] == Repeat(false, n - 1);
      RedTicks(s, n - 1);
      ModSucc(s.redCounter, n - 1);
      DivSucc(s.redCounter, n - 1);
    }
  }

  /** From a reset red counter, five red ticks add exactly one vehicle and reset the counter again. */
  lemma FiveRedTicksAddOne(s: WorkerState)
    requires WellFormed(s) && s.redCounter == 0
    ensures RunTicks(Repeat(false, 5), s) == s.(count := s.count + 1)
    ensures forall n :: 0 <= n < 5 ==> RunTicks(Repeat(false, n), s) == s.(redCounter := n)
  {
    RedTicks(s, 5);
    forall n | 0 <= n < 5
      ensures RunTicks(Repeat(false, n), s) == s.(redCounter := n)
    {
      RedTicks(s, n);
    }
  }

  /**
   * A quadrant that stays active for `n` ticks with at least `n` vehicles queued
   * loses one vehicle per tick and still gains one each time its green counter wraps.
   */
  lemma {:induction false} GreenTicks(s: WorkerState, n: nat)
    requires WellFormed(s) && s.count >= n
    ensures RunTicks(Repeat(true, n), s)
      == WorkerState(s.count - n + (s.greenCounter + n) / ArrivalPeriod, s.redCounter, (s.greenCounter + n) % ArrivalPeriod)
  {
    if n > 0 {
      RepeatSnoc(true, n - 1);
      assert Repeat(true, n)[..n - 1] == Repeat(true, n - 1);
      GreenTicks(s, n - 1);
      ModSucc(s.greenCounter, n - 1);
      DivSucc(s.greenCounter, n - 1);
    }
  }
}
