/** The rotation of the active quadrant and the stop rule of the scheduler (roadparallel.cpp lines 152-172). */
module Schedule {
  import opened Config

  /** The quadrant that becomes active after `currentGreenRoad`'s yellow phase. */
  function NextRoad(currentGreenRoad: int): (n: int)
    requires IsQuadrant(currentGreenRoad)
    ensures IsQuadrant(n) && n != currentGreenRoad
    ensures currentGreenRoad < NumberOfRoads - 1 ==> n == currentGreenRoad + 1
    ensures currentGreenRoad == NumberOfRoads - 1 ==> n == 0
  {
    (currentGreenRoad + 1) % NumberOfRoads
  }

  /** The active quadrant after `k` scheduler iterations starting from `g`. */
  function AdvanceBy(g: int, k: nat): (r: int)
    requires IsQuadrant(g)
    ensures IsQuadrant(r)
    decreases k
  {
    if k == 0 then g else NextRoad(AdvanceBy(g, k - 1))
  }

  lemma {:induction false} AdvanceByIsModular(g: int, k: nat)
    requires IsQuadrant(g)
    ensures AdvanceBy(g, k) == (g + k) % NumberOfRoads
  {
    if k > 0 {
      AdvanceByIsModular(g, k - 1);
      ModStep(g + k - 1);
    }
  }

  /** Stepping a number by one steps its remainder by one, wrapping from 3 to 0. */
  lemma ModStep(x: nat)
    ensures (x + 1) % NumberOfRoads == if x % NumberOfRoads == NumberOfRoads - 1 then 0 else x % NumberOfRoads + 1
  {
    var q, r := x / NumberOfRoads, x % NumberOfRoads;
    assert x == NumberOfRoads * q + r;
    if r == NumberOfRoads - 1 {
      assert x + 1 == NumberOfRoads * (q + 1);
    } else {
      assert x + 1 == NumberOfRoads * q + (r + 1);
    }
  }

  /** Fewer than four iterations move the active quadrant forward by that many places, wrapping past 3. */
  lemma {:induction false} AdvanceWithinRound(g: int, k: nat)
    requires IsQuadrant(g) && k < NumberOfRoads
    ensures AdvanceBy(g, k) == if g + k < NumberOfRoads then g + k else g + k - NumberOfRoads
  {
    if k > 0 {
      AdvanceWithinRound(g, k - 1);
    }
  }

  /** Four iterations bring the rotation back to where it started. */
  lemma FourAdvancesReturn(g: int, k: nat)
    requires IsQuadrant(g)
    ensures AdvanceBy(g, k + NumberOfRoads) == AdvanceBy(g, k)
  {
    AdvanceByIsModular(g, k);
    AdvanceByIsModular(g, k + NumberOfRoads);
  }

  /** Within one round of four iterations every quadrant is active exactly once. */
  lemma EveryQuadrantOncePerRound(g: int, q: int)
    requires IsQuadrant(g) && IsQuadrant(q)
    ensures exists k :: 0 <= k < NumberOfRoads && AdvanceBy(g, k) == q
    ensures forall j, k :: 0 <= j < k < NumberOfRoads ==> AdvanceBy(g, j) != AdvanceBy(g, k)
  {
    var k := if g <= q then q - g else q - g + NumberOfRoads;
    AdvanceWithinRound(g, k);
    forall j, k | 0 <= j < k < NumberOfRoads
      ensures AdvanceBy(g, j) != AdvanceBy(g, k)
    {
      AdvanceWithinRound(g, j);
      AdvanceWithinRound(g, k);
    }
  }

  /**
   * The number of scheduler iterations that run before the stop check fires,
   * when each iteration takes `CycleTime` seconds and the check compares the
   * elapsed time with `runtimeSeconds`: the least n with n * CycleTime >= runtimeSeconds.
   */
  function Cycles(runtimeSeconds: int): (n: nat)
    ensures runtimeSeconds <= n * CycleTime
    ensures n > 0 ==> (n - 1) * CycleTime < runtimeSeconds
  {
    if runtimeSeconds <= 0 then 0 else (runtimeSeconds + CycleTime - 1) / CycleTime
  }

  /** `Cycles` is the only count of iterations that meets the stop rule. */
  lemma CyclesUnique(runtimeSeconds: int, n: nat)
    requires runtimeSeconds <= n * CycleTime
    requires n > 0 ==> (n - 1) * CycleTime < runtimeSeconds
    ensures n == Cycles(runtimeSeconds)
  {
    var m := Cycles(runtimeSeconds);
    if n < m {
      MulMonotone(n, m - 1);
    } else if m < n {
      MulMonotone(m, n - 1);
    }
  }

  lemma MulMonotone(a: nat, b: nat)
    requires a <= b
    ensures a * CycleTime <= b * CycleTime
  {
  }

  /** The scheduler stops less than one cycle after the configured run time. */
  lemma StopsWithinOneCycle(runtimeSeconds: int)
    requires runtimeSeconds >= 0
    ensures runtimeSeconds <= Cycles(runtimeSeconds) * CycleTime < runtimeSeconds + CycleTime
  {
  }
}
