/** Fixed parameters of the intersection (roadparallel.cpp lines 12-15). */
module Config {
  /** Seconds the active quadrant stays green. */
  const GreenTime: int := 10
  /** Seconds the active quadrant stays yellow after its green phase. */
  const YellowTime: int := 3
  /** Seconds a red quadrant waits, indexed by how many places after the active quadrant it is. */
  const RedWaitTimes: seq<int> := [0, 13, 26, 39]
  /** The four approaches of the intersection, numbered 0 to 3. */
  const NumberOfRoads: int := 4

  /** One iteration of the scheduler: a green phase followed by a yellow phase. */
  const CycleTime: int := GreenTime + YellowTime

  /** A quadrant identifier, usable as an index into the per-quadrant tables. */
  predicate IsQuadrant(q: int)
  {
    0 <= q < NumberOfRoads
  }
}
