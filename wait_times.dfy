/** The "seconds remaining" figure shown for each quadrant (roadparallel.cpp lines 14, 105-119). */
module WaitTimes {
  import opened Config

  function Max(a: int, b: int): (m: int)
    ensures m >= a && m >= b && (m == a || m == b)
  {
    if a < b then b else a
  }

  /**
   * How many places `road` comes after the active quadrant in the rotation:
   * the number of scheduler advances until `road` becomes active.
   */
  function RotationOffset(road: int, currentGreenRoad: int): (k: int)
    requires IsQuadrant(road) && IsQuadrant(currentGreenRoad)
    ensures IsQuadrant(k)
    ensures k == if currentGreenRoad <= road then road - currentGreenRoad else road - currentGreenRoad + NumberOfRoads
  {
    (road - currentGreenRoad + NumberOfRoads) % NumberOfRoads
  }

  /**
   * Time a red quadrant is shown as waiting: a whole cycle per place it stands
   * after the active quadrant, less the green time once the active quadrant is
   * already yellow. The floor at 0 never takes effect.
   */
  function RedWaitTime(road: int, currentGreenRoad: int, isYellow: bool): (t: int)
    requires IsQuadrant(road) && IsQuadrant(currentGreenRoad) && road != currentGreenRoad
    ensures 1 <= RotationOffset(road, currentGreenRoad) <= 3
    ensures !isYellow ==> t == RotationOffset(road, currentGreenRoad) * CycleTime
    ensures isYellow ==> t == YellowTime + (RotationOffset(road, currentGreenRoad) - 1) * CycleTime
    ensures t >= YellowTime
  {
    var remainingTime := RedWaitTimes[RotationOffset(road, currentGreenRoad)];
    if isYellow then Max(0, remainingTime - GreenTime) else remainingTime
  }

  /**
   * The figure shown for any quadrant: the full phase length for the active one
   * (the display does not count down), the red wait for the others.
   */
  function RemainingTime(road: int, currentGreenRoad: int, isYellow: bool): (t: int)
    requires IsQuadrant(road) && IsQuadrant(currentGreenRoad)
    ensures road == currentGreenRoad ==> t == if isYellow then YellowTime else GreenTime
    ensures road != currentGreenRoad ==> t == RedWaitTime(road, currentGreenRoad, isYellow)
    ensures t > 0
  {
    if road == currentGreenRoad then
      if isYellow then YellowTime else GreenTime
    else
      RedWaitTime(road, currentGreenRoad, isYellow)
  }
}
