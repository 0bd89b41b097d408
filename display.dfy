/**
 * What one call of displayTrafficLight computes before drawing (roadparallel.cpp
 * lines 42-121), and the sequence of such frames the scheduler shows.
 */
module Display {
  import opened Config
  import opened Lights
  import opened WaitTimes
  import opened Schedule

  /** The light letters, arrows and remaining-time figures of one redraw, indexed by quadrant. */
  datatype Frame = Frame(lights: seq<string>, arrows: seq<string>, remaining: seq<int>)

  function Render(currentGreenRoad: int, isYellow: bool): (f: Frame)
    requires IsQuadrant(currentGreenRoad)
    ensures |f.lights| == |f.arrows| == |f.remaining| == NumberOfRoads
    ensures Occurrences(f.lights, Red) == NumberOfRoads - 1
    ensures f.lights[currentGreenRoad] == if isYellow then Yellow else Green
    ensures forall road :: 0 <= road < NumberOfRoads ==> f.remaining[road] > 0
  {
    Frame(Quadrants(currentGreenRoad, isYellow), Arrows(currentGreenRoad),
          seq(NumberOfRoads, road requires 0 <= road < NumberOfRoads => RemainingTime(road, currentGreenRoad, isYellow)))
  }

  /** The arguments of one displayTrafficLight call. */
  datatype DisplayCall = DisplayCall(currentGreenRoad: int, isYellow: bool)

  /**
   * The display calls the scheduler makes in its first `n` iterations from
   * quadrant `g`: each iteration shows its active quadrant green, then yellow.
   */
  function DisplayCalls(g: int, n: nat): (calls: seq<DisplayCall>)
    requires IsQuadrant(g)
    ensures |calls| == 2 * n
    ensures forall i :: 0 <= i < |calls| ==> IsQuadrant(calls[i].currentGreenRoad)
  {
    if n == 0 then []
    else
      var g' := AdvanceBy(g, n - 1);
      DisplayCalls(g, n - 1) + [DisplayCall(g', false), DisplayCall(g', true)]
  }

  /** Call 2k of the run shows iteration k's quadrant green, call 2k+1 shows it yellow. */
  lemma {:induction false} DisplayCallsAt(g: int, n: nat, k: nat)
    requires IsQuadrant(g) && k < n
    ensures DisplayCalls(g, n)[2 * k] == DisplayCall(AdvanceBy(g, k), false)
    ensures DisplayCalls(g, n)[2 * k + 1] == DisplayCall(AdvanceBy(g, k), true)
  {
    var prefix := DisplayCalls(g, n - 1);
    if k < n - 1 {
      DisplayCallsAt(g, n - 1, k);
      assert 2 * k + 1 < |prefix|;
    } else {
      assert 2 * k == |prefix|;
    }
  }

  /**
   * A red quadrant's figure during green is exactly the time until it turns
   * green: the number of scheduler iterations before it becomes active, each
   * `CycleTime` long.
   */
  lemma RedWaitIsTimeToGreen(road: int, g: int)
    requires IsQuadrant(road) && IsQuadrant(g) && road != g
    ensures RedWaitTime(road, g, false) == RotationOffset(road, g) * CycleTime
    ensures AdvanceBy(g, RotationOffset(road, g)) == road
    ensures forall j :: 0 <= j < RotationOffset(road, g) ==> AdvanceBy(g, j) != road
  {
    var k := RotationOffset(road, g);
    AdvanceWithinRound(g, k);
    forall j | 0 <= j < k
      ensures AdvanceBy(g, j) != road
    {
      AdvanceWithinRound(g, j);
    }
  }

  /**
   * During yellow the next quadrant in the rotation is shown the same figure as
   * the active quadrant: both change when the yellow phase ends.
   */
  lemma NextWaitsForYellow(g: int)
    requires IsQuadrant(g)
    ensures Render(g, true).remaining[NextRoad(g)] == Render(g, true).remaining[g] == YellowTime
    ensures Render(g, false).remaining[NextRoad(g)] == Render(g, false).remaining[g] + YellowTime
  {
  }

  /**
   * A 15-second run from the first quadrant: the stop check only runs between
   * cycles, so two full cycles are shown and the scheduler stops at 26 seconds
   * with the third quadrant active.
   */
  lemma FifteenSecondRun()
    ensures Cycles(15) == 2 && Cycles(15) * CycleTime == 26
    ensures DisplayCalls(0, 2) == [DisplayCall(0, false), DisplayCall(0, true), DisplayCall(1, false), DisplayCall(1, true)]
    ensures AdvanceBy(0, 2) == 2
  {
  }
}
