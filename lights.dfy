/** The light letter and the arrow glyph drawn for each quadrant (roadparallel.cpp lines 46-75). */
module Lights {
  import opened Config

  const Green: string := "G"
  const Yellow: string := "Y"
  const Red: string := "R"
  const Blank: string := " "

  /** The arrow each quadrant shows when its traffic may move, indexed by quadrant. */
  const ArrowGlyphs: seq<string> := [">", "v", "<", "^"]

  /** Number of entries of `s` equal to `x`. */
  function Occurrences(s: seq<string>, x: string): (n: nat)
    ensures n <= |s|
  {
    if s == [] then 0 else (if s[0] == x then 1 else 0) + Occurrences(s[1..], x)
  }

  lemma {:induction false} OccurrencesAllBut(s: seq<string>, x: string, i: int)
    requires 0 <= i < |s| && s[i] != x
    requires forall j :: 0 <= j < |s| && j != i ==> s[j] == x
    ensures Occurrences(s, x) == |s| - 1
  {
    if i == 0 {
      OccurrencesNone(s[1..], x, true);
    } else {
      OccurrencesAllBut(s[1..], x, i - 1);
    }
  }

  lemma {:induction false} OccurrencesOnlyAt(s: seq<string>, x: string, i: int)
    requires 0 <= i < |s| && s[i] == x
    requires forall j :: 0 <= j < |s| && j != i ==> s[j] != x
    ensures Occurrences(s, x) == 1
  {
    if i == 0 {
      OccurrencesNone(s[1..], x, false);
    } else {
      OccurrencesOnlyAt(s[1..], x, i - 1);
    }
  }

  /** When every entry is `x` the count is `|s|`; when none is, it is 0. */
  lemma {:induction false} OccurrencesNone(s: seq<string>, x: string, all: bool)
    requires forall j :: 0 <= j < |s| ==> (s[j] == x) == all
    ensures Occurrences(s, x) == if all then |s| else 0
  {
    if s != [] {
      OccurrencesNone(s[1..], x, all);
    }
  }

  /**
   * The four light letters: every quadrant is red except the active one,
   * which is yellow during the yellow phase and green otherwise.
   */
  function Quadrants(currentGreenRoad: int, isYellow: bool): (q: seq<string>)
    requires IsQuadrant(currentGreenRoad)
    ensures |q| == NumberOfRoads
    ensures q[currentGreenRoad] == if isYellow then Yellow else Green
    ensures forall i :: 0 <= i < |q| && i != currentGreenRoad ==> q[i] == Red
    ensures Occurrences(q, Red) == |q| - 1
  {
    var q := [Red, Red, Red, Red][currentGreenRoad := if isYellow then Yellow else Green];
    OccurrencesAllBut(q, Red, currentGreenRoad);
    q
  }

  /**
   * The four arrows: three quadrants show their own glyph, and the quadrant
   * opposite the active one shows none.
   */
  function Arrows(currentGreenRoad: int): (a: seq<string>)
    requires IsQuadrant(currentGreenRoad)
    ensures |a| == NumberOfRoads
    ensures forall i :: 0 <= i < |a| ==> (a[i] == Blank <==> i == (currentGreenRoad + 2) % NumberOfRoads)
    ensures forall i :: 0 <= i < |a| && a[i] != Blank ==> a[i] == ArrowGlyphs[i]
    ensures Occurrences(a, Blank) == 1
  {
    var none := [Blank, Blank, Blank, Blank];
    var a :=
      if currentGreenRoad == 0 then none[0 := ">"][1 := "v"][3 := "^"]
      else if currentGreenRoad == 1 then none[0 := ">"][1 := "v"][2 := "<"]
      else if currentGreenRoad == 2 then none[1 := "v"][2 := "<"][3 := "^"]
      else none[0 := ">"][2 := "<"][3 := "^"];  // currentGreenRoad == 3
    OccurrencesOnlyAt(a, Blank, (currentGreenRoad + 2) % NumberOfRoads);
    a
  }
}
