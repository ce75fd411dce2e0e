/** Snapping one coordinate to a grid line (findClosestLineIndex): the index
    of the line nearest to the coordinate, the first one on a tie, and 0 for
    an empty set of lines. */
module NearestLine {

  /** std::abs on exact reals. */
  function Abs(x: real): (r: real)
    ensures r >= 0.0
    ensures r == x || r == -x
  {
    if x < 0.0 then -x else x
  }

  /** Distance from line `i` to the coordinate. */
  function Dist(lines: seq<real>, i: int, coord: real): real
    requires 0 <= i < |lines|
  {
    Abs(lines[i] - coord)
  }

  /** The scan's answer, one line at a time: a later line replaces the
      current choice only when it is strictly closer. */
  function ClosestIndex(lines: seq<real>, coord: real): (idx: nat)
    ensures |lines| == 0 ==> idx == 0
    ensures |lines| > 0 ==> idx < |lines|
    decreases |lines|
  {
    if |lines| <= 1 then 0
    else
      var k := ClosestIndex(lines[..|lines| - 1], coord);
      if Dist(lines, |lines| - 1, coord) < Dist(lines, k, coord) then |lines| - 1 else k
  }

  /** `i` is the first index of a line at minimal distance from `coord`. */
  ghost predicate IsFirstArgMin(lines: seq<real>, coord: real, i: int)
  {
    && 0 <= i < |lines|
    && (forall j :: 0 <= j < |lines| ==> Dist(lines, i, coord) <= Dist(lines, j, coord))
    && (forall j :: 0 <= j < i ==> Dist(lines, i, coord) < Dist(lines, j, coord))
  }

  lemma DistPrefix(lines: seq<real>, n: nat, i: nat, coord: real)
    requires i < n <= |lines|
    ensures Dist(lines[..n], i, coord) == Dist(lines, i, coord)
  {
  }

  /** The scan finds the first nearest line. */
  lemma {:induction false} ClosestIsFirstArgMin(lines: seq<real>, coord: real)
    requires |lines| > 0
    ensures IsFirstArgMin(lines, coord, ClosestIndex(lines, coord))
    decreases |lines|
  {
    if |lines| > 1 {
      var n := |lines|;
      var p := lines[..n - 1];
      var k := ClosestIndex(p, coord);
      ClosestIsFirstArgMin(p, coord);
      forall j | 0 <= j < n - 1
        ensures Dist(p, j, coord) == Dist(lines, j, coord)
      {
        DistPrefix(lines, n - 1, j, coord);
      }
      assert Dist(p, k, coord) == Dist(lines, k, coord);
    }
  }

  /** There is only one first nearest line. */
  lemma FirstArgMinUnique(lines: seq<real>, coord: real, i: int, j: int)
    requires IsFirstArgMin(lines, coord, i) && IsFirstArgMin(lines, coord, j)
    ensures i == j
  {
    // Each is no farther than the other, so neither lies before the other.
    assert Dist(lines, i, coord) <= Dist(lines, j, coord) <= Dist(lines, i, coord);
  }

  /** For a non-empty set of lines, an index is the scan's answer exactly
      when it is the first index at minimal distance. */
  lemma ClosestIndexCharacterized(lines: seq<real>, coord: real)
    requires |lines| > 0
    ensures forall i :: IsFirstArgMin(lines, coord, i) <==> i == ClosestIndex(lines, coord)
  {
    ClosestIsFirstArgMin(lines, coord);
    forall i | IsFirstArgMin(lines, coord, i)
      ensures i == ClosestIndex(lines, coord)
    {
      FirstArgMinUnique(lines, coord, i, ClosestIndex(lines, coord));
    }
  }

  /** findClosestLineIndex: 0 for no lines, otherwise a linear scan keeping
      the smallest distance seen so far and the index where it was seen. */
  method FindClosestLineIndex(lines: seq<real>, coord: real) returns (idx: int)
    ensures idx == ClosestIndex(lines, coord)
    ensures |lines| == 0 ==> idx == 0
    ensures |lines| > 0 ==> IsFirstArgMin(lines, coord, idx)
  {
    if |lines| == 0 {
      return 0;
    }
    var closest := 0;
    var minDist := Abs(lines[0] - coord);
    var i := 1;
    while i < |lines|
      invariant 1 <= i <= |lines|
      invariant closest == ClosestIndex(lines[..i], coord)
      invariant minDist == Dist(lines, closest, coord)
    {
      var dist := Abs(lines[i] - coord);
      assert lines[..i + 1][..i] == lines[..i];
      DistPrefix(lines, i + 1, closest, coord);
      DistPrefix(lines, i + 1, i, coord);
      if dist < minDist {
        minDist := dist;
        closest := i;
      }
      i := i + 1;
    }
    assert lines[..i] == lines;
    ClosestIsFirstArgMin(lines, coord);
    idx := closest;
  }
}
