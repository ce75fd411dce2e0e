/** Making the table boundary part of one axis' grid lines
    (ensureBoundaries): the first line is inserted or snapped to the lower
    boundary, then the last line is appended or snapped to the upper
    boundary, each snap happening when the line is within the threshold. */
module Boundaries {
  import opened NearestLine
  import opened Clustering

  /** `lines` after ensureBoundaries. A single line that is snapped to the
      lower boundary is also the last line, and is then snapped again to the
      upper boundary: the two boundaries collapse onto one line. */
  function Reconciled(lines: seq<real>, bmin: real, bmax: real, threshold: real): (r: seq<real>)
    ensures |lines| == 0 ==> r == [bmin, bmax]
    ensures |r| > 0 && r[|r| - 1] == bmax
    ensures |lines| <= |r| <= |lines| + 2
    ensures r[0] == bmin || r == [bmax]
    ensures r == [bmax] <==>
      |lines| == 1 && Abs(lines[0] - bmin) <= threshold && Abs(bmin - bmax) <= threshold
    ensures |lines| >= 2 ==>
      var off := if Abs(lines[0] - bmin) > threshold then 1 else 0;
      && r[0] == bmin
      && |r| == |lines| + off + (if Abs(lines[|lines| - 1] - bmax) > threshold then 1 else 0)
      && (forall i :: 1 <= i < |lines| - 1 ==> r[i + off] == lines[i])
      && (off == 1 ==> r[1] == lines[0])
      && (Abs(lines[|lines| - 1] - bmax) > threshold ==> r[|lines| - 1 + off] == lines[|lines| - 1])
  {
    if |lines| == 0 then [bmin, bmax]
    else SnapBack(SnapFront(lines, bmin, threshold), bmax, threshold)
  }

  /** The lower boundary is inserted before the first line, or replaces it
      when it lies within the threshold. */
  function SnapFront(lines: seq<real>, bmin: real, threshold: real): seq<real>
    requires |lines| > 0
  {
    if Abs(lines[0] - bmin) > threshold then [bmin] + lines else [bmin] + lines[1..]
  }

  /** The upper boundary is appended after the last line, or replaces it
      when it lies within the threshold. */
  function SnapBack(lines: seq<real>, bmax: real, threshold: real): seq<real>
    requires |lines| > 0
  {
    if Abs(lines[|lines| - 1] - bmax) > threshold then lines + [bmax]
    else lines[..|lines| - 1] + [bmax]
  }

  /** On well-formed input (strictly increasing lines inside an interval
      that is not a single point, and a non-negative threshold) the
      reconciled lines are strictly increasing too. */
  lemma ReconciledIncreasing(lines: seq<real>, bmin: real, bmax: real, threshold: real)
    requires StrictlyIncreasing(lines)
    requires forall i :: 0 <= i < |lines| ==> bmin <= lines[i] <= bmax
    requires bmin < bmax && threshold >= 0.0
    ensures StrictlyIncreasing(Reconciled(lines, bmin, bmax, threshold))
  {
    if |lines| > 0 {
      FrontIncreasing(lines, bmin, bmax, threshold);
      BackIncreasing(SnapFront(lines, bmin, threshold), bmin, bmax, threshold);
    }
  }

  /** A single line: the lower boundary is inserted before it or replaces
      it, and the upper boundary is appended after what is then the last
      line or replaces it. A line near neither boundary is kept between
      them. */
  lemma ReconciledOneLine(l: real, bmin: real, bmax: real, threshold: real)
    ensures Abs(l - bmin) > threshold ==>
      Reconciled([l], bmin, bmax, threshold) == [bmin] + (if Abs(l - bmax) > threshold then [l] else []) + [bmax]
    ensures Abs(l - bmin) <= threshold ==>
      Reconciled([l], bmin, bmax, threshold) == (if Abs(bmin - bmax) > threshold then [bmin, bmax] else [bmax])
  {
  }

  /** A boundary wider than the threshold never collapses: the reconciled
      lines then hold at least the two boundaries. */
  lemma ReconciledTwoLines(lines: seq<real>, bmin: real, bmax: real, threshold: real)
    requires Abs(bmin - bmax) > threshold
    ensures |Reconciled(lines, bmin, bmax, threshold)| >= 2
  {
    var r := Reconciled(lines, bmin, bmax, threshold);
    assert |r| == 1 ==> r == [bmax];
  }

  lemma BackIncreasing(front: seq<real>, bmin: real, bmax: real, threshold: real)
    requires |front| > 0 && front[0] == bmin && StrictlyIncreasing(front)
    requires forall i :: 0 <= i < |front| ==> bmin <= front[i] <= bmax
    requires bmin < bmax && threshold >= 0.0
    ensures StrictlyIncreasing(SnapBack(front, bmax, threshold))
  {
    if Abs(front[|front| - 1] - bmax) > threshold {
      AppendIncreasing(front, bmax);
    } else {
      ReplaceLastIncreasing(front, bmax, bmin);
    }
  }

  lemma FrontIncreasing(lines: seq<real>, bmin: real, bmax: real, threshold: real)
    requires |lines| > 0 && StrictlyIncreasing(lines)
    requires forall i :: 0 <= i < |lines| ==> bmin <= lines[i] <= bmax
    requires threshold >= 0.0
    ensures var front := SnapFront(lines, bmin, threshold);
      && |front| > 0 && front[0] == bmin
      && StrictlyIncreasing(front)
      && (forall i :: 0 <= i < |front| ==> bmin <= front[i] <= bmax)
  {
    var front := SnapFront(lines, bmin, threshold);
    forall i, j | 0 <= i < j < |front|
      ensures front[i] < front[j]
    {
      if i == 0 && Abs(lines[0] - bmin) > threshold {
        assert front[j] == lines[j - 1];
        assert bmin <= lines[0] <= lines[j - 1];
      }
    }
  }

  lemma AppendIncreasing(s: seq<real>, x: real)
    requires StrictlyIncreasing(s) && |s| > 0
    requires forall i :: 0 <= i < |s| ==> s[i] <= x
    requires s[|s| - 1] != x
    ensures StrictlyIncreasing(s + [x])
  {
    var t := s + [x];
    forall i, j | 0 <= i < j < |t|
      ensures t[i] < t[j]
    {
      if j == |s| && i < |s| - 1 {
        assert s[i] < s[|s| - 1];
      }
    }
  }

  lemma ReplaceLastIncreasing(s: seq<real>, x: real, lo: real)
    requires StrictlyIncreasing(s) && |s| > 0
    requires forall i :: 0 <= i < |s| - 1 ==> s[i] < s[|s| - 1]
    requires s[|s| - 1] <= x && s[0] == lo && lo < x
    ensures StrictlyIncreasing(s[..|s| - 1] + [x])
  {
    var t := s[..|s| - 1] + [x];
    forall i, j | 0 <= i < j < |t|
      ensures t[i] < t[j]
    {
      if j == |t| - 1 {
        assert t[i] == s[i];
        if |s| > 1 {
          assert s[i] < s[|s| - 1];
        }
      }
    }
  }

  /** ensureBoundaries, step by step on a local copy of the lines. */
  method EnsureBoundaries(lines: seq<real>, bmin: real, bmax: real, threshold: real)
    returns (updated: seq<real>)
    ensures updated == Reconciled(lines, bmin, bmax, threshold)
    ensures |updated| > 0 && updated[|updated| - 1] == bmax
  {
    updated := lines;
    if |updated| == 0 {
      updated := updated + [bmin];
      updated := updated + [bmax];
      return;
    }
    if Abs(updated[0] - bmin) > threshold {
      updated := [bmin] + updated;
    } else {
      updated := updated[0 := bmin];
      assert updated == [bmin] + lines[1..];
    }
    ghost var front := updated;
    assert front == SnapFront(lines, bmin, threshold);
    if Abs(updated[|updated| - 1] - bmax) > threshold {
      updated := updated + [bmax];
    } else {
      updated := updated[|updated| - 1 := bmax];
      assert updated == front[..|front| - 1] + [bmax];
    }
    assert updated == SnapBack(front, bmax, threshold);
  }
}
