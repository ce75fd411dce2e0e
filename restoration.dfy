/** restoreTableStructure: collect the cell edges of each axis, cluster them
    into grid lines, make the table boundary part of the lines, then snap
    every cell onto the grid.

    The C++ code reads `col_lines[col_end]` and `row_lines[row_end]` without
    a bounds check. When both vertical edges of a cell are nearest to the
    last vertical line, the zero-span fix-up moves `col_end` one past the
    end and the read is out of range (likewise for rows). The model makes
    that outcome visible: the restored structure is `None` exactly then. */
module Restoration {
  import opened TableTypes
  import opened Clustering
  import opened NearestLine
  import opened Boundaries

  /** Left and right edge of every cell, in cell order. */
  function XEdges(cells: seq<Box>): (xs: seq<real>)
    ensures |xs| == 2 * |cells|
    ensures forall k :: 0 <= k < |cells| ==> xs[2 * k] == cells[k].x1 && xs[2 * k + 1] == cells[k].x2
  {
    if |cells| == 0 then []
    else XEdges(cells[..|cells| - 1]) + [cells[|cells| - 1].x1, cells[|cells| - 1].x2]
  }

  /** Top and bottom edge of every cell, in cell order. */
  function YEdges(cells: seq<Box>): (ys: seq<real>)
    ensures |ys| == 2 * |cells|
    ensures forall k :: 0 <= k < |cells| ==> ys[2 * k] == cells[k].y1 && ys[2 * k + 1] == cells[k].y2
  {
    if |cells| == 0 then []
    else YEdges(cells[..|cells| - 1]) + [cells[|cells| - 1].y1, cells[|cells| - 1].y2]
  }

  /** The grid lines of one axis: the cluster centers of the sorted edges,
      reconciled with the boundary. */
  function Grid(edges: seq<real>, lo: real, hi: real, threshold: real): seq<real>
  {
    Reconciled(Centers(SortedCopy(edges), threshold), lo, hi, threshold)
  }

  /** The end index after the fix-up of a zero span. */
  function FixEnd(start: int, end: int): int
  {
    if end - start == 0 then start + 1 else end
  }

  /** One cell snapped onto the grid, or None when the C++ code would read a
      line past the end of a grid. */
  function Snap(cols: seq<real>, rows: seq<real>, cell: Box): Option<AlignedCell>
  {
    var cs := ClosestIndex(cols, cell.x1);
    var ce := FixEnd(cs, ClosestIndex(cols, cell.x2));
    var rs := ClosestIndex(rows, cell.y1);
    var re := FixEnd(rs, ClosestIndex(rows, cell.y2));
    if cs < |cols| && ce < |cols| && rs < |rows| && re < |rows| then
      Some(AlignedCell(cols[cs], rows[rs], cols[ce], rows[re], rs, re, cs, ce, re - rs, ce - cs, cell.score))
    else None
  }

  /** Both edges `lo`, `hi` of a cell are nearest to the last line of
      `lines` (or there are no lines): the end index lands past the end. */
  ghost predicate PastEnd(lines: seq<real>, lo: real, hi: real)
  {
    |lines| == 0 ||
    (IsFirstArgMin(lines, lo, |lines| - 1) && IsFirstArgMin(lines, hi, |lines| - 1))
  }

  /** The snapping rule, stated with the nearest-line characterisation:
      start at the first nearest line of the first edge; end at the first
      nearest line of the second edge, or one further when that is the start
      line; spans are end minus start and never zero; the aligned box is
      read off the grid; the confidence is the detection score. */
  ghost predicate Snapped(cols: seq<real>, rows: seq<real>, cell: Box, a: AlignedCell)
  {
    && IsFirstArgMin(cols, cell.x1, a.colStart)
    && (if IsFirstArgMin(cols, cell.x2, a.colStart) then a.colEnd == a.colStart + 1
        else IsFirstArgMin(cols, cell.x2, a.colEnd))
    && IsFirstArgMin(rows, cell.y1, a.rowStart)
    && (if IsFirstArgMin(rows, cell.y2, a.rowStart) then a.rowEnd == a.rowStart + 1
        else IsFirstArgMin(rows, cell.y2, a.rowEnd))
    && a.colSpan == a.colEnd - a.colStart != 0
    && a.rowSpan == a.rowEnd - a.rowStart != 0
    && 0 <= a.colEnd < |cols| && 0 <= a.rowEnd < |rows|
    && a.x1 == cols[a.colStart] && a.x2 == cols[a.colEnd]
    && a.y1 == rows[a.rowStart] && a.y2 == rows[a.rowEnd]
    && a.confidence == cell.score
  }

  lemma SnapAxis(lines: seq<real>, lo: real, hi: real)
    ensures var s := ClosestIndex(lines, lo); var e := FixEnd(s, ClosestIndex(lines, hi));
      && (|lines| > 0 ==> IsFirstArgMin(lines, lo, s))
      && (|lines| > 0 ==> (IsFirstArgMin(lines, hi, s) <==> ClosestIndex(lines, hi) == s))
      && (s < |lines| && e < |lines| <==> !PastEnd(lines, lo, hi))
  {
    if |lines| > 0 {
      ClosestIndexCharacterized(lines, lo);
      ClosestIndexCharacterized(lines, hi);
    }
  }

  /** A cell is snapped exactly when no end index runs past its grid, and
      the snapped cell is the one and only cell the snapping rule allows. */
  lemma SnapCharacterized(cols: seq<real>, rows: seq<real>, cell: Box)
    ensures Snap(cols, rows, cell).Some? <==>
      !PastEnd(cols, cell.x1, cell.x2) && !PastEnd(rows, cell.y1, cell.y2)
    ensures forall a :: Snap(cols, rows, cell) == Some(a) <==> Snapped(cols, rows, cell, a)
  {
    SnapAxis(cols, cell.x1, cell.x2);
    SnapAxis(rows, cell.y1, cell.y2);
    if Snap(cols, rows, cell).Some? {
      SnapSound(cols, rows, cell);
    }
    forall a | Snapped(cols, rows, cell, a)
      ensures Snap(cols, rows, cell) == Some(a)
    {
      SnapComplete(cols, rows, cell, a);
    }
  }

  lemma SnapSound(cols: seq<real>, rows: seq<real>, cell: Box)
    requires Snap(cols, rows, cell).Some?
    ensures Snapped(cols, rows, cell, Snap(cols, rows, cell).value)
  {
    SnapAxis(cols, cell.x1, cell.x2);
    SnapAxis(rows, cell.y1, cell.y2);
    ClosestIndexCharacterized(cols, cell.x2);
    ClosestIndexCharacterized(rows, cell.y2);
  }

  lemma SnapComplete(cols: seq<real>, rows: seq<real>, cell: Box, a: AlignedCell)
    requires Snapped(cols, rows, cell, a)
    ensures Snap(cols, rows, cell) == Some(a)
  {
    ClosestIndexCharacterized(cols, cell.x1);
    ClosestIndexCharacterized(rows, cell.y1);
    ClosestIndexCharacterized(cols, cell.x2);
    ClosestIndexCharacterized(rows, cell.y2);
  }

  /** All cells snapped in order, or None as soon as one cannot be. */
  function AlignAll(cols: seq<real>, rows: seq<real>, cells: seq<Box>): (r: Option<seq<AlignedCell>>)
    ensures r.Some? <==> forall k :: 0 <= k < |cells| ==> Snap(cols, rows, cells[k]).Some?
    ensures r.Some? ==> |r.value| == |cells|
    ensures r.Some? ==> forall k :: 0 <= k < |cells| ==> Some(r.value[k]) == Snap(cols, rows, cells[k])
  {
    if |cells| == 0 then Some([])
    else
      var p := cells[..|cells| - 1];
      match AlignAll(cols, rows, p)
      case None => None
      case Some(done) =>
        match Snap(cols, rows, cells[|cells| - 1])
        case None => None
        case Some(a) => Some(done + [a])
  }

  /** The restored structure, or None when a grid read is out of range. */
  function Restore(cells: seq<Box>, boundary: Box, threshold: real): Option<TableStructure>
  {
    if |cells| == 0 then Some(TableStructure([], [], []))
    else
      var cols := Grid(XEdges(cells), boundary.x1, boundary.x2, threshold);
      var rows := Grid(YEdges(cells), boundary.y1, boundary.y2, threshold);
      match AlignAll(cols, rows, cells)
      case None => None
      case Some(aligned) => Some(TableStructure(rows, cols, aligned))
  }

  /** The ends of a grid: the upper boundary is always the last line, and
      the lower boundary the first one unless the grid collapsed onto the
      upper boundary alone. */
  lemma GridEnds(edges: seq<real>, lo: real, hi: real, threshold: real)
    ensures var g := Grid(edges, lo, hi, threshold);
      |g| > 0 && g[|g| - 1] == hi && (g[0] == lo || g == [hi])
  {
    var c := Centers(SortedCopy(edges), threshold);
    assert Grid(edges, lo, hi, threshold) == Reconciled(c, lo, hi, threshold);
  }

  /** Snapping all cells fails exactly when one cell reads past the end of a
      grid; otherwise every cell is snapped by the snapping rule. */
  lemma AlignAllOutcome(cols: seq<real>, rows: seq<real>, cells: seq<Box>)
    ensures AlignAll(cols, rows, cells).None? <==>
      exists k :: 0 <= k < |cells| &&
        (PastEnd(cols, cells[k].x1, cells[k].x2) || PastEnd(rows, cells[k].y1, cells[k].y2))
    ensures AlignAll(cols, rows, cells).Some? ==>
      var aligned := AlignAll(cols, rows, cells).value;
      |aligned| == |cells| &&
      forall k :: 0 <= k < |cells| ==> Snapped(cols, rows, cells[k], aligned[k])
  {
    forall k | 0 <= k < |cells|
      ensures Snap(cols, rows, cells[k]).Some? <==>
        !PastEnd(cols, cells[k].x1, cells[k].x2) && !PastEnd(rows, cells[k].y1, cells[k].y2)
      ensures Snap(cols, rows, cells[k]).Some? ==>
        Snapped(cols, rows, cells[k], Snap(cols, rows, cells[k]).value)
    {
      SnapCharacterized(cols, rows, cells[k]);
    }
  }

  /** Outcome of restoreTableStructure: no cells give an empty structure;
      otherwise the structure is defined exactly when no cell reads past the
      end of a grid, and then holds one cell per input cell, in input order,
      each snapped by the snapping rule onto grids that end on the upper
      boundary and start on the lower one (or have collapsed onto it). */
  lemma RestoreOutcome(cells: seq<Box>, boundary: Box, threshold: real)
    ensures |cells| == 0 ==> Restore(cells, boundary, threshold) == Some(TableStructure([], [], []))
    ensures |cells| > 0 ==>
      var cols := Grid(XEdges(cells), boundary.x1, boundary.x2, threshold);
      var rows := Grid(YEdges(cells), boundary.y1, boundary.y2, threshold);
      (Restore(cells, boundary, threshold).None? <==>
        exists k :: 0 <= k < |cells| &&
          (PastEnd(cols, cells[k].x1, cells[k].x2) || PastEnd(rows, cells[k].y1, cells[k].y2)))
    ensures Restore(cells, boundary, threshold).Some? && |cells| > 0 ==>
      var ts := Restore(cells, boundary, threshold).value;
      && ts.colLines == Grid(XEdges(cells), boundary.x1, boundary.x2, threshold)
      && ts.rowLines == Grid(YEdges(cells), boundary.y1, boundary.y2, threshold)
      && ts.colLines[|ts.colLines| - 1] == boundary.x2
      && ts.rowLines[|ts.rowLines| - 1] == boundary.y2
      && (ts.colLines[0] == boundary.x1 || ts.colLines == [boundary.x2])
      && (ts.rowLines[0] == boundary.y1 || ts.rowLines == [boundary.y2])
      && |ts.cells| == |cells|
      && forall k :: 0 <= k < |cells| ==> Snapped(ts.colLines, ts.rowLines, cells[k], ts.cells[k])
  {
    if |cells| > 0 {
      var cols := Grid(XEdges(cells), boundary.x1, boundary.x2, threshold);
      var rows := Grid(YEdges(cells), boundary.y1, boundary.y2, threshold);
      GridEnds(XEdges(cells), boundary.x1, boundary.x2, threshold);
      GridEnds(YEdges(cells), boundary.y1, boundary.y2, threshold);
      AlignAllOutcome(cols, rows, cells);
    }
  }

  /** Every edge of every cell lies within the boundary. */
  ghost predicate Enclosed(cells: seq<Box>, boundary: Box)
  {
    forall k :: 0 <= k < |cells| ==>
      && boundary.x1 <= cells[k].x1 <= boundary.x2 && boundary.x1 <= cells[k].x2 <= boundary.x2
      && boundary.y1 <= cells[k].y1 <= boundary.y2 && boundary.y1 <= cells[k].y2 <= boundary.y2
  }

  /** With a non-negative threshold, the cluster centers of values lying
      within an interval are strictly increasing and lie within it. */
  lemma CentersIncreasingWithin(edges: seq<real>, lo: real, hi: real, threshold: real)
    requires forall i :: 0 <= i < |edges| ==> lo <= edges[i] <= hi
    requires threshold >= 0.0
    ensures var c := Centers(SortedCopy(edges), threshold);
      StrictlyIncreasing(c) && forall k :: 0 <= k < |c| ==> lo <= c[k] <= hi
  {
    if |edges| > 0 {
      CentersOrdered(SortedCopy(edges), threshold);
      CentersWithinInput(edges, threshold);
      assert lo <= Min(edges) && Max(edges) <= hi;
    } else {
      assert SortedCopy(edges) == [];
      assert Groups([], threshold) == [];
    }
  }

  /** With a non-negative threshold, the grid of edges lying within a
      non-degenerate interval is strictly increasing. */
  lemma GridIncreasing(edges: seq<real>, lo: real, hi: real, threshold: real)
    requires forall i :: 0 <= i < |edges| ==> lo <= edges[i] <= hi
    requires lo < hi && threshold >= 0.0
    ensures StrictlyIncreasing(Grid(edges, lo, hi, threshold))
  {
    var c := Centers(SortedCopy(edges), threshold);
    CentersIncreasingWithin(edges, lo, hi, threshold);
    ReconciledIncreasing(c, lo, hi, threshold);
  }

  lemma EdgesEnclosed(cells: seq<Box>, boundary: Box)
    requires Enclosed(cells, boundary)
    ensures forall i :: 0 <= i < |XEdges(cells)| ==> boundary.x1 <= XEdges(cells)[i] <= boundary.x2
    ensures forall i :: 0 <= i < |YEdges(cells)| ==> boundary.y1 <= YEdges(cells)[i] <= boundary.y2
  {
    var xs := XEdges(cells);
    var ys := YEdges(cells);
    forall i | 0 <= i < |xs|
      ensures boundary.x1 <= xs[i] <= boundary.x2
      ensures boundary.y1 <= ys[i] <= boundary.y2
    {
      var k := i / 2;
      assert xs[2 * k] == cells[k].x1 && xs[2 * k + 1] == cells[k].x2;
      assert ys[2 * k] == cells[k].y1 && ys[2 * k + 1] == cells[k].y2;
      assert i == 2 * k || i == 2 * k + 1;
    }
  }

  /** When the cells lie inside a boundary of positive width and height and
      the threshold is non-negative, both grids are strictly increasing. */
  lemma RestoreGridsIncreasing(cells: seq<Box>, boundary: Box, threshold: real)
    requires Enclosed(cells, boundary)
    requires boundary.x1 < boundary.x2 && boundary.y1 < boundary.y2 && threshold >= 0.0
    ensures StrictlyIncreasing(Grid(XEdges(cells), boundary.x1, boundary.x2, threshold))
    ensures StrictlyIncreasing(Grid(YEdges(cells), boundary.y1, boundary.y2, threshold))
  {
    EdgesEnclosed(cells, boundary);
    GridIncreasing(XEdges(cells), boundary.x1, boundary.x2, threshold);
    GridIncreasing(YEdges(cells), boundary.y1, boundary.y2, threshold);
  }

  /** One axis' grid has at least two lines when its boundary is wider
      than the threshold. */
  lemma GridTwoLines(edges: seq<real>, lo: real, hi: real, threshold: real)
    requires Abs(lo - hi) > threshold
    ensures |Grid(edges, lo, hi, threshold)| >= 2
  {
    ReconciledTwoLines(Centers(SortedCopy(edges), threshold), lo, hi, threshold);
  }

  /** Both grids have at least two lines when the boundary is wider and
      taller than the threshold. */
  lemma RestoreGridsTwoLines(cells: seq<Box>, boundary: Box, threshold: real)
    requires Abs(boundary.x1 - boundary.x2) > threshold
    requires Abs(boundary.y1 - boundary.y2) > threshold
    ensures |Grid(XEdges(cells), boundary.x1, boundary.x2, threshold)| >= 2
    ensures |Grid(YEdges(cells), boundary.y1, boundary.y2, threshold)| >= 2
  {
    GridTwoLines(XEdges(cells), boundary.x1, boundary.x2, threshold);
    GridTwoLines(YEdges(cells), boundary.y1, boundary.y2, threshold);
  }

  /** On a grid of one line every cell reads past its end: both edges are
      nearest to line 0, and the zero-span fix-up moves the end to line 1. */
  lemma OneLineGridFails(cols: seq<real>, rows: seq<real>, cell: Box)
    requires |cols| == 1 || |rows| == 1
    ensures Snap(cols, rows, cell).None?
  {
  }

  /** No set of cells can be aligned onto a grid of one line. */
  lemma OneLineGridFailsAll(cols: seq<real>, rows: seq<real>, cells: seq<Box>)
    requires |cells| > 0 && (|cols| == 1 || |rows| == 1)
    ensures AlignAll(cols, rows, cells).None?
  {
    OneLineGridFails(cols, rows, cells[0]);
  }

  /** When one axis' grid collapses to a single line, the restoration of any
      non-empty set of cells is undefined. */
  lemma CollapsedGridFailsAll(cells: seq<Box>, boundary: Box, threshold: real)
    requires |cells| > 0
    requires |Grid(XEdges(cells), boundary.x1, boundary.x2, threshold)| == 1
      || |Grid(YEdges(cells), boundary.y1, boundary.y2, threshold)| == 1
    ensures Restore(cells, boundary, threshold).None?
  {
    OneLineGridFailsAll(Grid(XEdges(cells), boundary.x1, boundary.x2, threshold),
      Grid(YEdges(cells), boundary.y1, boundary.y2, threshold), cells);
  }

  /** Edges inside a boundary no wider than the threshold form one cluster
      near the lower boundary, so the grid collapses onto the upper one. */
  lemma NarrowGridCollapses(edges: seq<real>, lo: real, hi: real, threshold: real)
    requires |edges| > 0
    requires forall i :: 0 <= i < |edges| ==> lo <= edges[i] <= hi
    requires hi - lo <= threshold
    ensures Grid(edges, lo, hi, threshold) == [hi]
  {
    var c := NarrowCenter(edges, lo, hi, threshold);
    assert Abs(c - lo) <= threshold && Abs(lo - hi) <= threshold;
    assert Reconciled([c], lo, hi, threshold) == [hi];
  }

  /** The single cluster center of edges spread over no more than the
      threshold, and where it lies. */
  lemma NarrowCenter(edges: seq<real>, lo: real, hi: real, threshold: real) returns (c: real)
    requires |edges| > 0
    requires forall i :: 0 <= i < |edges| ==> lo <= edges[i] <= hi
    requires hi - lo <= threshold
    ensures Centers(SortedCopy(edges), threshold) == [c]
    ensures lo <= c <= hi
  {
    var s := SortedCopy(edges);
    NarrowSteps(edges, lo, hi, threshold);
    SingleCluster(s, threshold);
    c := Mean(s);
    CentersWithinInput(edges, threshold);
    assert Centers(s, threshold)[0] == c;
  }

  lemma NarrowSteps(edges: seq<real>, lo: real, hi: real, threshold: real)
    requires |edges| > 0
    requires forall i :: 0 <= i < |edges| ==> lo <= edges[i] <= hi
    requires hi - lo <= threshold
    ensures forall i :: 0 < i < |edges| ==> Step(SortedCopy(edges), i) <= threshold
  {
    SortedCopyEnds(edges);
    MinMaxWithin(edges, lo, hi);
    SortedSteps(SortedCopy(edges), lo, hi, threshold);
  }

  lemma MinMaxWithin(s: seq<real>, lo: real, hi: real)
    requires |s| > 0 && forall i :: 0 <= i < |s| ==> lo <= s[i] <= hi
    ensures lo <= Min(s) && Max(s) <= hi
  {
    var k :| 0 <= k < |s| && s[k] == Min(s);
    var l :| 0 <= l < |s| && s[l] == Max(s);
  }

  /** Sorted values spread over no more than the threshold have no gap
      above it. */
  lemma SortedSteps(s: seq<real>, lo: real, hi: real, threshold: real)
    requires Sorted(s) && |s| > 0 && lo <= s[0] && s[|s| - 1] <= hi
    requires hi - lo <= threshold
    ensures forall i :: 0 < i < |s| ==> Step(s, i) <= threshold
  {
    forall i | 0 < i < |s|
      ensures Step(s, i) <= threshold
    {
      assert s[0] <= s[i - 1] && s[i] <= s[|s| - 1];
    }
  }

  /** A non-empty set of cells inside a boundary that is no wider, or no
      taller, than the threshold cannot be restored. */
  lemma NarrowBoundaryFailsAll(cells: seq<Box>, boundary: Box, threshold: real)
    requires |cells| > 0 && Enclosed(cells, boundary)
    requires boundary.x2 - boundary.x1 <= threshold || boundary.y2 - boundary.y1 <= threshold
    ensures Restore(cells, boundary, threshold).None?
  {
    EdgesEnclosed(cells, boundary);
    if boundary.x2 - boundary.x1 <= threshold {
      NarrowGridCollapses(XEdges(cells), boundary.x1, boundary.x2, threshold);
    } else {
      NarrowGridCollapses(YEdges(cells), boundary.y1, boundary.y2, threshold);
    }
    CollapsedGridFailsAll(cells, boundary, threshold);
  }

  /** Step 1 of restoreTableStructure: the left and right edges, and the
      top and bottom edges, of every cell in order. */
  method CollectEdges(cells: seq<Box>) returns (xs: seq<real>, ys: seq<real>)
    ensures xs == XEdges(cells) && ys == YEdges(cells)
  {
    xs, ys := [], [];
    var i := 0;
    while i < |cells|
      invariant 0 <= i <= |cells|
      invariant xs == XEdges(cells[..i]) && ys == YEdges(cells[..i])
    {
      assert cells[..i + 1][..i] == cells[..i];
      xs := xs + [cells[i].x1];
      xs := xs + [cells[i].x2];
      ys := ys + [cells[i].y1];
      ys := ys + [cells[i].y2];
      i := i + 1;
    }
    assert cells[..i] == cells;
  }

  /** Step 4 for one cell: nearest lines, spans, the zero-span fix-up and
      the aligned box. None where the C++ code reads past a grid's end. */
  method AlignCell(colLines: seq<real>, rowLines: seq<real>, cell: Box) returns (r: Option<AlignedCell>)
    ensures r == Snap(colLines, rowLines, cell)
  {
    var colStart := FindClosestLineIndex(colLines, cell.x1);
    var colEnd := FindClosestLineIndex(colLines, cell.x2);
    var rowStart := FindClosestLineIndex(rowLines, cell.y1);
    var rowEnd := FindClosestLineIndex(rowLines, cell.y2);
    var colSpan := colEnd - colStart;
    var rowSpan := rowEnd - rowStart;
    if colSpan == 0 {
      colEnd := colStart + 1;
      colSpan := 1;
    }
    if rowSpan == 0 {
      rowEnd := rowStart + 1;
      rowSpan := 1;
    }
    assert colEnd == FixEnd(colStart, ClosestIndex(colLines, cell.x2)) && colSpan == colEnd - colStart;
    assert rowEnd == FixEnd(rowStart, ClosestIndex(rowLines, cell.y2)) && rowSpan == rowEnd - rowStart;
    if colStart >= |colLines| || colEnd >= |colLines| || rowStart >= |rowLines| || rowEnd >= |rowLines| {
      return None;
    }
    r := Some(AlignedCell(colLines[colStart], rowLines[rowStart], colLines[colEnd], rowLines[rowEnd],
      rowStart, rowEnd, colStart, colEnd, rowSpan, colSpan, cell.score));
  }

  /** Step 4: every cell onto the grid, in input order. */
  method AlignCells(colLines: seq<real>, rowLines: seq<real>, cells: seq<Box>)
    returns (r: Option<seq<AlignedCell>>)
    ensures r == AlignAll(colLines, rowLines, cells)
  {
    var aligned: seq<AlignedCell> := [];
    var j := 0;
    while j < |cells|
      invariant 0 <= j <= |cells|
      invariant AlignAll(colLines, rowLines, cells[..j]) == Some(aligned)
    {
      var a := AlignCell(colLines, rowLines, cells[j]);
      if a.None? {
        return None;
      }
      assert cells[..j + 1][..j] == cells[..j];
      aligned := aligned + [a.value];
      j := j + 1;
    }
    assert cells[..j] == cells;
    r := Some(aligned);
  }

  /** restoreTableStructure. Returns None where the C++ code would read a
      grid line past the end. */
  method RestoreTableStructure(cells: seq<Box>, boundary: Box, threshold: real)
    returns (result: Option<TableStructure>)
    ensures result == Restore(cells, boundary, threshold)
    ensures |cells| == 0 ==> result == Some(TableStructure([], [], []))
  {
    if |cells| == 0 {
      return Some(TableStructure([], [], []));
    }
    var xs, ys := CollectEdges(cells);
    var colLines := ClusterCoordinates(xs, threshold);
    var rowLines := ClusterCoordinates(ys, threshold);
    colLines := EnsureBoundaries(colLines, boundary.x1, boundary.x2, threshold);
    rowLines := EnsureBoundaries(rowLines, boundary.y1, boundary.y2, threshold);
    var aligned := AlignCells(colLines, rowLines, cells);
    if aligned.None? {
      return None;
    }
    result := Some(TableStructure(rowLines, colLines, aligned.value));
  }
}
