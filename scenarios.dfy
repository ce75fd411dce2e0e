/** Worked inputs of restoreTableStructure: small grids computed through
    the model, the two hazards of the C++ code on concrete cells, and the
    table of two side-by-side cells. */
module Scenarios {
  import opened TableTypes
  import opened Clustering
  import opened NearestLine
  import opened Boundaries
  import opened Restoration

  lemma SortedCopyOfPair(a: real, b: real)
    ensures SortedCopy([a, b]) == if b <= a then [b, a] else [a, b]
  {
    assert [a, b][..1] == [a];
    assert SortedCopy([a]) == [a] by {
      assert [a][..0] == [];
    }
  }

  lemma GroupsOfPair(a: real, b: real, threshold: real)
    ensures Groups([a, b], threshold) == if b - a <= threshold then [[a, b]] else [[a], [b]]
  {
    var s := [a, b];
    assert s[..1] == [a] && s[1] == b;
    assert Groups([a], threshold) == [[a]] by {
      assert [a][..0] == [];
      GroupsOpen([a], [], threshold);
    }
    if b - a <= threshold {
      GroupsExtend(s, [], [a], threshold);
      assert [a] + [b] == [a, b];
      assert [] + [[a, b]] == [[a, b]];
    } else {
      GroupsOpen(s, [[a]], threshold);
    }
  }

  lemma MeanOfOne(a: real)
    ensures Mean([a]) == a
  {
    assert Sum([a]) == a by {
      assert [a][..0] == [];
      assert Sum([a]) == Sum([a][..0]) + a;
    }
  }

  lemma MeanOfPair(a: real, b: real)
    ensures Mean([a, b]) == (a + b) / 2.0
  {
    assert Sum([a, b]) == a + b by {
      assert [a, b][..1] == [a];
      assert [a][..0] == [];
      assert Sum([a, b]) == Sum([a]) + b;
      assert Sum([a]) == Sum([a][..0]) + a;
    }
  }

  lemma CentersOfPair(a: real, b: real, threshold: real)
    ensures Centers([a, b], threshold) == if b - a <= threshold then [(a + b) / 2.0] else [a, b]
  {
    GroupsOfPair(a, b, threshold);
    if b - a <= threshold {
      MeanOfPair(a, b);
    } else {
      MeanOfOne(a);
      MeanOfOne(b);
    }
  }

  /** The grid of two equal edges 100 inside [0, 100]: the two edges form
      one cluster at 100, and the lower boundary 0 is inserted before it. */
  lemma GridOfEqualEdges()
    ensures Grid([100.0, 100.0], 0.0, 100.0, 2.0) == [0.0, 100.0]
  {
    assert Centers(SortedCopy([100.0, 100.0]), 2.0) == [100.0] by {
      SortedCopyOfPair(100.0, 100.0);
      CentersOfPair(100.0, 100.0, 2.0);
    }
    assert Reconciled([100.0], 0.0, 100.0, 2.0) == [0.0, 100.0] by {
      assert SnapFront([100.0], 0.0, 2.0) == [0.0, 100.0];
    }
  }

  /** The grid of two edges, in either order, that are the boundary itself
      and lie more than the threshold apart: two clusters, each snapped onto
      its own boundary. */
  lemma GridOfBoundaryEdges(lo: real, hi: real, threshold: real)
    requires 0.0 <= threshold < hi - lo
    ensures Grid([lo, hi], lo, hi, threshold) == [lo, hi]
    ensures Grid([hi, lo], lo, hi, threshold) == [lo, hi]
  {
    SortedCopyOfPair(lo, hi);
    SortedCopyOfPair(hi, lo);
    CentersOfPair(lo, hi, threshold);
    EndsOnBoundaryKept([lo, hi], threshold);
  }

  /** A zero-width cell on the right edge of the table: both its vertical
      edges are nearest to the last vertical line, the zero-span fix-up
      moves the end index to 2 on a grid of two lines, and the C++ code
      reads col_lines[2]. */
  lemma RightEdgeCellReadsPastEnd()
    ensures Restore([Box(100.0, 0.0, 100.0, 20.0, 0.9)], Box(0.0, 0.0, 100.0, 20.0, 1.0), 2.0).None?
  {
    var cells := [Box(100.0, 0.0, 100.0, 20.0, 0.9)];
    assert XEdges(cells) == [100.0, 100.0];
    GridOfEqualEdges();
    var cols := [0.0, 100.0];
    assert ClosestIndex(cols, 100.0) == 1 by {
      assert cols[..1] == [0.0];
    }
    assert Snap(cols, Grid(YEdges(cells), 0.0, 20.0, 2.0), cells[0]).None?;
  }

  /** An inverted cell (right edge left of its left edge) is restored with
      a negative column span: only a zero span is corrected. */
  lemma InvertedCellNegativeSpan()
    ensures var r := Restore([Box(100.0, 0.0, 0.0, 20.0, 0.9)], Box(0.0, 0.0, 100.0, 20.0, 1.0), 2.0);
      && r.Some? && |r.value.cells| == 1
      && r.value.cells[0].colStart == 1 && r.value.cells[0].colEnd == 0
      && r.value.cells[0].colSpan == -1
  {
    var cell := Box(100.0, 0.0, 0.0, 20.0, 0.9);
    var cells := [cell];
    var boundary := Box(0.0, 0.0, 100.0, 20.0, 1.0);
    var cols := [0.0, 100.0];
    var rows := [0.0, 20.0];
    assert Grid(XEdges(cells), 0.0, 100.0, 2.0) == cols by {
      assert XEdges(cells) == [100.0, 0.0];
      GridOfBoundaryEdges(0.0, 100.0, 2.0);
    }
    assert Grid(YEdges(cells), 0.0, 20.0, 2.0) == rows by {
      assert YEdges(cells) == [0.0, 20.0];
      GridOfBoundaryEdges(0.0, 20.0, 2.0);
    }
    InvertedCellSnap();
    AlignOne(cols, rows, cell);
  }

  lemma AlignOne(cols: seq<real>, rows: seq<real>, cell: Box)
    ensures Snap(cols, rows, cell).Some? ==>
      AlignAll(cols, rows, [cell]) == Some([Snap(cols, rows, cell).value])
  {
    assert [cell][..0] == [];
    assert AlignAll(cols, rows, []) == Some([]);
    if Snap(cols, rows, cell).Some? {
      assert [] + [Snap(cols, rows, cell).value] == [Snap(cols, rows, cell).value];
    }
  }

  lemma InvertedCellSnap()
    ensures Snap([0.0, 100.0], [0.0, 20.0], Box(100.0, 0.0, 0.0, 20.0, 0.9))
      == Some(AlignedCell(100.0, 0.0, 0.0, 20.0, 0, 1, 1, 0, 1, -1, 0.9))
  {
    var cols := [0.0, 100.0];
    var rows := [0.0, 20.0];
    assert ClosestIndex(cols, 100.0) == 1 && ClosestIndex(cols, 0.0) == 0 by {
      assert cols[..1] == [0.0];
    }
    assert ClosestIndex(rows, 0.0) == 0 && ClosestIndex(rows, 20.0) == 1 by {
      assert rows[..1] == [0.0];
    }
  }

  // ---------------------------------------------------------------------
  // A table of two side-by-side cells: cells (0, 0, 50, 20) and
  // (50, 0, 100, 20) in the boundary (0, 0, 100, 20), threshold 2.
  // ---------------------------------------------------------------------

  lemma SortedCopyIs(xs: seq<real>, ys: seq<real>)
    requires Sorted(ys) && multiset(xs) == multiset(ys)
    ensures SortedCopy(xs) == ys
  {
    SortedPermutationUnique(SortedCopy(xs), ys);
  }

  lemma SortedFour(a: real, b: real, c: real, d: real)
    requires a <= b <= c <= d
    ensures Sorted([a, b, c, d])
  {
  }

  lemma GroupsLoneThenPair(a: real, b: real, c: real, threshold: real)
    requires b - a > threshold && c - b <= threshold
    ensures Groups([a, b, c], threshold) == [[a], [b, c]]
  {
    GroupsOfPair(a, b, threshold);
    assert [a, b, c][..2] == [a, b] && [b] + [c] == [b, c];
    GroupsExtend([a, b, c], [[a]], [b], threshold);
  }

  lemma GroupsPairThenLone(a: real, b: real, c: real, threshold: real)
    requires b - a <= threshold && c - b > threshold
    ensures Groups([a, b, c], threshold) == [[a, b], [c]]
  {
    GroupsOfPair(a, b, threshold);
    assert [a, b, c][..2] == [a, b];
    GroupsOpen([a, b, c], [[a, b]], threshold);
  }

  /** Four sorted values with one gap above the threshold on each side of
      the middle pair. */
  lemma GroupsLoneMiddleLone(a: real, b: real, c: real, d: real, threshold: real)
    requires b - a > threshold && c - b <= threshold && d - c > threshold
    ensures Groups([a, b, c, d], threshold) == [[a], [b, c], [d]]
  {
    GroupsLoneThenPair(a, b, c, threshold);
    assert [a, b, c, d][..3] == [a, b, c];
    GroupsOpen([a, b, c, d], [[a], [b, c]], threshold);
  }

  /** Four sorted values forming two pairs. */
  lemma GroupsTwoPairs(a: real, b: real, c: real, d: real, threshold: real)
    requires b - a <= threshold && c - b > threshold && d - c <= threshold
    ensures Groups([a, b, c, d], threshold) == [[a, b], [c, d]]
  {
    GroupsPairThenLone(a, b, c, threshold);
    assert [a, b, c, d][..3] == [a, b, c] && [c] + [d] == [c, d];
    GroupsExtend([a, b, c, d], [[a, b]], [c], threshold);
  }

  lemma MeansOfThree(g: seq<real>, h: seq<real>, k: seq<real>)
    ensures Means([g, h, k]) == [Mean(g), Mean(h), Mean(k)]
  {
  }

  lemma MeansOfTwo(g: seq<real>, h: seq<real>)
    ensures Means([g, h]) == [Mean(g), Mean(h)]
  {
  }

  lemma TwoCellColumnCenters()
    ensures Centers(SortedCopy([0.0, 50.0, 50.0, 100.0]), 2.0) == [0.0, 50.0, 100.0]
  {
    var xs := [0.0, 50.0, 50.0, 100.0];
    SortedFour(0.0, 50.0, 50.0, 100.0);
    SortedCopyIs(xs, xs);
    GroupsLoneMiddleLone(0.0, 50.0, 50.0, 100.0, 2.0);
    MeansOfThree([0.0], [50.0, 50.0], [100.0]);
    MeanOfOne(0.0);
    MeanOfPair(50.0, 50.0);
    MeanOfOne(100.0);
  }

  /** Lines whose ends already lie on the boundary are left unchanged. */
  lemma EndsOnBoundaryKept(lines: seq<real>, threshold: real)
    requires |lines| >= 2 && threshold >= 0.0
    ensures Reconciled(lines, lines[0], lines[|lines| - 1], threshold) == lines
  {
    FrontKept(lines, threshold);
    BackKept(lines, threshold);
  }

  lemma FrontKept(lines: seq<real>, threshold: real)
    requires |lines| > 0 && threshold >= 0.0
    ensures SnapFront(lines, lines[0], threshold) == lines
  {
    assert [lines[0]] + lines[1..] == lines;
  }

  lemma BackKept(lines: seq<real>, threshold: real)
    requires |lines| > 0 && threshold >= 0.0
    ensures SnapBack(lines, lines[|lines| - 1], threshold) == lines
  {
    assert lines[..|lines| - 1] + [lines[|lines| - 1]] == lines;
  }

  lemma TwoCellColumnGrid()
    ensures Grid([0.0, 50.0, 50.0, 100.0], 0.0, 100.0, 2.0) == [0.0, 50.0, 100.0]
  {
    TwoCellColumnCenters();
    EndsOnBoundaryKept([0.0, 50.0, 100.0], 2.0);
  }

  lemma TwoCellRowCenters()
    ensures Centers(SortedCopy([0.0, 20.0, 0.0, 20.0]), 2.0) == [0.0, 20.0]
  {
    var sorted := [0.0, 0.0, 20.0, 20.0];
    assert SortedCopy([0.0, 20.0, 0.0, 20.0]) == sorted by {
      SortedFour(0.0, 0.0, 20.0, 20.0);
      assert multiset([0.0, 20.0, 0.0, 20.0]) == multiset(sorted);
      SortedCopyIs([0.0, 20.0, 0.0, 20.0], sorted);
    }
    GroupsTwoPairs(0.0, 0.0, 20.0, 20.0, 2.0);
    MeansOfTwo([0.0, 0.0], [20.0, 20.0]);
    MeanOfPair(0.0, 0.0);
    MeanOfPair(20.0, 20.0);
  }

  lemma TwoCellRowGrid()
    ensures Grid([0.0, 20.0, 0.0, 20.0], 0.0, 20.0, 2.0) == [0.0, 20.0]
  {
    TwoCellRowCenters();
    EndsOnBoundaryKept([0.0, 20.0], 2.0);
  }

  lemma TwoCellSnaps()
    ensures Snap([0.0, 50.0, 100.0], [0.0, 20.0], Box(0.0, 0.0, 50.0, 20.0, 0.9))
      == Some(AlignedCell(0.0, 0.0, 50.0, 20.0, 0, 1, 0, 1, 1, 1, 0.9))
    ensures Snap([0.0, 50.0, 100.0], [0.0, 20.0], Box(50.0, 0.0, 100.0, 20.0, 0.8))
      == Some(AlignedCell(50.0, 0.0, 100.0, 20.0, 0, 1, 1, 2, 1, 1, 0.8))
  {
    TwoCellNearestLines();
    SnapAt([0.0, 50.0, 100.0], [0.0, 20.0], Box(0.0, 0.0, 50.0, 20.0, 0.9), 0, 1, 0, 1);
    SnapAt([0.0, 50.0, 100.0], [0.0, 20.0], Box(50.0, 0.0, 100.0, 20.0, 0.8), 1, 2, 0, 1);
  }

  /** A cell whose nearest lines are known, with no zero span and inside
      both grids, snaps onto those lines; an inverted cell keeps its
      negative span. */
  lemma SnapAt(cols: seq<real>, rows: seq<real>, cell: Box, cs: nat, ce: nat, rs: nat, re: nat)
    requires cs < |cols| && ce < |cols| && rs < |rows| && re < |rows|
    requires cs != ce && rs != re
    requires ClosestIndex(cols, cell.x1) == cs && ClosestIndex(cols, cell.x2) == ce
    requires ClosestIndex(rows, cell.y1) == rs && ClosestIndex(rows, cell.y2) == re
    ensures Snap(cols, rows, cell)
      == Some(AlignedCell(cols[cs], rows[rs], cols[ce], rows[re], rs, re, cs, ce, re - rs, ce - cs, cell.score))
  {
  }

  lemma TwoCellNearestLines()
    ensures ClosestIndex([0.0, 50.0, 100.0], 0.0) == 0
    ensures ClosestIndex([0.0, 50.0, 100.0], 50.0) == 1
    ensures ClosestIndex([0.0, 50.0, 100.0], 100.0) == 2
    ensures ClosestIndex([0.0, 20.0], 0.0) == 0 && ClosestIndex([0.0, 20.0], 20.0) == 1
  {
    var cols := [0.0, 50.0, 100.0];
    assert cols[..2] == [0.0, 50.0] && cols[..2][..1] == [0.0];
    assert [0.0, 20.0][..1] == [0.0];
  }

  lemma AlignTwo(cols: seq<real>, rows: seq<real>, c1: Box, c2: Box)
    requires Snap(cols, rows, c1).Some? && Snap(cols, rows, c2).Some?
    ensures AlignAll(cols, rows, [c1, c2])
      == Some([Snap(cols, rows, c1).value, Snap(cols, rows, c2).value])
  {
    var r := AlignAll(cols, rows, [c1, c2]);
    assert r.Some?;
    assert Some(r.value[0]) == Snap(cols, rows, c1);
    assert Some(r.value[1]) == Snap(cols, rows, c2);
    assert r.value == [r.value[0], r.value[1]];
  }

  lemma TwoCellEdges(c1: Box, c2: Box)
    ensures XEdges([c1, c2]) == [c1.x1, c1.x2, c2.x1, c2.x2]
    ensures YEdges([c1, c2]) == [c1.y1, c1.y2, c2.y1, c2.y2]
  {
    var x := XEdges([c1, c2]);
    assert x[0] == c1.x1 && x[1] == c1.x2 && x[2] == c2.x1 && x[3] == c2.x2;
    var y := YEdges([c1, c2]);
    assert y[0] == c1.y1 && y[1] == c1.y2 && y[2] == c2.y1 && y[3] == c2.y2;
  }

  /** Two side-by-side cells: column lines 0, 50, 100 and row lines 0, 20;
      the first cell takes column 0 and the second column 1, both in row 0,
      each spanning one row and one column and keeping its score. */
  lemma TwoCellTable(boundaryScore: real)
    ensures Restore([Box(0.0, 0.0, 50.0, 20.0, 0.9), Box(50.0, 0.0, 100.0, 20.0, 0.8)],
                    Box(0.0, 0.0, 100.0, 20.0, boundaryScore), 2.0)
      == Some(TableStructure([0.0, 20.0], [0.0, 50.0, 100.0],
           [AlignedCell(0.0, 0.0, 50.0, 20.0, 0, 1, 0, 1, 1, 1, 0.9),
            AlignedCell(50.0, 0.0, 100.0, 20.0, 0, 1, 1, 2, 1, 1, 0.8)]))
  {
    var c1 := Box(0.0, 0.0, 50.0, 20.0, 0.9);
    var c2 := Box(50.0, 0.0, 100.0, 20.0, 0.8);
    TwoCellEdges(c1, c2);
    TwoCellColumnGrid();
    TwoCellRowGrid();
    TwoCellSnaps();
    AlignTwo([0.0, 50.0, 100.0], [0.0, 20.0], c1, c2);
  }

  /** A table no wider than the threshold: the column edges 0 and 1 form
      one cluster at 0.5, which is snapped to the left boundary and then,
      being also the last line, to the right boundary. */
  lemma NarrowColumnGrid()
    ensures Grid([0.0, 1.0], 0.0, 1.0, 2.0) == [1.0]
  {
    NarrowColumnCenters();
    CollapseToUpper(0.5, 0.0, 1.0, 2.0);
  }

  lemma NarrowColumnCenters()
    ensures Centers(SortedCopy([0.0, 1.0]), 2.0) == [0.5]
  {
    ClosePairCenter(0.0, 1.0, 2.0);
    assert (0.0 + 1.0) / 2.0 == 0.5;
  }

  /** Two values at most the threshold apart, in either order, make one
      line at their mean. */
  lemma ClosePairCenter(a: real, b: real, threshold: real)
    requires a <= b && b - a <= threshold
    ensures Centers(SortedCopy([a, b]), threshold) == [(a + b) / 2.0]
  {
    SortedCopyOfPair(a, b);
    assert SortedCopy([a, b]) == [a, b];
    CentersOfPair(a, b, threshold);
  }

  lemma CollapseToUpper(c: real, lo: real, hi: real, threshold: real)
    requires Abs(c - lo) <= threshold && Abs(lo - hi) <= threshold
    ensures Reconciled([c], lo, hi, threshold) == [hi]
  {
  }

  /** The cell (0, 0, 1, 1) filling a boundary of the same size, threshold
      2: the column grid is the single line 1 and the cell reads past its
      end. */
  lemma NarrowTableCollapses(score: real, boundaryScore: real)
    ensures Restore([Box(0.0, 0.0, 1.0, 1.0, score)], Box(0.0, 0.0, 1.0, 1.0, boundaryScore), 2.0).None?
  {
    var cells := [Box(0.0, 0.0, 1.0, 1.0, score)];
    assert XEdges(cells) == [0.0, 1.0];
    NarrowColumnGrid();
    CollapsedGridFailsAll(cells, Box(0.0, 0.0, 1.0, 1.0, boundaryScore), 2.0);
  }
}
