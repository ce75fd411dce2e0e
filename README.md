# Table structure restoration, modelled in Dafny

This project models the table restoration routine of table-structure-recovery. The routine takes noisy, independently detected cell boxes and a table boundary. It builds a row/column grid and snaps every cell onto that grid. Processing has four steps:

1. **Collect edges.** For every cell, its left and right edges go into the column coordinates, and its top and bottom edges go into the row coordinates.
2. **Cluster the coordinates.** `clusterCoordinates` sorts the coordinates of one axis and scans them once. A value joins the current cluster when it lies at most `threshold` above the *last value added* to that cluster. The result is a chained clustering, not a bounded-diameter one. Every cluster becomes one grid line: the arithmetic mean of its members.
3. **Add the boundary.** `ensureBoundaries` handles the first line and then the last line of each axis:
   - First line: if it lies within the threshold of the lower boundary, it is replaced by the boundary. Otherwise the boundary is inserted before it.
   - Last line: the same rule, with the upper boundary, and the boundary is appended instead of inserted.
   - No lines at all: the grid becomes `[lower, upper]`.
4. **Snap the cells.** `findClosestLineIndex` maps each edge of a cell to the first nearest grid line. The spans are end minus start. A zero span is corrected to 1 by moving the end index one line further. The aligned box is read off the grid, and the detection score is copied into the confidence.

The model follows the C++ code's structure:

- `Clustering`:
  - `ClusterCoordinates` and its scan loop `ScanClusters`;
  - the specification `Centers(SortedCopy(coords), threshold)`;
  - an independent description of the clusters as the unique *chain partition* of the sorted values.
- `NearestLine`: `FindClosestLineIndex`, proved to return the first index of minimal distance.
- `Boundaries`: `EnsureBoundaries`, proved equal to `Reconciled`.
- `Restoration`: `RestoreTableStructure`, proved equal to `Restore`. It has two loops, `CollectEdges` over the cells' edges and `AlignCells` over the cells. Each cell's step is `AlignCell`, which has no loop of its own.
- `Scenarios`: concrete inputs computed through the model. These are the hazards below, a table narrower than the threshold, and a table of two side-by-side cells.

Coordinates, thresholds and scores are exact reals, and grid indices are unbounded integers.

### Where the code does not deliver what one expects of it

A caller would expect three properties of the result: strictly increasing grid lines with at least two lines per axis, every span at least 1 (the comment at `src/table_restoration.cpp:135` says so), and every cell mapped onto the grid. The code delivers none of them unconditionally, and the model follows the code:

- **Grid lines.** Strict increase is proved only for well-formed input (`Restoration.RestoreGridsIncreasing`). Well-formed means the cells lie inside the boundary, the boundary has positive width and height, and the threshold is 0 or more. Cells outside the boundary or a negative threshold can break the order.
- **At least two lines per axis.** This holds when the boundary is wider and taller than the threshold (`Restoration.RestoreGridsTwoLines`). Otherwise an axis collapses to the single line `[upper]` whenever all its edges form one cluster near the lower boundary (`Boundaries.Reconciled` states the exact condition). Well-formed input does not prevent this: edges inside a boundary no wider than the threshold always collapse (`Restoration.NarrowGridCollapses`). The cell (0, 0, 1, 1) in the boundary (0, 0, 1, 1) with threshold 2 gets the column grid `[1]` (`Scenarios.NarrowColumnGrid`).
- **Every span is at least 1.** Only a zero span is corrected. An inverted cell keeps a negative span (`Scenarios.InvertedCellNegativeSpan`).
- **Every cell maps onto the grid.** A cell whose two vertical edges are both nearest to the last vertical line gets a corrected end index one past the end of the grid. The code then reads `col_lines[col_end]` out of range, which is undefined behaviour in C++. The same holds for rows. `Restore` returns `None` in exactly this situation (`Restoration.RestoreOutcome`). A zero-width cell on the right edge of a well-formed table triggers it (`Scenarios.RightEdgeCellReadsPastEnd`). On a collapsed, one-line grid *every* cell reads past the end (`Restoration.CollapsedGridFailsAll`), so cells inside a boundary no wider or no taller than the threshold cannot be restored at all (`Restoration.NarrowBoundaryFailsAll`, and `Scenarios.NarrowTableCollapses` for one such cell).

## Model

| member | source | states |
|---|---|---|
| Clustering.ClusterCoordinates | src/table_restoration.cpp:11-39 | The result is the list of cluster means of the sorted coordinates. No coordinates give no lines. `n` coordinates give between 1 and `n` lines. |
| Clustering.ScanClusters | src/table_restoration.cpp:17-36 | The scan over the sorted values pushes the mean of every closed cluster and then of the last one. Loop invariant: the clusters seen so far are `Groups` of the prefix. |
| Clustering.ScanStep | src/table_restoration.cpp:22-30 | One scan step: the next value extends the current cluster when it is at most the threshold above the cluster's last value. Otherwise it closes the cluster and opens a new one. |
| Clustering.Insert | src/table_restoration.cpp:15 | Inserting a value into ascending values keeps them ascending, and the result holds the old values plus the new one. This is the step the sorted copy is built from. |
| Clustering.SortedCopy | src/table_restoration.cpp:15 | The sorted copy is ascending and a permutation of the input. |
| Clustering.SortedPermutationUnique | src/table_restoration.cpp:15 | Two ascending permutations of the same values are equal. So any correct sort gives the scan the same input as `SortedCopy`. |
| Clustering.SortedCopyEnds | src/table_restoration.cpp:15 | The first and last sorted values are the input's minimum and maximum. |
| Clustering.Groups | src/table_restoration.cpp:18-30 | The clusters of the scan: none exactly for no values, at most one per value, none empty, and the last value closes the last cluster. |
| Clustering.Sum | src/table_restoration.cpp:26 | The sum of a cluster's values, added left to right from 0 as `std::accumulate` does. |
| Clustering.Mean | src/table_restoration.cpp:26-27 | A cluster's sum divided by its number of values. It is 0 for an empty cluster, which the scan never builds. |
| Clustering.Means | src/table_restoration.cpp:25-28 | One mean per cluster, in cluster order. |
| Clustering.Centers | src/table_restoration.cpp:17-36 | The output of the scan on sorted values: the means of its clusters, in order. |
| Clustering.GroupsAreChainPartition | src/table_restoration.cpp:21-30 | Concatenating the clusters gives the values. Inside a cluster, consecutive values differ by at most the threshold. Consecutive clusters are separated by more than the threshold. |
| Clustering.ChainPartitionIsGroups | src/table_restoration.cpp:21-30 | Conversely, any partition with those three properties is the scan's clustering, so that description is unique. |
| Clustering.GroupCount | src/table_restoration.cpp:21-31 | The number of clusters is one more than the number of gaps larger than the threshold. |
| Clustering.NoBreaks | src/table_restoration.cpp:22 | There are no such gaps exactly when every consecutive gap is at most the threshold. |
| Clustering.SingleCluster | src/table_restoration.cpp:21-36 | Every gap is at most the threshold if and only if the output is the single mean of all values. |
| Clustering.MeanWithinCluster | src/table_restoration.cpp:26-27 | A cluster's mean lies between its smallest and largest member. |
| Clustering.CentersOrdered | src/table_restoration.cpp:11-39 | For sorted input, each center lies within its own cluster and between the first and last value. The centers never decrease. With a threshold of 0 or more they strictly increase. |
| Clustering.CentersWithinInput | src/table_restoration.cpp:11-39 | Every center of the input coordinates lies between their minimum and maximum. |
| NearestLine.ClosestIndex | src/table_restoration.cpp:44-58 | The scan's answer is 0 for no lines and otherwise a valid index. |
| NearestLine.ClosestIsFirstArgMin | src/table_restoration.cpp:47-56 | The scan's answer is at minimal distance from the coordinate, and strictly nearer than every earlier line. A tie keeps the first index. |
| NearestLine.FirstArgMinUnique | src/table_restoration.cpp:52 | There is only one first index of minimal distance. |
| NearestLine.ClosestIndexCharacterized | src/table_restoration.cpp:44-58 | For non-empty lines, an index is the scan's answer if and only if it is the first index of minimal distance. |
| NearestLine.FindClosestLineIndex | src/table_restoration.cpp:44-58 | The loop returns 0 for no lines and otherwise the first index of minimal distance. |
| Boundaries.Reconciled | src/table_restoration.cpp:63-83 | No lines give `[lower, upper]`. The last line is always the upper boundary. The first line is the lower boundary unless the grid collapsed to `[upper]`, which happens exactly for one line that is near the lower boundary when the boundaries are near each other. The length grows by 0, 1 or 2. With two or more lines, the interior lines are kept at an offset of one when the lower boundary was inserted. An end line that was not snapped is kept. |
| Boundaries.SnapFront | src/table_restoration.cpp:71-75 | The lower boundary goes in front of the first line when that line is more than the threshold away from it. Otherwise it replaces the first line. |
| Boundaries.SnapBack | src/table_restoration.cpp:78-82 | The upper boundary goes after the last line when that line is more than the threshold away from it. Otherwise it replaces the last line. |
| Boundaries.ReconciledOneLine | src/table_restoration.cpp:63-83 | One line more than the threshold from the lower boundary gets the lower boundary inserted before it. It is then kept, with the upper boundary appended, when it is also far from the upper boundary. Otherwise it is replaced by the upper boundary. One line within the threshold of the lower boundary is replaced by it. That boundary is then kept with the upper boundary appended, or replaced again by the upper boundary when the two boundaries are within the threshold. |
| Boundaries.ReconciledTwoLines | src/table_restoration.cpp:63-83 | A boundary more than the threshold wide never collapses: the result has at least two lines. |
| Boundaries.ReconciledIncreasing | src/table_restoration.cpp:63-83 | Strictly increasing lines inside a boundary of positive width stay strictly increasing, when the threshold is 0 or more. |
| Boundaries.FrontIncreasing | src/table_restoration.cpp:71-75 | Inserting or snapping the lower boundary keeps the lines strictly increasing and inside the boundary. |
| Boundaries.BackIncreasing | src/table_restoration.cpp:78-82 | Appending or snapping the upper boundary keeps them strictly increasing. |
| Boundaries.EnsureBoundaries | src/table_restoration.cpp:63-83 | The step-by-step update yields `Reconciled`, whose last line is the upper boundary. |
| Restoration.XEdges | src/table_restoration.cpp:104-106 | The column coordinates are each cell's left edge then its right edge, in cell order. |
| Restoration.YEdges | src/table_restoration.cpp:104-108 | The row coordinates are each cell's top edge then its bottom edge, in cell order. |
| Restoration.CollectEdges | src/table_restoration.cpp:100-109 | The collection loop yields exactly `XEdges` and `YEdges`. |
| Restoration.Grid | src/table_restoration.cpp:111-117 | One axis' grid: the cluster centers of its edges, reconciled with the boundary. |
| Restoration.FixEnd | src/table_restoration.cpp:136-143 | The end index after the zero-span fix-up: one past the start when it equals the start, and unchanged otherwise. |
| Restoration.Snap | src/table_restoration.cpp:126-152 | One cell snapped onto the grid: the four nearest-line indices, the fixed-up ends, the spans as end minus start, the grid values and the score. It is `None` when an index is outside its grid. |
| Restoration.SnapCharacterized | src/table_restoration.cpp:126-152 | A cell is snapped exactly when no corrected end index runs past its grid. The snapped cell is the only one that satisfies the snapping rule. |
| Restoration.SnapSound | src/table_restoration.cpp:126-152 | A snapped cell satisfies the snapping rule (`Snapped`):<br>• the start is the first nearest line of the first edge;<br>• the end is the first nearest line of the second edge, or one further when that is the start line;<br>• the span is end minus start and never 0;<br>• the aligned edges are the grid values at those indices;<br>• the confidence is the score. |
| Restoration.SnapComplete | src/table_restoration.cpp:126-152 | Any cell satisfying the snapping rule is the snapped cell. |
| Restoration.AlignCell | src/table_restoration.cpp:126-152 | Snapping one cell with the four nearest-line scans and the zero-span correction yields `Snap`. That is `None` where the code would read past a grid. |
| Restoration.AlignAll | src/table_restoration.cpp:122-155 | All cells are aligned if and only if each one snaps. The result then holds one aligned cell per input cell, in input order. |
| Restoration.AlignAllOutcome | src/table_restoration.cpp:122-155 | Aligning fails exactly when, for some cell and one axis, that grid is empty or both the cell's edges on that axis are nearest to the grid's last line. Otherwise every cell satisfies the snapping rule. |
| Restoration.AlignCells | src/table_restoration.cpp:120-155 | The cell loop yields `AlignAll`. |
| Restoration.Restore | src/table_restoration.cpp:87-158 | The whole routine: an empty structure for no cells. Otherwise the two grids and every cell snapped onto them, or `None` when a cell reads past a grid. |
| Restoration.GridEnds | src/table_restoration.cpp:112-117 | Each grid ends on the upper boundary. It starts on the lower boundary or is the single line `[upper]`. |
| Restoration.RestoreOutcome | src/table_restoration.cpp:87-158 | No cells give an empty structure. Otherwise the result is undefined exactly when some cell reads past a grid. When defined:<br>• the grids are the reconciled cluster centers and end on the boundary;<br>• there is one cell per input cell, in order;<br>• every cell satisfies the snapping rule. |
| Restoration.RestoreTableStructure | src/table_restoration.cpp:87-158 | The routine yields `Restore`, and an empty structure for no cells. |
| Restoration.GridIncreasing | src/table_restoration.cpp:111-117 | The grid of edges inside a boundary of positive width is strictly increasing when the threshold is 0 or more. |
| Restoration.RestoreGridsIncreasing | src/table_restoration.cpp:99-117 | For cells inside a boundary of positive width and height, and a threshold of 0 or more, both grids are strictly increasing. |
| Restoration.GridTwoLines | src/table_restoration.cpp:111-117 | One axis' grid has at least two lines when its boundary is more than the threshold wide. |
| Restoration.RestoreGridsTwoLines | src/table_restoration.cpp:111-117 | Both grids have at least two lines when the boundary is more than the threshold wide and tall. |
| Restoration.OneLineGridFails | src/table_restoration.cpp:126-149 | On a grid of one line, both edges are nearest to line 0 and the fixed-up end is 1. So every cell reads past the end. |
| Restoration.OneLineGridFailsAll | src/table_restoration.cpp:122-155 | No non-empty set of cells can be aligned onto a grid of one line. |
| Restoration.CollapsedGridFailsAll | src/table_restoration.cpp:111-155 | When either axis' grid has collapsed to one line, the restoration of any non-empty set of cells is undefined. |
| Restoration.NarrowCenter | src/table_restoration.cpp:11-39 | Edges inside an interval no wider than the threshold form one cluster, whose center lies inside the interval. |
| Restoration.NarrowGridCollapses | src/table_restoration.cpp:111-117 | Edges inside a boundary no wider than the threshold give the single grid line `[upper]`. |
| Restoration.NarrowBoundaryFailsAll | src/table_restoration.cpp:87-158 | A non-empty set of cells inside a boundary no wider, or no taller, than the threshold cannot be restored. |
| Scenarios.CentersOfPair | src/table_restoration.cpp:11-39 | Two sorted values make one line at their mean when at most the threshold apart, and otherwise two lines. |
| Scenarios.GridOfBoundaryEdges | src/table_restoration.cpp:111-117 | Edges that are the two boundaries and lie more than the threshold apart give exactly the grid `[lower, upper]`. |
| Scenarios.RightEdgeCellReadsPastEnd | src/table_restoration.cpp:136-147 | The zero-width cell at x = 100 in the boundary (0, 0, 100, 20) with threshold 2 gets `col_end = 2` on a two-line grid. Its restoration is undefined. |
| Scenarios.InvertedCellNegativeSpan | src/table_restoration.cpp:132-139 | The inverted cell from x = 100 to x = 0 is restored with `col_start = 1`, `col_end = 0` and `col_span = -1`. |
| Scenarios.EndsOnBoundaryKept | src/table_restoration.cpp:63-83 | Two or more lines whose first and last lines are the lower and upper boundary come through `ensureBoundaries` unchanged, for a threshold of 0 or more. |
| Scenarios.SnapAt | src/table_restoration.cpp:126-152 | A cell whose nearest-line indices give no zero span and stay inside both grids is aligned onto exactly those lines, with spans end minus start and its own score. An inverted cell keeps its negative span. |
| Scenarios.GridOfEqualEdges | src/table_restoration.cpp:111-117 | Two equal edges at 100 in the boundary 0 to 100 with threshold 2 give the grid `[0, 100]`: one cluster at 100, with the lower boundary inserted before it. |
| Scenarios.TwoCellTable | src/table_restoration.cpp:87-158 | Two side-by-side cells: the cells (0, 0, 50, 20) and (50, 0, 100, 20) in the boundary (0, 0, 100, 20) with threshold 2 give column lines 0, 50, 100 and row lines 0, 20. The first cell takes column 0 and the second column 1, both in row 0, each with span 1 and its own score. |
| Scenarios.NarrowColumnGrid | src/table_restoration.cpp:111-117 | The column edges 0 and 1 in the boundary 0 to 1 with threshold 2 give the single grid line `[1]`. The cluster center 0.5 is snapped first to the lower boundary and then to the upper one. |
| Scenarios.NarrowTableCollapses | src/table_restoration.cpp:87-158 | The cell (0, 0, 1, 1) in the boundary (0, 0, 1, 1) with threshold 2 cannot be restored. |

## Left out

- Floating point: `float` sums, means, differences and `std::abs` are exact real arithmetic here. Rounding, NaN and infinities are not modelled.
- Clustering.ClusterCoordinates: `std::sort` is modelled by its result, the ascending permutation. `SortedPermutationUnique` shows that this result is unique. The sorting algorithm itself is not modelled.
- NearestLine.FindClosestLineIndex: the conversion of the `size_t` loop index to `int` is not modelled. Indices are unbounded, so no wrap-around occurs.
- Boundaries.EnsureBoundaries: the vector is updated in place in the source. The model takes the lines as a value and returns the updated lines. Aliasing plays no role, because each call receives its own vector.
- Restoration.RestoreTableStructure: the C++ routine always returns a structure. The model returns `None` where the C++ code reads a grid line out of range. What the undefined read actually produces is not modelled.
- The `reserve` calls only pre-allocate capacity and are not modelled.
- The default argument `cluster_threshold = 2.0` of the header is not modelled. Every model operation takes the threshold explicitly.
- The demonstration program `example.cpp` and its console output are not part of this model.
