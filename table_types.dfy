/** The records of the table restoration interface. Coordinates, thresholds
    and scores are exact reals; grid positions are (signed) integers, as the
    C++ `int` fields are, so that an inverted span can be represented. */
module TableTypes {

  datatype Option<+T> = None | Some(value: T)

  /** A detected, axis-aligned cell: left, top, right, bottom and its score. */
  datatype Box = Box(x1: real, y1: real, x2: real, y2: real, score: real)

  /** A cell snapped onto the grid: its box, the grid-line indices of its
      edges (half-open ranges), its spans and the detection confidence. */
  datatype AlignedCell = AlignedCell(
    x1: real, y1: real, x2: real, y2: real,
    rowStart: int, rowEnd: int,
    colStart: int, colEnd: int,
    rowSpan: int, colSpan: int,
    confidence: real)

  /** The restored grid: horizontal lines (y values), vertical lines
      (x values) and one aligned cell per input cell. */
  datatype TableStructure = TableStructure(
    rowLines: seq<real>,
    colLines: seq<real>,
    cells: seq<AlignedCell>)
}
