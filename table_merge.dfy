/**
 `calculate_row_spans`: collapses vertically merged continuation cells of a
 table into the cell that opened the merge in the same column, by raising
 that cell's row span, after checking that the table is made of rows of
 unmerged cells. A table that fails the check is degraded to unmerged cells
 and reported with a single warning.

 The source keeps, per column index, a reference to the cell object that is
 open for merging, and updates that object in place. Here a table's cells
 are a grid of values and the reference is the cell's address in the grid.
 */
module TableMerge {
  import opened ReadResults
  import opened Documents

  type TableResult = ReadResult<Element, Element>

  /** The cells of each row, top to bottom. */
  type Grid = seq<seq<Cell>>

  /** Address of a cell: (row index, index within the row). */
  type Position = (nat, nat)

  /** Column index -> the cell currently open for vertical merging there. */
  type Columns = map<nat, Position>

  const NonRowWarning: string := "unexpected non-row element in table, cell merging may be incorrect"
  const NonCellWarning: string := "unexpected non-cell element in table row, cell merging may be incorrect"

  // ---------------------------------------------------------------------
  // The two validation gates

  predicate HasNonRow(rows: seq<Element>)
  {
    exists i :: 0 <= i < |rows| && !rows[i].TableRow?
  }

  predicate HasNonCell(rows: seq<Element>)
  {
    exists i, j :: 0 <= i < |rows| && 0 <= j < |rows[i].children| && !rows[i].children[j].TableCellUnmerged?
  }

  // ---------------------------------------------------------------------
  // The fallback: every unmerged cell rebuilt as a merged one

  function UnmergeCell(e: Element): Element
  {
    if e.TableCellUnmerged? then TableCell(e.children, e.colspan, e.rowspan) else e
  }

  function UnmergeElement(e: Element): Element
  {
    if e.TableRow? then TableRow(seq(|e.children|, j requires 0 <= j < |e.children| => UnmergeCell(e.children[j])))
    else UnmergeCell(e)
  }

  /** `remove_unmerged_table_cells`, on the rows and the cells of the rows. */
  function RemoveUnmergedTableCells(rows: seq<Element>): seq<Element>
  {
    seq(|rows|, i requires 0 <= i < |rows| => UnmergeElement(rows[i]))
  }

  // ---------------------------------------------------------------------
  // The merge pass, as a function of the grid

  /** The fields of an unmerged cell that the merge pass reads and updates. */
  datatype Cell = Cell(children: seq<Element>, colspan: nat, rowspan: nat, vmerge: bool)

  function CellOf(e: Element): Cell
    requires e.TableCellUnmerged?
  {
    Cell(e.children, e.colspan, e.rowspan, e.vmerge)
  }

  /** The cells of a table that passed both gates, row by row. */
  function CellsOf(rows: seq<Element>): Grid
    requires !HasNonRow(rows) && !HasNonCell(rows)
  {
    seq(|rows|, r requires 0 <= r < |rows| =>
      seq(|rows[r].children|, i requires 0 <= i < |rows[r].children| => CellOf(rows[r].children[i])))
  }

  /** Every open cell lies in the grid, strictly before the cell (r, i) in
      top-to-bottom, left-to-right order. */
  predicate ColumnsBefore(g: Grid, columns: Columns, r: nat, i: nat)
  {
    forall c :: c in columns ==>
      var p := columns[c];
      && p.0 < |g| && p.1 < |g[p.0]|
      && (p.0 < r || (p.0 == r && p.1 < i))
  }

  /** The grid after the cell at (r, i) has been replaced by `c`. */
  function SetCell(g: Grid, r: nat, i: nat, c: Cell): (h: Grid)
    requires r < |g| && i < |g[r]|
    ensures |h| == |g| && forall q :: 0 <= q < |g| ==> |h[q]| == |g[q]|
    ensures forall q, j {:trigger h[q][j]} :: 0 <= q < |g| && 0 <= j < |g[q]| ==> h[q][j] == if q == r && j == i then c else g[q][j]
  {
    g[r := g[r][i := c]]
  }

  /** `cell.rowspan += 1` */
  function WithRowspanIncremented(cell: Cell): Cell
  {
    cell.(rowspan := cell.rowspan + 1)
  }

  /** `cell.vmerge = False` */
  function WithVmergeCleared(cell: Cell): Cell
  {
    cell.(vmerge := false)
  }

  /** One iteration of the inner merge loop: cell `i` of row `r`, which
      starts at column `cellIndex`. A continuation of an open column raises
      the open cell's row span; any other cell has its flag cleared and
      becomes the open cell of its column. */
  function MergeCell(g: Grid, columns: Columns, r: nat, i: nat, cellIndex: nat): (res: (Grid, Columns))
    requires r < |g| && i < |g[r]| && ColumnsBefore(g, columns, r, i)
    ensures ColumnsBefore(res.0, res.1, r, i + 1)
    ensures |res.0| == |g| && forall q :: 0 <= q < |g| ==> |res.0[q]| == |g[q]|
  {
    var cell := g[r][i];
    if cell.vmerge && cellIndex in columns then
      var open := columns[cellIndex];
      (SetCell(g, open.0, open.1, WithRowspanIncremented(g[open.0][open.1])), columns)
    else
      (SetCell(g, r, i, WithVmergeCleared(cell)), columns[cellIndex := (r, i)])
  }

  /** Processes the cells of row `r` from index `i` on, `cellIndex` being
      the column at which cell `i` starts. */
  function MergeRow(g: Grid, columns: Columns, r: nat, i: nat, cellIndex: nat): (res: (Grid, Columns))
    requires r < |g| && i <= |g[r]| && ColumnsBefore(g, columns, r, i)
    ensures |res.0| == |g| && ColumnsBefore(res.0, res.1, r + 1, 0)
    decreases |g[r]| - i
  {
    if i == |g[r]| then (g, columns)
    else
      var step := MergeCell(g, columns, r, i, cellIndex);
      MergeRow(step.0, step.1, r, i + 1, cellIndex + g[r][i].colspan)
  }

  /** Processes the rows from `r` on; `columns` lives across rows. */
  function MergeRows(g: Grid, columns: Columns, r: nat): (res: Grid)
    requires r <= |g| && ColumnsBefore(g, columns, r, 0)
    ensures |res| == |g|
    decreases |g| - r
  {
    if r == |g| then g
    else
      var step := MergeRow(g, columns, r, 0, 0);
      MergeRows(step.0, step.1, r + 1)
  }

  /** The first pass of `calculate_row_spans` over the whole table. */
  function Merge(g: Grid): Grid
  {
    MergeRows(g, map[], 0)
  }

  /** The second pass on one row: keeps the cells whose merge flag is off,
      in order, each rebuilt as a merged cell. */
  function RebuildRow(cells: seq<Cell>): seq<Element>
  {
    if |cells| == 0 then []
    else
      var cell := cells[0];
      (if cell.vmerge then [] else [TableCell(cell.children, cell.colspan, cell.rowspan)]) + RebuildRow(cells[1..])
  }

  /** What `calculate_row_spans` returns for `rows`. */
  function RowSpans(rows: seq<Element>): TableResult
  {
    if HasNonRow(rows) then
      ElementsResultWithMessages(RemoveUnmergedTableCells(rows), [Warning(NonRowWarning)])
    else if HasNonCell(rows) then
      ElementsResultWithMessages(RemoveUnmergedTableCells(rows), [Warning(NonCellWarning)])
    else
      var merged := Merge(CellsOf(rows));
      Success(Many(seq(|rows|, r requires 0 <= r < |rows| => TableRow(RebuildRow(merged[r])))))
  }

  // ---------------------------------------------------------------------
  // The source's loops

  /** The body of the source's outer merge loop: one row, left to right.
      The source updates the cell objects in place; here the grid is a
      value, passed in and handed back updated. */
  method MergeRowLoop(cells: Grid, columns: Columns, r: nat) returns (cells': Grid, columns': Columns)
    requires r < |cells| && ColumnsBefore(cells, columns, r, 0)
    ensures (cells', columns') == MergeRow(cells, columns, r, 0, 0)
  {
    cells', columns' := cells, columns;
    var cellIndex: nat := 0;
    var i := 0;
    while i < |cells'[r]|
      invariant |cells'| == |cells| && i <= |cells'[r]|
      invariant ColumnsBefore(cells', columns', r, i)
      invariant MergeRow(cells', columns', r, i, cellIndex) == MergeRow(cells, columns, r, 0, 0)
    {
      var cell := cells'[r][i];
      ghost var step := MergeCell(cells', columns', r, i, cellIndex);
      if cell.vmerge && cellIndex in columns' {
        var open := columns'[cellIndex];
        cells' := SetCell(cells', open.0, open.1, WithRowspanIncremented(cells'[open.0][open.1]));
      } else {
        columns' := columns'[cellIndex := (r, i)];
        cells' := SetCell(cells', r, i, WithVmergeCleared(cell));
      }
      assert (cells', columns') == step;
      cellIndex := cellIndex + cell.colspan;
      i := i + 1;
    }
  }

  /** `calculate_row_spans` */
  method CalculateRowSpans(rows: seq<Element>) returns (result: TableResult)
    ensures result == RowSpans(rows)
  {
    if HasNonRow(rows) {
      return ElementsResultWithMessages(RemoveUnmergedTableCells(rows), [Warning(NonRowWarning)]);
    }
    if HasNonCell(rows) {
      return ElementsResultWithMessages(RemoveUnmergedTableCells(rows), [Warning(NonCellWarning)]);
    }
    var cells := CellsOf(rows);
    ghost var merged := Merge(cells);
    var columns: Columns := map[];
    var r := 0;
    while r < |cells|
      invariant r <= |cells| == |rows|
      invariant ColumnsBefore(cells, columns, r, 0)
      invariant MergeRows(cells, columns, r) == merged
    {
      cells, columns := MergeRowLoop(cells, columns, r);
      r := r + 1;
    }
    assert cells == merged;
    var out := rows;
    r := 0;
    while r < |out|
      invariant r <= |out| == |rows|
      invariant forall q :: 0 <= q < r ==> out[q] == TableRow(RebuildRow(cells[q]))
      invariant forall q :: r <= q < |out| ==> out[q] == rows[q]
    {
      out := out[r := TableRow(RebuildRow(cells[r]))];
      r := r + 1;
    }
    assert out == seq(|rows|, r requires 0 <= r < |rows| => TableRow(RebuildRow(merged[r])));
    result := Success(Many(out));
  }
}
