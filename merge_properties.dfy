/**
 What the merge pass of `calculate_row_spans` guarantees: it only raises row
 spans and flips merge flags; a cell is dropped exactly when it is flagged
 as a continuation and some earlier cell of the table started in the same
 column; a table without continuation flags comes out with every cell kept
 as it was; and the row spans gained add up to the number of dropped cells.
 */
module MergeProperties {
  import opened ReadResults
  import opened Documents
  import opened TableMerge

  // ---------------------------------------------------------------------
  // Only row spans and merge flags change

  /** `h` is `g` with only row spans (never lowered) and merge flags changed. */
  ghost predicate Evolves(g: Grid, h: Grid)
  {
    && |h| == |g|
    && forall r :: 0 <= r < |g| ==>
         && |h[r]| == |g[r]|
         && forall i :: 0 <= i < |g[r]| ==>
              && h[r][i].children == g[r][i].children
              && h[r][i].colspan == g[r][i].colspan
              && h[r][i].rowspan >= g[r][i].rowspan
  }

  lemma {:induction false} EvolvesReflexive(g: Grid)
    ensures Evolves(g, g)
  {
  }

  lemma {:induction false} EvolvesTransitive(g1: Grid, g2: Grid, g3: Grid)
    requires Evolves(g1, g2) && Evolves(g2, g3)
    ensures Evolves(g1, g3)
  {
  }

  /** One step of the merge changes no cell's content or column span,
      lowers no row span, touches no later row and no later cell of its
      row, and changes no merge flag but that of the cell it processes,
      which ends up set exactly when that cell continues an open column. */
  lemma {:induction false} MergeCellEvolves(g: Grid, columns: Columns, r: nat, i: nat, cellIndex: nat)
    requires r < |g| && i < |g[r]| && ColumnsBefore(g, columns, r, i)
    ensures var h := MergeCell(g, columns, r, i, cellIndex).0;
            && Evolves(g, h)
            && (forall q, j :: 0 <= q < |g| && 0 <= j < |g[q]| && (q != r || j != i) ==> h[q][j].vmerge == g[q][j].vmerge)
            && h[r][i].vmerge == (g[r][i].vmerge && cellIndex in columns)
            && (forall q :: r < q < |g| ==> h[q] == g[q])
            && h[r][i + 1..] == g[r][i + 1..]
  {
    var h := MergeCell(g, columns, r, i, cellIndex).0;
    assert forall j :: i < j < |g[r]| ==> h[r][j] == g[r][j];
  }

  /** One step of the merge opens the column of the cell it processes,
      unless that cell continues an already open column. */
  lemma {:induction false} MergeCellOpens(g: Grid, columns: Columns, r: nat, i: nat, cellIndex: nat)
    requires r < |g| && i < |g[r]| && ColumnsBefore(g, columns, r, i)
    ensures MergeCell(g, columns, r, i, cellIndex).1.Keys == columns.Keys + {cellIndex}
  {
  }

  /** Processing a row changes no cell's content or column span, lowers no
      row span, and changes the merge flag of no cell other than the cells
      of row `r` from `i` on. */
  lemma {:induction false} MergeRowEvolves(g: Grid, columns: Columns, r: nat, i: nat, cellIndex: nat)
    requires r < |g| && i <= |g[r]| && ColumnsBefore(g, columns, r, i)
    ensures Evolves(g, MergeRow(g, columns, r, i, cellIndex).0)
    ensures forall q, j :: 0 <= q < |g| && 0 <= j < |g[q]| && (q != r || j < i) ==>
              MergeRow(g, columns, r, i, cellIndex).0[q][j].vmerge == g[q][j].vmerge
    decreases |g[r]| - i
  {
    var res: Grid := MergeRow(g, columns, r, i, cellIndex).0;
    if i == |g[r]| {
      EvolvesReflexive(g);
    } else {
      var step := MergeCell(g, columns, r, i, cellIndex);
      MergeCellEvolves(g, columns, r, i, cellIndex);
      MergeRowEvolves(step.0, step.1, r, i + 1, cellIndex + g[r][i].colspan);
      EvolvesTransitive(g, step.0, res);
    }
  }

  /** Processing the rows from `r` on leaves the merge flags of the rows
      above `r` alone. */
  lemma {:induction false} MergeRowsEvolves(g: Grid, columns: Columns, r: nat)
    requires r <= |g| && ColumnsBefore(g, columns, r, 0)
    ensures Evolves(g, MergeRows(g, columns, r))
    ensures forall q, j :: 0 <= q < r && 0 <= j < |g[q]| ==> MergeRows(g, columns, r)[q][j].vmerge == g[q][j].vmerge
    decreases |g| - r
  {
    if r == |g| {
      EvolvesReflexive(g);
    } else {
      var step := MergeRow(g, columns, r, 0, 0);
      MergeRowEvolves(g, columns, r, 0, 0);
      MergeRowsEvolves(step.0, step.1, r + 1);
      EvolvesTransitive(g, step.0, MergeRows(g, columns, r));
    }
  }

  /** The merge keeps every cell's content and column span, and never
      lowers a row span. */
  lemma {:induction false} MergeEvolves(g: Grid)
    ensures Evolves(g, Merge(g))
  {
    MergeRowsEvolves(g, map[], 0);
  }

  // ---------------------------------------------------------------------
  // A table without continuation flags

  predicate NoVmerge(g: Grid)
  {
    forall r, i :: 0 <= r < |g| && 0 <= i < |g[r]| ==> !g[r][i].vmerge
  }

  lemma {:induction false} MergeRowNoVmerge(g: Grid, columns: Columns, r: nat, i: nat, cellIndex: nat)
    requires r < |g| && i <= |g[r]| && ColumnsBefore(g, columns, r, i) && NoVmerge(g)
    ensures MergeRow(g, columns, r, i, cellIndex).0 == g
    decreases |g[r]| - i
  {
    if i < |g[r]| {
      var cell := g[r][i];
      assert WithVmergeCleared(cell) == cell;
      assert g[r][i := cell] == g[r];
      assert MergeCell(g, columns, r, i, cellIndex).0 == g;
      MergeRowNoVmerge(g, columns[cellIndex := (r, i)], r, i + 1, cellIndex + cell.colspan);
    }
  }

  lemma {:induction false} MergeRowsNoVmerge(g: Grid, columns: Columns, r: nat)
    requires r <= |g| && ColumnsBefore(g, columns, r, 0) && NoVmerge(g)
    ensures MergeRows(g, columns, r) == g
    decreases |g| - r
  {
    if r < |g| {
      var step := MergeRow(g, columns, r, 0, 0);
      MergeRowNoVmerge(g, columns, r, 0, 0);
      MergeRowsNoVmerge(step.0, step.1, r + 1);
    }
  }

  /** With no continuation flags, rebuilding a row keeps every cell. */
  lemma {:induction false} RebuildRowNoVmerge(cells: seq<Cell>)
    requires forall i :: 0 <= i < |cells| ==> !cells[i].vmerge
    ensures RebuildRow(cells) == seq(|cells|, j requires 0 <= j < |cells| => TableCell(cells[j].children, cells[j].colspan, cells[j].rowspan))
  {
    if |cells| != 0 {
      RebuildRowNoVmerge(cells[1..]);
    }
  }

  /** A well-formed table without continuation flags comes out with every
      cell rebuilt, row span unchanged, exactly as the fallback rebuilds it,
      but with no warning. */
  lemma {:induction false} NoVmergeKeepsEveryCell(rows: seq<Element>)
    requires !HasNonRow(rows) && !HasNonCell(rows)
    requires forall r, i :: 0 <= r < |rows| && 0 <= i < |rows[r].children| ==> !rows[r].children[i].vmerge
    ensures RowSpans(rows) == Success(Many(RemoveUnmergedTableCells(rows)))
  {
    var g := CellsOf(rows);
    assert NoVmerge(g);
    MergeRowsNoVmerge(g, map[], 0);
    forall r | 0 <= r < |rows|
      ensures TableRow(RebuildRow(g[r])) == UnmergeElement(rows[r])
    {
      RebuildRowNoVmerge(g[r]);
    }
  }

  // ---------------------------------------------------------------------
  // Row spans gained == cells dropped

  /** 1 for a cell flagged as a continuation, 0 for any other. */
  function FlagOf(c: Cell): nat
  {
    if c.vmerge then 1 else 0
  }

  function RowRowspan(row: seq<Cell>): nat
  {
    if |row| == 0 then 0 else row[0].rowspan + RowRowspan(row[1..])
  }

  function RowFlags(row: seq<Cell>): nat
  {
    if |row| == 0 then 0 else FlagOf(row[0]) + RowFlags(row[1..])
  }

  function GridRowspan(g: Grid): nat
  {
    if |g| == 0 then 0 else RowRowspan(g[0]) + GridRowspan(g[1..])
  }

  function GridFlags(g: Grid): nat
  {
    if |g| == 0 then 0 else RowFlags(g[0]) + GridFlags(g[1..])
  }

  function CellCount(g: Grid): nat
  {
    if |g| == 0 then 0 else |g[0]| + CellCount(g[1..])
  }

  /** The number of cells the second pass keeps. */
  function KeptCount(g: Grid): nat
  {
    if |g| == 0 then 0 else |RebuildRow(g[0])| + KeptCount(g[1..])
  }

  lemma {:induction false} RowRowspanUpdate(row: seq<Cell>, i: nat, c: Cell)
    requires i < |row|
    ensures RowRowspan(row[i := c]) == RowRowspan(row) - row[i].rowspan + c.rowspan
  {
    if i == 0 {
      assert row[i := c][1..] == row[1..];
    } else {
      assert row[i := c][1..] == row[1..][i - 1 := c];
      RowRowspanUpdate(row[1..], i - 1, c);
    }
  }

  lemma {:induction false} GridRowspanUpdate(g: Grid, r: nat, row: seq<Cell>)
    requires r < |g|
    ensures GridRowspan(g[r := row]) == GridRowspan(g) - RowRowspan(g[r]) + RowRowspan(row)
  {
    if r == 0 {
      assert g[r := row][1..] == g[1..];
    } else {
      assert g[r := row][1..] == g[1..][r - 1 := row];
      GridRowspanUpdate(g[1..], r - 1, row);
    }
  }

  lemma {:induction false} GridRowspanSetCell(g: Grid, r: nat, i: nat, c: Cell)
    requires r < |g| && i < |g[r]|
    ensures GridRowspan(SetCell(g, r, i, c)) == GridRowspan(g) - g[r][i].rowspan + c.rowspan
  {
    RowRowspanUpdate(g[r], i, c);
    GridRowspanUpdate(g, r, g[r][i := c]);
  }

  lemma {:induction false} RowFlagsSameFlags(a: seq<Cell>, b: seq<Cell>)
    requires |a| == |b|
    requires forall j :: 0 <= j < |a| ==> a[j].vmerge == b[j].vmerge
    ensures RowFlags(a) == RowFlags(b)
  {
    if |a| != 0 {
      RowFlagsSameFlags(a[1..], b[1..]);
    }
  }

  /** One step of the merge raises the total row span by one exactly when
      the cell it processes ends up flagged. */
  lemma {:induction false} MergeCellRowspanGain(g: Grid, columns: Columns, r: nat, i: nat, cellIndex: nat)
    requires r < |g| && i < |g[r]| && ColumnsBefore(g, columns, r, i)
    ensures var h := MergeCell(g, columns, r, i, cellIndex).0;
            GridRowspan(h) == GridRowspan(g) + FlagOf(h[r][i])
  {
    var cell := g[r][i];
    MergeCellEvolves(g, columns, r, i, cellIndex);
    if cell.vmerge && cellIndex in columns {
      var open := columns[cellIndex];
      GridRowspanSetCell(g, open.0, open.1, WithRowspanIncremented(g[open.0][open.1]));
    } else {
      GridRowspanSetCell(g, r, i, WithVmergeCleared(cell));
    }
  }

  /** Processing row `r` from cell `i` on raises the table's total row span
      by the number of those cells that end up flagged as continuations. */
  lemma {:induction false} MergeRowRowspanGain(g: Grid, columns: Columns, r: nat, i: nat, cellIndex: nat)
    requires r < |g| && i <= |g[r]| && ColumnsBefore(g, columns, r, i)
    ensures var res := MergeRow(g, columns, r, i, cellIndex).0;
            |res[r]| == |g[r]| && GridRowspan(res) == GridRowspan(g) + RowFlags(res[r][i..])
    decreases |g[r]| - i
  {
    MergeRowEvolves(g, columns, r, i, cellIndex);
    var res: Grid := MergeRow(g, columns, r, i, cellIndex).0;
    if i < |g[r]| {
      var step := MergeCell(g, columns, r, i, cellIndex);
      var next := cellIndex + g[r][i].colspan;
      assert res[r][i..][1..] == res[r][i + 1..];
      MergeCellEvolves(g, columns, r, i, cellIndex);
      MergeCellRowspanGain(g, columns, r, i, cellIndex);
      MergeRowRowspanGain(step.0, step.1, r, i + 1, next);
      MergeRowEvolves(step.0, step.1, r, i + 1, next);
      assert res[r][i].vmerge == step.0[r][i].vmerge;
    }
  }

  lemma {:induction false} MergeRowsRowspanGain(g: Grid, columns: Columns, r: nat)
    requires r <= |g| && ColumnsBefore(g, columns, r, 0)
    ensures var res := MergeRows(g, columns, r);
            GridRowspan(res) == GridRowspan(g) + GridFlags(res[r..])
    decreases |g| - r
  {
    var res: Grid := MergeRows(g, columns, r);
    MergeRowsEvolves(g, columns, r);
    if r < |g| {
      var step := MergeRow(g, columns, r, 0, 0);
      MergeRowRowspanGain(g, columns, r, 0, 0);
      MergeRowsRowspanGain(step.0, step.1, r + 1);
      MergeRowsEvolves(step.0, step.1, r + 1);
      assert step.0[r][0..] == step.0[r];
      RowFlagsSameFlags(res[r], step.0[r]);
      assert res[r..][1..] == res[r + 1..];
    }
  }

  lemma {:induction false} RebuildRowLength(cells: seq<Cell>)
    ensures |RebuildRow(cells)| + RowFlags(cells) == |cells|
  {
    if |cells| != 0 {
      RebuildRowLength(cells[1..]);
    }
  }

  lemma {:induction false} KeptCountFlags(g: Grid)
    ensures KeptCount(g) + GridFlags(g) == CellCount(g)
  {
    if |g| != 0 {
      RebuildRowLength(g[0]);
      KeptCountFlags(g[1..]);
    }
  }

  lemma {:induction false} CellCountEvolves(g: Grid, h: Grid)
    requires Evolves(g, h)
    ensures CellCount(h) == CellCount(g)
  {
    if |g| != 0 {
      assert Evolves(g[1..], h[1..]);
      CellCountEvolves(g[1..], h[1..]);
    }
  }

  /** The row spans gained by the merge add up to the number of cells the
      second pass drops. */
  lemma {:induction false} MergeRowspanGainIsDroppedCells(g: Grid)
    ensures GridRowspan(Merge(g)) == GridRowspan(g) + (CellCount(g) - KeptCount(Merge(g)))
  {
    var m := Merge(g);
    MergeRowsRowspanGain(g, map[], 0);
    assert m[0..] == m;
    MergeEvolves(g);
    CellCountEvolves(g, m);
    KeptCountFlags(m);
  }

  // ---------------------------------------------------------------------
  // Which cells are dropped

  /** The column at which cell `i` of `row` starts. */
  function Start(row: seq<Cell>, i: nat): nat
    requires i <= |row|
  {
    if i == 0 then 0 else Start(row, i - 1) + row[i - 1].colspan
  }

  /** The columns at which the first `i` cells of `row` start. */
  function RowStarts(row: seq<Cell>, i: nat): set<nat>
    requires i <= |row|
  {
    if i == 0 then {} else RowStarts(row, i - 1) + {Start(row, i - 1)}
  }

  /** The columns at which the cells of the rows above row `r` start. */
  function StartsAbove(g: Grid, r: nat): set<nat>
    requires r <= |g|
  {
    if r == 0 then {} else StartsAbove(g, r - 1) + RowStarts(g[r - 1], |g[r - 1]|)
  }

  /** Cell (r, i) continues a vertical merge: it is flagged, and some cell
      before it in reading order starts in the same column. */
  predicate IsContinuation(g: Grid, r: nat, i: nat)
    requires r < |g| && i < |g[r]|
  {
    g[r][i].vmerge && Start(g[r], i) in StartsAbove(g, r) + RowStarts(g[r], i)
  }

  /** The merge of the cells `cells` of one row, tracking only which columns
      are open: the flag each cell ends up with, and the open columns
      afterwards. `ci` is the column at which `cells[0]` starts. */
  ghost function Pass(keys: set<nat>, cells: seq<Cell>, ci: nat): (res: (seq<bool>, set<nat>))
    ensures |res.0| == |cells|
    decreases |cells|
  {
    if |cells| == 0 then ([], keys)
    else
      var cont := cells[0].vmerge && ci in keys;
      var rest := Pass(keys + {ci}, cells[1..], ci + cells[0].colspan);
      ([cont] + rest.0, rest.1)
  }

  /** The merge flag of each cell of `cells`. */
  ghost function Flags(cells: seq<Cell>): seq<bool>
  {
    seq(|cells|, k requires 0 <= k < |cells| => cells[k].vmerge)
  }

  // Solver helper: names the first element and the tail of a suffix.
  lemma {:induction false} DropOne<T>(s: seq<T>, i: nat)
    requires i < |s|
    ensures s[i..][0] == s[i] && s[i..][1..] == s[i + 1..]
  {
  }

  lemma {:induction false} FlagsCons(cells: seq<Cell>, i: nat)
    requires i < |cells|
    ensures Flags(cells[i..]) == [cells[i].vmerge] + Flags(cells[i + 1..])
  {
  }

  lemma {:induction false} FlagsEmpty(cells: seq<Cell>, i: nat)
    requires i == |cells|
    ensures Flags(cells[i..]) == []
  {
  }

  // Solver helper: lets the prover replace the arguments of `Pass` by equal
  // ones without unfolding it.
  lemma {:induction false} PassCongruent(k1: set<nat>, k2: set<nat>, s1: seq<Cell>, s2: seq<Cell>, ci: nat)
    requires k1 == k2 && s1 == s2
    ensures Pass(k1, s1, ci).0 == Pass(k2, s2, ci).0 && Pass(k1, s1, ci).1 == Pass(k2, s2, ci).1
  {
  }

  lemma {:induction false} PassUnfold(keys: set<nat>, row: seq<Cell>, i: nat, ci: nat, next: nat)
    requires i < |row| && next == ci + row[i].colspan
    ensures Pass(keys, row[i..], ci).0 == [row[i].vmerge && ci in keys] + Pass(keys + {ci}, row[i + 1..], next).0
    ensures Pass(keys, row[i..], ci).1 == Pass(keys + {ci}, row[i + 1..], next).1
  {
    DropOne(row, i);
  }

  /** Processing row `r` leaves every later row alone. */
  lemma {:induction false} MergeRowKeepsLaterRows(g: Grid, columns: Columns, r: nat, i: nat, cellIndex: nat)
    requires r < |g| && i <= |g[r]| && ColumnsBefore(g, columns, r, i)
    ensures forall q :: r < q < |g| ==> MergeRow(g, columns, r, i, cellIndex).0[q] == g[q]
    decreases |g[r]| - i
  {
    if i < |g[r]| {
      var step := MergeCell(g, columns, r, i, cellIndex);
      MergeCellEvolves(g, columns, r, i, cellIndex);
      MergeRowKeepsLaterRows(step.0, step.1, r, i + 1, cellIndex + g[r][i].colspan);
    }
  }

  /** The merge of row `r` from cell `i` on sets the flags and opens the
      columns as `Pass` says. */
  lemma {:induction false} MergeRowIsPass(g: Grid, columns: Columns, r: nat, i: nat, cellIndex: nat)
    requires r < |g| && i <= |g[r]| && ColumnsBefore(g, columns, r, i)
    ensures |MergeRow(g, columns, r, i, cellIndex).0[r]| == |g[r]|
    ensures Pass(columns.Keys, g[r][i..], cellIndex).0 == Flags(MergeRow(g, columns, r, i, cellIndex).0[r][i..])
    ensures Pass(columns.Keys, g[r][i..], cellIndex).1 == MergeRow(g, columns, r, i, cellIndex).1.Keys
    decreases |g[r]| - i, 1
  {
    var res := MergeRow(g, columns, r, i, cellIndex);
    if i < |g[r]| {
      var next := cellIndex + g[r][i].colspan;
      MergeRowStep(g, columns, r, i, cellIndex, next, res);
      PassUnfold(columns.Keys, g[r], i, cellIndex, next);
      FlagsCons(res.0[r], i);
    } else {
      FlagsEmpty(res.0[r], i);
    }
  }

  lemma {:induction false} MergeRowUnfold(g: Grid, columns: Columns, r: nat, i: nat, cellIndex: nat, next: nat)
    requires r < |g| && i < |g[r]| && ColumnsBefore(g, columns, r, i) && next == cellIndex + g[r][i].colspan
    ensures var step := MergeCell(g, columns, r, i, cellIndex);
            MergeRow(g, columns, r, i, cellIndex) == MergeRow(step.0, step.1, r, i + 1, next)
  {
  }

  /** `MergeCellEvolves`, narrowed to the cells of row `r` from `i` on. */
  lemma {:induction false} MergeCellAt(g: Grid, columns: Columns, r: nat, i: nat, cellIndex: nat)
    requires r < |g| && i < |g[r]| && ColumnsBefore(g, columns, r, i)
    ensures var h := MergeCell(g, columns, r, i, cellIndex).0;
            && |h[r]| == |g[r]|
            && h[r][i].vmerge == (g[r][i].vmerge && cellIndex in columns.Keys)
            && h[r][i + 1..] == g[r][i + 1..]
  {
    MergeCellEvolves(g, columns, r, i, cellIndex);
  }

  /** `MergeRowEvolves`, narrowed to one cell before `i` in row `r`. */
  lemma {:induction false} MergeRowFlagAt(g: Grid, columns: Columns, r: nat, i: nat, cellIndex: nat, j: nat)
    requires r < |g| && j < i <= |g[r]| && ColumnsBefore(g, columns, r, i)
    ensures var h := MergeRow(g, columns, r, i, cellIndex).0;
            |h[r]| == |g[r]| && h[r][j].vmerge == g[r][j].vmerge
  {
    MergeRowEvolves(g, columns, r, i, cellIndex);
  }

  /** One step of `MergeRowIsPass`: cell `i` gets its flag from the open
      columns, and the rest of the row, which starts at column `next`,
      follows `Pass`. */
  lemma {:induction false} MergeRowStep(g: Grid, columns: Columns, r: nat, i: nat, cellIndex: nat, next: nat, res: (Grid, Columns))
    requires r < |g| && i < |g[r]| && ColumnsBefore(g, columns, r, i)
    requires next == cellIndex + g[r][i].colspan && res == MergeRow(g, columns, r, i, cellIndex)
    ensures |res.0[r]| == |g[r]|
    ensures res.0[r][i].vmerge == (g[r][i].vmerge && cellIndex in columns.Keys)
    ensures Pass(columns.Keys + {cellIndex}, g[r][i + 1..], next).0 == Flags(res.0[r][i + 1..])
    ensures Pass(columns.Keys + {cellIndex}, g[r][i + 1..], next).1 == res.1.Keys
    decreases |g[r]| - i, 0
  {
    var step := MergeCell(g, columns, r, i, cellIndex);
    MergeCellAt(g, columns, r, i, cellIndex);
    MergeCellOpens(g, columns, r, i, cellIndex);
    MergeRowUnfold(g, columns, r, i, cellIndex, next);
    MergeRowIsPass(step.0, step.1, r, i + 1, next);
    MergeRowFlagAt(step.0, step.1, r, i + 1, next, i);
    PassCongruent(step.1.Keys, columns.Keys + {cellIndex}, step.0[r][i + 1..], g[r][i + 1..], next);
  }

  /** On one row, with the columns `seen` open before it: `Pass` flags cell
      `j` exactly when it is flagged and some cell before it, in `seen` or
      in this row, starts in the same column; afterwards the columns open
      are `seen` and every column at which a cell of the row starts. */
  lemma {:induction false} PassFlagsContinuations(seen: set<nat>, row: seq<Cell>, i: nat)
    requires i <= |row|
    ensures var p := Pass(seen + RowStarts(row, i), row[i..], Start(row, i));
            && p.1 == seen + RowStarts(row, |row|)
            && forall j :: i <= j < |row| ==> p.0[j - i] == (row[j].vmerge && Start(row, j) in seen + RowStarts(row, j))
    decreases |row| - i
  {
    if i < |row| {
      var ci := Start(row, i);
      var keys := seen + RowStarts(row, i);
      var next := Start(row, i + 1);
      PassUnfold(keys, row, i, ci, next);
      OpenColumnsGrow(seen, row, i);
      PassCongruent(keys + {ci}, seen + RowStarts(row, i + 1), row[i + 1..], row[i + 1..], next);
      PassFlagsContinuations(seen, row, i + 1);
      var p := Pass(keys, row[i..], ci);
      var rest := Pass(seen + RowStarts(row, i + 1), row[i + 1..], next);
      forall j | i <= j < |row|
        ensures p.0[j - i] == (row[j].vmerge && Start(row, j) in seen + RowStarts(row, j))
      {
        if j > i {
          assert p.0[j - i] == rest.0[j - (i + 1)];
        }
      }
    }
  }

  lemma {:induction false} OpenColumnsGrow(seen: set<nat>, row: seq<Cell>, i: nat)
    requires i < |row|
    ensures seen + RowStarts(row, i) + {Start(row, i)} == seen + RowStarts(row, i + 1)
  {
  }

  /** Merging row `r`, when the open columns are those at which a cell of
      an earlier row starts, flags exactly the continuations of row `r`,
      leaves the later rows alone and opens the columns of row `r`. */
  lemma {:induction false} MergeRowFlagsContinuations(g0: Grid, g: Grid, columns: Columns, r: nat)
    requires r < |g| && ColumnsBefore(g, columns, r, 0)
    requires |g0| == |g| && forall q :: r <= q < |g| ==> g[q] == g0[q]
    requires columns.Keys == StartsAbove(g0, r)
    ensures var step := MergeRow(g, columns, r, 0, 0);
            && Evolves(g, step.0)
            && (forall j :: 0 <= j < |g[r]| ==> step.0[r][j].vmerge == IsContinuation(g0, r, j))
            && (forall q :: r < q < |g| ==> step.0[q] == g0[q])
            && step.1.Keys == StartsAbove(g0, r + 1)
  {
    MergeRowFlagsOfRow(g0, g, columns, r);
    MergeRowOpensRow(g0, g, columns, r);
    MergeRowKeepsLaterRows(g, columns, r, 0, 0);
    MergeRowEvolves(g, columns, r, 0, 0);
  }

  /** `MergeRowFlagsContinuations`, the flags of row `r`. */
  lemma {:induction false} MergeRowFlagsOfRow(g0: Grid, g: Grid, columns: Columns, r: nat)
    requires r < |g| && ColumnsBefore(g, columns, r, 0)
    requires |g0| == |g| && g[r] == g0[r]
    requires columns.Keys == StartsAbove(g0, r)
    ensures var h := MergeRow(g, columns, r, 0, 0).0;
            |h[r]| == |g[r]| && forall j :: 0 <= j < |g[r]| ==> h[r][j].vmerge == IsContinuation(g0, r, j)
  {
    var h: Grid := MergeRow(g, columns, r, 0, 0).0;
    var seen := StartsAbove(g0, r) + RowStarts(g0[r], 0);
    MergeRowIsPass(g, columns, r, 0, 0);
    PassFlagsContinuations(StartsAbove(g0, r), g0[r], 0);
    assert seen == columns.Keys;
    assert g[r][0..] == g0[r][0..];
    PassCongruent(columns.Keys, seen, g[r][0..], g0[r][0..], 0);
    var flags := Pass(columns.Keys, g[r][0..], 0).0;
    forall j | 0 <= j < |g[r]|
      ensures h[r][j].vmerge == IsContinuation(g0, r, j)
    {
      FlagAt(h[r], flags, j);
    }
  }

  /** `MergeRowFlagsContinuations`, the open columns after row `r`. */
  lemma {:induction false} MergeRowOpensRow(g0: Grid, g: Grid, columns: Columns, r: nat)
    requires r < |g| && ColumnsBefore(g, columns, r, 0)
    requires |g0| == |g| && g[r] == g0[r]
    requires columns.Keys == StartsAbove(g0, r)
    ensures MergeRow(g, columns, r, 0, 0).1.Keys == StartsAbove(g0, r + 1)
  {
    var seen := StartsAbove(g0, r) + RowStarts(g0[r], 0);
    MergeRowIsPass(g, columns, r, 0, 0);
    PassFlagsContinuations(StartsAbove(g0, r), g0[r], 0);
    assert seen == columns.Keys;
    assert g[r][0..] == g0[r][0..];
    PassCongruent(columns.Keys, seen, g[r][0..], g0[r][0..], 0);
  }

  // Solver helper: reads one flag off `Flags`.
  lemma {:induction false} FlagAt(cells: seq<Cell>, flags: seq<bool>, j: nat)
    requires flags == Flags(cells[0..]) && j < |cells|
    ensures cells[j].vmerge == flags[j]
  {
    assert cells[0..] == cells;
  }

  lemma {:induction false} MergeRowsUnfold(g: Grid, columns: Columns, r: nat)
    requires r < |g| && ColumnsBefore(g, columns, r, 0)
    ensures var step := MergeRow(g, columns, r, 0, 0);
            MergeRows(g, columns, r) == MergeRows(step.0, step.1, r + 1)
  {
  }

  lemma {:induction false} MergeRowsFlags(g0: Grid, g: Grid, columns: Columns, r: nat)
    requires r <= |g| && ColumnsBefore(g, columns, r, 0)
    requires |g0| == |g| && forall q :: r <= q < |g| ==> g[q] == g0[q]
    requires columns.Keys == StartsAbove(g0, r)
    ensures Evolves(g, MergeRows(g, columns, r))
    ensures forall q, j :: r <= q < |g| && 0 <= j < |g[q]| ==>
              MergeRows(g, columns, r)[q][j].vmerge == IsContinuation(g0, q, j)
    decreases |g| - r
  {
    MergeRowsEvolves(g, columns, r);
    if r < |g| {
      var step := MergeRow(g, columns, r, 0, 0);
      MergeRowsUnfold(g, columns, r);
      MergeRowFlagsContinuations(g0, g, columns, r);
      MergeRowsFlags(g0, step.0, step.1, r + 1);
      MergeRowsEvolves(step.0, step.1, r + 1);
    }
  }

  /** After the merge pass, exactly the continuation cells are still
      flagged; every other cell, an orphan continuation included, has its
      flag cleared. */
  lemma {:induction false} MergeFlagsExactlyContinuations(g: Grid)
    ensures Evolves(g, Merge(g))
    ensures forall r, i :: 0 <= r < |g| && 0 <= i < |g[r]| ==> Merge(g)[r][i].vmerge == IsContinuation(g, r, i)
  {
    MergeRowsFlags(g, g, map[], 0);
  }

  // ---------------------------------------------------------------------
  // The validation gates and the fallback

  predicate NoUnmergedCells(rows: seq<Element>)
  {
    forall i :: 0 <= i < |rows| ==>
      && !rows[i].TableCellUnmerged?
      && (rows[i].TableRow? ==> forall j :: 0 <= j < |rows[i].children| ==> !rows[i].children[j].TableCellUnmerged?)
  }

  /** The fallback keeps every element in place and rebuilds each unmerged
      cell, among the elements and the cells of the rows, as a merged cell
      with the same content, column span and row span; every other element
      and every other cell of a row is left exactly as it was. */
  lemma {:induction false} RemoveUnmergedTableCellsRebuildsCells(rows: seq<Element>)
    ensures var out := RemoveUnmergedTableCells(rows);
            && |out| == |rows|
            && NoUnmergedCells(out)
            && (forall i :: 0 <= i < |rows| ==> (out[i].TableRow? <==> rows[i].TableRow?))
            && (forall i :: 0 <= i < |rows| && rows[i].TableCellUnmerged? ==>
                  out[i] == TableCell(rows[i].children, rows[i].colspan, rows[i].rowspan))
            && (forall i :: 0 <= i < |rows| && !rows[i].TableRow? && !rows[i].TableCellUnmerged? ==> out[i] == rows[i])
            && (forall i :: 0 <= i < |rows| && rows[i].TableRow? ==> |out[i].children| == |rows[i].children|)
            && (forall i, j :: 0 <= i < |rows| && rows[i].TableRow? && 0 <= j < |rows[i].children| ==>
                  |out[i].children| == |rows[i].children|
                  && out[i].children[j] == UnmergeCell(rows[i].children[j]))
            && (forall i, j ::
                  0 <= i < |rows| && rows[i].TableRow? && 0 <= j < |rows[i].children| && rows[i].children[j].TableCellUnmerged? ==>
                  out[i].children[j] == TableCell(rows[i].children[j].children, rows[i].children[j].colspan, rows[i].children[j].rowspan))
            && (forall i, j ::
                  0 <= i < |rows| && rows[i].TableRow? && 0 <= j < |rows[i].children| && !rows[i].children[j].TableCellUnmerged? ==>
                  out[i].children[j] == rows[i].children[j])
            && RemoveUnmergedTableCells(out) == out
  {
    var out := RemoveUnmergedTableCells(rows);
    forall i | 0 <= i < |out|
      ensures UnmergeElement(out[i]) == out[i]
    {
      if out[i].TableRow? {
        assert UnmergeElement(out[i]).children == out[i].children;
      }
    }
  }

  /** Whatever the input, the result carries no extra items and at most one
      message; it carries none exactly when both gates pass. When a gate
      fails, the one message names that gate, and the elements are the
      input with every unmerged cell rebuilt in place, none left over. */
  lemma {:induction false} RowSpansDiagnostics(rows: seq<Element>)
    ensures RowSpans(rows).extra == []
    ensures |RowSpans(rows).messages| <= 1
    ensures RowSpans(rows).messages == [] <==> !HasNonRow(rows) && !HasNonCell(rows)
    ensures HasNonRow(rows) ==> RowSpans(rows).messages == [Warning(NonRowWarning)]
    ensures !HasNonRow(rows) && HasNonCell(rows) ==> RowSpans(rows).messages == [Warning(NonCellWarning)]
    ensures HasNonRow(rows) || HasNonCell(rows) ==>
              && RowSpans(rows).elements == RemoveUnmergedTableCells(rows)
              && |RowSpans(rows).elements| == |rows|
              && NoUnmergedCells(RowSpans(rows).elements)
  {
    RemoveUnmergedTableCellsRebuildsCells(rows);
  }

  lemma {:induction false} EmptyTable()
    ensures RowSpans([]) == Success(Many([]))
  {
  }
}
