/**
 Which cell a continuation's row span goes to. The merge pass raises the
 row span of the cell held open for the continuation's column: the last
 cell before it, in reading order, that starts in the same column and is
 not itself a continuation. `Owner` names that cell on the input table,
 `Attachments` counts the continuations whose owner a cell is, and the
 merge pass is proved to raise every row span by exactly that count.
 */
module MergeOwners {
  import opened ReadResults
  import opened Documents
  import opened TableMerge
  import opened MergeProperties

  datatype Option<T> = None | Some(value: T)

  // ---------------------------------------------------------------------
  // Owners, on the input table

  /** (r, i) is a point of the reading order of `g`: just before cell `i`
      of row `r`, or the end of the table. */
  predicate IsPoint(g: Grid, r: nat, i: nat)
  {
    (r < |g| && i <= |g[r]|) || (r == |g| && i == 0)
  }

  /** The last cell strictly before point (r, i) that starts at column `c`
      and is not a continuation, if any. */
  ghost function Owner(g: Grid, c: nat, r: nat, i: nat): Option<Position>
    requires IsPoint(g, r, i)
    decreases r, i
  {
    if i > 0 then
      if Start(g[r], i - 1) == c && !IsContinuation(g, r, i - 1) then Some((r, i - 1))
      else Owner(g, c, r, i - 1)
    else if r == 0 then None
    else Owner(g, c, r - 1, |g[r - 1]|)
  }

  /** Cell (r, i) is a continuation, and its owner is cell (q, j). */
  ghost predicate Attached(g: Grid, r: nat, i: nat, q: nat, j: nat)
    requires r < |g| && i < |g[r]|
  {
    IsContinuation(g, r, i) && Owner(g, Start(g[r], i), r, i) == Some((q, j))
  }

  /** The number of cells before point (r, i) attached to cell (q, j). */
  ghost function Owned(g: Grid, q: nat, j: nat, r: nat, i: nat): nat
    requires IsPoint(g, r, i)
    decreases r, i
  {
    if i > 0 then Owned(g, q, j, r, i - 1) + (if Attached(g, r, i - 1, q, j) then 1 else 0)
    else if r == 0 then 0
    else Owned(g, q, j, r - 1, |g[r - 1]|)
  }

  /** The number of cells of the whole table attached to cell (q, j). */
  ghost function Attachments(g: Grid, q: nat, j: nat): nat
  {
    Owned(g, q, j, |g|, 0)
  }

  /** (q, j) comes strictly before point (r, i) in reading order. */
  predicate Before(q: nat, j: nat, r: nat, i: nat)
  {
    q < r || (q == r && j < i)
  }

  /** An owner is a cell before the point that starts in the asked column
      and is not a continuation. */
  lemma {:induction false} OwnerIsOpener(g: Grid, c: nat, r: nat, i: nat)
    requires IsPoint(g, r, i) && Owner(g, c, r, i).Some?
    ensures var p := Owner(g, c, r, i).value;
            && p.0 < |g| && p.1 < |g[p.0]| && Before(p.0, p.1, r, i)
            && Start(g[p.0], p.1) == c && !IsContinuation(g, p.0, p.1)
    decreases r, i
  {
    if i > 0 {
      if !(Start(g[r], i - 1) == c && !IsContinuation(g, r, i - 1)) {
        OwnerIsOpener(g, c, r, i - 1);
      }
    } else if r > 0 {
      OwnerIsOpener(g, c, r - 1, |g[r - 1]|);
    }
  }

  /** Every continuation has an owner: an earlier cell, in the same column,
      that is not a continuation. */
  lemma {:induction false} ContinuationHasOwner(g: Grid, r: nat, i: nat)
    requires r < |g| && i < |g[r]| && IsContinuation(g, r, i)
    ensures var o := Owner(g, Start(g[r], i), r, i);
            && o.Some?
            && o.value.0 < |g| && o.value.1 < |g[o.value.0]| && Before(o.value.0, o.value.1, r, i)
            && Start(g[o.value.0], o.value.1) == Start(g[r], i)
            && !IsContinuation(g, o.value.0, o.value.1)
  {
    OwnerSomeIff(g, Start(g[r], i), r, i);
    OwnerIsOpener(g, Start(g[r], i), r, i);
  }

  /** A column has an owner at a point exactly when some cell before the
      point starts there: the first cell that starts in a column cannot be
      a continuation. */
  lemma {:induction false} OwnerSomeIff(g: Grid, c: nat, r: nat, i: nat)
    requires r < |g| && i <= |g[r]|
    ensures Owner(g, c, r, i).Some? <==> c in StartsAbove(g, r) + RowStarts(g[r], i)
    decreases r, i
  {
    if i > 0 {
      OwnerSomeIff(g, c, r, i - 1);
    } else if r > 0 {
      OwnerSomeIff(g, c, r - 1, |g[r - 1]|);
    }
  }

  // ---------------------------------------------------------------------
  // One step of the merge

  /** One step of the merge raises the row span of the open cell of the
      column when the processed cell continues it, and no other row span. */
  lemma {:induction false} MergeCellRaises(g: Grid, columns: Columns, r: nat, i: nat, cellIndex: nat)
    requires r < |g| && i < |g[r]| && ColumnsBefore(g, columns, r, i)
    ensures var h := MergeCell(g, columns, r, i, cellIndex).0;
            forall q, j :: 0 <= q < |g| && 0 <= j < |g[q]| ==>
              h[q][j].rowspan == g[q][j].rowspan
                + (if g[r][i].vmerge && cellIndex in columns && columns[cellIndex] == (q, j) then 1 else 0)
  {
  }

  /** `g` has the rows and row lengths of `g0`. */
  ghost predicate Shaped(g0: Grid, g: Grid)
  {
    |g| == |g0| && forall q :: 0 <= q < |g0| ==> |g[q]| == |g0[q]|
  }

  /** The open columns are those that have an owner at point (r, i), and
      each holds its owner. */
  ghost predicate OwnersOpen(g0: Grid, columns: Columns, r: nat, i: nat)
    requires IsPoint(g0, r, i)
  {
    forall c :: (c in columns <==> Owner(g0, c, r, i).Some?) && (c in columns ==> Owner(g0, c, r, i) == Some(columns[c]))
  }

  /** Every row span is its input row span plus the number of cells before
      point (r, i) attached to it. */
  ghost predicate SpansOwned(g0: Grid, g: Grid, r: nat, i: nat)
    requires IsPoint(g0, r, i) && Shaped(g0, g)
  {
    forall q, j :: 0 <= q < |g0| && 0 <= j < |g0[q]| ==>
      g[q][j].rowspan == g0[q][j].rowspan + Owned(g0, q, j, r, i)
  }

  /** The state of the merge at point (r, i), relative to the input table
      `g0`: the cells from (r, i) on are untouched, and the open columns
      hold their owners. */
  ghost predicate Tracks(g0: Grid, g: Grid, columns: Columns, r: nat, i: nat)
    requires r < |g0| && i <= |g0[r]|
  {
    && Shaped(g0, g)
    && (forall j :: i <= j < |g0[r]| ==> g[r][j] == g0[r][j])
    && (forall q :: r < q < |g0| ==> g[q] == g0[q])
    && OwnersOpen(g0, columns, r, i)
  }

  lemma {:induction false} OwnerStep(g: Grid, c: nat, r: nat, i: nat)
    requires r < |g| && i < |g[r]|
    ensures Owner(g, c, r, i + 1) == if Start(g[r], i) == c && !IsContinuation(g, r, i) then Some((r, i)) else Owner(g, c, r, i)
  {
  }

  lemma {:induction false} OwnedStep(g: Grid, q: nat, j: nat, r: nat, i: nat)
    requires r < |g| && i < |g[r]|
    ensures Owned(g, q, j, r, i + 1) == Owned(g, q, j, r, i) + (if Attached(g, r, i, q, j) then 1 else 0)
  {
  }

  /** Under `Tracks`, the merge step sees a continuation exactly when cell
      (r, i) is one. */
  lemma {:induction false} StepSeesContinuation(g0: Grid, g: Grid, columns: Columns, r: nat, i: nat, cellIndex: nat)
    requires r < |g0| && i < |g0[r]| && Tracks(g0, g, columns, r, i) && cellIndex == Start(g0[r], i)
    ensures g[r][i].vmerge && cellIndex in columns <==> IsContinuation(g0, r, i)
  {
    OwnerSomeIff(g0, Start(g0[r], i), r, i);
  }

  lemma {:induction false} MergeCellOwnersOpen(g0: Grid, g: Grid, columns: Columns, r: nat, i: nat, cellIndex: nat)
    requires r < |g0| && i < |g0[r]| && Tracks(g0, g, columns, r, i) && cellIndex == Start(g0[r], i) && ColumnsBefore(g, columns, r, i)
    ensures OwnersOpen(g0, MergeCell(g, columns, r, i, cellIndex).1, r, i + 1)
  {
    var cols := MergeCell(g, columns, r, i, cellIndex).1;
    StepSeesContinuation(g0, g, columns, r, i, cellIndex);
    forall c
      ensures (c in cols <==> Owner(g0, c, r, i + 1).Some?) && (c in cols ==> Owner(g0, c, r, i + 1) == Some(cols[c]))
    {
      OwnerStep(g0, c, r, i);
    }
  }

  lemma {:induction false} MergeCellSpansOwned(g0: Grid, g: Grid, columns: Columns, r: nat, i: nat, cellIndex: nat)
    requires r < |g0| && i < |g0[r]| && Tracks(g0, g, columns, r, i) && cellIndex == Start(g0[r], i) && ColumnsBefore(g, columns, r, i)
    requires SpansOwned(g0, g, r, i)
    ensures Shaped(g0, MergeCell(g, columns, r, i, cellIndex).0)
    ensures SpansOwned(g0, MergeCell(g, columns, r, i, cellIndex).0, r, i + 1)
  {
    var h: Grid := MergeCell(g, columns, r, i, cellIndex).0;
    StepSeesContinuation(g0, g, columns, r, i, cellIndex);
    MergeCellRaises(g, columns, r, i, cellIndex);
    forall q, j | 0 <= q < |g0| && 0 <= j < |g0[q]|
      ensures h[q][j].rowspan == g0[q][j].rowspan + Owned(g0, q, j, r, i + 1)
    {
      OwnedStep(g0, q, j, r, i);
    }
  }

  /** One step of the merge keeps `Tracks`. */
  lemma {:induction false} MergeCellTracks(g0: Grid, g: Grid, columns: Columns, r: nat, i: nat, cellIndex: nat)
    requires r < |g0| && i < |g0[r]| && Tracks(g0, g, columns, r, i) && cellIndex == Start(g0[r], i) && ColumnsBefore(g, columns, r, i)
    ensures var step := MergeCell(g, columns, r, i, cellIndex);
            Tracks(g0, step.0, step.1, r, i + 1) && cellIndex + g[r][i].colspan == Start(g0[r], i + 1)
  {
    MergeCellEvolves(g, columns, r, i, cellIndex);
    MergeCellOwnersOpen(g0, g, columns, r, i, cellIndex);
  }

  // ---------------------------------------------------------------------
  // Rows and the whole table

  /** Merging the rest of row `r` keeps `Tracks` up to the end of the row. */
  lemma {:induction false} MergeRowTracks(g0: Grid, g: Grid, columns: Columns, r: nat, i: nat, cellIndex: nat)
    requires r < |g0| && i <= |g0[r]| && Tracks(g0, g, columns, r, i) && cellIndex == Start(g0[r], i) && ColumnsBefore(g, columns, r, i)
    ensures var res := MergeRow(g, columns, r, i, cellIndex);
            Tracks(g0, res.0, res.1, r, |g0[r]|)
    decreases |g0[r]| - i
  {
    if i < |g0[r]| {
      var next := cellIndex + g[r][i].colspan;
      var step := MergeCell(g, columns, r, i, cellIndex);
      MergeCellTracks(g0, g, columns, r, i, cellIndex);
      MergeRowUnfold(g, columns, r, i, cellIndex, next);
      MergeRowTracks(g0, step.0, step.1, r, i + 1, next);
    }
  }

  /** Merging the rest of row `r` raises the row span of each cell by the
      number of cells of that stretch attached to it. */
  lemma {:induction false} MergeRowOwners(g0: Grid, g: Grid, columns: Columns, r: nat, i: nat, cellIndex: nat)
    requires r < |g0| && i <= |g0[r]| && Tracks(g0, g, columns, r, i) && cellIndex == Start(g0[r], i) && ColumnsBefore(g, columns, r, i)
    requires SpansOwned(g0, g, r, i)
    ensures var res := MergeRow(g, columns, r, i, cellIndex);
            Shaped(g0, res.0) && SpansOwned(g0, res.0, r, |g0[r]|)
    decreases |g0[r]| - i
  {
    if i < |g0[r]| {
      var next := cellIndex + g[r][i].colspan;
      var step := MergeCell(g, columns, r, i, cellIndex);
      MergeCellTracks(g0, g, columns, r, i, cellIndex);
      MergeCellSpansOwned(g0, g, columns, r, i, cellIndex);
      MergeRowUnfold(g, columns, r, i, cellIndex, next);
      MergeRowOwners(g0, step.0, step.1, r, i + 1, next);
    }
  }

  /** The end of row `r` is the start of row `r + 1`. */
  lemma {:induction false} AdvanceRow(g0: Grid, g: Grid, columns: Columns, r: nat)
    requires r < |g0| && Tracks(g0, g, columns, r, |g0[r]|)
    requires SpansOwned(g0, g, r, |g0[r]|)
    ensures SpansOwned(g0, g, r + 1, 0)
    ensures r + 1 < |g0| ==> Tracks(g0, g, columns, r + 1, 0)
  {
    forall q, j | 0 <= q < |g0| && 0 <= j < |g0[q]|
      ensures Owned(g0, q, j, r + 1, 0) == Owned(g0, q, j, r, |g0[r]|)
    {
    }
    if r + 1 < |g0| {
      forall c
        ensures Owner(g0, c, r + 1, 0) == Owner(g0, c, r, |g0[r]|)
      {
      }
    }
  }

  lemma {:induction false} MergeRowsOwners(g0: Grid, g: Grid, columns: Columns, r: nat)
    requires r <= |g0| && Shaped(g0, g) && ColumnsBefore(g, columns, r, 0)
    requires SpansOwned(g0, g, r, 0)
    requires r < |g0| ==> Tracks(g0, g, columns, r, 0)
    ensures Shaped(g0, MergeRows(g, columns, r))
    ensures SpansOwned(g0, MergeRows(g, columns, r), |g0|, 0)
    decreases |g0| - r
  {
    MergeRowsEvolves(g, columns, r);
    if r < |g0| {
      var step := MergeRow(g, columns, r, 0, 0);
      MergeRowTracks(g0, g, columns, r, 0, 0);
      MergeRowOwners(g0, g, columns, r, 0, 0);
      AdvanceRow(g0, step.0, step.1, r);
      MergeRowsUnfold(g, columns, r);
      MergeRowsOwners(g0, step.0, step.1, r + 1);
    }
  }

  /** After the merge, every cell's row span is its row span in the input
      plus the number of continuations whose owner it is. */
  lemma {:induction false} MergeRaisesOwners(g: Grid)
    ensures Shaped(g, Merge(g))
    ensures forall q, j :: 0 <= q < |g| && 0 <= j < |g[q]| ==>
              Merge(g)[q][j].rowspan == g[q][j].rowspan + Attachments(g, q, j)
  {
    MergeEvolves(g);
    forall q, j | 0 <= q < |g| && 0 <= j < |g[q]|
      ensures Owned(g, q, j, 0, 0) == 0
    {
    }
    MergeRowsOwners(g, g, map[], 0);
  }

  // ---------------------------------------------------------------------
  // The output rows

  /** The cells of row `r` of `g` from `j` on that are not continuations,
      in order, each as a merged cell whose row span counts the cells
      attached to it. */
  ghost function Survivors(g: Grid, r: nat, j: nat): seq<Element>
    requires r < |g| && j <= |g[r]|
    decreases |g[r]| - j
  {
    if j == |g[r]| then []
    else
      (if IsContinuation(g, r, j) then []
       else [TableCell(g[r][j].children, g[r][j].colspan, g[r][j].rowspan + Attachments(g, r, j))])
      + Survivors(g, r, j + 1)
  }

  lemma {:induction false} RebuildRowSurvivors(g: Grid, m: Grid, r: nat, j: nat)
    requires Evolves(g, m) && r < |g| && j <= |g[r]|
    requires forall i :: 0 <= i < |g[r]| ==> m[r][i].vmerge == IsContinuation(g, r, i)
    requires forall i :: 0 <= i < |g[r]| ==> m[r][i].rowspan == g[r][i].rowspan + Attachments(g, r, i)
    ensures RebuildRow(m[r][j..]) == Survivors(g, r, j)
    decreases |g[r]| - j
  {
    if j < |g[r]| {
      assert m[r][j..][1..] == m[r][j + 1..];
      RebuildRowSurvivors(g, m, r, j + 1);
    }
  }

  /** On a well-formed table, each output row holds exactly the cells of the
      input row that are not continuations, in their original order, with
      their content and column span, and with a row span raised by the
      number of continuations attached to them. */
  lemma {:induction false} OutputRowsAreSurvivors(rows: seq<Element>)
    requires !HasNonRow(rows) && !HasNonCell(rows)
    ensures |RowSpans(rows).elements| == |rows|
    ensures forall r :: 0 <= r < |rows| ==> RowSpans(rows).elements[r] == TableRow(Survivors(CellsOf(rows), r, 0))
  {
    var g := CellsOf(rows);
    var m: Grid := Merge(g);
    MergeFlagsExactlyContinuations(g);
    MergeRaisesOwners(g);
    forall r | 0 <= r < |rows|
      ensures RebuildRow(m[r]) == Survivors(g, r, 0)
    {
      RebuildRowSurvivors(g, m, r, 0);
      assert m[r][0..] == m[r];
    }
  }

  // ---------------------------------------------------------------------
  // A run down one column

  /** Cell (r0, i0) opens a run of `|ix|` continuations in its column `c`:
      row r0 + 1 + n holds one at index `ix[n]`, and between the opening
      cell and cell (s, t) no other cell starts at `c`. The run stops at
      (s, t), which is either an unflagged cell starting at `c` or, when
      s == |g|, the end of the table. */
  ghost predicate ColumnRun(g: Grid, r0: nat, i0: nat, c: nat, ix: seq<nat>, s: nat, t: nat)
  {
    && r0 < |g| && i0 < |g[r0]| && c == Start(g[r0], i0) && !IsContinuation(g, r0, i0)
    && r0 + |ix| < s <= |g|
    && (s < |g| ==> t < |g[s]| && Start(g[s], t) == c && !g[s][t].vmerge)
    && (s == |g| ==> t == 0)
    && (forall n :: 0 <= n < |ix| ==>
          ix[n] < |g[r0 + 1 + n]| && Start(g[r0 + 1 + n], ix[n]) == c && g[r0 + 1 + n][ix[n]].vmerge)
    && (forall p, m :: 0 <= p < |g| && 0 <= m < |g[p]| && Before(r0, i0, p, m) && Before(p, m, s, t) && Start(g[p], m) == c ==>
          r0 < p <= r0 + |ix| && m == ix[p - r0 - 1])
  }

  /** The number of cells of the run strictly before point (r, i), among
      the first `n`. */
  function RunCellsBefore(r0: nat, ix: seq<nat>, r: nat, i: nat, n: nat): nat
    requires n <= |ix|
  {
    if n == 0 then 0
    else RunCellsBefore(r0, ix, r, i, n - 1) + (if Before(r0 + n, ix[n - 1], r, i) then 1 else 0)
  }

  lemma {:induction false} RunCellsStep(r0: nat, ix: seq<nat>, r: nat, i: nat, n: nat)
    requires n <= |ix|
    ensures RunCellsBefore(r0, ix, r, i + 1, n)
            == RunCellsBefore(r0, ix, r, i, n) + (if r0 < r <= r0 + n && ix[r - r0 - 1] == i then 1 else 0)
  {
    if n > 0 {
      RunCellsStep(r0, ix, r, i, n - 1);
    }
  }

  lemma {:induction false} RunCellsRow(r0: nat, ix: seq<nat>, r: nat, w: nat, n: nat)
    requires n <= |ix|
    requires forall k :: 0 <= k < n && r0 + 1 + k == r ==> ix[k] < w
    ensures RunCellsBefore(r0, ix, r + 1, 0, n) == RunCellsBefore(r0, ix, r, w, n)
  {
    if n > 0 {
      RunCellsRow(r0, ix, r, w, n - 1);
    }
  }

  lemma {:induction false} RunCellsNone(r0: nat, ix: seq<nat>, n: nat)
    requires n <= |ix|
    ensures RunCellsBefore(r0, ix, 0, 0, n) == 0
  {
    if n > 0 {
      RunCellsNone(r0, ix, n - 1);
    }
  }

  lemma {:induction false} RunCellsAll(r0: nat, ix: seq<nat>, r: nat, i: nat, n: nat)
    requires n <= |ix| && r0 + n < r
    ensures RunCellsBefore(r0, ix, r, i, n) == n
  {
    if n > 0 {
      RunCellsAll(r0, ix, r, i, n - 1);
    }
  }

  lemma {:induction false} RowStartsHas(row: seq<Cell>, i: nat, j: nat)
    requires i < j <= |row|
    ensures Start(row, i) in RowStarts(row, j)
  {
    if i < j - 1 {
      RowStartsHas(row, i, j - 1);
    }
  }

  /** A cell's column is among the columns started above every later row. */
  lemma {:induction false} StartIsAbove(g: Grid, r0: nat, i0: nat, p: nat)
    requires r0 < p <= |g| && i0 < |g[r0]|
    ensures Start(g[r0], i0) in StartsAbove(g, p)
  {
    if p - 1 == r0 {
      RowStartsHas(g[r0], i0, |g[r0]|);
    } else {
      StartIsAbove(g, r0, i0, p - 1);
    }
  }

  /** When every cell starting at `c` between cell (r0, i0) and point
      (r, i) is a continuation, cell (r0, i0) is the owner at (r, i). */
  lemma {:induction false} OwnerAfter(g: Grid, c: nat, r0: nat, i0: nat, r: nat, i: nat)
    requires r0 < |g| && i0 < |g[r0]| && Start(g[r0], i0) == c && !IsContinuation(g, r0, i0)
    requires IsPoint(g, r, i) && Before(r0, i0, r, i)
    requires forall p, m :: 0 <= p < |g| && 0 <= m < |g[p]| && Before(r0, i0, p, m) && Before(p, m, r, i) && Start(g[p], m) == c ==>
               IsContinuation(g, p, m)
    ensures Owner(g, c, r, i) == Some((r0, i0))
    decreases r, i
  {
    if i > 0 {
      if (r, i - 1) != (r0, i0) {
        OwnerAfter(g, c, r0, i0, r, i - 1);
      }
    } else {
      OwnerAfter(g, c, r0, i0, r - 1, |g[r - 1]|);
    }
  }

  /** Past a cell (s, t) that starts at `c` and is not a continuation, the
      owner of `c` is that cell or a later one. */
  lemma {:induction false} OwnerIsLast(g: Grid, c: nat, s: nat, t: nat, r: nat, i: nat)
    requires s < |g| && t < |g[s]| && Start(g[s], t) == c && !IsContinuation(g, s, t)
    requires IsPoint(g, r, i) && Before(s, t, r, i)
    ensures Owner(g, c, r, i).Some? && !Before(Owner(g, c, r, i).value.0, Owner(g, c, r, i).value.1, s, t)
    decreases r, i
  {
    if i > 0 {
      if (r, i - 1) != (s, t) && !(Start(g[r], i - 1) == c && !IsContinuation(g, r, i - 1)) {
        OwnerIsLast(g, c, s, t, r, i - 1);
      }
    } else {
      OwnerIsLast(g, c, s, t, r - 1, |g[r - 1]|);
    }
  }

  /** Before the stop, a cell is attached to the opening cell exactly when
      it is a cell of the run. */
  lemma {:induction false} AttachedIsRunCell(g: Grid, r0: nat, i0: nat, c: nat, ix: seq<nat>, s: nat, t: nat, p: nat, m: nat)
    requires ColumnRun(g, r0, i0, c, ix, s, t)
    requires p < |g| && m < |g[p]| && Before(p, m, s, t)
    ensures Attached(g, p, m, r0, i0) <==> r0 < p <= r0 + |ix| && m == ix[p - r0 - 1]
  {
    if Attached(g, p, m, r0, i0) {
      OwnerIsOpener(g, Start(g[p], m), p, m);
    }
    if r0 < p <= r0 + |ix| && m == ix[p - r0 - 1] {
      forall p', m' | 0 <= p' < |g| && 0 <= m' < |g[p']| && Before(r0, i0, p', m') && Before(p', m', p, m) && Start(g[p'], m') == c
        ensures IsContinuation(g, p', m')
      {
        StartIsAbove(g, r0, i0, p');
      }
      StartIsAbove(g, r0, i0, p);
      OwnerAfter(g, c, r0, i0, p, m);
    }
  }

  /** Up to the stop, the opening cell owns the cells of the run before the
      point and no other. */
  lemma {:induction false} OwnedUpToStop(g: Grid, r0: nat, i0: nat, c: nat, ix: seq<nat>, s: nat, t: nat, r: nat, i: nat)
    requires ColumnRun(g, r0, i0, c, ix, s, t)
    requires IsPoint(g, r, i) && (r < s || (r == s && i <= t))
    ensures Owned(g, r0, i0, r, i) == RunCellsBefore(r0, ix, r, i, |ix|)
    decreases r, i
  {
    if i > 0 {
      OwnedUpToStop(g, r0, i0, c, ix, s, t, r, i - 1);
      AttachedIsRunCell(g, r0, i0, c, ix, s, t, r, i - 1);
      RunCellsStep(r0, ix, r, i - 1, |ix|);
    } else if r > 0 {
      OwnedUpToStop(g, r0, i0, c, ix, s, t, r - 1, |g[r - 1]|);
      RunCellsRow(r0, ix, r - 1, |g[r - 1]|, |ix|);
    } else {
      RunCellsNone(r0, ix, |ix|);
    }
  }

  /** Past the stop, nothing more is attached to the opening cell. */
  lemma {:induction false} OwnedPastStop(g: Grid, r0: nat, i0: nat, c: nat, ix: seq<nat>, s: nat, t: nat, r: nat, i: nat)
    requires ColumnRun(g, r0, i0, c, ix, s, t) && s < |g|
    requires IsPoint(g, r, i) && Before(s, t, r, i)
    ensures Owned(g, r0, i0, r, i) == Owned(g, r0, i0, s, t)
    decreases r, i
  {
    if i > 0 {
      if Attached(g, r, i - 1, r0, i0) {
        OwnerIsOpener(g, Start(g[r], i - 1), r, i - 1);
        OwnerIsLast(g, c, s, t, r, i - 1);
      }
      if (r, i - 1) != (s, t) {
        OwnedPastStop(g, r0, i0, c, ix, s, t, r, i - 1);
      }
    } else {
      OwnedPastStop(g, r0, i0, c, ix, s, t, r - 1, |g[r - 1]|);
    }
  }

  /** The opening cell of a run owns exactly the cells of the run. */
  lemma {:induction false} ColumnRunAttachments(g: Grid, r0: nat, i0: nat, c: nat, ix: seq<nat>, s: nat, t: nat)
    requires ColumnRun(g, r0, i0, c, ix, s, t)
    ensures Attachments(g, r0, i0) == |ix|
  {
    OwnedUpToStop(g, r0, i0, c, ix, s, t, s, t);
    RunCellsAll(r0, ix, s, t, |ix|);
    if s < |g| {
      OwnedPastStop(g, r0, i0, c, ix, s, t, |g|, 0);
    }
  }

  /** A cell followed in its column by a run of k continuations, one per
      row, ends up with its row span raised by exactly k; it survives the
      rebuild and every cell of the run stays flagged, so the rebuild drops
      it. */
  lemma {:induction false} ColumnRunMerges(g: Grid, r0: nat, i0: nat, c: nat, ix: seq<nat>, s: nat, t: nat)
    requires ColumnRun(g, r0, i0, c, ix, s, t)
    ensures Shaped(g, Merge(g))
    ensures Merge(g)[r0][i0].rowspan == g[r0][i0].rowspan + |ix|
    ensures !Merge(g)[r0][i0].vmerge
    ensures forall n :: 0 <= n < |ix| ==> Merge(g)[r0 + 1 + n][ix[n]].vmerge
  {
    MergeRaisesOwners(g);
    MergeFlagsExactlyContinuations(g);
    ColumnRunAttachments(g, r0, i0, c, ix, s, t);
    forall n | 0 <= n < |ix|
      ensures IsContinuation(g, r0 + 1 + n, ix[n])
    {
      StartIsAbove(g, r0, i0, r0 + 1 + n);
    }
  }

  // ---------------------------------------------------------------------
  // Worked tables

  /** Column spans [2, 1] in the first row, then a row whose flagged second
      cell starts at column 2: that cell continues the second cell of the
      first row, not the first. */
  lemma {:induction false} ContinuationAfterWideCell(g: Grid, a: Cell, b: Cell, x: Cell, y: Cell)
    requires g == [[a, b], [x, y]]
    requires a.colspan == 2 && x.colspan == 2
    requires !a.vmerge && !b.vmerge && !x.vmerge && y.vmerge
    ensures Shaped(g, Merge(g))
    ensures Merge(g)[0][0].rowspan == a.rowspan
    ensures Merge(g)[0][1].rowspan == b.rowspan + 1
    ensures RebuildRow(Merge(g)[1]) == [TableCell(x.children, x.colspan, x.rowspan)]
  {
    var m: Grid := Merge(g);
    MergeFlagsExactlyContinuations(g);
    MergeRaisesOwners(g);
    assert Start(g[0], 1) == 2 && Start(g[1], 1) == 2;
    assert IsContinuation(g, 1, 1) && !IsContinuation(g, 1, 0);
    assert Owner(g, 2, 1, 1) == Some((0, 1));
    assert Owned(g, 0, 0, 2, 0) == 0;
    assert Owned(g, 0, 1, 2, 0) == 1;
    assert Owned(g, 1, 0, 2, 0) == 0;
    assert m[1][1..][1..] == [] && m[1][1..][0] == m[1][1];
    assert RebuildRow(m[1][1..]) == [];
  }

  /** No cell before point (r, i) is flagged: nothing is attached there. */
  lemma {:induction false} OwnedWithoutFlags(g: Grid, q: nat, j: nat, r: nat, i: nat)
    requires IsPoint(g, r, i)
    requires forall p, k :: 0 <= p < |g| && 0 <= k < |g[p]| && Before(p, k, r, i) ==> !g[p][k].vmerge
    ensures Owned(g, q, j, r, i) == 0
    decreases r, i
  {
    if i > 0 {
      assert Before(r, i - 1, r, i);
      OwnedWithoutFlags(g, q, j, r, i - 1);
    } else if r > 0 {
      OwnedWithoutFlags(g, q, j, r - 1, |g[r - 1]|);
    }
  }

  /** The table of `ThreeByThree`. */
  ghost predicate ThreeByThreeTable(g: Grid)
  {
    && |g| == 3 && (forall r :: 0 <= r < 3 ==> |g[r]| == 3)
    && (forall r, i :: 0 <= r < 3 && 0 <= i < 3 ==> g[r][i].colspan == 1)
    && (forall r, i :: 0 <= r < 3 && 0 <= i < 3 ==> (g[r][i].vmerge <==> r == 2 && i == 0))
  }

  lemma {:induction false} ThreeByThreeOwner(g: Grid)
    requires ThreeByThreeTable(g)
    ensures IsContinuation(g, 2, 0) && Owner(g, 0, 2, 0) == Some((1, 0))
  {
    assert Start(g[1], 1) == 1 && Start(g[1], 2) == 2;
    assert 0 in RowStarts(g[1], 1) && RowStarts(g[1], 1) <= RowStarts(g[1], 2) <= RowStarts(g[1], 3);
  }

  lemma {:induction false} ThreeByThreeSpans(g: Grid)
    requires ThreeByThreeTable(g)
    ensures Shaped(g, Merge(g))
    ensures forall q, j :: 0 <= q < 3 && 0 <= j < 3 ==>
              Merge(g)[q][j].rowspan == g[q][j].rowspan + (if q == 1 && j == 0 then 1 else 0)
  {
    MergeRaisesOwners(g);
    ThreeByThreeOwner(g);
    forall q, j | 0 <= q < 3 && 0 <= j < 3
      ensures Attachments(g, q, j) == if q == 1 && j == 0 then 1 else 0
    {
      OwnedWithoutFlags(g, q, j, 2, 0);
      assert Owned(g, q, j, 3, 0) == Owned(g, q, j, 2, 0) + (if Attached(g, 2, 0, q, j) then 1 else 0);
    }
  }

  /** A 3 x 3 table of single-column cells whose only flagged cell is the
      first cell of the last row: the first cell of the middle row takes
      its row span, the first row is unchanged and the last row loses its
      first cell. */
  lemma {:induction false} ThreeByThree(g: Grid)
    requires ThreeByThreeTable(g)
    ensures RebuildRow(Merge(g)[0]) == RebuildRow(g[0])
    ensures RebuildRow(Merge(g)[1]) == [TableCell(g[1][0].children, 1, g[1][0].rowspan + 1)] + RebuildRow(g[1][1..])
    ensures RebuildRow(Merge(g)[2]) == RebuildRow(g[2][1..])
  {
    var m: Grid := Merge(g);
    MergeFlagsExactlyContinuations(g);
    ThreeByThreeSpans(g);
    ThreeByThreeOwner(g);
    assert m[0] == g[0];
    assert m[1][1..] == g[1][1..];
    assert m[2][1..] == g[2][1..];
  }
}
