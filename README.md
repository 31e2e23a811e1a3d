# Reading results and table row spans (python-mammoth, `test_xml.py`)

This project models two coupled pieces of mammoth's Word-document reader.

The first is the three-channel result that the reader threads through its
recursive walk over the XML tree. It carries the document elements produced
so far, "extra" items that must be hoisted to an ancestor, and non-fatal
messages. It also covers the combinators over it: `concat`, `map_results`,
`map`, `flat_map`, `to_extra`, `append_extra`, `_success` and
`_elements_result_with_messages`. It covers the list flattening `_concat` and
the sibling reader `_read_xml_elements`, with the per-node reader passed in
as a function.

The second is the table normaliser `calculate_row_spans`. It resolves Word's
vertical cell merges (`w:vMerge` in Office Open XML, ECMA-376 Part 1, section
17.4). A cell flagged as continuing the cell above is dropped, and the cell
open in the same column gains one row of span. Column positions are tracked
by a running column index that advances by each cell's column span. Before
merging, two gates check that the table is made of rows of unmerged cells.
A table that fails either gate is degraded uniformly by
`remove_unmerged_table_cells` and comes back with one warning.

Files:

- `read_result.dfy` (module `ReadResults`) holds the result type, `Flatten`
  and `ConcatLists` (the nested loops of `_concat`, proved equal to
  `Flatten`), and the combinators.
- `read_result_laws.dfy` (module `ReadResultLaws`) holds the algebra of the
  combinators: channel-wise order, identity, associativity, monad laws and
  the movements between channels.
- `xml_reading.dfy` (module `XmlReading`) holds `_read_xml_elements`.
- `documents.dfy` (module `Documents`) holds the element kinds the table code
  tells apart.
- `table_merge.dfy` (module `TableMerge`) holds the gates, the fallback, the
  merge pass as recursive functions over a grid of cells (`RowSpans`), and
  the imperative `CalculateRowSpans`, proved equal to `RowSpans`.
- `merge_properties.dfy` (module `MergeProperties`) holds what the merge
  guarantees about flags: which cells are dropped. It also holds the
  table-wide row-span accounting, the fallback and the diagnostics.
- `merge_owners.dfy` (module `MergeOwners`) says which cell each
  continuation's row span goes to. It holds the output rows cell by cell and
  a run down one column and two small tables worked through.

How aliasing is modelled:

- The source keeps `columns[cell_index]` as a reference to a cell object of an
  earlier row and mutates that object in place.
- Here the cells of a table that passed the gates are a grid of `Cell` records
  (`seq<seq<Cell>>`).
- `columns` maps a column index to the grid address `(row, position)` of the
  open cell. "Mutating the open cell" is replacing the record at that address.
- `ColumnsBefore` is the invariant that every open address lies in the grid
  strictly before the current cell.

The declarative reading of the merge is `IsContinuation`. A cell is dropped
exactly when it is flagged and some earlier cell of the table, in an earlier
row or earlier in its own row, starts at the same column. `Pass` tracks only
the set of open columns in one row. It is the bridge between the loop and
that reading.

Which cell gains the row span is read declaratively through `Owner`. The
owner of a continuation is the last cell before it, in reading order, that
starts at the same column and is not itself a continuation. This is the
cell that `columns[cell_index]` refers to at that moment. Continuations do
not replace the entry, and every other cell does. `Attachments(g, q, j)`
counts the continuations whose owner is cell (q, j). The merge is proved to
raise every cell's row span by exactly that count (`MergeRaisesOwners`).

A run down one column is read the same way (`ColumnRunMerges`). Take a cell
that is not a continuation, followed in its column by one flagged cell in each
of the next k rows, with no other cell starting at that column until the
table ends or an unflagged cell starts there. That cell's row span rises by
exactly k, and the k flagged cells are dropped.

In a 3 × 3 table whose only flagged cell is the first cell of the last row,
the middle row's first cell takes the extra row and the middle row keeps its
three cells. The last row drops its flagged cell (`ThreeByThree`).

## Model

| member | source | states |
|---|---|---|
| `ReadResults.ConcatLists` | test_xml.py:52-57 | the nested append loops produce exactly the in-order concatenation of the input lists |
| `ReadResults.FlattenAppend` | test_xml.py:52-57 | flattening distributes over joining two lists of lists, so it preserves order across a split |
| `ReadResults.FlattenSplit` | test_xml.py:52-57 | each input list appears unchanged, in place, between what is flattened before it and after it |
| `ReadResults.FlattenMember` | test_xml.py:52-57 | an item is in the flattening exactly when it is in one of the input lists |
| `ReadResults.FlattenLength` | test_xml.py:52-57 | the flattening is as long as all input lists together |
| `ReadResultLaws.ConcatOfNothing` | test_xml.py:10-15 | concatenating no results gives the all-empty result |
| `ReadResultLaws.ConcatSingleton` | test_xml.py:10-15 | concatenating one result gives that result back |
| `ReadResultLaws.ConcatAppend` | test_xml.py:10-15 | each channel of a concatenation of two groups is the first group's channel followed by the second's |
| `ReadResultLaws.ConcatIdentity` | test_xml.py:10-15 | the empty result is a left and a right identity of concat |
| `ReadResultLaws.ConcatAssociative` | test_xml.py:10-15 | concat is associative |
| `ReadResultLaws.ConcatAt` | test_xml.py:10-15 | every input's elements, extra and messages sit, in order, between those of the inputs before and after it |
| `ReadResultLaws.ConcatKeepsMessages` | test_xml.py:10-15 | a message is in the concatenation exactly when some input carries it |
| `ReadResultLaws.MapResultsAsConcat` | test_xml.py:17-22 | map_results yields exactly one element, computed from both element lists, with the first result's extra and messages before the second's |
| `ReadResultLaws.MapKeepsSideChannels` | test_xml.py:29-36 | map leaves extra and messages unchanged; a single value becomes a one-element list and a list is kept as it is |
| `ReadResultLaws.MapIdentity` | test_xml.py:29-36 | mapping with the function that returns its list unchanged gives the result back |
| `ReadResultLaws.MapComposition` | test_xml.py:29-36 | two maps in a row are one map with the composed function |
| `ReadResultLaws.FlatMapAsConcat` | test_xml.py:38-43 | flat_map takes its elements from the function's result and puts this result's extra and messages before the function's; no upstream message is lost |
| `ReadResultLaws.FlatMapLeftIdentity` | test_xml.py:38-43 | flat_map applied to a fresh success result is the function's result |
| `ReadResultLaws.FlatMapRightIdentity` | test_xml.py:38-43 | flat_map with the success constructor gives the result back |
| `ReadResultLaws.FlatMapAssociative` | test_xml.py:38-43 | two flat_maps in a row equal one flat_map of the composed step |
| `ReadResultLaws.ToExtraMovesElements` | test_xml.py:45-46 | to_extra empties the elements, appends them after the old extra, keeps the messages, and loses no item |
| `ReadResultLaws.AppendExtraMovesExtra` | test_xml.py:48-49 | append_extra appends the extra after the elements, empties extra, keeps the messages, and loses no item |
| `ReadResultLaws.ToExtraIdempotent` | test_xml.py:45-46 | applying to_extra twice is the same as once |
| `ReadResultLaws.AppendExtraIdempotent` | test_xml.py:48-49 | applying append_extra twice is the same as once |
| `ReadResultLaws.AppendExtraAfterToExtra` | test_xml.py:45-49 | to_extra then append_extra puts the old extra before the old elements |
| `XmlReading.ReadXmlElementsSnoc` | test_xml.py:60-62 | one more element sibling appends its read result after the earlier siblings' results, in every channel; a text node adds nothing |
| `XmlReading.ReadXmlElementsMessages` | test_xml.py:60-62 | a message of the joined result is exactly a message that the reader produced for one of the element nodes |
| `TableMerge.MergeCell` | test_xml.py:91-95 | one inner-loop step keeps every open cell in the grid and before the next cell, and keeps the grid's shape |
| `TableMerge.MergeRowLoop` | test_xml.py:88-96 | the inner loop over one row, with the running column index, computes the recursive merge of that row |
| `TableMerge.CalculateRowSpans` | test_xml.py:65-109 | both gates, the merge loops and the rebuild loop compute `RowSpans` |
| `MergeProperties.MergeCellEvolves` | test_xml.py:91-95 | one step keeps every cell's content and column span and lowers no row span; it changes only the current cell's flag, which stays set exactly when its column is already open |
| `MergeProperties.MergeCellOpens` | test_xml.py:91-95 | after one step the open columns are the old ones plus the current cell's column |
| `MergeProperties.MergeRowEvolves` | test_xml.py:88-96 | merging a row changes no cell's content or column span and lowers no row span; flags change only in that row from the current cell on |
| `MergeProperties.MergeRowsEvolves` | test_xml.py:87-96 | the merge from a row on never changes the flags of rows above it |
| `MergeProperties.MergeEvolves` | test_xml.py:87-96 | the whole merge pass keeps contents and column spans and never lowers a row span |
| `MergeProperties.MergeRowKeepsLaterRows` | test_xml.py:88-96 | merging a row leaves every later row alone |
| `MergeProperties.MergeRowIsPass` | test_xml.py:88-96 | merging a row sets the flags and opens the columns as `Pass` computes from the open columns alone |
| `MergeProperties.MergeRowStep` | test_xml.py:89-96 | the current cell's flag is set exactly when it is flagged and its column is open; the rest of the row follows `Pass` from the next column on |
| `MergeProperties.PassFlagsContinuations` | test_xml.py:89-96 | on a row whose open columns before it are `seen`, `Pass` flags a cell exactly when it is flagged and its start column is in `seen` or is the start of an earlier cell of the row; afterwards every start column of the row is open |
| `MergeProperties.MergeRowFlagsOfRow` | test_xml.py:88-96 | when the open columns are the start columns of the rows above, merging a row leaves flagged exactly its continuation cells |
| `MergeProperties.MergeRowOpensRow` | test_xml.py:88-96 | when the open columns are the start columns of the rows above, merging a row adds its own start columns to them |
| `MergeProperties.MergeRowFlagsContinuations` | test_xml.py:87-96 | when the open columns are the start columns of the rows above, merging a row flags exactly its continuation cells and opens its own start columns |
| `MergeProperties.MergeRowsFlags` | test_xml.py:87-96 | from a row on, the merge leaves flagged exactly the continuation cells |
| `MergeProperties.MergeFlagsExactlyContinuations` | test_xml.py:87-96 | after the merge pass, a cell is still flagged if and only if it is a continuation; every opener, an orphan continuation included, has its flag cleared |
| `MergeProperties.MergeRowNoVmerge` | test_xml.py:90-96 | on a grid without flags, merging a row changes nothing |
| `MergeProperties.MergeRowsNoVmerge` | test_xml.py:87-96 | on a grid without flags, the merge pass changes nothing |
| `MergeProperties.RebuildRowNoVmerge` | test_xml.py:98-107 | with no flags, the rebuild keeps every cell, in order, with its fields |
| `MergeProperties.NoVmergeKeepsEveryCell` | test_xml.py:65-109 | a well-formed table without continuation flags comes out as a success with every cell rebuilt, row span unchanged |
| `MergeProperties.MergeCellRowspanGain` | test_xml.py:91-95 | one step raises the table's total row span by one exactly when the current cell stays flagged |
| `MergeProperties.MergeRowRowspanGain` | test_xml.py:88-96 | merging a row raises the total row span by the number of its cells left flagged |
| `MergeProperties.MergeRowsRowspanGain` | test_xml.py:87-96 | the merge from a row on raises the total row span by the number of cells left flagged in those rows |
| `MergeProperties.RebuildRowLength` | test_xml.py:98-107 | the rebuild keeps as many cells as the row has unflagged cells |
| `MergeProperties.KeptCountFlags` | test_xml.py:98-107 | across the table, kept cells plus flagged cells equal all cells |
| `MergeProperties.CellCountEvolves` | test_xml.py:87-96 | the merge pass adds and removes no cell |
| `MergeProperties.MergeRowspanGainIsDroppedCells` | test_xml.py:87-107 | the row spans gained by the merge add up to the number of cells the rebuild drops |
| `MergeProperties.RemoveUnmergedTableCellsRebuildsCells` | test_xml.py:118-129 | the fallback keeps every element in place. It rebuilds each unmerged cell, at top level and in rows, as a merged cell with the same content, column span and row span. It leaves every other element and every other cell of a row exactly as it was. No unmerged cell remains, and a second application changes nothing |
| `MergeProperties.RowSpansDiagnostics` | test_xml.py:65-115 | extra is always empty; there is one message, naming the failed gate, exactly when a gate fails, and then the elements are the degraded input; a table that passes both gates gets no message |
| `MergeProperties.EmptyTable` | test_xml.py:65-115 | an empty table is a success with no rows |
| `MergeOwners.OwnerIsOpener` | test_xml.py:91-95 | an owner is a cell before the point, starting at the column asked for, that is not a continuation |
| `MergeOwners.OwnerSomeIff` | test_xml.py:91-95 | a column has an owner at a point exactly when some earlier cell starts there, since the first cell in a column always opens it |
| `MergeOwners.ContinuationHasOwner` | test_xml.py:91-92 | every continuation has an owner: an earlier cell in the same column that is not a continuation |
| `MergeOwners.MergeCellRaises` | test_xml.py:91-95 | one step raises the row span of the open cell of the current column by one when the current cell continues it, and no other row span |
| `MergeOwners.MergeCellOwnersOpen` | test_xml.py:91-95 | after one step, the open columns are still exactly those with an owner, and each still refers to its owner |
| `MergeOwners.MergeCellSpansOwned` | test_xml.py:91-95 | after one step, every row span is still its input row span plus the number of continuations so far whose owner it is |
| `MergeOwners.MergeCellTracks` | test_xml.py:90-96 | one step keeps the open columns on their owners and the later cells untouched, and advances the column index by the cell's column span to the next cell's start |
| `MergeOwners.MergeRowTracks` | test_xml.py:88-96 | merging the rest of a row keeps the open columns on their owners and the later rows untouched |
| `MergeOwners.MergeRowOwners` | test_xml.py:88-96 | merging the rest of a row raises each row span by the number of that stretch's continuations whose owner the cell is |
| `MergeOwners.AdvanceRow` | test_xml.py:87-89 | the column map carried from the end of one row is the right one for the start of the next, where the column index restarts at 0 |
| `MergeOwners.MergeRowsOwners` | test_xml.py:87-96 | the merge from a row on raises each row span by the number of continuations in those rows whose owner the cell is |
| `MergeOwners.MergeRaisesOwners` | test_xml.py:87-96 | after the merge pass, every cell's row span is its input row span plus the number of continuations whose owner it is |
| `MergeOwners.RebuildRowSurvivors` | test_xml.py:98-107 | rebuilding a merged row yields its non-continuation cells in order, with content and column span from the input and row span raised by the continuations they own |
| `MergeOwners.OutputRowsAreSurvivors` | test_xml.py:87-109 | on a well-formed table, each output row holds exactly the input row's non-continuation cells in their original order. Each keeps its content and column span, and its row span is its input row span plus the continuations it owns |
| `MergeOwners.ColumnRunAttachments` | test_xml.py:87-96 | in any table, a cell that is not a continuation, followed in its column by one flagged cell in each of the next k rows and by no other cell of that column until an unflagged one or the table's end, owns exactly those k cells |
| `MergeOwners.ColumnRunMerges` | test_xml.py:87-107 | for such a run in any column of any table, the opening cell's row span rises by exactly k and it keeps its place, while each of the k flagged cells stays flagged and is dropped from its row |
| `MergeOwners.ContinuationAfterWideCell` | test_xml.py:87-107 | after a first row with column spans [2, 1], a flagged cell starting at column 2 merges into the second cell of the first row, not the first, and is dropped from its own row |
| `MergeOwners.ThreeByThreeSpans` | test_xml.py:87-96 | in a 3 × 3 table whose only flagged cell is the last row's first cell, only the middle row's first cell gains a row |
| `MergeOwners.ThreeByThree` | test_xml.py:87-107 | in that table, the first row comes out unchanged, the middle row keeps its three cells with the first one's row span raised by one, and the last row loses its first cell |

## Left out

- The module-level fixture and driver (test_xml.py:136-150) are not modelled: the embedded table XML, `read_str`, `Styles.create()` and `print` are test plumbing and external calls.
- XML parsing and the per-node reader `read` are not part of this model. `_read_xml_elements` takes the reader as a function parameter, and the `XmlElement` test becomes the `XmlElement` constructor of `XmlNode`.
- `results.warning` is the `Warning` constructor. Other message kinds and their severity are not modelled.
- `documents.table_cell` and the other document constructors are plain datatype constructors. Only the element kinds the table code distinguishes are modelled; every other kind is `Other`.
- `RemoveUnmergedTableCells`: rebuilds the unmerged cells among the table's elements and among the cells of its rows only. The source's `transforms.element_of_type` walks the whole tree, so an unmerged cell nested deeper, such as inside a table inside a cell, is also rebuilt by the source but not by the model.
- `CalculateRowSpans`: works on values. The source mutates the caller's row and cell objects in place: it reassigns `row.children`, sets `cell.vmerge` and raises `rowspan` through the `columns` reference. The model returns the new rows instead, so the caller-visible mutation of the input objects is not captured. The reference is modelled as a grid address.
- The degraded fallback copies each cell's own row span; it does not reset row spans to 1.
- Column and row spans are natural numbers. Python integers are unbounded, so there is no overflow to model, and negative spans, which Word never produces, are not represented.
- `lists.flat_map` and `lists.map` are library helpers, modelled by `Flatten` and sequence comprehensions.
