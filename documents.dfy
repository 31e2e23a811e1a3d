/**
 The document elements that the table reader tells apart. Every kind of
 element the table normaliser does not inspect (paragraphs, runs, nested
 tables, ...) is an `Other`, tagged with its kind name.
 */
module Documents {

  datatype Element =
    | TableRow(children: seq<Element>)
      /** A cell as read from the markup: `vmerge` says it continues the
          cell above it in the same column. */
    | TableCellUnmerged(children: seq<Element>, colspan: nat, rowspan: nat, vmerge: bool)
      /** A cell whose vertical merge has been resolved into `rowspan`. */
    | TableCell(children: seq<Element>, colspan: nat, rowspan: nat)
    | Other(kind: string, children: seq<Element>)
}
