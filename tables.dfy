/** The tables the PDF extractor hands over, and the fixed layout of the report. */
module Tables {

  /** The column names the converter assigns to every reconstructed table. */
  const Headers: seq<string> := [
    "RÉGIMEN", "ID EMPRESA", "NOMBRE EMPRESA", "FECHA ALTA",
    "FECHA DE EFECTO DE ALTA", "FECHA DE BAJA", "C.T.", "CTP %", "G.C.", "DÍAS"
  ]

  /** Number of columns of an employment-history table. */
  const Columns: nat := 10

  /** Position of the DÍAS (days) column, the record-boundary marker. */
  const DiasColumn: nat := 9

  /** Position of the employer-name column, the one long entries wrap in. */
  const NameColumn: nat := 2

  /** Number of boilerplate lines at the top of every table. */
  const HeaderRows: nat := 6

  /** One line of a table, cut into exactly one cell per column. */
  type Row = r: seq<string> | |r| == Columns witness ["", "", "", "", "", "", "", "", "", ""]

  /** A text grid as the extractor detects it: `width` columns, rows of text cells.
      Page numbers are left out, as the converter only prints them. */
  datatype RawTable = RawTable(width: nat, rows: seq<seq<string>>)

  /** Every row in `rows` has exactly `width` cells. */
  predicate RowsOfWidth(rows: seq<seq<string>>, width: nat)
    decreases |rows|
  {
    rows == [] || (|rows[0]| == width && RowsOfWidth(rows[1..], width))
  }

  /** A data frame is rectangular: every row has one cell per column. */
  predicate Rectangular(t: RawTable)
  {
    RowsOfWidth(t.rows, t.width)
  }

  /** A table as a data frame holds it: a rectangular grid. */
  type Table = t: RawTable | Rectangular(t) witness RawTable(0, [])

  /** A table of a single line, as wide as that line. */
  function SingleLine(row: seq<string>): Table
  {
    assert [row][1..] == [] && RowsOfWidth([], |row|);
    RawTable(|row|, [row])
  }

  /** Rectangularity read row by row. */
  lemma {:induction false} RowsOfWidthAt(rows: seq<seq<string>>, width: nat)
    requires RowsOfWidth(rows, width)
    ensures forall k :: 0 <= k < |rows| ==> |rows[k]| == width
    decreases |rows|
  {
    if rows != [] {
      RowsOfWidthAt(rows[1..], width);
      assert forall k :: 1 <= k < |rows| ==> rows[k] == rows[1..][k - 1];
    }
  }
}
