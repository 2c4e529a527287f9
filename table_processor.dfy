/** `process_table` on a whole table: drop the boilerplate lines, name the columns,
    rebuild the records. */
module TableProcessor {
  import opened Wrappers
  import opened PyStrings
  import opened Tables
  import opened RowReconstructor

  /** Naming the columns of a table whose column count is not ten raises. */
  datatype TableError = ColumnCountMismatch(found: nat)

  /** The lines after the boilerplate (`iloc[6:]`: empty when there are six or fewer). */
  function Body(t: RawTable): seq<seq<string>>
  {
    if |t.rows| <= HeaderRows then [] else t.rows[HeaderRows..]
  }

  /** The lines after the boilerplate of a ten-column table, as rows of ten cells. */
  function DataRows(t: Table): seq<Row>
    requires t.width == Columns
  {
    RowsOfWidthAt(t.rows, t.width);
    Body(t)
  }

  /** What `process_table` returns for a table, or the error it raises. */
  function ReconstructTable(t: Table): Result<seq<Row>, TableError>
  {
    if t.width != Columns then Failure(ColumnCountMismatch(t.width))
    else Success(Reconstruct(DataRows(t)))
  }

  /** `row.tolist()`: a fresh, mutable copy of an anchor line. */
  method OpenRecord(row: Row) returns (record: array<string>)
    ensures fresh(record) && record[..] == row
  {
    record := new string[Columns];
    forall j | 0 <= j < Columns {
      record[j] := row[j];
    }
  }

  /** Merges a continuation line into the open record in place, column by column. */
  method MergeInto(current: array<string>, row: Row)
    requires current.Length == Columns
    modifies current
    ensures current[..] == MergeRow(old(current[..]), row)
  {
    for j := 0 to Columns
      invariant forall k :: 0 <= k < j ==> current[k] == MergeCell(old(current[k]), row[k])
      invariant forall k :: j <= k < Columns ==> current[k] == old(current[k])
    {
      var cell := row[j];
      if HasValue(cell) {
        if current[j] != "" {
          current[j] := Strip(current[j] + " " + cell);
        } else {
          current[j] := cell;
        }
      }
    }
  }

  /** The imperative reconstruction: one pass over the body with one open record,
      held in an array that continuation lines update in place. */
  method ProcessTable(t: Table) returns (result: Result<seq<Row>, TableError>)
    ensures result == ReconstructTable(t)
  {
    if t.width != Columns {
      return Failure(ColumnCountMismatch(t.width));
    }
    var body := DataRows(t);
    var realRows: seq<Row> := [];
    var current: array?<string> := null;
    for i := 0 to |body|
      invariant current != null ==> fresh(current) && current.Length == Columns
      invariant Run(Start, body[..i]) ==
                  State(realRows, if current == null then None else Some(current[..]))
    {
      var row := body[i];
      assert body[..i + 1] == body[..i] + [row];
      if HasDias(row) {
        if current != null {
          realRows := realRows + [current[..]];
        }
        current := OpenRecord(row);
      } else if current != null {
        MergeInto(current, row);
      }
    }
    assert body[..|body|] == body;
    ghost var final := Run(Start, body);
    if current != null {
      realRows := realRows + [current[..]];
    }
    assert realRows == Finish(final);
    return Success(realRows);
  }

  /** The boilerplate lines never contribute: a ten-column table reconstructs to what
      its lines after the sixth reconstruct to, whatever the first six hold. */
  lemma HeaderRowsIgnored(t: Table, header: seq<seq<string>>, body: seq<Row>)
    requires t.width == Columns && t.rows == header + body && |header| == HeaderRows
    ensures ReconstructTable(t) == Success(Reconstruct(body))
  {
    assert (header + body)[HeaderRows..] == body;
  }

  /** A table of six lines or fewer reconstructs to no record. */
  lemma ShortTableIsEmpty(t: Table)
    requires t.width == Columns && |t.rows| <= HeaderRows
    ensures ReconstructTable(t) == Success([])
  {
    assert Reconstruct([]) == [];
  }

  /** A table raises exactly when its column count is not ten; otherwise its records are
      those of the lines after the boilerplate. */
  lemma ReconstructTableFailsIff(t: Table)
    ensures ReconstructTable(t).Failure? <==> t.width != Columns
    ensures ReconstructTable(t).Failure? ==> ReconstructTable(t).error == ColumnCountMismatch(t.width)
    ensures ReconstructTable(t).Success? ==> ReconstructTable(t).value == Reconstruct(DataRows(t))
  {
  }

  /** Six boilerplate lines followed by anchor lines only give those lines back, in order. */
  lemma AnchorsOnlyTable(t: Table, header: seq<seq<string>>, body: seq<Row>)
    requires t.width == Columns && t.rows == header + body && |header| == HeaderRows
    requires forall r :: r in body ==> HasDias(r)
    ensures ReconstructTable(t) == Success(body)
  {
    HeaderRowsIgnored(t, header, body);
    AllAnchorsVerbatim(body);
  }
}
