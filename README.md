# vida laboral to CSV — a verified model of the table reconstruction

`vida_laboral_to_csv.py` turns the Spanish Social Security "vida laboral"
(employment history) report into CSV. A PDF extractor returns the tables it finds on
the report's pages as text grids. The converter then:

1. keeps the tables whose first line holds the phrase `SITUACIÓN/ES` as a whole word,
   in any case (`is_valid_table`);
2. for each kept table, drops the six boilerplate lines at the top, names the ten
   columns, and rebuilds the logical records (`process_table`). A long entry, such as
   an employer name, is printed over several lines. Only its first line has a value in
   the DÍAS (days) column (`has_dias_value`). A line with a DÍAS value opens a new
   record. A line without one is merged into the open record cell by cell: a cell
   with a value (not blank and not `nan` once stripped) is joined to the record's
   cell with one space and the result trimmed, or taken as it is when the record's
   cell is empty. A table of six lines or fewer has no body and yields nothing
   (`TableProcessor.ShortTableIsEmpty`);
3. drops the tables that give no record, and concatenates the rest in extraction
   order (`extract_tables_from_pdf`). No table, no valid table, no record, or an
   error yields nothing.

The project has these modules:

- `Wrappers`: `Option` and `Result`.
- `PyStrings`: Python's `str.strip()`, which removes the `str.isspace()` characters, and `' '.join`.
- `Tables`: the report's fixed layout and the rectangular text grid the extractor hands over.
- `Validator`: `is_valid_table`, with the case-insensitive whole-word search written out.
- `RowReconstructor`: the reconstruction as a pure state machine (`Reconstruct`) and an independent description of its result, one record per anchor line (`Record`), with the proof that the two agree.
- `TableProcessor`: `process_table` as the source writes it. It is a loop with one open record held in an array and updated in place, proved equal to the pure reconstruction. A wrong column count is an error.
- `Pipeline`: the filter, process and concatenate loops of `extract_tables_from_pdf` as methods. They are proved against a functional description, then against an independent one: the records of every valid ten-column table, in order, or nothing.

## Model

| member | source | states |
|---|---|---|
| PyStrings.StripIsStripped | vida_laboral_to_csv.py:30 | `strip()` leaves no whitespace at either end and never lengthens the text |
| PyStrings.StripTrims | vida_laboral_to_csv.py:53 | `s.strip()` is a slice `s[i..j]` that neither starts nor ends with whitespace, with only whitespace before `i` and from `j` on |
| PyStrings.TrimEmptyIff | vida_laboral_to_csv.py:30 | such a trimmed slice is empty exactly when the text is all whitespace |
| PyStrings.TrimIsUnique | vida_laboral_to_csv.py:53 | a text has only one such trimmed slice, so the characterization determines `strip()` completely |
| PyStrings.StripEmptyIff | vida_laboral_to_csv.py:30 | a stripped cell is empty exactly when every character of the cell is whitespace |
| PyStrings.StripOfStripped | vida_laboral_to_csv.py:53 | stripping a text with no surrounding whitespace leaves it unchanged |
| PyStrings.StripSpaceJoined | vida_laboral_to_csv.py:53 | `f"{a} {b}".strip()` is exactly `a + " " + b` when `a` and `b` are non-empty and trimmed |
| Validator.SearchFromFinds | vida_laboral_to_csv.py:25 | the left-to-right scan succeeds exactly when a whole-word, case-insensitive match of the marker starts at or after the scan's start |
| Validator.IsValidTableMeaning | vida_laboral_to_csv.py:19-25 | a table is valid exactly when it has a first line and the space-joined stripped cells of that line contain the marker as a whole word at some position, in any case |
| Validator.MarkerInPartIsInJoin | vida_laboral_to_csv.py:24 | joining cells with spaces keeps every whole-word match found in any one cell |
| Validator.ValidWhenACellHoldsMarker | vida_laboral_to_csv.py:24-25 | a first line with one cell holding the marker as a whole word makes the table valid, whatever the other cells hold |
| Validator.EmptyTableIsInvalid | vida_laboral_to_csv.py:21-22 | a table without lines is rejected |
| Validator.MarkerCellAccepted | vida_laboral_to_csv.py:25 | the first line `["", "SITUACIÓN/ES", "ALTA"]` is accepted |
| Validator.LowerCaseMarkerAccepted | vida_laboral_to_csv.py:25 | the lower-case marker `situación/es` is accepted, because the match ignores case |
| Validator.FechaAltaRejected | vida_laboral_to_csv.py:24-25 | the first line `["FECHA", "ALTA"]` is rejected |
| Validator.MarkerInsideWordRejected | vida_laboral_to_csv.py:25 | the marker glued after a letter is not a whole-word match, so the table is rejected |
| RowReconstructor.HasValueMeaning | vida_laboral_to_csv.py:27-30 | a cell has a value exactly when it holds a non-whitespace character and does not read `nan` once stripped |
| RowReconstructor.MergeCellMeaning | vida_laboral_to_csv.py:51-55 | a cell without a value leaves the record's cell alone; a value fills an empty record cell as it is; otherwise the result is non-empty and is `current + " " + cell` with exactly its leading and trailing whitespace removed, which for two trimmed texts is `current + " " + cell` itself |
| RowReconstructor.MergeRowKeeps | vida_laboral_to_csv.py:50-55 | merging a continuation line never changes the DÍAS cell, and a line without any value changes nothing |
| RowReconstructor.Anchors | vida_laboral_to_csv.py:42-43 | the anchor positions are in range and strictly increasing |
| RowReconstructor.AnchorsAreAnchors | vida_laboral_to_csv.py:42-43 | the anchor positions are exactly the lines with a DÍAS value |
| RowReconstructor.ReconstructByAnchors | vida_laboral_to_csv.py:39-58 | the loop yields one record per anchor line, in order; the k-th record is the k-th anchor line with every following line up to the next anchor merged into it in order |
| RowReconstructor.RecordDias | vida_laboral_to_csv.py:42-55 | every record keeps the DÍAS cell of the line that opened it, so it has a DÍAS value |
| RowReconstructor.ReconstructKeepsDias | vida_laboral_to_csv.py:42-58 | the k-th record carries the DÍAS value of the k-th anchor line, and every record has a DÍAS value |
| RowReconstructor.AllAnchorsVerbatim | vida_laboral_to_csv.py:43-46 | when every line has a DÍAS value, the records are the lines themselves, in order |
| RowReconstructor.RunWithoutAnchors | vida_laboral_to_csv.py:47-48 | lines without a DÍAS value seen before any anchor leave the loop's state as it started |
| RowReconstructor.NoAnchorsNoRecords | vida_laboral_to_csv.py:57-58 | a table body without any DÍAS value yields no record |
| RowReconstructor.LeadingContinuationsDropped | vida_laboral_to_csv.py:47-48 | lines before the first anchor are dropped: prefixing them changes no record |
| RowReconstructor.RunAppend | vida_laboral_to_csv.py:42 | running the loop over two stretches of lines is running it over the first, then the second |
| RowReconstructor.ReconstructSplitsAtAnchor | vida_laboral_to_csv.py:43-46 | a body cut just before an anchor reconstructs to the first part's records followed by the second part's |
| RowReconstructor.AnchorThenContinuation | vida_laboral_to_csv.py:42-58 | an anchor followed by one continuation line gives the single record in which the two are merged |
| RowReconstructor.WrappedNameJoined | vida_laboral_to_csv.py:50-53 | an employer name wrapped onto a second line comes back as the two parts joined by one space, and every other column keeps the anchor's value |
| TableProcessor.OpenRecord | vida_laboral_to_csv.py:46 | a new, separate copy of the anchor line opens the record |
| TableProcessor.MergeInto | vida_laboral_to_csv.py:50-55 | the open record is updated in place, column by column, to the continuation line merged into it |
| TableProcessor.ProcessTable | vida_laboral_to_csv.py:32-60 | the imperative loop returns exactly the records of the reconstruction, or the column-count error |
| TableProcessor.HeaderRowsIgnored | vida_laboral_to_csv.py:35 | the six boilerplate lines never affect the records, whatever they hold |
| TableProcessor.ShortTableIsEmpty | vida_laboral_to_csv.py:35 | a ten-column table of six lines or fewer yields no record |
| TableProcessor.AnchorsOnlyTable | vida_laboral_to_csv.py:35-58 | after the boilerplate, lines that all carry a DÍAS value come back unchanged and in order |
| Pipeline.Filter | vida_laboral_to_csv.py:77-80 | filtering never yields more tables than it was given |
| Pipeline.FilterMembers | vida_laboral_to_csv.py:77-80 | a table is kept exactly when it is one of the inputs and passes the test |
| Pipeline.ProcessEachFailureSticks | vida_laboral_to_csv.py:107-109 | once a table has raised, the tables after it do not change the outcome |
| Pipeline.ProcessFailsIffKeptFails | vida_laboral_to_csv.py:89-95 | processing the kept tables fails exactly when one of them fails |
| Pipeline.ProcessCollectsContributions | vida_laboral_to_csv.py:89-102 | when processing succeeds, the concatenated results are every table's contribution in table order, and there is no result exactly when nothing is contributed |
| Pipeline.NothingKeptNothingContributed | vida_laboral_to_csv.py:83-85 | with no kept table, nothing fails and nothing is contributed |
| Pipeline.KeptSucceedAppend | vida_laboral_to_csv.py:89-95 | a run of tables followed by another is processed without error exactly when each run is |
| Pipeline.ContributionsAppend | vida_laboral_to_csv.py:101-102 | the records of consecutive runs of tables are concatenated in table order |
| Pipeline.FilterValidTables | vida_laboral_to_csv.py:77-80 | the first loop returns the valid tables in extraction order |
| Pipeline.ProcessValidTables | vida_laboral_to_csv.py:89-95 | the second loop keeps the non-empty results in order and stops at the first table that raises, with its error |
| Pipeline.ExtractTables | vida_laboral_to_csv.py:70-105 | the extraction returns nothing when there is no table, no valid table, an error or no record, and otherwise the concatenated records |
| Pipeline.WellShapedMeaning | vida_laboral_to_csv.py:36 | processing never raises exactly when every valid table has ten columns |
| Pipeline.AllRecordsSnoc | vida_laboral_to_csv.py:91-102 | one more table adds its reconstructed records when it is valid and ten columns wide, and nothing otherwise |
| Pipeline.ExtractByTables | vida_laboral_to_csv.py:66-109 | the extraction yields nothing when a valid table has the wrong column count or no table contributes a record; otherwise it yields the records of every valid table, table after table |
| Pipeline.ValidTablesMembers | vida_laboral_to_csv.py:77-80 | a table is kept exactly when it was extracted and is valid |
| Pipeline.InvalidTableIgnored | vida_laboral_to_csv.py:78-79 | inserting a table that fails validation anywhere changes nothing |
| Pipeline.MisshapedTableSpoilsAll | vida_laboral_to_csv.py:107-109 | one valid table without ten columns makes the whole extraction yield nothing, whatever the other tables hold |
| Pipeline.TwoTablesInOrder | vida_laboral_to_csv.py:101-105 | two valid ten-column tables give the first table's records, then the second's |

## Left out

- The PDF extraction (`camelot.read_pdf` with its page range and stream mode, line 68) is an external library. Its list of tables is the input of `Pipeline.ExtractTables`.
- Page numbers of tables are left out, because they are only printed.
- All printing is left out.
- `main` (lines 111-131) is left out: argument checks, the file-existence test, deriving the output name and writing the CSV are all file and console I/O.
- Only one exception is modelled: the one the converter's own code raises when a valid table does not have ten columns. It becomes the `None` the blanket `except` returns. Exceptions raised inside the extractor or pandas for other reasons are not modelled.
- Cells are text, as the extractor produces them. Non-string cells and pandas' NaN objects are not modelled. For text cells, `pd.notna` always holds and the truth value of a cell is its non-emptiness; both are modelled that way.
- The pandas machinery is left out: data-frame indexes, `copy()`, `ignore_index`, and the column labels as names. Columns are addressed by position; `Tables.Headers` lists the labels.
- Validator.IsWordChar: it decides what `\b` treats as a word character exactly only for code points up to U+017F. Python's regular-expression engine consults the full Unicode database, which is not modelled.
- Validator.Fold: it folds case only as far as a match against `SITUACIÓN/ES` can see it: ASCII and Latin-1 letters plus the special equivalences the regular-expression engine adds. General Unicode case folding is not modelled.
