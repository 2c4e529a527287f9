/** The part of `extract_tables_from_pdf` that runs once the extractor has returned its
    tables: keep the valid ones, reconstruct each, drop the empty results and concatenate
    the rest in extraction order. The extractor call itself is not modelled; its result
    is the input `tables`.

    The loops are described once over any acceptance test `keep` and any per-table step
    `process`, and then instantiated with `is_valid_table` and `process_table`. */
module Pipeline {
  import opened Wrappers
  import opened Tables
  import opened Validator
  import opened RowReconstructor
  import opened TableProcessor

  // ---------------------------------------------------------------------------------
  // The loops, for any acceptance test and any per-table step.

  /** The tables `keep` accepts, in their order. */
  function Filter(keep: Table -> bool, tables: seq<Table>): (kept: seq<Table>)
    ensures |kept| <= |tables|
    decreases |tables|
  {
    if tables == [] then []
    else
      Filter(keep, tables[..|tables| - 1])
        + if keep(tables[|tables| - 1]) then [tables[|tables| - 1]] else []
  }

  /** One step of the processing loop: an error is raised, an empty result is dropped,
      a non-empty one is appended. */
  function Collect(done: seq<seq<Row>>, r: Result<seq<Row>, TableError>)
    : Result<seq<seq<Row>>, TableError>
  {
    match r
    case Failure(e) => Failure(e)
    case Success(records) => if records == [] then Success(done) else Success(done + [records])
  }

  /** `process` applied to each table in turn, keeping the non-empty results; the first
      table that raises ends the loop with its error. */
  function ProcessEach(process: Table -> Result<seq<Row>, TableError>, tables: seq<Table>)
    : Result<seq<seq<Row>>, TableError>
    decreases |tables|
  {
    if tables == [] then Success([])
    else
      match ProcessEach(process, tables[..|tables| - 1])
      case Failure(e) => Failure(e)
      case Success(done) => Collect(done, process(tables[|tables| - 1]))
  }

  /** `pd.concat`: the records of the processed tables one table after the other. */
  function Flatten(parts: seq<seq<Row>>): seq<Row>
    decreases |parts|
  {
    if parts == [] then [] else Flatten(parts[..|parts| - 1]) + parts[|parts| - 1]
  }

  lemma FilterSnoc(keep: Table -> bool, tables: seq<Table>, t: Table)
    ensures keep(t) ==> Filter(keep, tables + [t]) == Filter(keep, tables) + [t]
    ensures !keep(t) ==> Filter(keep, tables + [t]) == Filter(keep, tables)
  {
    assert (tables + [t])[..|tables|] == tables;
  }

  lemma ProcessEachSnoc(process: Table -> Result<seq<Row>, TableError>, tables: seq<Table>, t: Table)
    ensures ProcessEach(process, tables + [t]) ==
              if ProcessEach(process, tables).Failure? then ProcessEach(process, tables)
              else Collect(ProcessEach(process, tables).value, process(t))
  {
    assert (tables + [t])[..|tables|] == tables;
  }

  lemma FlattenSnoc(parts: seq<seq<Row>>, part: seq<Row>)
    ensures Flatten(parts + [part]) == Flatten(parts) + part
  {
    assert (parts + [part])[..|parts|] == parts;
  }

  /** Once a table has raised, processing further tables keeps that error. */
  lemma {:induction false} ProcessEachFailureSticks(
    process: Table -> Result<seq<Row>, TableError>, p: seq<Table>, q: seq<Table>)
    requires ProcessEach(process, p).Failure?
    ensures ProcessEach(process, p + q) == ProcessEach(process, p)
    decreases |q|
  {
    if q == [] {
      assert p + q == p;
    } else {
      var init := q[..|q| - 1];
      assert p + q == (p + init) + [q[|q| - 1]];
      ProcessEachFailureSticks(process, p, init);
      ProcessEachSnoc(process, p + init, q[|q| - 1]);
    }
  }

  /** Every table `keep` accepts is processed without error. */
  predicate KeptSucceed(keep: Table -> bool, process: Table -> Result<seq<Row>, TableError>,
                        tables: seq<Table>)
    decreases |tables|
  {
    tables == [] ||
    (KeptSucceed(keep, process, tables[..|tables| - 1]) &&
     (keep(tables[|tables| - 1]) ==> process(tables[|tables| - 1]).Success?))
  }

  /** The records one table contributes: those of its processing when it is accepted and
      processed without error, none otherwise. */
  function Contribution(keep: Table -> bool, process: Table -> Result<seq<Row>, TableError>,
                        t: Table): seq<Row>
  {
    if keep(t) && process(t).Success? then process(t).value else []
  }

  /** The contributions of all tables, table after table. */
  function Contributions(keep: Table -> bool, process: Table -> Result<seq<Row>, TableError>,
                         tables: seq<Table>): seq<Row>
    decreases |tables|
  {
    if tables == [] then []
    else
      Contributions(keep, process, tables[..|tables| - 1])
        + Contribution(keep, process, tables[|tables| - 1])
  }

  lemma KeptSucceedSnoc(keep: Table -> bool, process: Table -> Result<seq<Row>, TableError>,
                        tables: seq<Table>, t: Table)
    ensures KeptSucceed(keep, process, tables + [t]) <==>
              KeptSucceed(keep, process, tables) && (keep(t) ==> process(t).Success?)
  {
    assert (tables + [t])[..|tables|] == tables;
  }

  lemma ContributionsSnoc(keep: Table -> bool, process: Table -> Result<seq<Row>, TableError>,
                          tables: seq<Table>, t: Table)
    ensures Contributions(keep, process, tables + [t]) ==
              Contributions(keep, process, tables) + Contribution(keep, process, t)
  {
    assert (tables + [t])[..|tables|] == tables;
  }

  /** Processing the accepted tables fails exactly when one of them fails. */
  lemma {:induction false} ProcessFailsIffKeptFails(
    keep: Table -> bool, process: Table -> Result<seq<Row>, TableError>, tables: seq<Table>)
    ensures ProcessEach(process, Filter(keep, tables)).Failure? <==>
              !KeptSucceed(keep, process, tables)
    decreases |tables|
  {
    if tables != [] {
      var init, last := tables[..|tables| - 1], tables[|tables| - 1];
      assert tables == init + [last];
      ProcessFailsIffKeptFails(keep, process, init);
      FilterSnoc(keep, init, last);
      KeptSucceedSnoc(keep, process, init, last);
      if keep(last) {
        ProcessEachSnoc(process, Filter(keep, init), last);
      }
    }
  }

  /** When processing the accepted tables succeeds, its results hold every contribution,
      table after table, and there is no result exactly when nothing is contributed. */
  lemma {:induction false} ProcessCollectsContributions(
    keep: Table -> bool, process: Table -> Result<seq<Row>, TableError>,
    tables: seq<Table>, parts: seq<seq<Row>>)
    requires ProcessEach(process, Filter(keep, tables)) == Success(parts)
    ensures Flatten(parts) == Contributions(keep, process, tables)
    ensures parts == [] <==> Contributions(keep, process, tables) == []
    decreases |tables|
  {
    if tables != [] {
      var init, last := tables[..|tables| - 1], tables[|tables| - 1];
      assert tables == init + [last];
      FilterSnoc(keep, init, last);
      ContributionsSnoc(keep, process, init, last);
      var kept := Filter(keep, init);
      if keep(last) {
        ProcessEachSnoc(process, kept, last);
        assert ProcessEach(process, kept).Success?;
        var done := ProcessEach(process, kept).value;
        ProcessCollectsContributions(keep, process, init, done);
        var records := process(last).value;
        if records != [] {
          FlattenSnoc(done, records);
        }
      } else {
        ProcessCollectsContributions(keep, process, init, parts);
      }
    }
  }

  /** A table belongs to the accepted ones exactly when it is one of the tables and
      `keep` accepts it. */
  lemma {:induction false} FilterMembers(keep: Table -> bool, tables: seq<Table>, t: Table)
    ensures t in Filter(keep, tables) <==> t in tables && keep(t)
    decreases |tables|
  {
    if tables != [] {
      var init, last := tables[..|tables| - 1], tables[|tables| - 1];
      assert tables == init + [last];
      FilterSnoc(keep, init, last);
      FilterMembers(keep, init, t);
    }
  }

  /** Without accepted tables nothing is contributed and nothing can fail. */
  lemma {:induction false} NothingKeptNothingContributed(
    keep: Table -> bool, process: Table -> Result<seq<Row>, TableError>, tables: seq<Table>)
    requires Filter(keep, tables) == []
    ensures KeptSucceed(keep, process, tables) && Contributions(keep, process, tables) == []
    decreases |tables|
  {
    if tables != [] {
      var init, last := tables[..|tables| - 1], tables[|tables| - 1];
      assert tables == init + [last];
      FilterSnoc(keep, init, last);
      KeptSucceedSnoc(keep, process, init, last);
      ContributionsSnoc(keep, process, init, last);
      NothingKeptNothingContributed(keep, process, init);
    }
  }

  /** Success of consecutive runs of tables is success of each run. */
  lemma {:induction false} KeptSucceedAppend(
    keep: Table -> bool, process: Table -> Result<seq<Row>, TableError>,
    a: seq<Table>, b: seq<Table>)
    ensures KeptSucceed(keep, process, a + b) <==>
              KeptSucceed(keep, process, a) && KeptSucceed(keep, process, b)
    decreases |b|
  {
    if b == [] {
      assert a + b == a;
    } else {
      var init, last := b[..|b| - 1], b[|b| - 1];
      assert b == init + [last];
      assert a + b == (a + init) + [last];
      KeptSucceedAppend(keep, process, a, init);
      KeptSucceedSnoc(keep, process, a + init, last);
      KeptSucceedSnoc(keep, process, init, last);
    }
  }

  /** The contributions of consecutive runs of tables are concatenated in table order. */
  lemma {:induction false} ContributionsAppend(
    keep: Table -> bool, process: Table -> Result<seq<Row>, TableError>,
    a: seq<Table>, b: seq<Table>)
    ensures Contributions(keep, process, a + b) ==
              Contributions(keep, process, a) + Contributions(keep, process, b)
    decreases |b|
  {
    if b == [] {
      assert a + b == a;
    } else {
      var init, last := b[..|b| - 1], b[|b| - 1];
      assert b == init + [last];
      assert a + b == (a + init) + [last];
      ContributionsAppend(keep, process, a, init);
      ContributionsSnoc(keep, process, a + init, last);
      ContributionsSnoc(keep, process, init, last);
    }
  }

  // ---------------------------------------------------------------------------------
  // `extract_tables_from_pdf`.

  /** The tables that pass `is_valid_table`, in extraction order. */
  function ValidTables(tables: seq<Table>): seq<Table>
  {
    Filter(IsValidTable, tables)
  }

  /** `process_table` on each valid table, as the second loop runs it. */
  function ProcessAll(valid: seq<Table>): Result<seq<seq<Row>>, TableError>
  {
    ProcessEach(ReconstructTable, valid)
  }

  /** The records `extract_tables_from_pdf` returns for the extracted `tables`, or `None`
      when there is no table, no valid table, no record, or a valid table raises. */
  function Extract(tables: seq<Table>): Option<seq<Row>>
  {
    if tables == [] then None
    else
      var valid := ValidTables(tables);
      if valid == [] then None
      else
        match ProcessAll(valid)
        case Failure(_) => None
        case Success(processed) => if processed == [] then None else Some(Flatten(processed))
  }

  /** The first loop of `extract_tables_from_pdf`: keep the tables that pass
      `is_valid_table`, in order. */
  method FilterValidTables(tables: seq<Table>) returns (valid: seq<Table>)
    ensures valid == ValidTables(tables)
  {
    valid := [];
    for i := 0 to |tables|
      invariant valid == ValidTables(tables[..i])
    {
      assert tables[..i + 1] == tables[..i] + [tables[i]];
      FilterSnoc(IsValidTable, tables[..i], tables[i]);
      if IsValidTable(tables[i]) {
        valid := valid + [tables[i]];
      }
    }
    assert tables[..|tables|] == tables;
  }

  /** The second loop: process the valid tables one by one and keep every non-empty
      result; the first table that raises ends the loop with its error. */
  method ProcessValidTables(valid: seq<Table>) returns (result: Result<seq<seq<Row>>, TableError>)
    ensures result == ProcessAll(valid)
  {
    var processed: seq<seq<Row>> := [];
    for i := 0 to |valid|
      invariant ProcessAll(valid[..i]) == Success(processed)
    {
      assert valid[..i + 1] == valid[..i] + [valid[i]];
      ProcessEachSnoc(ReconstructTable, valid[..i], valid[i]);
      var r := ProcessTable(valid[i]);
      if r.Failure? {
        ProcessEachFailureSticks(ReconstructTable, valid[..i + 1], valid[i + 1..]);
        assert valid[..i + 1] + valid[i + 1..] == valid;
        return Failure(r.error);
      }
      if r.value != [] {
        processed := processed + [r.value];
      }
    }
    assert valid[..|valid|] == valid;
    return Success(processed);
  }

  /** `extract_tables_from_pdf` once the tables are extracted: no table, no valid
      table, an error raised by a table or no record at all make it produce nothing;
      otherwise it yields the concatenated records. */
  method ExtractTables(tables: seq<Table>) returns (result: Option<seq<Row>>)
    ensures result == Extract(tables)
  {
    if |tables| == 0 {
      return None;
    }
    var valid := FilterValidTables(tables);
    if |valid| == 0 {
      return None;
    }
    var processed := ProcessValidTables(valid);
    if processed.Failure? || |processed.value| == 0 {
      return None;
    }
    return Some(Flatten(processed.value));
  }

  // ---------------------------------------------------------------------------------
  // An independent description of the result.

  /** No valid table has a column count other than ten (one that has makes the
      extraction raise). */
  predicate WellShaped(tables: seq<Table>)
  {
    KeptSucceed(IsValidTable, ReconstructTable, tables)
  }

  /** The records of all tables, table after table: a table contributes the records
      of its reconstruction when it is valid and ten columns wide, and none otherwise. */
  function AllRecords(tables: seq<Table>): seq<Row>
  {
    Contributions(IsValidTable, ReconstructTable, tables)
  }

  /** The tables are well shaped exactly when every valid one has ten columns. */
  lemma {:induction false} WellShapedMeaning(tables: seq<Table>)
    ensures WellShaped(tables) <==>
              forall k :: 0 <= k < |tables| && IsValidTable(tables[k]) ==> tables[k].width == Columns
    decreases |tables|
  {
    if tables != [] {
      var init, last := tables[..|tables| - 1], tables[|tables| - 1];
      assert tables == init + [last];
      KeptSucceedSnoc(IsValidTable, ReconstructTable, init, last);
      ReconstructTableFailsIff(last);
      WellShapedMeaning(init);
      assert forall k :: 0 <= k < |init| ==> init[k] == tables[k];
    }
  }

  /** What one more table adds to the records. */
  lemma AllRecordsSnoc(tables: seq<Table>, t: Table)
    ensures AllRecords(tables + [t]) ==
              AllRecords(tables) +
              if IsValidTable(t) && t.width == Columns then Reconstruct(DataRows(t)) else []
  {
    ContributionsSnoc(IsValidTable, ReconstructTable, tables, t);
    ReconstructTableFailsIff(t);
  }

  /** The extraction yields nothing when a valid table raises or when no table
      contributes a record, and otherwise all the records, table after table. */
  lemma ExtractByTables(tables: seq<Table>)
    ensures Extract(tables) ==
              if !WellShaped(tables) || AllRecords(tables) == [] then None
              else Some(AllRecords(tables))
  {
    ProcessFailsIffKeptFails(IsValidTable, ReconstructTable, tables);
    if ValidTables(tables) == [] {
      NothingKeptNothingContributed(IsValidTable, ReconstructTable, tables);
    } else if ProcessAll(ValidTables(tables)).Success? {
      ProcessCollectsContributions(IsValidTable, ReconstructTable, tables,
                                   ProcessAll(ValidTables(tables)).value);
    }
  }

  /** A table is kept exactly when it is one of the extracted tables and is valid. */
  lemma ValidTablesMembers(tables: seq<Table>, t: Table)
    ensures t in ValidTables(tables) <==> t in tables && IsValidTable(t)
  {
    FilterMembers(IsValidTable, tables, t);
  }

  /** A table that fails validation changes nothing, wherever it stands. */
  lemma InvalidTableIgnored(a: seq<Table>, t: Table, b: seq<Table>)
    requires !IsValidTable(t)
    ensures Extract(a + [t] + b) == Extract(a + b)
  {
    ContributionsSnoc(IsValidTable, ReconstructTable, a, t);
    ContributionsAppend(IsValidTable, ReconstructTable, a + [t], b);
    ContributionsAppend(IsValidTable, ReconstructTable, a, b);
    KeptSucceedSnoc(IsValidTable, ReconstructTable, a, t);
    KeptSucceedAppend(IsValidTable, ReconstructTable, a + [t], b);
    KeptSucceedAppend(IsValidTable, ReconstructTable, a, b);
    assert Contribution(IsValidTable, ReconstructTable, t) == [];
    assert AllRecords(a + [t] + b) == AllRecords(a + b);
    assert WellShaped(a + [t] + b) == WellShaped(a + b);
    ExtractByTables(a + [t] + b);
    ExtractByTables(a + b);
  }

  /** A valid table whose column count is not ten makes the whole extraction produce
      nothing, whatever the other tables hold. */
  lemma MisshapedTableSpoilsAll(a: seq<Table>, t: Table, b: seq<Table>)
    requires IsValidTable(t) && t.width != Columns
    ensures Extract(a + [t] + b) == None
  {
    ReconstructTableFailsIff(t);
    KeptSucceedSnoc(IsValidTable, ReconstructTable, a, t);
    KeptSucceedAppend(IsValidTable, ReconstructTable, a + [t], b);
    ExtractByTables(a + [t] + b);
  }

  /** Two valid ten-column tables: the first one's records, then the second one's. */
  lemma TwoTablesInOrder(t1: Table, t2: Table)
    requires IsValidTable(t1) && IsValidTable(t2) && t1.width == Columns && t2.width == Columns
    requires Reconstruct(DataRows(t1)) + Reconstruct(DataRows(t2)) != []
    ensures Extract([t1, t2]) == Some(Reconstruct(DataRows(t1)) + Reconstruct(DataRows(t2)))
  {
    assert [t1, t2] == [t1] + [t2];
    assert [t1] == [] + [t1];
    ReconstructTableFailsIff(t1);
    ReconstructTableFailsIff(t2);
    AllRecordsSnoc([], t1);
    AllRecordsSnoc([t1], t2);
    KeptSucceedSnoc(IsValidTable, ReconstructTable, [], t1);
    KeptSucceedSnoc(IsValidTable, ReconstructTable, [t1], t2);
    assert AllRecords([]) == [] && WellShaped([]);
    assert AllRecords([t1, t2]) == Reconstruct(DataRows(t1)) + Reconstruct(DataRows(t2));
    assert WellShaped([t1, t2]);
    ExtractByTables([t1, t2]);
  }
}
