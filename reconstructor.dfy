/** `process_table`: rebuilding logical records from the physical lines of one table.

    The PDF prints a long entry (an employer name, say) over several lines. Only the
    first line of an entry carries its DÍAS (days) value, so a line with a DÍAS value
    opens a new record and a line without one continues the open record: each of its
    non-empty cells is appended, column by column, to the open record's cell. */
module RowReconstructor {
  import opened Wrappers
  import opened PyStrings
  import opened Tables

  /** `has_dias_value`, and the same test applied to a continuation cell: the cell is
      non-empty and, stripped, is neither empty nor the text "nan" (a missing value
      printed as text). */
  predicate HasValue(cell: string)
  {
    cell != "" && Strip(cell) != "" && Strip(cell) != "nan"
  }

  /** A cell has a value exactly when it holds a non-whitespace character and does not
      read "nan" once stripped. */
  lemma HasValueMeaning(cell: string)
    ensures HasValue(cell) <==> (exists k :: 0 <= k < |cell| && !IsSpace(cell[k])) && Strip(cell) != "nan"
  {
    StripEmptyIff(cell);
  }

  /** A line is an anchor (it starts a new record) when its DÍAS cell has a value. */
  predicate HasDias(row: Row)
  {
    HasValue(row[DiasColumn])
  }

  /** How one cell of a continuation line is folded into the open record's cell. */
  function MergeCell(current: string, cell: string): string
  {
    if !HasValue(cell) then current
    else if current != "" then Strip(current + " " + cell)
    else cell
  }

  /** A cell without a value leaves the record's cell alone; a value lands in an empty
      record cell as it is, and is otherwise joined to it by one space and the leading
      and trailing whitespace of the whole removed, so that two trimmed texts are joined
      exactly as `current + " " + cell`. */
  lemma MergeCellMeaning(current: string, cell: string)
    ensures !HasValue(cell) ==> MergeCell(current, cell) == current
    ensures HasValue(cell) && current == "" ==> MergeCell(current, cell) == cell
    ensures HasValue(cell) && current != "" ==>
              MergeCell(current, cell) != "" && IsTrimOf(MergeCell(current, cell), current + " " + cell)
    ensures HasValue(cell) && current != "" && IsStripped(current) && IsStripped(cell) ==>
              MergeCell(current, cell) == current + " " + cell
  {
    if HasValue(cell) && current != "" {
      HasValueMeaning(cell);
      var k :| 0 <= k < |cell| && !IsSpace(cell[k]);
      assert (current + " " + cell)[|current| + 1 + k] == cell[k];
      StripNonBlank(current + " " + cell, |current| + 1 + k);
      StripSpaceJoined(current, cell);
      StripTrims(current + " " + cell);
    }
  }

  /** A continuation line folded into the open record, every column independently. */
  function MergeRow(current: Row, row: Row): Row
  {
    seq(Columns, j requires 0 <= j < Columns => MergeCell(current[j], row[j]))
  }

  /** Merging a continuation line never changes the DÍAS cell, and a continuation
      line without any value changes nothing at all. */
  lemma MergeRowKeeps(current: Row, row: Row)
    ensures !HasDias(row) ==> MergeRow(current, row)[DiasColumn] == current[DiasColumn]
    ensures (forall j :: 0 <= j < Columns ==> !HasValue(row[j])) ==> MergeRow(current, row) == current
  {
  }

  /** The reconstruction as a state machine: the records already finished and the
      record still open (none before the first anchor). */
  datatype State = State(finished: seq<Row>, current: Option<Row>)

  const Start: State := State([], None)

  /** The records a state stands for once the open one is finished too. */
  function Finish(s: State): seq<Row>
  {
    s.finished + if s.current.Some? then [s.current.value] else []
  }

  /** One line through the state machine: an anchor finishes the open record and opens
      a new one; a continuation is merged into the open record, or dropped if none is open. */
  function Step(s: State, row: Row): State
  {
    if HasDias(row) then State(Finish(s), Some(row))
    else if s.current.Some? then State(s.finished, Some(MergeRow(s.current.value, row)))
    else s
  }

  /** The state after feeding `rows` to the machine in order. */
  function Run(s: State, rows: seq<Row>): State
    decreases |rows|
  {
    if rows == [] then s else Step(Run(s, rows[..|rows| - 1]), rows[|rows| - 1])
  }

  /** The records rebuilt from the body of a table (its lines after the boilerplate). */
  function Reconstruct(body: seq<Row>): seq<Row>
  {
    Finish(Run(Start, body))
  }

  // ---------------------------------------------------------------------------------
  // An independent description of the result: one record per anchor line.

  /** The positions of the anchor lines, in increasing order. */
  function Anchors(body: seq<Row>): (a: seq<nat>)
    ensures forall k :: 0 <= k < |a| ==> a[k] < |body|
    ensures forall k, l :: 0 <= k < l < |a| ==> a[k] < a[l]
  {
    if body == [] then []
    else
      var last: seq<nat> := if HasDias(body[|body| - 1]) then [|body| - 1] else [];
      assert |last| <= 1 && forall k :: 0 <= k < |last| ==> last[k] == |body| - 1;
      Anchors(body[..|body| - 1]) + last
  }

  lemma {:induction false} AnchorsAreAnchors(body: seq<Row>)
    ensures forall k :: 0 <= k < |Anchors(body)| ==> HasDias(body[Anchors(body)[k]])
    ensures forall i :: 0 <= i < |body| && HasDias(body[i]) ==> i in Anchors(body)
    decreases |body|
  {
    if body != [] {
      var p := body[..|body| - 1];
      AnchorsAreAnchors(p);
      assert forall i :: 0 <= i < |p| ==> body[i] == p[i];
    }
  }

  /** The line at `lo` with the lines from `lo + 1` up to `hi` (excluded) merged into it,
      in order. */
  function Group(body: seq<Row>, lo: nat, hi: nat): Row
    requires lo < hi <= |body|
    decreases hi
  {
    if hi == lo + 1 then body[lo] else MergeRow(Group(body, lo, hi - 1), body[hi - 1])
  }

  /** Where the entry opened by the `k`-th of the anchors `a` ends: at the next anchor,
      or at the end `n` of the body. */
  function EntryEnd(a: seq<nat>, n: nat, k: nat): nat
    requires k < |a|
  {
    if k + 1 < |a| then a[k + 1] else n
  }

  /** The entry opened by the `k`-th of the anchors `a`, its continuation lines merged in. */
  function RecordIn(body: seq<Row>, a: seq<nat>, k: nat): Row
    requires k < |a| && a[k] < EntryEnd(a, |body|, k) <= |body|
  {
    Group(body, a[k], EntryEnd(a, |body|, k))
  }

  /** Where the entry opened by the `k`-th anchor ends: at the next anchor, or at the
      end of the body. */
  function GroupEnd(body: seq<Row>, k: nat): (hi: nat)
    requires k < |Anchors(body)|
    ensures Anchors(body)[k] < hi <= |body|
  {
    EntryEnd(Anchors(body), |body|, k)
  }

  /** The `k`-th record: the `k`-th anchor line with its continuation lines merged in. */
  function Record(body: seq<Row>, k: nat): Row
    requires k < |Anchors(body)|
  {
    assert GroupEnd(body, k) == EntryEnd(Anchors(body), |body|, k);
    RecordIn(body, Anchors(body), k)
  }

  /** What the state after a prefix of the body stands for: one record per anchor seen
      so far, each the anchor merged with the continuation lines seen after it. */
  ghost predicate Accounts(body: seq<Row>, s: State)
  {
    && |Finish(s)| == |Anchors(body)|
    && (s.current.Some? <==> |Anchors(body)| > 0)
    && forall k :: 0 <= k < |Finish(s)| ==> Finish(s)[k] == Record(body, k)
  }

  /** Appending a line adds its position to the anchors exactly when it is an anchor. */
  lemma AnchorsSnoc(p: seq<Row>, row: Row)
    ensures HasDias(row) ==> Anchors(p + [row]) == Anchors(p) + [|p|]
    ensures !HasDias(row) ==> Anchors(p + [row]) == Anchors(p)
  {
    assert (p + [row])[..|p|] == p;
  }

  /** Appending a line does not change a group that ends before it. */
  lemma {:induction false} GroupOfPrefix(p: seq<Row>, row: Row, lo: nat, hi: nat)
    requires lo < hi <= |p|
    ensures Group(p + [row], lo, hi) == Group(p, lo, hi)
    decreases hi
  {
    if hi > lo + 1 {
      GroupOfPrefix(p, row, lo, hi - 1);
      assert (p + [row])[hi - 1] == p[hi - 1];
    }
  }

  /** A record whose entry ended before the appended line is not changed by it. */
  lemma RecordOfPrefix(p: seq<Row>, row: Row, k: nat)
    requires k < |Anchors(p)|
    requires k + 1 < |Anchors(p)| || HasDias(row)
    ensures k < |Anchors(p + [row])| && Record(p + [row], k) == Record(p, k)
  {
    AnchorsSnoc(p, row);
    var lo, hi := Anchors(p)[k], GroupEnd(p, k);
    assert GroupEnd(p + [row], k) == hi;
    GroupOfPrefix(p, row, lo, hi);
  }

  /** Appending a line to the body extends the group that reaches the end of the body
      by that line. */
  lemma GroupExtends(p: seq<Row>, row: Row, lo: nat)
    requires lo < |p|
    ensures Group(p + [row], lo, |p| + 1) == MergeRow(Group(p, lo, |p|), row)
  {
    GroupOfPrefix(p, row, lo, |p|);
    assert (p + [row])[|p|] == row;
  }

  /** A continuation line extends the last record. */
  lemma RecordExtend(p: seq<Row>, row: Row, n: nat)
    requires 0 < n == |Anchors(p)| == |Anchors(p + [row])|
    requires Anchors(p + [row])[n - 1] == Anchors(p)[n - 1]
    ensures Record(p + [row], n - 1) == MergeRow(Record(p, n - 1), row)
  {
    var lo := Anchors(p)[n - 1];
    assert Record(p + [row], n - 1) == Group(p + [row], lo, |p| + 1);
    assert Record(p, n - 1) == Group(p, lo, |p|);
    GroupExtends(p, row, lo);
  }

  /** An anchor line opens a record of its own. */
  lemma RecordNew(p: seq<Row>, row: Row)
    requires HasDias(row)
    ensures Anchors(p + [row]) == Anchors(p) + [|p|]
    ensures Record(p + [row], |Anchors(p)|) == row
  {
    AnchorsSnoc(p, row);
  }

  /** An anchor line keeps the records seen so far and opens one of its own. */
  lemma StepAnchor(p: seq<Row>, row: Row, s: State)
    requires Accounts(p, s) && HasDias(row)
    ensures Accounts(p + [row], Step(s, row))
  {
    var s' := Step(s, row);
    RecordNew(p, row);
    assert Finish(s') == Finish(s) + [row];
    forall k | 0 <= k < |Anchors(p)| ensures Finish(s')[k] == Record(p + [row], k) {
      RecordOfPrefix(p, row, k);
    }
  }

  /** A continuation line extends the open record and leaves the others alone. */
  lemma StepContinuation(p: seq<Row>, row: Row, s: State)
    requires Accounts(p, s) && !HasDias(row) && s.current.Some?
    ensures Accounts(p + [row], Step(s, row))
  {
    AnchorsSnoc(p, row);
    var n := |Anchors(p)|;
    RecordExtend(p, row, n);
    var merged := MergeRow(s.current.value, row);
    var s' := State(s.finished, Some(merged));
    assert Step(s, row) == s';
    assert Finish(s) == s.finished + [s.current.value];
    assert Finish(s') == s.finished + [merged];
    forall k | 0 <= k < n ensures Finish(s')[k] == Record(p + [row], k) {
      if k < n - 1 {
        RecordOfPrefix(p, row, k);
        assert Finish(s')[k] == Finish(s)[k];
      }
    }
  }

  /** Running the machine over any body leaves it in a state that accounts for the body. */
  lemma {:induction false} RunAccounts(body: seq<Row>)
    ensures Accounts(body, Run(Start, body))
    decreases |body|
  {
    if body == [] {
      assert Anchors(body) == [];
    } else {
      var p, row := body[..|body| - 1], body[|body| - 1];
      assert body == p + [row];
      RunAccounts(p);
      var s := Run(Start, p);
      if HasDias(row) {
        StepAnchor(p, row, s);
      } else if s.current.Some? {
        StepContinuation(p, row, s);
      } else {
        AnchorsSnoc(p, row);
      }
    }
  }

  /** The reconstruction yields exactly one record per anchor line, in the anchors'
      order, and the `k`-th record is the `k`-th anchor line with the continuation lines
      up to the next anchor merged into it in order. */
  lemma ReconstructByAnchors(body: seq<Row>)
    ensures |Reconstruct(body)| == |Anchors(body)|
    ensures forall k :: 0 <= k < |Anchors(body)| ==> Reconstruct(body)[k] == Record(body, k)
  {
    RunAccounts(body);
  }

  // ---------------------------------------------------------------------------------
  // Consequences.

  /** No position strictly between two neighbouring anchors is an anchor. */
  lemma BetweenAnchors(body: seq<Row>, k: nat, i: nat)
    requires k < |Anchors(body)| && Anchors(body)[k] < i < GroupEnd(body, k)
    ensures i !in Anchors(body)
  {
    var a := Anchors(body);
    forall m | 0 <= m < |a| ensures a[m] != i {
      if m < k {
        assert a[m] < a[k];
      } else if m > k + 1 {
        assert a[k + 1] < a[m];
      }
    }
  }

  /** Merging continuation lines into a record never touches its DÍAS cell. */
  lemma {:induction false} GroupKeepsDias(body: seq<Row>, lo: nat, hi: nat)
    requires lo < hi <= |body|
    requires forall i :: lo < i < hi ==> !HasDias(body[i])
    ensures Group(body, lo, hi)[DiasColumn] == body[lo][DiasColumn]
    decreases hi
  {
    if hi > lo + 1 {
      GroupKeepsDias(body, lo, hi - 1);
      MergeRowKeeps(Group(body, lo, hi - 1), body[hi - 1]);
    }
  }

  /** Every record carries the DÍAS value of the anchor line it was opened by, so
      every record has a DÍAS value. */
  lemma RecordDias(body: seq<Row>, k: nat)
    requires k < |Anchors(body)|
    ensures Record(body, k)[DiasColumn] == body[Anchors(body)[k]][DiasColumn]
    ensures HasDias(Record(body, k))
  {
    AnchorsAreAnchors(body);
    var lo, hi := Anchors(body)[k], GroupEnd(body, k);
    forall i | lo < i < hi ensures !HasDias(body[i]) {
      BetweenAnchors(body, k, i);
    }
    GroupKeepsDias(body, lo, hi);
  }

  /** The records of a body come in the order of their anchors and each has the DÍAS
      value of its anchor. */
  lemma ReconstructKeepsDias(body: seq<Row>)
    ensures |Reconstruct(body)| == |Anchors(body)|
    ensures forall k :: 0 <= k < |Reconstruct(body)| ==>
              Reconstruct(body)[k][DiasColumn] == body[Anchors(body)[k]][DiasColumn]
    ensures forall r :: r in Reconstruct(body) ==> HasDias(r)
  {
    ReconstructByAnchors(body);
    forall k | 0 <= k < |Reconstruct(body)|
      ensures Reconstruct(body)[k][DiasColumn] == body[Anchors(body)[k]][DiasColumn]
      ensures HasDias(Reconstruct(body)[k])
    {
      RecordDias(body, k);
    }
  }

  /** When every line is an anchor, the records are the lines themselves, in order. */
  lemma {:induction false} AllAnchorsVerbatim(body: seq<Row>)
    requires forall r :: r in body ==> HasDias(r)
    ensures Reconstruct(body) == body
    decreases |body|
  {
    if body != [] {
      var p, row := body[..|body| - 1], body[|body| - 1];
      assert body == p + [row];
      assert forall r :: r in p ==> r in body;
      AllAnchorsVerbatim(p);
      assert row in body;
    }
  }

  /** Feeding two stretches of lines one after the other. */
  lemma {:induction false} RunAppend(s: State, p: seq<Row>, q: seq<Row>)
    ensures Run(s, p + q) == Run(Run(s, p), q)
    decreases |q|
  {
    if q == [] {
      assert p + q == p;
    } else {
      assert (p + q)[..|p + q| - 1] == p + q[..|q| - 1];
      RunAppend(s, p, q[..|q| - 1]);
    }
  }

  /** Continuation lines seen before any anchor leave the machine where it started. */
  lemma {:induction false} RunWithoutAnchors(lead: seq<Row>)
    requires forall r :: r in lead ==> !HasDias(r)
    ensures Run(Start, lead) == Start
    decreases |lead|
  {
    if lead != [] {
      assert lead[|lead| - 1] in lead;
      assert forall r :: r in lead[..|lead| - 1] ==> r in lead;
      RunWithoutAnchors(lead[..|lead| - 1]);
    }
  }

  /** A body without anchor lines yields no record. */
  lemma NoAnchorsNoRecords(body: seq<Row>)
    requires forall r :: r in body ==> !HasDias(r)
    ensures Reconstruct(body) == []
  {
    RunWithoutAnchors(body);
  }

  /** Continuation lines before the first anchor are dropped. */
  lemma LeadingContinuationsDropped(lead: seq<Row>, body: seq<Row>)
    requires forall r :: r in lead ==> !HasDias(r)
    ensures Reconstruct(lead + body) == Reconstruct(body)
  {
    RunAppend(Start, lead, body);
    RunWithoutAnchors(lead);
  }

  /** Records finished earlier are carried along untouched. */
  lemma {:induction false} RunCarriesFinished(done: seq<Row>, c: Option<Row>, rows: seq<Row>)
    ensures Run(State(done, c), rows) ==
              State(done + Run(State([], c), rows).finished, Run(State([], c), rows).current)
    decreases |rows|
  {
    if rows != [] {
      RunCarriesFinished(done, c, rows[..|rows| - 1]);
      var s := Run(State([], c), rows[..|rows| - 1]);
      assert Finish(State(done + s.finished, s.current)) == done + Finish(s);
    }
  }

  /** A body cut just before an anchor line reconstructs piece by piece: the records of
      the first piece, then those of the second. */
  lemma ReconstructSplitsAtAnchor(body1: seq<Row>, body2: seq<Row>)
    requires body2 == [] || HasDias(body2[0])
    ensures Reconstruct(body1 + body2) == Reconstruct(body1) + Reconstruct(body2)
  {
    if body2 == [] {
      assert body1 + body2 == body1;
    } else {
      var x, rest := body2[0], body2[1..];
      assert body2 == [x] + rest;
      assert body1 + body2 == (body1 + [x]) + rest;
      RunAppend(Start, body1 + [x], rest);
      RunAppend(Start, [x], rest);
      assert [x][..0] == [];
      var afterX := Run(Start, body1 + [x]);
      assert afterX == State(Reconstruct(body1), Some(x));
      assert Run(Start, [x]) == State([], Some(x));
      RunCarriesFinished(Reconstruct(body1), Some(x), rest);
      var r := Run(State([], Some(x)), rest);
      assert Finish(State(Reconstruct(body1) + r.finished, r.current)) == Reconstruct(body1) + Finish(r);
    }
  }

  /** An anchor followed by one continuation line gives one record: the anchor with the
      continuation merged into it. */
  lemma AnchorThenContinuation(anchor: Row, cont: Row)
    requires HasDias(anchor) && !HasDias(cont)
    ensures Reconstruct([anchor, cont]) == [MergeRow(anchor, cont)]
  {
    assert [anchor, cont][..1] == [anchor];
    assert [anchor][..0] == [];
    assert Run(Start, [anchor]) == State([], Some(anchor));
    assert Run(Start, [anchor, cont]) == State([], Some(MergeRow(anchor, cont)));
  }

  /** An employer name wrapped onto a second line is put back together with a single
      space, and the other columns keep the anchor line's values. */
  lemma WrappedNameJoined(anchor: Row, cont: Row)
    requires HasDias(anchor)
    requires forall j :: 0 <= j < Columns && j != NameColumn ==> !HasValue(cont[j])
    requires HasValue(cont[NameColumn]) && IsStripped(cont[NameColumn])
    requires anchor[NameColumn] != "" && IsStripped(anchor[NameColumn])
    ensures |Reconstruct([anchor, cont])| == 1
    ensures Reconstruct([anchor, cont])[0][NameColumn] == anchor[NameColumn] + " " + cont[NameColumn]
    ensures forall j :: 0 <= j < Columns && j != NameColumn ==> Reconstruct([anchor, cont])[0][j] == anchor[j]
  {
    AnchorThenContinuation(anchor, cont);
  }
}
