/** `is_valid_table`: is a detected table one of the employment-history tables? */
module Validator {
  import opened PyStrings
  import opened Tables

  /** The phrase whose presence in the first line identifies a target table. */
  const Marker: string := "SITUACI\U{D3}N/ES"

  /** Case folding as far as a case-insensitive match against `Marker` can see it:
      simple lower-casing of ASCII and Latin-1 letters, plus the extra equivalences
      Python's regular-expression engine applies when ignoring case
      (dotless i and dotted capital I with i, long s with s, Kelvin sign with k,
      Angstrom sign with a-ring). */
  function Fold(c: char): char
  {
    if 'A' <= c <= 'Z' then c + ('a' - 'A')
    else if '\U{C0}' <= c <= '\U{DE}' && c != '\U{D7}' then c + ('a' - 'A')
    else if c == '\U{130}' || c == '\U{131}' then 'i'
    else if c == '\U{17F}' then 's'
    else if c == '\U{212A}' then 'k'
    else if c == '\U{212B}' then '\U{E5}'
    else c
  }

  /** A character that `\b` treats as part of a word: letters, digits and underscore
      (decided exactly for code points up to U+017F). */
  predicate IsWordChar(c: char)
  {
    || 'a' <= c <= 'z' || 'A' <= c <= 'Z' || '0' <= c <= '9' || c == '_'
    || c == '\U{AA}' || c == '\U{B2}' || c == '\U{B3}' || c == '\U{B5}'
    || c == '\U{B9}' || c == '\U{BA}' || '\U{BC}' <= c <= '\U{BE}'
    || ('\U{C0}' <= c <= '\U{FF}' && c != '\U{D7}' && c != '\U{F7}')
    || '\U{100}' <= c <= '\U{17F}'
  }

  /** `\bSITUACIÓN/ES\b` matches `text` at position `i`, ignoring case. */
  predicate MarkerAt(text: string, i: int)
  {
    && 0 <= i && i + |Marker| <= |text|
    && (forall k :: 0 <= k < |Marker| ==> Fold(text[i + k]) == Fold(Marker[k]))
    && (i == 0 || !IsWordChar(text[i - 1]))
    && (i + |Marker| == |text| || !IsWordChar(text[i + |Marker|]))
  }

  /** `re.search` for the marker, scanning start positions from `from` on. */
  function SearchFrom(text: string, from: nat): bool
    decreases |text| - from
  {
    if from + |Marker| > |text| then false
    else MarkerAt(text, from) || SearchFrom(text, from + 1)
  }

  /** The scan finds the marker exactly when it occurs, as a whole word, at or after
      the position the scan starts from. */
  lemma {:induction false} SearchFromFinds(text: string, from: nat)
    ensures SearchFrom(text, from) <==> exists i :: from <= i && MarkerAt(text, i)
    decreases |text| - from
  {
    if from + |Marker| <= |text| {
      SearchFromFinds(text, from + 1);
    }
  }

  /** The first line's text: its cells stripped and joined with single spaces. */
  function FirstRowText(row: seq<string>): string
  {
    Join(seq(|row|, k requires 0 <= k < |row| => Strip(row[k])))
  }

  /** A table is valid when it has a first line and that line's text holds the
      marker as a whole word, whatever its case. */
  function IsValidTable(t: Table): bool
  {
    |t.rows| > 0 && SearchFrom(FirstRowText(t.rows[0]), 0)
  }

  /** A table is valid exactly when it has a first line whose text holds the marker as
      a whole word somewhere, ignoring case. */
  lemma IsValidTableMeaning(t: Table)
    ensures IsValidTable(t) <==> |t.rows| > 0 && exists i :: MarkerAt(FirstRowText(t.rows[0]), i)
  {
    if |t.rows| > 0 {
      SearchFromFinds(FirstRowText(t.rows[0]), 0);
    }
  }

  /** A match survives appending text that starts with a non-word character. */
  lemma MarkerAtAppend(a: string, b: string, i: int)
    requires MarkerAt(a, i)
    requires b == [] || !IsWordChar(b[0])
    ensures MarkerAt(a + b, i)
  {
    if i + |Marker| < |a| {
      assert (a + b)[i + |Marker|] == a[i + |Marker|];
    } else if b != [] {
      assert (a + b)[i + |Marker|] == b[0];
    }
    if i > 0 {
      assert (a + b)[i - 1] == a[i - 1];
    }
  }

  /** A match survives prepending text that ends with a non-word character. */
  lemma MarkerAtPrepend(a: string, b: string, i: int)
    requires MarkerAt(b, i)
    requires a == [] || !IsWordChar(a[|a| - 1])
    ensures MarkerAt(a + b, |a| + i)
  {
    if i > 0 {
      assert (a + b)[|a| + i - 1] == b[i - 1];
    } else if a != [] {
      assert (a + b)[|a| + i - 1] == a[|a| - 1];
    }
    if i + |Marker| < |b| {
      assert (a + b)[|a| + i + |Marker|] == b[i + |Marker|];
    }
  }

  /** Joining with spaces keeps every whole-word match of every part. */
  lemma {:induction false} MarkerInPartIsInJoin(parts: seq<string>, k: nat, i: int)
    requires k < |parts| && MarkerAt(parts[k], i)
    ensures exists j :: MarkerAt(Join(parts), j)
    decreases |parts|
  {
    if |parts| == 1 {
      assert Join(parts) == parts[0];
    } else if k == 0 {
      assert Join(parts) == parts[0] + (" " + Join(parts[1..]));
      MarkerAtAppend(parts[0], " " + Join(parts[1..]), i);
    } else {
      MarkerInPartIsInJoin(parts[1..], k - 1, i);
      var j :| MarkerAt(Join(parts[1..]), j);
      assert Join(parts) == (parts[0] + " ") + Join(parts[1..]);
      MarkerAtPrepend(parts[0] + " ", Join(parts[1..]), j);
    }
  }

  /** A table whose first line has a cell holding the marker as a whole word is valid,
      whatever the other cells of that line hold. */
  lemma ValidWhenACellHoldsMarker(t: Table, k: nat, i: int)
    requires |t.rows| > 0 && k < |t.rows[0]|
    requires MarkerAt(Strip(t.rows[0][k]), i)
    ensures IsValidTable(t)
  {
    var row := t.rows[0];
    var parts := seq(|row|, c requires 0 <= c < |row| => Strip(row[c]));
    MarkerInPartIsInJoin(parts, k, i);
    IsValidTableMeaning(t);
  }

  /** A table with no lines is never valid. */
  lemma EmptyTableIsInvalid(width: nat)
    ensures !IsValidTable(RawTable(width, []))
  {
  }

  /** A first line ["", "SITUACIÓN/ES", "ALTA"] is accepted. */
  lemma MarkerCellAccepted()
    ensures IsValidTable(SingleLine(["", Marker, "ALTA"]))
  {
    StripOfStripped(Marker);
    assert MarkerAt(Marker, 0);
    ValidWhenACellHoldsMarker(SingleLine(["", Marker, "ALTA"]), 1, 0);
  }

  /** The marker is recognised in lower case too. */
  lemma LowerCaseMarkerAccepted()
    ensures IsValidTable(SingleLine(["", "situaci\U{F3}n/es", "ALTA"]))
  {
    var lower := "situaci\U{F3}n/es";
    StripOfStripped(lower);
    assert MarkerAt(lower, 0);
    ValidWhenACellHoldsMarker(SingleLine(["", lower, "ALTA"]), 1, 0);
  }

  /** A first line ["FECHA", "ALTA"] is rejected: its text is too short to hold the marker. */
  lemma FechaAltaRejected()
    ensures !IsValidTable(SingleLine(["FECHA", "ALTA"]))
  {
    var row := ["FECHA", "ALTA"];
    StripOfStripped(row[0]);
    StripOfStripped(row[1]);
    var parts := seq(|row|, k requires 0 <= k < |row| => Strip(row[k]));
    assert parts == row;
    assert |Join(row)| == 10;
  }

  /** The marker glued to a longer word is not a whole-word match. */
  lemma MarkerInsideWordRejected()
    ensures !IsValidTable(SingleLine(["X" + Marker]))
  {
    var text := FirstRowText(["X" + Marker]);
    assert text == "X" + Marker;
    assert !MarkerAt(text, 0) by { assert Fold(text[0]) != Fold(Marker[0]); }
    assert !MarkerAt(text, 1) by { assert IsWordChar(text[0]); }
    SearchFromFinds(text, 0);
  }
}
