/** The parts of Python's `str` that the converter relies on: `strip()` and `' '.join(...)`. */
module PyStrings {

  /** The characters that Python's `str.isspace()` accepts, which are the ones
      `str.strip()` removes when called without an argument. */
  predicate IsSpace(c: char)
  {
    || c == ' '
    || '\t' <= c <= '\r'               // \t \n \v \f \r
    || '\U{1C}' <= c <= '\U{1F}'      // information separators
    || c == '\U{85}' || c == '\U{A0}' || c == '\U{1680}'
    || '\U{2000}' <= c <= '\U{200A}'
    || c == '\U{2028}' || c == '\U{2029}' || c == '\U{202F}' || c == '\U{205F}' || c == '\U{3000}'
  }

  /** True when `s` neither starts nor ends with whitespace. */
  predicate IsStripped(s: string)
  {
    s == [] || (!IsSpace(s[0]) && !IsSpace(s[|s| - 1]))
  }

  /** `s.strip()`: `s` without its leading and trailing whitespace. */
  function Strip(s: string): string
    decreases |s|
  {
    if s != [] && IsSpace(s[0]) then Strip(s[1..])
    else if s != [] && IsSpace(s[|s| - 1]) then Strip(s[..|s| - 1])
    else s
  }

  /** The result of stripping neither starts nor ends with whitespace, and is no
      longer than the text it came from. */
  lemma {:induction false} StripIsStripped(s: string)
    ensures IsStripped(Strip(s))
    ensures |Strip(s)| <= |s|
    decreases |s|
  {
    if s != [] && IsSpace(s[0]) {
      StripIsStripped(s[1..]);
    } else if s != [] && IsSpace(s[|s| - 1]) {
      StripIsStripped(s[..|s| - 1]);
    }
  }

  /** `s[i..j]` neither starts nor ends with whitespace, and `s` has only whitespace
      before `i` and from `j` on. */
  predicate TrimSpan(s: string, i: nat, j: nat)
  {
    && i <= j <= |s| && IsStripped(s[i..j])
    && (forall k :: 0 <= k < i ==> IsSpace(s[k]))
    && (forall k :: j <= k < |s| ==> IsSpace(s[k]))
  }

  /** `r` is `s` with its leading and trailing whitespace removed. */
  ghost predicate IsTrimOf(r: string, s: string)
  {
    exists i: nat, j: nat :: TrimSpan(s, i, j) && r == s[i..j]
  }

  /** Putting a whitespace character in front moves the span one place on. */
  lemma TrimSpanAfterSpace(s: string, i: nat, j: nat)
    requires s != [] && IsSpace(s[0]) && TrimSpan(s[1..], i, j)
    ensures TrimSpan(s, i + 1, j + 1) && s[1..][i..j] == s[i + 1..j + 1]
  {
    assert forall k :: 1 <= k < |s| ==> s[k] == s[1..][k - 1];
  }

  /** Putting a whitespace character at the end keeps the span. */
  lemma TrimSpanBeforeSpace(s: string, i: nat, j: nat)
    requires s != [] && IsSpace(s[|s| - 1]) && TrimSpan(s[..|s| - 1], i, j)
    ensures TrimSpan(s, i, j) && s[..|s| - 1][i..j] == s[i..j]
  {
    assert forall k :: 0 <= k < |s| - 1 ==> s[k] == s[..|s| - 1][k];
  }

  /** `s.strip()` removes exactly the leading and trailing whitespace of `s`. */
  lemma {:induction false} StripTrims(s: string)
    ensures IsTrimOf(Strip(s), s)
    decreases |s|
  {
    if s != [] && IsSpace(s[0]) {
      StripTrims(s[1..]);
      var i: nat, j: nat :| TrimSpan(s[1..], i, j) && Strip(s[1..]) == s[1..][i..j];
      TrimSpanAfterSpace(s, i, j);
      assert TrimSpan(s, i + 1, j + 1) && Strip(s) == s[i + 1..j + 1];
    } else if s != [] && IsSpace(s[|s| - 1]) {
      StripTrims(s[..|s| - 1]);
      var i: nat, j: nat :| TrimSpan(s[..|s| - 1], i, j) && Strip(s[..|s| - 1]) == s[..|s| - 1][i..j];
      TrimSpanBeforeSpace(s, i, j);
      assert TrimSpan(s, i, j) && Strip(s) == s[i..j];
    } else {
      assert s[0..|s|] == s;
      assert TrimSpan(s, 0, |s|) && Strip(s) == s[0..|s|];
    }
  }

  /** A trimmed form is empty exactly when the text is all whitespace. */
  lemma TrimEmptyIff(s: string, r: string)
    requires IsTrimOf(r, s)
    ensures r == [] <==> forall k :: 0 <= k < |s| ==> IsSpace(s[k])
  {
    var i: nat, j: nat :| TrimSpan(s, i, j) && r == s[i..j];
    if r != [] {
      assert r[0] == s[i];
    }
  }

  /** Two spans of the same text whose slices are non-empty are the same span. */
  lemma TrimSpanUnique(s: string, i1: nat, j1: nat, i2: nat, j2: nat)
    requires TrimSpan(s, i1, j1) && TrimSpan(s, i2, j2) && i1 < j1 && i2 < j2
    ensures i1 == i2 && j1 == j2
  {
    assert s[i1..j1][0] == s[i1] && s[i1..j1][j1 - i1 - 1] == s[j1 - 1];
    assert s[i2..j2][0] == s[i2] && s[i2..j2][j2 - i2 - 1] == s[j2 - 1];
  }

  /** A text has a single trimmed form, so `IsTrimOf` pins `s.strip()` down. */
  lemma TrimIsUnique(s: string, r1: string, r2: string)
    requires IsTrimOf(r1, s) && IsTrimOf(r2, s)
    ensures r1 == r2
  {
    TrimEmptyIff(s, r1);
    TrimEmptyIff(s, r2);
    if r1 != [] && r2 != [] {
      var i1: nat, j1: nat :| TrimSpan(s, i1, j1) && r1 == s[i1..j1];
      var i2: nat, j2: nat :| TrimSpan(s, i2, j2) && r2 == s[i2..j2];
      TrimSpanUnique(s, i1, j1, i2, j2);
    }
  }

  /** Stripping a text without surrounding whitespace leaves it as it is. */
  lemma StripOfStripped(s: string)
    requires IsStripped(s)
    ensures Strip(s) == s
  {
  }

  /** `s.strip()` is empty exactly when `s` is made of whitespace only. */
  lemma {:induction false} StripEmptyIff(s: string)
    ensures Strip(s) == [] <==> forall k :: 0 <= k < |s| ==> IsSpace(s[k])
    decreases |s|
  {
    if s != [] && IsSpace(s[0]) {
      StripEmptyIff(s[1..]);
      assert forall k :: 1 <= k < |s| ==> s[k] == s[1..][k - 1];
    } else if s != [] && IsSpace(s[|s| - 1]) {
      StripEmptyIff(s[..|s| - 1]);
      assert forall k :: 0 <= k < |s| - 1 ==> s[k] == s[..|s| - 1][k];
    }
  }

  /** Stripping leaves a non-empty text when there is a non-whitespace character. */
  lemma StripNonBlank(s: string, k: nat)
    requires k < |s| && !IsSpace(s[k])
    ensures Strip(s) != ""
  {
    StripEmptyIff(s);
  }

  /** Stripping `a + " " + b` changes nothing when `a` and `b` are non-empty and stripped. */
  lemma StripSpaceJoined(a: string, b: string)
    ensures a != "" && b != "" && IsStripped(a) && IsStripped(b) ==> Strip(a + " " + b) == a + " " + b
  {
    if a != "" && b != "" && IsStripped(a) && IsStripped(b) {
      var joined := a + " " + b;
      assert joined[0] == a[0];
      assert joined[|joined| - 1] == b[|b| - 1];
      StripOfStripped(joined);
    }
  }

  /** `' '.join(parts)`: the parts separated by single spaces. */
  function Join(parts: seq<string>): string
  {
    if |parts| == 0 then ""
    else if |parts| == 1 then parts[0]
    else parts[0] + " " + Join(parts[1..])
  }
}
