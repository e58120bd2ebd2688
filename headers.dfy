/**
 * Column-header normalisation and projection of the fetched Treasury table
 * (update_yield_data.py, lines 21-43): every header is stripped of surrounding
 * whitespace, renamed through a fixed table, and the frame is then cut down to
 * the fifteen canonical columns in their canonical order.
 */
module Headers {
  import opened Wrappers

  // ---------------------------------------------------------------------------
  // Whitespace stripping (pandas `Index.str.strip()`, i.e. Python `str.strip()`)
  // ---------------------------------------------------------------------------

  /** The ASCII characters for which Python's `str.isspace()` holds. */
  const AsciiWhitespace: string := " \t\n\r\U{0B}\U{0C}\U{1C}\U{1D}\U{1E}\U{1F}"

  /** The characters for which Python's `str.isspace()` holds. */
  predicate IsSpace(c: char)
    ensures c <= '\U{7F}' ==> (IsSpace(c) <==> c in AsciiWhitespace)
  {
    if c < '\U{85}' then
      ('\t' <= c <= '\r') || ('\U{1C}' <= c <= ' ')
    else
      WideSpace(c)
  }

  /** The whitespace characters at or above U+0085. */
  predicate WideSpace(c: char) {
    || c == '\U{85}' || c == '\U{A0}' || c == '\U{1680}'
    || ('\U{2000}' <= c <= '\U{200A}')
    || c == '\U{2028}' || c == '\U{2029}' || c == '\U{202F}' || c == '\U{205F}' || c == '\U{3000}'
  }

  /** Every character of `s` from `lo` up to `hi` is whitespace. */
  predicate SpaceBetween(s: string, lo: int, hi: int)
    requires 0 <= lo && hi <= |s|
  {
    forall k :: lo <= k < hi ==> IsSpace(s[k])
  }

  /** Neither the first nor the last character of `s` is whitespace. */
  predicate NoEdgeSpace(s: string) {
    s == [] || (!IsSpace(s[0]) && !IsSpace(s[|s| - 1]))
  }

  /** `r` is the piece of `s` starting at `i`, with only whitespace around it and none at its own edges. */
  ghost predicate StrippedAt(s: string, i: int, r: string) {
    && NoEdgeSpace(r)
    && 0 <= i <= |s| - |r| && s[i..i + |r|] == r
    && SpaceBetween(s, 0, i) && SpaceBetween(s, i + |r|, |s|)
  }

  /** `r` is `s` with all of its leading and all of its trailing whitespace removed. */
  ghost predicate Stripped(s: string, r: string) {
    exists i :: StrippedAt(s, i, r)
  }

  /** The index of the first non-whitespace character at or after `i`, or `|s|` when there is none. */
  function SkipSpaces(s: string, i: nat): (j: nat)
    requires i <= |s|
    ensures i <= j <= |s| && SpaceBetween(s, i, j)
    ensures j == |s| || !IsSpace(s[j])
    decreases |s| - i
  {
    if i < |s| && IsSpace(s[i]) then SkipSpaces(s, i + 1) else i
  }

  /** The index just past the last non-whitespace character in `s[lo..j]`, or `lo` when there is none. */
  function SkipSpacesBack(s: string, lo: nat, j: nat): (e: nat)
    requires lo <= j <= |s|
    ensures lo <= e <= j && SpaceBetween(s, e, j)
    ensures e == lo || !IsSpace(s[e - 1])
  {
    if lo < j && IsSpace(s[j - 1]) then SkipSpacesBack(s, lo, j - 1) else j
  }

  /** Python's `str.strip()`. */
  function Strip(s: string): (r: string)
    ensures |r| <= |s| && NoEdgeSpace(r)
  {
    var i := SkipSpaces(s, 0);
    var e := SkipSpacesBack(s, i, |s|);
    assert e > i ==> s[i..e][0] == s[i] && s[i..e][e - i - 1] == s[e - 1];
    s[i..e]
  }

  /** Once the first non-space position is known, SkipSpaces is determined. */
  lemma {:induction false} SkipSpacesAt(s: string, i: nat, j: nat)
    requires i <= j <= |s| && SpaceBetween(s, i, j) && (j == |s| || !IsSpace(s[j]))
    ensures SkipSpaces(s, i) == j
    decreases j - i
  {
    if i < j {
      SkipSpacesAt(s, i + 1, j);
    }
  }

  /** Once the position after the last non-space character is known, SkipSpacesBack is determined. */
  lemma {:induction false} SkipSpacesBackAt(s: string, lo: nat, j: nat, e: nat)
    requires lo <= e <= j <= |s| && SpaceBetween(s, e, j) && (e == lo || !IsSpace(s[e - 1]))
    ensures SkipSpacesBack(s, lo, j) == e
    decreases j - e
  {
    if e < j {
      SkipSpacesBackAt(s, lo, j - 1, e);
    }
  }

  /** Strip removes exactly the surrounding whitespace. */
  lemma StripCorrect(s: string)
    ensures Stripped(s, Strip(s))
  {
    var i := SkipSpaces(s, 0);
    var e := SkipSpacesBack(s, i, |s|);
    var r := s[i..e];
    assert NoEdgeSpace(r) by {
      if r != [] {
        assert r[0] == s[i] && r[|r| - 1] == s[e - 1];
      }
    }
    assert StrippedAt(s, i, r);
  }

  /** The stripped form is unique: any `r` that `Stripped` admits is `Strip(s)`. */
  lemma StripUnique(s: string, r: string)
    requires Stripped(s, r)
    ensures r == Strip(s)
  {
    var i :| StrippedAt(s, i, r);
    if r == [] {
      SkipSpacesAt(s, 0, |s|);
      SkipSpacesBackAt(s, |s|, |s|, |s|);
    } else {
      assert s[i] == r[0] && s[i + |r| - 1] == r[|r| - 1];
      SkipSpacesAt(s, 0, i);
      SkipSpacesBackAt(s, i, |s|, i + |r|);
    }
  }

  /** Stripping a second time changes nothing. */
  lemma StripIdempotent(s: string)
    ensures Strip(Strip(s)) == Strip(s)
  {
    var r := Strip(s);
    StripCorrect(s);
    StripOfClean(r);
  }

  /** A string without surrounding whitespace is its own stripped form. */
  lemma StripOfClean(s: string)
    requires NoEdgeSpace(s)
    ensures Strip(s) == s
  {
    assert s[0..0 + |s|] == s;
    assert StrippedAt(s, 0, s);
    StripUnique(s, s);
  }

  // ---------------------------------------------------------------------------
  // Renaming (lines 22-39)
  // ---------------------------------------------------------------------------

  /** The fixed rename table of the script. */
  const RenameTable: map<string, string> := map[
    "Date" := "Date",
    "1 Mo" := "1 Mo",
    "1.5 Month" := "1.5 Mo",
    "2 Mo" := "2 Mo",
    "3 Mo" := "3 Mo",
    "4 Mo" := "4 Mo",
    "6 Mo" := "6 Mo",
    "1 Yr" := "1 Yr",
    "2 Yr" := "2 Yr",
    "3 Yr" := "3 Yr",
    "5 Yr" := "5 Yr",
    "7 Yr" := "7 Yr",
    "10 Yr" := "10 Yr",
    "20 Yr" := "20 Yr",
    "30 Yr" := "30 Yr"
  ]

  /** pandas `rename(columns=...)`: a header in the table takes its image, any other is kept. */
  function Rename(header: string): (r: string)
    ensures r == if header == "1.5 Month" then "1.5 Mo" else header
  {
    if header in RenameTable then RenameTable[header] else header
  }

  /** Lines 21 and 39 applied to one header. */
  function NormaliseHeader(header: string): (r: string)
    ensures Strip(header) == "1.5 Month" ==> r == "1.5 Mo"
    ensures Strip(header) != "1.5 Month" ==> Stripped(header, r)
  {
    StripCorrect(header);
    Rename(Strip(header))
  }

  /** The canonical column list (line 42). */
  const RelevantCols: seq<string> :=
    ["Date", "1 Mo", "1.5 Mo", "2 Mo", "3 Mo", "4 Mo", "6 Mo", "1 Yr", "2 Yr", "3 Yr", "5 Yr", "7 Yr", "10 Yr", "20 Yr", "30 Yr"]

  /** A header without surrounding whitespace is only renamed. */
  lemma NormaliseClean(s: string)
    requires NoEdgeSpace(s)
    ensures NormaliseHeader(s) == Rename(s)
  {
    StripOfClean(s);
  }

  /** Normalising a header twice gives what normalising it once gives. */
  lemma NormaliseHeaderIdempotent(header: string)
    ensures NormaliseHeader(NormaliseHeader(header)) == NormaliseHeader(header)
  {
    var x := Strip(header);
    assert NoEdgeSpace(x) by { StripCorrect(header); }
    if x == "1.5 Month" {
      var mo: string := "1.5 Mo";
      assert NoEdgeSpace(mo) by { assert mo[0] == '1' && mo[|mo| - 1] == 'o'; }
      NormaliseClean(mo);
    } else {
      NormaliseClean(x);
    }
  }

  /** Every canonical name passes through normalisation unchanged. */
  lemma CanonicalNamesAreFixed(k: nat)
    requires k < |RelevantCols|
    ensures NormaliseHeader(RelevantCols[k]) == RelevantCols[k]
  {
    var name := RelevantCols[k];
    assert NoEdgeSpace(name);
    StripOfClean(name);
  }

  // ---------------------------------------------------------------------------
  // Frames and projection (lines 21, 39, 43)
  // ---------------------------------------------------------------------------

  /** A table as `pd.read_csv` delivers it: a header row and rows of text cells. */
  datatype Frame = Frame(columns: seq<string>, rows: seq<seq<string>>)

  /** Every row has one cell per column, as pandas guarantees for a parsed CSV. */
  predicate Rectangular(f: Frame) {
    forall i :: 0 <= i < |f.rows| ==> |f.rows[i]| == |f.columns|
  }

  /** Lines 21 and 39: every header normalised, the cells untouched. */
  function Normalise(f: Frame): (r: Frame)
    ensures |r.columns| == |f.columns| && r.rows == f.rows
    ensures forall j :: 0 <= j < |f.columns| ==> r.columns[j] == NormaliseHeader(f.columns[j])
  {
    Frame(seq(|f.columns|, j requires 0 <= j < |f.columns| => NormaliseHeader(f.columns[j])), f.rows)
  }

  /** The positions of every column labelled `name`, in increasing order. */
  function Occurrences(columns: seq<string>, name: string): (ix: seq<nat>)
    ensures forall k :: 0 <= k < |ix| ==> ix[k] < |columns| && columns[ix[k]] == name
    ensures forall j :: 0 <= j < |columns| && columns[j] == name ==> j in ix
    ensures forall k, l :: 0 <= k < l < |ix| ==> ix[k] < ix[l]
  {
    if columns == [] then []
    else
      var last := |columns| - 1;
      var rest := Occurrences(columns[..last], name);
      if columns[last] == name then rest + [last] else rest
  }

  /** `name` labels exactly one column. */
  ghost predicate OccursOnce(columns: seq<string>, name: string) {
    && name in columns
    && forall i, j :: 0 <= i < |columns| && 0 <= j < |columns| && columns[i] == name && columns[j] == name ==> i == j
  }

  lemma {:induction false} OccurrencesAbsent(columns: seq<string>, name: string)
    requires name !in columns
    ensures Occurrences(columns, name) == []
  {
    if columns != [] {
      OccurrencesAbsent(columns[..|columns| - 1], name);
    }
  }

  lemma {:induction false} OccurrencesOfOnce(columns: seq<string>, name: string, j: nat)
    requires j < |columns| && columns[j] == name
    requires forall i :: 0 <= i < |columns| && columns[i] == name ==> i == j
    ensures Occurrences(columns, name) == [j]
  {
    var last := |columns| - 1;
    var init := columns[..last];
    if j == last {
      assert name !in init;
      OccurrencesAbsent(init, name);
    } else {
      OccurrencesOfOnce(init, name, j);
    }
  }

  lemma OccursOnceIff(columns: seq<string>, name: string)
    ensures OccursOnce(columns, name) <==> |Occurrences(columns, name)| == 1
  {
    var ix := Occurrences(columns, name);
    if OccursOnce(columns, name) {
      var j :| 0 <= j < |columns| && columns[j] == name;
      OccurrencesOfOnce(columns, name, j);
    }
    if |ix| == 1 {
      assert columns[ix[0]] == name;
      forall i, j | 0 <= i < |columns| && 0 <= j < |columns| && columns[i] == name && columns[j] == name
        ensures i == j
      {
        assert i in ix && j in ix;
      }
    }
  }

  /**
   * The column positions `df[names]` selects: for each requested name, in
   * order, every column carrying that label (pandas keeps all duplicates).
   */
  function Selection(columns: seq<string>, names: seq<string>): (sel: seq<nat>)
    ensures forall k :: 0 <= k < |sel| ==> sel[k] < |columns| && columns[sel[k]] in names
  {
    if names == [] then []
    else Occurrences(columns, names[0]) + Selection(columns, names[1..])
  }

  /** The requested names that label no column, in request order. */
  function MissingNames(columns: seq<string>, names: seq<string>): (m: seq<string>)
    ensures forall n :: n in m <==> n in names && n !in columns
  {
    if names == [] then []
    else
      var rest := MissingNames(columns, names[1..]);
      assert forall n :: n in names <==> n == names[0] || n in names[1..];
      if names[0] in columns then rest else [names[0]] + rest
  }

  /**
   * Line 43, `df[names].copy()`: the selected columns in request order, or
   * pandas' KeyError naming every requested label that is absent.
   */
  function Project(f: Frame, names: seq<string>): (r: Result<Frame, seq<string>>)
    requires Rectangular(f)
    ensures r.Failure? <==> exists k :: 0 <= k < |names| && names[k] !in f.columns
    ensures r.Failure? ==> forall n :: n in r.error <==> n in names && n !in f.columns
    ensures r.Success? ==> Rectangular(r.value) && |r.value.rows| == |f.rows|
    ensures r.Success? ==> forall j :: 0 <= j < |r.value.columns| ==> r.value.columns[j] in names
  {
    var missing := MissingNames(f.columns, names);
    if missing != [] then
      assert missing[0] in names;
      Failure(missing)
    else
      assert forall k :: 0 <= k < |names| ==> names[k] !in missing;
      var sel := Selection(f.columns, names);
      Success(Frame(
        seq(|sel|, k requires 0 <= k < |sel| => f.columns[sel[k]]),
        seq(|f.rows|, i requires 0 <= i < |f.rows| => seq(|sel|, k requires 0 <= k < |sel| => f.rows[i][sel[k]]))))
  }

  /** The position of the first column labelled `name`. */
  function IndexOf(columns: seq<string>, name: string): (j: nat)
    requires name in columns
    ensures j < |columns| && columns[j] == name && name !in columns[..j]
  {
    if columns[0] == name then 0
    else
      assert columns[..1 + IndexOf(columns[1..], name)] == [columns[0]] + columns[1..][..IndexOf(columns[1..], name)];
      1 + IndexOf(columns[1..], name)
  }

  /** When every requested name occurs exactly once, the selection is one position per name. */
  lemma {:induction false} SelectionOfUnique(columns: seq<string>, names: seq<string>)
    requires forall k :: 0 <= k < |names| ==> names[k] in columns && OccursOnce(columns, names[k])
    ensures |Selection(columns, names)| == |names|
    ensures forall k :: 0 <= k < |names| ==> Selection(columns, names)[k] == IndexOf(columns, names[k])
  {
    if names != [] {
      SelectionOfUnique(columns, names[1..]);
      OccursOnceIff(columns, names[0]);
      OccurrencesOfOnce(columns, names[0], IndexOf(columns, names[0]));
      assert forall k :: 0 < k < |names| ==> names[k] == names[1..][k - 1];
    }
  }

  /** With every name present, the selection has at least one position per name, and exactly one only if each occurs once. */
  lemma {:induction false} SelectionLength(columns: seq<string>, names: seq<string>)
    requires forall k :: 0 <= k < |names| ==> names[k] in columns
    ensures |Selection(columns, names)| >= |names|
    ensures |Selection(columns, names)| == |names| ==> forall k :: 0 <= k < |names| ==> OccursOnce(columns, names[k])
  {
    if names != [] {
      SelectionLength(columns, names[1..]);
      var ix := Occurrences(columns, names[0]);
      var j :| 0 <= j < |columns| && columns[j] == names[0];
      assert j in ix;
      if |Selection(columns, names)| == |names| {
        assert |ix| == 1;
        OccursOnceIff(columns, names[0]);
        forall k | 0 <= k < |names| ensures OccursOnce(columns, names[k]) {
          if k > 0 { assert names[k] == names[1..][k - 1]; }
        }
      }
    }
  }

  /**
   * The projection yields exactly the requested columns, in the requested
   * order, precisely when every requested name labels exactly one column;
   * each cell is then the cell under the same name in the source frame.
   */
  lemma ProjectExactly(f: Frame, names: seq<string>)
    requires Rectangular(f)
    ensures (Project(f, names).Success? && Project(f, names).value.columns == names)
        <==> (forall k :: 0 <= k < |names| ==> OccursOnce(f.columns, names[k]))
    ensures (forall k :: 0 <= k < |names| ==> OccursOnce(f.columns, names[k])) ==>
      forall i, k :: 0 <= i < |f.rows| && 0 <= k < |names| ==>
        Project(f, names).value.rows[i][k] == f.rows[i][IndexOf(f.columns, names[k])]
  {
    var r := Project(f, names);
    if forall k :: 0 <= k < |names| ==> OccursOnce(f.columns, names[k]) {
      SelectionOfUnique(f.columns, names);
    }
    if r.Success? && r.value.columns == names {
      SelectionLength(f.columns, names);
    }
  }
}
