/**
  The row splitter of the ingestion script (node/index.js:12-35): every line
  of the text dump becomes a row of one column (a section header) or two
  columns (abbreviation and term).
 */
module Rows {
  import opened Text

  /** A parsed line: one or two columns. */
  type Row = seq<string>

  /** The dump's separator: no-break space, colon, space. */
  const NbspSeparator: string := "\U{00A0}: "

  /** The fallback separator: colon, space. */
  const ColonSeparator: string := ": "

  /**
    `col0` and `col1` are what lies before and after the first occurrence of
    `sep` in `line`.
   */
  predicate IsFirstSplit(line: string, sep: string, col0: string, col1: string) {
    line == col0 + sep + col1 &&
    forall j: nat :: j < |col0| ==> !OccursAt(line, sep, j)
  }

  /** A line has at most one first-occurrence decomposition. */
  lemma FirstSplitUnique(line: string, sep: string, a: string, b: string, a': string, b': string)
    requires |sep| > 0
    requires IsFirstSplit(line, sep, a, b) && IsFirstSplit(line, sep, a', b')
    ensures a == a' && b == b'
  {
    SeparatorAfterFirstColumn(line, sep, a, b);
    SeparatorAfterFirstColumn(line, sep, a', b');
    assert |a| == |a'|;
    assert a == line[..|a|] == a';
    assert b == line[|a| + |sep|..] == b';
  }

  /** In `col0 + sep + col1`, `sep` occurs right after `col0`. */
  lemma SeparatorAfterFirstColumn(line: string, sep: string, col0: string, col1: string)
    requires line == col0 + sep + col1
    ensures OccursAt(line, sep, |col0|)
  {
  }

  /** The first column of a first-occurrence decomposition does not contain the separator. */
  lemma FirstSplitPrefixFree(line: string, sep: string, col0: string, col1: string)
    requires |sep| > 0
    requires IsFirstSplit(line, sep, col0, col1)
    ensures !Contains(col0, sep)
  {
    assert line[..|col0|] == col0;
    PrefixBeforeFirstFree(line, sep, |col0|);
  }

  /**
    When a split has two pieces or more, its first piece and the re-join of
    the others are the text before and after the first occurrence of `sep`.
   */
  lemma SplitFirstPiece(s: string, sep: string)
    requires |sep| > 0
    ensures |Split(s, sep)| >= 2 ==>
      IsFirstSplit(s, sep, Split(s, sep)[0], Join(Split(s, sep)[1..], sep))
  {
    SplitColumnsFirst(s, sep);
    SplitNotEmpty(s, sep);
  }

  /**
    Split `line` at `sep` and, when there are more than two pieces, re-join
    all but the first with `sep` (node/index.js:15-20 and 25-30).
   */
  function SplitColumns(line: string, sep: string): (cols: Row)
    requires |sep| > 0
    ensures 1 <= |cols| <= 2
  {
    var columns := Split(line, sep);
    if |columns| > 2 then [columns[0], Join(columns[1..], sep)] else columns
  }

  /**
    SplitColumns cuts the line at the first occurrence of `sep`, and leaves a
    line without `sep` as a one-column row.
   */
  lemma SplitColumnsFirst(line: string, sep: string)
    requires |sep| > 0
    ensures Contains(line, sep) ==>
      |SplitColumns(line, sep)| == 2 &&
      IsFirstSplit(line, sep, SplitColumns(line, sep)[0], SplitColumns(line, sep)[1])
    ensures !Contains(line, sep) ==> SplitColumns(line, sep) == [line]
  {
    SplitNotEmpty(line, sep);
    match FindFirst(line, sep)
    case None =>
    case Some(i) =>
      SplitColumnsCut(line, sep, i);
      assert OccursAt(line, sep, i);
      assert line == line[..i] + line[i..i + |sep|] + line[i + |sep|..];
  }

  /** At the first occurrence `i`, SplitColumns gives the text before and after it. */
  lemma SplitColumnsCut(line: string, sep: string, i: nat)
    requires |sep| > 0 && FindFirst(line, sep) == Wrappers.Some(i)
    ensures SplitColumns(line, sep) == [line[..i], line[i + |sep|..]]
  {
    var rest := line[i + |sep|..];
    var columns := Split(line, sep);
    assert columns == [line[..i]] + Split(rest, sep);
    assert columns[1..] == Split(rest, sep);
    JoinSplit(rest, sep);
    SplitNotEmpty(rest, sep);
  }

  /** The whole treatment of one line (node/index.js:14-31). */
  function ParseRow(line: string): (row: Row)
    ensures 1 <= |row| <= 2
  {
    var columns := SplitColumns(line, NbspSeparator);
    if |columns| == 1 then SplitColumns(line, ColonSeparator) else columns
  }

  /**
    A row has one or two columns. A line with the no-break-space separator is
    cut at its first occurrence; only a line without it falls back to ": ",
    cut at its first occurrence; a line with neither stays whole.
   */
  lemma ParseRowCases(line: string)
    ensures 1 <= |ParseRow(line)| <= 2
    ensures Contains(line, NbspSeparator) ==>
      |ParseRow(line)| == 2 &&
      IsFirstSplit(line, NbspSeparator, ParseRow(line)[0], ParseRow(line)[1]) &&
      !Contains(ParseRow(line)[0], NbspSeparator)
    ensures !Contains(line, NbspSeparator) && Contains(line, ColonSeparator) ==>
      |ParseRow(line)| == 2 &&
      IsFirstSplit(line, ColonSeparator, ParseRow(line)[0], ParseRow(line)[1]) &&
      !Contains(ParseRow(line)[0], ColonSeparator)
    ensures !Contains(line, NbspSeparator) && !Contains(line, ColonSeparator) ==>
      ParseRow(line) == [line]
  {
    SplitColumnsFirst(line, NbspSeparator);
    SplitColumnsFirst(line, ColonSeparator);
    var r := ParseRow(line);
    if Contains(line, NbspSeparator) {
      FirstSplitPrefixFree(line, NbspSeparator, r[0], r[1]);
    } else if Contains(line, ColonSeparator) {
      FirstSplitPrefixFree(line, ColonSeparator, r[0], r[1]);
    }
  }

  /**
    The loop of node/index.js:12-35: one row per line, in line order, each
    the ParseRow of its line.
   */
  method ParseRows(lines: seq<string>) returns (rows: seq<Row>)
    ensures |rows| == |lines|
    ensures forall i :: 0 <= i < |lines| ==> rows[i] == ParseRow(lines[i])
    ensures forall i :: 0 <= i < |rows| ==> 1 <= |rows[i]| <= 2
  {
    rows := [];
    for i := 0 to |lines|
      invariant |rows| == i
      invariant forall j :: 0 <= j < i ==> rows[j] == ParseRow(lines[j])
      invariant forall j :: 0 <= j < i ==> 1 <= |rows[j]| <= 2
    {
      var columns := ParseRow(lines[i]);
      ParseRowCases(lines[i]);
      rows := rows + [columns];
    }
  }

  /** An entry line in the dump's own format. */
  lemma ParseNbspExample()
    ensures ParseRow("ABC\U{00A0}: some term") == ["ABC", "some term"]
  {
    var line := "ABC\U{00A0}: some term";
    assert line == "ABC" + NbspSeparator + "some term";
    assert OccursAt(line, NbspSeparator, 3);
    forall j: nat | j < 3
      ensures !OccursAt(line, NbspSeparator, j)
    {
      assert line[j] != '\U{00A0}';
    }
    ParseRowCases(line);
    FirstSplitUnique(line, NbspSeparator, "ABC", "some term", ParseRow(line)[0], ParseRow(line)[1]);
  }

  /** An entry line without the no-break space falls back to ": " and parses alike. */
  lemma ParseColonExample()
    ensures ParseRow("ABC: some term") == ["ABC", "some term"]
  {
    var line := "ABC: some term";
    assert line == "ABC" + ColonSeparator + "some term";
    assert OccursAt(line, ColonSeparator, 3);
    forall j: nat | j < 3
      ensures !OccursAt(line, ColonSeparator, j)
    {
      assert line[j] != ':';
    }
    MissingFirstCharacter(line, NbspSeparator);
    ParseRowCases(line);
    FirstSplitUnique(line, ColonSeparator, "ABC", "some term", ParseRow(line)[0], ParseRow(line)[1]);
  }

  /** A bare line is a one-column row, unchanged. */
  lemma ParseHeaderExample()
    ensures ParseRow("B") == ["B"]
  {
  }
}
