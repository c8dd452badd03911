/**
  The ingestion script as a whole, without its file I/O: the text dump is cut
  into lines (node/index.js:8), every line into a row (lines 12-35), and the
  rows are grouped into the fixed sections (lines 45-63). The rows are what
  the script writes as CSV, the sections what it writes as JSON.
 */
module Ingest {
  import opened Wrappers
  import opened Text
  import opened Rows
  import opened Sections

  /** The line separator of the dump. */
  const LineSeparator: string := "\n"

  method Convert(input: string) returns (rows: seq<Row>, result: Result<seq<Section>, Error>)
    ensures |rows| == |Split(input, LineSeparator)|
    ensures forall i :: 0 <= i < |rows| ==> rows[i] == ParseRow(Split(input, LineSeparator)[i])
    ensures WellFormed(rows)
    ensures result.Failure? <==> |rows| > 0 && |rows[0]| == 2
    ensures result.Failure? ==> result.error == UndefinedSection(0)
    ensures result.Success? ==> |result.value| == |SectionNames|
    ensures result.Success? ==> forall k :: 0 <= k < |result.value| ==> fresh(result.value[k])
    ensures result.Success? ==> forall i, j :: 0 <= i < j < |result.value| ==> result.value[i] != result.value[j]
    ensures result.Success? ==> forall k :: 0 <= k < |result.value| ==>
      result.value[k].name == SectionNames[k] && result.value[k].entries == Entries(rows, k, |rows|)
  {
    var lines := Split(input, LineSeparator);
    rows := ParseRows(lines);
    result := Group(rows);
    EntryBeforeHeaderIff(rows);
  }
}
