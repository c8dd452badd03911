/**
  The section grouper of the ingestion script (node/index.js:45-63): the
  rows are walked in order with a "current section"; a one-column row selects
  a section by name, a two-column row is appended to the current section.
 */
module Sections {
  import opened Wrappers
  import opened Rows

  /** One abbreviation/term pair as it is written to the JSON document. */
  datatype Entry = Entry(abbreviation: string, term: string)

  /** A section whose entry list the grouper appends to in place. */
  class Section {
    const name: string
    var entries: seq<Entry>

    constructor (name: string)
      ensures this.name == name && entries == []
    {
      this.name := name;
      entries := [];
    }
  }

  /** The only runtime error: an entry row met while no section is selected. */
  datatype Error = UndefinedSection(row: nat)

  /** The fixed section names, in document order. */
  const SectionNames: seq<string> :=
    ["#", "A", "B", "C", "D", "E", "F", "G", "H", "I", "J", "K", "L", "M",
     "N", "O", "P", "Q", "R", "S", "T", "U", "V", "W", "X", "Y", "Z"]

  /** Every section name is one character, `#` first and then `A` to `Z` in code order. */
  lemma SectionNamesShape()
    ensures |SectionNames| == 27
    ensures forall k :: 0 <= k < |SectionNames| ==>
      |SectionNames[k]| == 1 && SectionNames[k][0] as int == if k == 0 then '#' as int else 'A' as int + k - 1
  {
  }

  /** No section name occurs twice. */
  lemma SectionNamesDistinct()
    ensures forall i, j :: 0 <= i < j < |SectionNames| ==> SectionNames[i] != SectionNames[j]
  {
  }

  /** A text that is not a single `#` or upper-case ASCII letter names no section. */
  lemma NotASectionName(h: string)
    requires |h| != 1 || (h[0] != '#' && !('A' <= h[0] <= 'Z'))
    ensures h !in SectionNames
  {
    SectionNamesShape();
  }

  /**
    The index of the section a header row selects. The table lookup of the
    source is computed here from the header's one character; SelectIff shows
    that this is the section of exactly that name, or `#` for any other text.
   */
  function Select(header: string): (k: nat)
    ensures k < |SectionNames|
  {
    if |header| == 1 && 'A' <= header[0] <= 'Z' then header[0] as int - 'A' as int + 1 else 0
  }

  /** Select picks section `k` exactly when `k` bears the header's name, or `k` is `#` and no section does. */
  lemma SelectIff(header: string, k: nat)
    requires k < |SectionNames|
    ensures Select(header) == k <==>
      SectionNames[k] == header || (k == 0 && header !in SectionNames)
  {
    SectionNamesShape();
    SectionNamesDistinct();
    if |header| == 1 && ('A' <= header[0] <= 'Z' || header[0] == '#') {
      var s := Select(header);
      assert SectionNames[s] == [header[0]] == header;
    } else {
      NotASectionName(header);
    }
  }

  /** Every row has one or two columns, as the row splitter guarantees. */
  predicate WellFormed(rows: seq<Row>) {
    forall i :: 0 <= i < |rows| ==> 1 <= |rows[i]| <= 2
  }

  /** The section selected after the first `n` rows; None while no header has been seen. */
  function Current(rows: seq<Row>, n: nat): (c: Option<nat>)
    requires WellFormed(rows) && n <= |rows|
    ensures c.Some? ==> c.value < |SectionNames|
  {
    if n == 0 then None
    else if |rows[n - 1]| == 1 then Some(Select(rows[n - 1][0]))
    else Current(rows, n - 1)
  }

  /** The entries of section `k` after the first `n` rows, in row order. */
  function Entries(rows: seq<Row>, k: nat, n: nat): (entries: seq<Entry>)
    requires WellFormed(rows) && n <= |rows|
    ensures |entries| <= n
  {
    if n == 0 then []
    else if |rows[n - 1]| == 2 && Current(rows, n - 1) == Some(k) then
      Entries(rows, k, n - 1) + [Entry(rows[n - 1][0], rows[n - 1][1])]
    else Entries(rows, k, n - 1)
  }

  /** Some two-column row comes while no section is selected. */
  predicate EntryBeforeHeader(rows: seq<Row>)
    requires WellFormed(rows)
  {
    exists j :: 0 <= j < |rows| && |rows[j]| == 2 && Current(rows, j).None?
  }

  /** Once a header has been read, some section stays selected. */
  lemma {:induction false} CurrentAfterHeader(rows: seq<Row>, i: nat, n: nat)
    requires WellFormed(rows) && i < n <= |rows| && |rows[i]| == 1
    ensures Current(rows, n).Some?
    decreases n
  {
    if n - 1 > i && |rows[n - 1]| == 2 {
      CurrentAfterHeader(rows, i, n - 1);
    }
  }

  /** An entry row comes while no section is selected exactly when the very first row is an entry row. */
  lemma EntryBeforeHeaderIff(rows: seq<Row>)
    requires WellFormed(rows)
    ensures EntryBeforeHeader(rows) <==> |rows| > 0 && |rows[0]| == 2
  {
    if |rows| > 0 && |rows[0]| == 1 {
      forall j | 0 < j < |rows|
        ensures Current(rows, j).Some?
      {
        CurrentAfterHeader(rows, 0, j);
      }
    }
  }

  /** A header's selection stays in force over the entry rows that follow it. */
  lemma {:induction false} SelectionPersists(rows: seq<Row>, i: nat, n: nat)
    requires WellFormed(rows) && i < n <= |rows| && |rows[i]| == 1
    requires forall j :: i < j < n ==> |rows[j]| == 2
    ensures Current(rows, n) == Some(Select(rows[i][0]))
    decreases n
  {
    if n - 1 > i {
      SelectionPersists(rows, i, n - 1);
    }
  }

  /** Sections are append-only: what a section holds after `m` rows starts what it holds after `n >= m`. */
  lemma {:induction false} EntriesPrefix(rows: seq<Row>, k: nat, m: nat, n: nat)
    requires WellFormed(rows) && m <= n <= |rows|
    ensures Entries(rows, k, m) <= Entries(rows, k, n)
    decreases n
  {
    if m < n {
      EntriesPrefix(rows, k, m, n - 1);
    }
  }

  /** Every entry row ends up in the section selected when it is read. */
  lemma EntryLands(rows: seq<Row>, j: nat, n: nat)
    requires WellFormed(rows) && j < n <= |rows| && |rows[j]| == 2 && Current(rows, j).Some?
    ensures Entry(rows[j][0], rows[j][1]) in Entries(rows, Current(rows, j).value, n)
  {
  }

  /** The number of two-column rows among the first `n`. */
  function EntryRowCount(rows: seq<Row>, n: nat): (count: nat)
    requires n <= |rows|
  {
    if n == 0 then 0
    else EntryRowCount(rows, n - 1) + (if |rows[n - 1]| == 2 then 1 else 0)
  }

  /** The total number of entries in the sections `0 .. count - 1` after `n` rows. */
  function TotalEntries(rows: seq<Row>, n: nat, count: nat): (total: nat)
    requires WellFormed(rows) && n <= |rows|
  {
    if count == 0 then 0
    else TotalEntries(rows, n, count - 1) + |Entries(rows, count - 1, n)|
  }

  /** Before any row is read, the sections together hold no entry. */
  lemma {:induction false} TotalEntriesAtStart(rows: seq<Row>, count: nat)
    requires WellFormed(rows)
    ensures TotalEntries(rows, 0, count) == 0
  {
    if count > 0 {
      TotalEntriesAtStart(rows, count - 1);
    }
  }

  /** Reading row `n` adds one entry to the first `count` sections exactly when it is an entry row routed to one of them. */
  lemma {:induction false} TotalEntriesStep(rows: seq<Row>, n: nat, count: nat)
    requires WellFormed(rows) && n < |rows|
    ensures TotalEntries(rows, n + 1, count) ==
      TotalEntries(rows, n, count) +
      (if |rows[n]| == 2 && Current(rows, n).Some? && Current(rows, n).value < count then 1 else 0)
  {
    if count > 0 {
      TotalEntriesStep(rows, n, count - 1);
    }
  }

  /** While every entry row has a section, the sections hold exactly one entry per entry row. */
  lemma {:induction false} TotalEntriesUpTo(rows: seq<Row>, n: nat, count: nat)
    requires WellFormed(rows) && n <= |rows| && |SectionNames| <= count
    requires forall j :: 0 <= j < n && |rows[j]| == 2 ==> Current(rows, j).Some?
    ensures TotalEntries(rows, n, count) == EntryRowCount(rows, n)
  {
    if n == 0 {
      TotalEntriesAtStart(rows, count);
    } else {
      TotalEntriesUpTo(rows, n - 1, count);
      var before, after := TotalEntries(rows, n - 1, count), TotalEntries(rows, n, count);
      TotalEntriesStep(rows, n - 1, count);
      assert |rows[n - 1]| == 2 ==> after == before + 1;
      assert |rows[n - 1]| == 1 ==> after == before;
    }
  }

  /** When grouping succeeds no entry row is lost or duplicated: the sections hold one entry per entry row. */
  lemma EntriesTotal(rows: seq<Row>)
    requires WellFormed(rows) && !EntryBeforeHeader(rows)
    ensures TotalEntries(rows, |rows|, |SectionNames|) == EntryRowCount(rows, |rows|)
  {
    TotalEntriesUpTo(rows, |rows|, |SectionNames|);
  }

  /** Header lookup is exact and case-sensitive, without trimming; anything else selects `#`. */
  lemma SelectExamples()
    ensures Select("B") == 2 && SectionNames[2] == "B"
    ensures Select("ZZ") == 0 && Select("b") == 0 && Select(" B") == 0 && Select("") == 0
  {
  }

  /** `byName` maps exactly the fixed names, each to the section of that position. */
  predicate IndexesSections(byName: map<string, Section>, sections: seq<Section>) {
    |sections| == |SectionNames| &&
    (forall k :: 0 <= k < |SectionNames| ==> SectionNames[k] in byName && byName[SectionNames[k]] == sections[k]) &&
    (forall name :: name in byName ==> name in SectionNames)
  }

  /** One empty section per fixed name, in order (node/index.js:45-46). */
  method NewSections() returns (sections: seq<Section>)
    ensures |sections| == |SectionNames|
    ensures forall i :: 0 <= i < |sections| ==> fresh(sections[i])
    ensures forall i :: 0 <= i < |sections| ==> sections[i].name == SectionNames[i] && sections[i].entries == []
    ensures forall i, j :: 0 <= i < j < |sections| ==> sections[i] != sections[j]
  {
    sections := [];
    for k := 0 to |SectionNames|
      invariant |sections| == k
      invariant forall i :: 0 <= i < k ==> fresh(sections[i])
      invariant forall i :: 0 <= i < k ==> sections[i].name == SectionNames[i] && sections[i].entries == []
      invariant forall i, j :: 0 <= i < j < k ==> sections[i] != sections[j]
    {
      var s := new Section(SectionNames[k]);
      sections := sections + [s];
    }
  }

  /** The lookup table from name to section (node/index.js:47-50). */
  method IndexByName(sections: seq<Section>) returns (byName: map<string, Section>)
    requires |sections| == |SectionNames|
    requires forall i :: 0 <= i < |sections| ==> sections[i].name == SectionNames[i]
    ensures IndexesSections(byName, sections)
  {
    SectionNamesDistinct();
    byName := map[];
    for k := 0 to |sections|
      invariant forall i :: 0 <= i < k ==> SectionNames[i] in byName && byName[SectionNames[i]] == sections[i]
      invariant forall name :: name in byName ==> name in SectionNames[..k]
    {
      byName := byName[sections[k].name := sections[k]];
    }
    assert SectionNames[..|sections|] == SectionNames;
  }

  /** Looking a header up in the table, with `#` as the default, finds the section Select names. */
  lemma LookupSelects(byName: map<string, Section>, sections: seq<Section>, header: string)
    requires IndexesSections(byName, sections)
    ensures "#" in byName
    ensures (if header in byName then byName[header] else byName["#"]) == sections[Select(header)]
  {
    assert SectionNames[0] == "#";
    if header in byName {
      var m :| 0 <= m < |SectionNames| && SectionNames[m] == header;
      SelectIff(header, m);
    } else {
      SelectIff(header, 0);
    }
  }

  /**
    The grouping loop (node/index.js:52-63). On success the result holds one
    distinct section per fixed name, in order, each with the entries the rows
    route to it; it fails, at the first such row, exactly when an entry row
    comes before any header.
   */
  method Group(rows: seq<Row>) returns (r: Result<seq<Section>, Error>)
    requires WellFormed(rows)
    ensures r.Failure? <==> EntryBeforeHeader(rows)
    ensures r.Failure? ==> r.error == UndefinedSection(0)
    ensures r.Success? ==> |r.value| == |SectionNames|
    ensures r.Success? ==> forall k :: 0 <= k < |r.value| ==> fresh(r.value[k])
    ensures r.Success? ==> forall i, j :: 0 <= i < j < |r.value| ==> r.value[i] != r.value[j]
    ensures r.Success? ==> forall k :: 0 <= k < |r.value| ==>
      r.value[k].name == SectionNames[k] && r.value[k].entries == Entries(rows, k, |rows|)
  {
    var sections := NewSections();
    var byName := IndexByName(sections);
    var section: Section? := null;
    for i := 0 to |rows|
      invariant forall k :: 0 <= k < |sections| ==> fresh(sections[k])
      invariant forall k, j :: 0 <= k < j < |sections| ==> sections[k] != sections[j]
      invariant section == null <==> Current(rows, i).None?
      invariant section != null ==> section == sections[Current(rows, i).value]
      invariant forall k :: 0 <= k < |sections| ==> sections[k].entries == Entries(rows, k, i)
      invariant 0 < i ==> |rows[0]| == 1
    {
      var row := rows[i];
      if |row| == 1 {
        LookupSelects(byName, sections, row[0]);
        if row[0] in byName {
          section := byName[row[0]];
        } else {
          section := byName["#"];
        }
        forall k | 0 <= k < |sections|
          ensures Entries(rows, k, i + 1) == Entries(rows, k, i)
        {
        }
      } else {
        if section == null {
          EntryBeforeHeaderIff(rows);
          return Failure(UndefinedSection(i));
        }
        ghost var c := Current(rows, i).value;
        label before:
        section.entries := section.entries + [Entry(row[0], row[1])];
        forall k | 0 <= k < |sections|
          ensures sections[k].entries == Entries(rows, k, i + 1)
        {
          if k != c {
            assert sections[k] != section;
            assert sections[k].entries == old@before(sections[k].entries);
          }
        }
      }
    }
    EntryBeforeHeaderIff(rows);
    return Success(sections);
  }
}
