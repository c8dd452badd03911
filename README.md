# French medical terms: the ingestion converter

This project models the offline converter of the FrenchMedicalTerms
repository (`node/index.js`). The converter turns a raw text dump of medical
abbreviations into the seed dataset of the mobile application. It works in
two passes.

1. **Row splitter.** The dump is cut into lines at `"\n"`. Each line is split
   at the no-break-space separator `"\u00A0: "`. When that separator does not
   occur, the line is split at `": "` instead. When a split gives more than
   two pieces, the pieces after the first are joined back with the
   separator. The result is a row of one column or of two columns.
2. **Section grouper.** There are 27 sections, `#` and then `A` to `Z`. Each
   starts empty. The rows are walked in order while a current section is
   kept. A one-column row is a header: it selects the section of exactly that
   name, or `#` when no section has that name. A two-column row becomes the
   entry `{abbreviation, term}` and is appended to the current section. An
   entry row that comes before any header makes the script fail, because no
   section is selected yet.

Modules:

- `Wrappers` (`wrappers.dfy`): `Option` and `Result`.
- `Text` (`text.dfy`): JavaScript's `String.prototype.split` with a non-empty
  separator (`Split`, using `FindFirst` for the first occurrence) and
  `Array.prototype.join` (`Join`), with their round trip.
- `Rows` (`rows.dfy`): the per-line splitting (`SplitColumns`, `ParseRow`) in
  functional form, and the line loop as the method `ParseRows`.
- `Sections` (`sections.dfy`): the `Section` class, with a constant `name` and
  an `entries` list that is appended to in place. The grouping loop is the
  method `Group`. It is proved against three reference functions: `Select`
  (which section a header picks), `Current` (which section is selected after
  a prefix of the rows) and `Entries` (what a section holds after a prefix of
  the rows).
- `Ingest` (`ingest.dfy`): the whole script without its file I/O.

A header is looked up exactly as written, case-sensitive and untrimmed
(node/index.js:56), so `" B"` selects `#` (`Sections.SelectExamples`).

`Select` computes its answer from the header's one character, where the
source looks the header up in a table. `Sections.SelectIff` proves that this
is exactly the table lookup with `#` as the default. The method `Group`
itself builds and uses the table, a `map` from name to section, as the
source does. `Sections.LookupSelects` links the two.

## Model

| member | source | states |
|---|---|---|
| `Text.FindFrom` | node/index.js:15 | the result is an occurrence of the separator at or after the start position with none before it between the two, or there is no occurrence at or after the start |
| `Text.FindFirst` | node/index.js:15 | a first occurrence is found exactly when the string contains the separator, and no occurrence lies before it |
| `Text.Split` | node/index.js:15 | a split has at least one piece and at most one more piece than the string has characters (its meaning is `Text.SplitNotEmpty`, `Text.SplitPiecesFree` and `Text.JoinSplit`) |
| `Text.Join` | node/index.js:19 | a non-empty join starts with its first piece (its meaning is `Text.JoinSplit`) |
| `Text.JoinSplit` | node/index.js:15-19 | joining the pieces of a split with the same separator gives back the string |
| `Text.SplitNotEmpty` | node/index.js:15-23 | a split has at least one piece; it has exactly one piece, the whole string, exactly when the separator does not occur |
| `Text.SplitPiecesFree` | node/index.js:15 | no piece of a split contains the separator |
| `Rows.FirstSplitUnique` | node/index.js:14-20 | a line has at most one decomposition into text before the first separator, the separator, and the rest |
| `Rows.FirstSplitPrefixFree` | node/index.js:18-20 | the first column of such a decomposition does not contain the separator |
| `Rows.SplitFirstPiece` | node/index.js:15-19 | when a split has two pieces or more, its first piece and the re-join of the others are the text before and after the first occurrence of the separator |
| `Rows.SplitColumns` | node/index.js:15-30 | a line becomes one or two columns (the cut is `Rows.SplitColumnsFirst`) |
| `Rows.SplitColumnsCut` | node/index.js:15-20 | at the first occurrence of the separator, the columns are exactly the text before it and the text after it |
| `Rows.SplitColumnsFirst` | node/index.js:15-20 | splitting and re-joining the tail cuts a line at the first occurrence of the separator into two columns whose rejoining gives the line; a line without the separator stays one column |
| `Rows.ParseRow` | node/index.js:14-31 | every row has one or two columns (its cases are `Rows.ParseRowCases`) |
| `Rows.ParseRowCases` | node/index.js:14-31 | every row has 1 or 2 columns; a line with the no-break-space separator is cut at its first occurrence; only a line without it falls back to `": "`, cut at its first occurrence; a line with neither is the row `[line]`; the first column never contains the separator used |
| `Rows.ParseRows` | node/index.js:11-35 | one row per line, in line order, each the parse of its line, each with 1 or 2 columns |
| `Rows.ParseNbspExample` | node/index.js:14-20 | `"ABC\u00A0: some term"` parses to `["ABC", "some term"]` |
| `Rows.ParseColonExample` | node/index.js:22-31 | `"ABC: some term"` parses to the same pair through the fallback |
| `Rows.ParseHeaderExample` | node/index.js:23-34 | the bare line `"B"` becomes the one-column row `["B"]` |
| `Sections.Section.constructor` | node/index.js:46 | a new section has the given name and no entries |
| `Sections.SectionNamesShape` | node/index.js:45 | there are 27 names, each one character: `#` and then `A` to `Z` in order |
| `Sections.SectionNamesDistinct` | node/index.js:45-50 | no section name occurs twice |
| `Sections.Select` | node/index.js:55-59 | the selected index is one of the 27 sections (its meaning is `Sections.SelectIff`) |
| `Sections.SelectIff` | node/index.js:55-59 | a header selects section `k` exactly when section `k` has that exact name, or when `k` is `#` and no section has that name |
| `Sections.SelectExamples` | node/index.js:55-59 | `"B"` selects `B`; `"ZZ"`, `"b"`, `" B"` and `""` select `#` (case-sensitive, no trimming) |
| `Sections.Current` | node/index.js:52-59 | the selection after any prefix of the rows is absent or one of the 27 sections |
| `Sections.Entries` | node/index.js:54-61 | a section holds at most one entry per row read (what it holds is `Sections.EntryLands`, `Sections.EntriesPrefix` and `Sections.EntriesTotal`) |
| `Sections.CurrentAfterHeader` | node/index.js:52-59 | once a header has been read, some section stays selected |
| `Sections.SelectionPersists` | node/index.js:52-59 | a header's selection stays in force over all the entry rows that follow it, up to the next header |
| `Sections.EntryBeforeHeaderIff` | node/index.js:52-61 | an entry row comes while no section is selected exactly when the first row is an entry row |
| `Sections.EntriesPrefix` | node/index.js:61 | sections only grow at the end: a section's entries after `m` rows are a prefix of its entries after any later row count |
| `Sections.EntryLands` | node/index.js:60-61 | every entry row's `{abbreviation, term}` ends up in the section selected when it is read |
| `Sections.TotalEntriesStep` | node/index.js:54-62 | reading a row adds one entry in total exactly when it is an entry row routed to a section, and none otherwise |
| `Sections.TotalEntriesUpTo` | node/index.js:54-62 | while every entry row has a section, the sections together hold exactly one entry per entry row read so far |
| `Sections.EntriesTotal` | node/index.js:54-63 | when grouping succeeds, the 27 sections together hold exactly one entry per entry row: nothing is lost or duplicated |
| `Sections.NewSections` | node/index.js:45-46 | 27 fresh, distinct sections named `#`, `A` to `Z` in order, all empty |
| `Sections.IndexByName` | node/index.js:47-50 | the table maps exactly the 27 names, each to the section at that name's position |
| `Sections.LookupSelects` | node/index.js:56-58 | looking a header up in the table, with `#` as the default, gives the section `Select` names |
| `Sections.Group` | node/index.js:45-63 | fails, at row 0, exactly when an entry row comes before any header; otherwise returns 27 fresh, distinct sections named `#`, `A` to `Z` in order, each holding exactly the entries routed to it, in row order |
| `Ingest.Convert` | node/index.js:8-63 | one row per line of the input in line order, each its line's parse; the grouping fails, at row 0, exactly when the first row is an entry row, and otherwise gives 27 fresh, distinct sections with their routed entries |

## Left out

- File I/O: reading `input.txt` (node/index.js:7) and writing the CSV and JSON files (node/index.js:42, 66). `Ingest.Convert` takes the file's text as a parameter and returns the rows and sections.
- CSV serialisation through the external `csv-stringify` library (node/index.js:4, 38-39). Its quoting rules are not visible. The rows it is given are `Ingest.Convert`'s `rows`.
- JSON serialisation through `JSON.stringify` (node/index.js:65). Only the section and entry structure it is given is modelled, not the text.
- The JavaScript plain-object table (node/index.js:47-50) also answers inherited keys such as `"constructor"`, and the script then fails on the next entry row read before another header. The table is modelled as a `map` over exactly the 27 names.
- JavaScript strings are sequences of UTF-16 code units; here they are sequences of Unicode scalar values. The two agree on where the separators `"\u00A0: "`, `": "` and `"\n"` occur in well-formed text.
- Text.Split: models `split` only for a non-empty separator, the only kind the script passes.
- Sections.Group: when the script fails, the CSV file has already been written and the JSON file is not. Only the failure itself is modelled.
- The iOS application (its data store, views and persistence) is not part of this model.
