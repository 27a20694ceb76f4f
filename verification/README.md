# Namely-To-Lucidchart org chart, modelled in Dafny

This project models the in-memory core of `parse.py`. That script reads a
Namely roster (one CSV row per employee) and builds an org chart from it:

- a `Person` is built from each roster row;
- a `Company` hires every person, finds people by company email without
  regard to case, and links each employee to its supervisor (`organize`);
- a person can list all of its subordinates, not only its direct reports,
  and export them with its own row to `<Full_Name>.csv`.

Between the CSV library and the chart sit two row transforms:

- `csv_to_list` turns a table into a list of dictionaries;
- `list_to_csv` turns a list of dictionaries back into a table.

Modules:

- `Records` holds the cell values, records, errors, `Result` and `Option`.
  A record maps a column name to a `Field`. The field is either a text cell
  or, under the `"track_column_order"` key, the header list.
- `Strings` holds ASCII lower-casing and the lexicographic order of strings.
  It also has the sorted listing of a record's keys (the `sorted` call of
  `list_to_csv`) and the export file name.
- `CsvRows` models `csv_to_list` and `list_to_csv` on tables given as
  `seq<seq<string>>`. Each is a method with a loop. Each is proved equal to
  a recursive specification function, and the properties are proved as
  lemmas about those functions.
- `Reach` defines reachability by one or more edges in an org chart given
  as a map from a person to its direct-report list.
- `Org` models `Person` and `Company` as classes:
  - a person's roster fields are immutable;
  - `directReports` is the one mutable field;
  - `Company.employees` is the hired list.

`Person.AllSubordinates` follows the source's fixpoint loop exactly. It
iterates over the list while appending to it, and it appends to the
person's own `directReports`. The source aliases that list as its output
(`output = self.direct_reports`), so after the call `directReports` holds
the whole closure.

The loop's termination uses a measure that is ghost: the set of people not
yet in the list, out of a ghost `staff` set. `staff` holds the person and is
closed under direct reports (the whole roster, for instance). Every pass
that continues adds somebody new, so the measure shrinks.

The closure loop appends only people not already in the list, so it stops
on reporting cycles too; the proof covers any chart. Through the alias,
`all_subordinates` and `subordinates_to_csv` also rewrite a person's
direct-report list, not only `organize`.

Some functions have no row of their own because they are the reference
definitions that the rows' contracts are stated against:

- `Org.Lookup` is the value `find` returns.
- `Org.ReportsTo` is the list `organize` appends to one supervisor.
- `CsvRows.Parsed` is the value `csv_to_list` returns.
- `CsvRows.HeaderColumns` is the header choice of parse.py:150-160.
- `CsvRows.Exported` is the table `list_to_csv` hands to the writer.
- `Strings.Lower` is `str.lower`, for ASCII letters.
- `Strings.SortedOf` is the value of `sorted` on a set of keys.

## Model

| member | source | states |
|---|---|---|
| Org.Person.constructor | parse.py:9-19 | the five roster fields and the raw row are stored as given; the direct-report list starts empty |
| Org.Person.FromRecord | parse.py:9-19 | a person is built exactly when all five columns ("Full Name", "Company email", "Reports To Email", "Job Title", "Departments") are present; otherwise the error is the first missing one in that order; each field equals its column, the raw row is kept, and there are no direct reports yet |
| Org.Person.AddDirectReport | parse.py:30-31 | the employee is appended at the end; earlier entries are unchanged |
| Org.Person.HasDirectReports | parse.py:33-34 | true exactly when the direct-report list is non-empty |
| Org.Company.constructor | parse.py:111-112 | a new company has no employees |
| Org.Company.Hire | parse.py:118-119 | the employee is appended at the end of the roster; earlier entries are unchanged |
| Org.FirstMatch | parse.py:123-127 | finds the position of the first employee in hire order whose email equals the query up to case; absent exactly when nobody matches |
| Org.Company.Find | parse.py:122-127 | returns the first employee in hire order whose email matches up to case, or None exactly when none does; it changes nothing |
| Org.LookupSpec | parse.py:122-127 | the value find returns: None exactly when no employee's email matches up to case, otherwise a hired employee whose email matches |
| Org.LookupIgnoresCase | parse.py:122-127 | when emails are distinct up to case, any casing of a hired person's email finds that person |
| Org.ReportsToMembers | parse.py:135-138 | a supervisor's new reports are hired employees whose supervisor email resolves to that supervisor, and there are no more of them than hires |
| Org.ReportsToCount | parse.py:135-138 | a supervisor's new reports hold each employee once per time it was hired when its supervisor email resolves to that supervisor, and never otherwise |
| Org.ReportsToSnoc | parse.py:135-138 | one more hired person extends a supervisor's new reports by that person exactly when its supervisor email resolves to that supervisor |
| Org.Company.Organize | parse.py:130-138 | each employee's direct-report list becomes its old list followed by the employees that resolve to it, in hire order; the roster list itself is unchanged |
| Org.Company.LinkEmployee | parse.py:135-138 | one turn of the loop: after employee i is appended to the supervisor find resolves, every employee's list is its list before organize followed by the first i+1 employees that resolve to it |
| Org.Company.LinkToSupervisor | parse.py:137-138 | the employee is appended to the resolved supervisor's list only; every other list is unchanged, and nothing changes when find resolved nobody |
| Org.Person.AllSubordinates | parse.py:46-64 | empty result exactly when there were no direct reports; the result is the person's own list; the old direct reports are a prefix of it; nobody is added twice; it holds exactly the people reachable by one or more edges, so it holds the person only through a reporting cycle; it is closed under direct reports; nobody else's list changes; a second call returns the same list |
| Org.ClosureOfFixpoint | parse.py:55-64 | a list that extends the direct reports without repeats, holds only reachable people and is closed under direct reports holds everybody reachable, so it is the closure |
| Org.ClosureOfClosedStart | parse.py:55-64 | when the direct reports are already closed under direct reports, the closure adds nobody, which is why a second call returns the same list |
| Org.Person.OnePass | parse.py:56-64 | one pass of the `while True` body keeps the closure invariant and is prefix-preserving; afterwards every visited member's reports are in the list; the flag is set exactly when the list grew, and then the set of people still missing shrank |
| Org.Person.AddUnseenReports | parse.py:58-61 | every report of the subordinate ends up in the list; only people not yet present are appended, each of them reachable; the flag is set exactly when something was appended |
| Org.Person.AppendUnseen | parse.py:59-61 | appending a reachable person not yet in the list keeps the closure invariant and shrinks the set of people still missing |
| Org.RawData | parse.py:71-73 | the raw rows of a list of people, one per person and in the same order |
| Org.Person.AllSubordinateRecords | parse.py:46-76 | with `return_people_objects=False`: the closure as in AllSubordinates, then each member's raw row in the same order |
| Org.Person.SubordinatesToCsv | parse.py:36-44 | the table written is the export, in the roster's column order, of the closure's raw rows followed by the person's own row; the file name is the full name with spaces replaced by `_`, plus `.csv`; a person without direct reports still has none afterwards |
| Org.ExportListAsWritten | parse.py:42-53 | as written, when the direct-report list is empty, the list returned by all_subordinates is that very list, so the own row is appended to it; otherwise a new list of rows gets the own row and the direct-report list is unchanged |
| Org.LeafExportAsWritten | parse.py:42-53 | as written, exporting a person with no direct reports leaves its direct-report list holding one entry, its own raw row, which is not a person |
| Org.ChainLinks | parse.py:130-138 | for the chain A <- B <- C, hired in that order, the employees that resolve to A are [B], to B are [C], and to C nobody |
| Org.BuildChain | parse.py:118-138 | hiring and organizing the chain gives A the direct reports [B], B [C] and C none |
| Org.ChainTopClosure | parse.py:55-64 | in the chain's chart, the only closure of A that starts from [B] is [B, C] |
| Org.ChainScenario | parse.py:46-64 | on the organized chain, A's single layer is [B]; the full closures are [B, C] for A, [C] for B and empty for C |
| Strings.ReplaceSpaces | parse.py:44 | same length; every space becomes `_` and every other character is kept |
| Strings.CsvFileName | parse.py:44 | the name is the full name's length plus four and ends in `.csv`; each space of the full name becomes `_` and every other character is kept in place, so the name contains no space |
| Strings.SortedOfListsKeys | parse.py:158 | the sorted listing of a key set is strictly increasing, has one entry per key and holds exactly the keys |
| Strings.SortedListingUnique | parse.py:158 | any strictly increasing listing of exactly the keys is the sorted listing |
| Strings.SortKeys | parse.py:158 | returns the sorted listing of the keys |
| CsvRows.RowRecord | parse.py:201-203 | the keys of a row's dictionary are exactly the header names of the row's cells |
| CsvRows.RowRecordAt | parse.py:202-203 | a cell is found under its column name unless a later cell of the row reuses that name (last write wins) |
| CsvRows.ParseDataSpec | parse.py:199-207 | the data rows parse exactly when none is longer than the header; then each row becomes its dictionary, with the header list added when column order is tracked, in order; otherwise the error names the first row that is too long |
| CsvRows.CsvToList | parse.py:183-210 | the reader loop returns the parse of the rows, the first row being the header |
| CsvRows.ParsedFailsIffRowTooLong | parse.py:202-203 | csv_to_list fails exactly when some data row has more cells than the header |
| CsvRows.ProjectSpec | parse.py:162-164 | a record projects onto the columns exactly when it has all of them; the values come in column order; otherwise the first missing column is reported |
| CsvRows.ProjectRow | parse.py:162-164 | the `temp_list` loop builds exactly the record's projection onto the columns, failing on the first missing one |
| CsvRows.ProjectAllSpec | parse.py:148-166 | all records project exactly when each does; the rows come in record order; otherwise the first failing record's error is reported |
| CsvRows.ListToCsv | parse.py:145-166 | the loop builds exactly the export of the records |
| CsvRows.ExportedShape | parse.py:148-166 | an empty list gives no rows, not even a header; a successful export has one row per record plus the header, and the header is the first record's columns |
| CsvRows.SortedExportSucceeds | parse.py:157-164 | with sorted headers, records that all have the first record's keys export without error, under those keys in sorted order |
| CsvRows.ShortRowMissesColumn | parse.py:162-164 | the dictionary of a row shorter than a distinct header lacks the next column, so exporting it fails with that column missing |
| CsvRows.ProjectRowRecord | parse.py:162-164 | projecting a full-length row's dictionary back onto a distinct header gives the row back |
| CsvRows.ProjectParsedData | parse.py:162-166 | projecting every parsed dictionary back onto the header gives the data rows back |
| CsvRows.RoundTrip | parse.py:148-207 | the table parses when column order is tracked, and the parse exports back to the same table, when every row has the header's length and the header names are distinct and avoid "track_column_order", and the table has at least one data row |
| CsvRows.HeaderOnlyLosesHeader | parse.py:148-150 | a table holding only its header reads as no records, and exporting those writes nothing, so the header is not written back |

## Left out

- Console output is left out: `Person.print`, `print_subordinates`, `indent_print`, `Company.print` and the `indent` globals. They only print.
- `main` is left out. It is glue over the core with fixed file names.
- Opening and writing files is left out, along with the csv module's reader and writer and their quoting and escaping. A table is a `seq<seq<string>>` on the way in. On the way out it is a `seq<seq<Field>>` handed to the writer.
- `CsvRows.ListToCsv`: a value the writer would stringify (the `track_column_order` list in an unsorted export) stays a `Field`. It is not turned into text.
- `Strings.Lower`: lower-casing covers ASCII letters only. Python's `str.lower` follows the full Unicode case mapping.
- `Strings.SortKeys`: Python's `sorted` is specified only by its result, the strictly increasing listing of the keys under code-point order. The method picks the least remaining key on each step and does not reproduce Timsort.
- `Org.Person.AllSubordinates`: the `return_people_objects` flag is split into two methods. This one returns people, and `Org.Person.AllSubordinateRecords` returns raw rows.
- `Org.Person.AllSubordinates`: the contract fixes the original direct reports as a prefix and the set of people added, but not the order they are appended in (pass by pass, which the body follows). So `Org.Person.SubordinatesToCsv` does not determine the order of the exported rows after the direct reports.
- `Org.Person.AllSubordinates` needs a ghost set of people that holds the person and is closed under direct reports. The source relies on the finite heap instead.
- `Org.Person.FromRecord`: a column holding the header list instead of text is an error. Python would store the list in the field.
- `Org.Person.SubordinatesToCsv` models the corrected behaviour described under Findings. It does not model the aliasing of the as-written code, which `Org.ExportListAsWritten` covers.
- `Org.ExportListAsWritten`: the closure computation is abstracted away. The list is taken to hold its closure already, and the subordinate rows are not tied to the people in it.
- In the as-written model, a raw row inside a direct-report list is an `Entry` of a `PyList`. The attribute error it later causes in `all_subordinates` is not modelled.

## Findings

| source | as written | input that shows it | evidently intended | confidence | as-written member | corrected member |
|---|---|---|---|---|---|---|
| parse.py:42-53 | for a person with no direct reports, `all_subordinates` returns `self.direct_reports` itself; `subordinates_to_csv` then appends `self.raw_data` to it, so the person's own row ends up among its direct reports | any person without direct reports, e.g. the bottom of a chain, on which `subordinates_to_csv` is called | the export gets the person's own row while its direct-report list stays empty | not executed | Org.LeafExportAsWritten | Org.Person.SubordinatesToCsv |
