/** The row-level logic of csv_to_list and list_to_csv (parse.py): the
    transforms between a table of cells and a list of dictionaries, with the
    file reading and writing and the csv dialect left to the caller. */
module CsvRows {
  import opened Records
  import opened Strings

  // ---------------------------------------------------------------------
  // csv_to_list: table -> records
  // ---------------------------------------------------------------------

  /** The dictionary built from one data row: header[i] maps to row[i] for
      each cell; a repeated column name keeps its last cell. */
  function RowRecord(header: seq<string>, row: seq<string>): (rec: Record)
    requires |row| <= |header|
    ensures rec.Keys == set i | 0 <= i < |row| :: header[i]
    decreases |row|
  {
    if row == [] then map[]
    else RowRecord(header, row[..|row| - 1])[header[|row| - 1] := Text(row[|row| - 1])]
  }

  /** Cell i is found under its column name unless a later cell of the row
      reuses that name. */
  lemma {:induction false} RowRecordAt(header: seq<string>, row: seq<string>, i: nat)
    requires |row| <= |header| && i < |row|
    requires forall j :: i < j < |row| ==> header[j] != header[i]
    ensures header[i] in RowRecord(header, row)
    ensures RowRecord(header, row)[header[i]] == Text(row[i])
    decreases |row|
  {
    if i < |row| - 1 {
      RowRecordAt(header, row[..|row| - 1], i);
    }
  }

  /** The dictionary with the header list added under "track_column_order"
      when the caller asks for it. */
  function WithColumnOrder(rec: Record, header: seq<string>, track: bool): Record
  {
    if track then rec[TrackColumnOrder := Columns(header)] else rec
  }

  /** The dictionaries of the data rows `data`, whose first row is row
      `first` of the file; the first row longer than the header fails. */
  function ParseData(header: seq<string>, data: seq<seq<string>>, track: bool, first: nat): Result<seq<Record>>
    decreases |data|
  {
    if data == [] then Ok([])
    else
      var last := data[|data| - 1];
      match ParseData(header, data[..|data| - 1], track, first)
      case Err(e) => Err(e)
      case Ok(done) =>
        if |last| > |header| then Err(RowTooLong(first + |data| - 1))
        else Ok(done + [WithColumnOrder(RowRecord(header, last), header, track)])
  }

  /** Each data row no longer than the header becomes its dictionary, in
      order; otherwise the first row that is too long is the one reported. */
  lemma {:induction false} ParseDataSpec(header: seq<string>, data: seq<seq<string>>, track: bool, first: nat)
    ensures ParseData(header, data, track, first).Ok? <==> forall k :: 0 <= k < |data| ==> |data[k]| <= |header|
    ensures ParseData(header, data, track, first).Ok? ==>
              (|ParseData(header, data, track, first).value| == |data| &&
               forall k :: 0 <= k < |data| ==>
                 ParseData(header, data, track, first).value[k] == WithColumnOrder(RowRecord(header, data[k]), header, track))
    ensures ParseData(header, data, track, first).Err? ==>
              (exists k :: 0 <= k < |data| && |data[k]| > |header| &&
                 ParseData(header, data, track, first).error == RowTooLong(first + k) &&
                 forall j :: 0 <= j < k ==> |data[j]| <= |header|)
    decreases |data|
  {
    if data != [] {
      var init := data[..|data| - 1];
      ParseDataSpec(header, init, track, first);
      assert forall k :: 0 <= k < |init| ==> init[k] == data[k];
    }
  }

  /** What csv_to_list returns for the rows the csv reader yields: the first
      row is the header, every later row one dictionary. */
  function Parsed(rows: seq<seq<string>>, track: bool): Result<seq<Record>>
  {
    if rows == [] then Ok([]) else ParseData(rows[0], rows[1..], track, 1)
  }

  /** csv_to_list without the file: the loop over the reader's rows. */
  method CsvToList(rows: seq<seq<string>>, trackColumnOrder: bool) returns (r: Result<seq<Record>>)
    ensures r == Parsed(rows, trackColumnOrder)
  {
    var headerRow := true;
    var columns: seq<string> := [];
    var output: seq<Record> := [];
    var i := 0;
    while i < |rows|
      invariant 0 <= i <= |rows|
      invariant headerRow <==> i == 0
      invariant i == 0 ==> output == []
      invariant i > 0 ==> columns == rows[0] && ParseData(columns, rows[1..i], trackColumnOrder, 1) == Ok(output)
    {
      var row := rows[i];
      if headerRow {
        // the header row supplies the keys of every later row
        columns := row;
        headerRow := false;
        assert rows[1..i + 1] == [];
      } else {
        var tempObject: Record := map[];
        var idx := 0;
        while idx < |row|
          invariant 0 <= idx <= |row| && idx <= |columns|
          invariant tempObject == RowRecord(columns, row[..idx])
        {
          if idx >= |columns| {
            // columns[idx] raises IndexError
            assert rows[1..i + 1][..i - 1] == rows[1..i] && rows[1..i + 1][i - 1] == row;
            assert rows[1..][..i] == rows[1..i + 1];
            ParseDataPrefixErr(columns, rows[1..], trackColumnOrder, 1, i);
            return Err(RowTooLong(i));
          }
          assert row[..idx + 1][..idx] == row[..idx];
          tempObject := tempObject[columns[idx] := Text(row[idx])];
          idx := idx + 1;
        }
        assert row[..idx] == row;
        if trackColumnOrder {
          tempObject := tempObject[TrackColumnOrder := Columns(columns)];
        }
        assert rows[1..i + 1][..i - 1] == rows[1..i];
        output := output + [tempObject];
      }
      i := i + 1;
    }
    assert rows == [] || rows[1..i] == rows[1..];
    return Ok(output);
  }

  /** Once a prefix of the data rows fails, the whole parse fails the same way. */
  lemma {:induction false} ParseDataPrefixErr(header: seq<string>, data: seq<seq<string>>, track: bool, first: nat, n: nat)
    requires n <= |data| && ParseData(header, data[..n], track, first).Err?
    ensures ParseData(header, data, track, first) == ParseData(header, data[..n], track, first)
    decreases |data| - n
  {
    if n < |data| {
      assert data[..n + 1][..n] == data[..n];
      ParseDataPrefixErr(header, data, track, first, n + 1);
    } else {
      assert data[..n] == data;
    }
  }

  /** csv_to_list fails exactly when some data row has more cells than the
      header. */
  lemma {:induction false} ParsedFailsIffRowTooLong(rows: seq<seq<string>>, track: bool)
    ensures Parsed(rows, track).Err? <==> exists k :: 1 <= k < |rows| && |rows[k]| > |rows[0]|
  {
    if rows != [] {
      ParseDataSpec(rows[0], rows[1..], track, 1);
      var r := ParseData(rows[0], rows[1..], track, 1);
      if r.Err? {
        var k :| 0 <= k < |rows[1..]| && |rows[1..][k]| > |rows[0]|;
        assert |rows[k + 1]| > |rows[0]|;
      }
      if exists k :: 1 <= k < |rows| && |rows[k]| > |rows[0]| {
        var k :| 1 <= k < |rows| && |rows[k]| > |rows[0]|;
        assert rows[1..][k - 1] == rows[k];
      }
    }
  }

  // ---------------------------------------------------------------------
  // list_to_csv: records -> table
  // ---------------------------------------------------------------------

  /** The column names a header value stands for: the list itself, or, for a
      string, its characters (iterating a Python str yields its characters). */
  function ColumnsOf(f: Field): seq<string>
  {
    match f
    case Columns(names) => names
    case Text(s) => seq(|s|, i requires 0 <= i < |s| => [s[i]])
  }

  /** A row of plain cells, as the header row is written out. */
  function TextRow(cols: seq<string>): seq<Field>
  {
    seq(|cols|, i requires 0 <= i < |cols| => Text(cols[i]))
  }

  /** One output row: the record's values in the order of `cols`; the first
      column the record lacks raises KeyError. */
  function Project(rec: Record, cols: seq<string>): Result<seq<Field>>
    decreases |cols|
  {
    if cols == [] then Ok([])
    else
      var last := cols[|cols| - 1];
      match Project(rec, cols[..|cols| - 1])
      case Err(e) => Err(e)
      case Ok(done) =>
        if last !in rec then Err(MissingKey(last)) else Ok(done + [rec[last]])
  }

  /** The output rows of all records, or the first record's failure. */
  function ProjectAll(records: seq<Record>, cols: seq<string>): Result<seq<seq<Field>>>
    decreases |records|
  {
    if records == [] then Ok([])
    else
      match ProjectAll(records[..|records| - 1], cols)
      case Err(e) => Err(e)
      case Ok(done) =>
        match Project(records[|records| - 1], cols)
        case Err(e) => Err(e)
        case Ok(row) => Ok(done + [row])
  }

  /** A record projects to its values in column order exactly when it has
      every column; otherwise the first missing column is reported. */
  lemma {:induction false} ProjectSpec(rec: Record, cols: seq<string>)
    ensures Project(rec, cols).Ok? <==> forall c :: c in cols ==> c in rec
    ensures Project(rec, cols).Ok? ==>
              (|Project(rec, cols).value| == |cols| &&
               forall i :: 0 <= i < |cols| ==> Project(rec, cols).value[i] == rec[cols[i]])
    ensures Project(rec, cols).Err? ==>
              (exists i :: 0 <= i < |cols| && cols[i] !in rec &&
                 Project(rec, cols).error == MissingKey(cols[i]) &&
                 forall j :: 0 <= j < i ==> cols[j] in rec)
    decreases |cols|
  {
    if cols != [] {
      var init := cols[..|cols| - 1];
      ProjectSpec(rec, init);
      assert forall i :: 0 <= i < |init| ==> init[i] == cols[i];
      assert cols == init + [cols[|cols| - 1]];
    }
  }

  /** All records project, in order, exactly when each one does; otherwise
      the failure of the first record that does not is reported. */
  lemma {:induction false} ProjectAllSpec(records: seq<Record>, cols: seq<string>)
    ensures ProjectAll(records, cols).Ok? <==> forall k :: 0 <= k < |records| ==> Project(records[k], cols).Ok?
    ensures ProjectAll(records, cols).Ok? ==>
              (|ProjectAll(records, cols).value| == |records| &&
               forall k :: 0 <= k < |records| ==> Project(records[k], cols) == Ok(ProjectAll(records, cols).value[k]))
    ensures ProjectAll(records, cols).Err? ==>
              (exists k :: 0 <= k < |records| && Project(records[k], cols) == Err(ProjectAll(records, cols).error) &&
                 forall j :: 0 <= j < k ==> Project(records[j], cols).Ok?)
    decreases |records|
  {
    if records != [] {
      var init := records[..|records| - 1];
      ProjectAllSpec(init, cols);
      assert forall k :: 0 <= k < |init| ==> init[k] == records[k];
    }
  }

  /** The columns list_to_csv writes, taken from the first record: its
      "track_column_order" entry, or else its keys in sorted order. */
  ghost function HeaderColumns(first: Record, preserveColumnOrder: bool): Result<seq<string>>
  {
    if preserveColumnOrder then
      if TrackColumnOrder in first then Ok(ColumnsOf(first[TrackColumnOrder]))
      else Err(MissingKey(TrackColumnOrder))
    else Ok(SortedOf(first.Keys))
  }

  /** The rows list_to_csv hands to the csv writer. */
  ghost function Exported(records: seq<Record>, preserveColumnOrder: bool): Result<seq<seq<Field>>>
  {
    if records == [] then Ok([])
    else
      match HeaderColumns(records[0], preserveColumnOrder)
      case Err(e) => Err(e)
      case Ok(cols) =>
        match ProjectAll(records, cols)
        case Err(e) => Err(e)
        case Ok(rows) => Ok([TextRow(cols)] + rows)
  }

  /** list_to_csv without the file: the loop that builds the output rows. */
  method ListToCsv(records: seq<Record>, preserveColumnOrder: bool) returns (r: Result<seq<seq<Field>>>)
    ensures r == Exported(records, preserveColumnOrder)
  {
    var output: seq<seq<Field>> := [];
    var cols: seq<string> := [];
    var i := 0;
    while i < |records|
      invariant 0 <= i <= |records|
      invariant i == 0 <==> output == []
      invariant i > 0 ==> HeaderColumns(records[0], preserveColumnOrder) == Ok(cols)
      invariant i > 0 ==> ProjectAll(records[..i], cols) == Ok(output[1..]) && output[0] == TextRow(cols)
    {
      var row := records[i];
      if |output| == 0 {
        // the first record decides the columns and the header row
        if preserveColumnOrder {
          if TrackColumnOrder !in row {
            return Err(MissingKey(TrackColumnOrder));
          }
          output := output + [TextRow(ColumnsOf(row[TrackColumnOrder]))];
          cols := ColumnsOf(row[TrackColumnOrder]);
        } else {
          var keys := SortKeys(row.Keys);
          output := output + [TextRow(keys)];
          cols := keys;
        }
        assert records[..i] == [];
      }
      var tempList := ProjectRow(row, cols);
      if tempList.Err? {
        assert records[..i + 1][..i] == records[..i] && records[..i + 1][i] == row;
        ProjectAllPrefixErr(records, cols, i + 1);
        return Err(tempList.error);
      }
      assert records[..i + 1][..i] == records[..i] && records[..i + 1][i] == row;
      output := output + [tempList.value];
      assert output[1..] == output[1..|output| - 1] + [tempList.value];
      i := i + 1;
    }
    assert records == [] || records[..i] == records;
    assert output == [] || output == [output[0]] + output[1..];
    return Ok(output);
  }

  /** One output row of list_to_csv: the loop over the columns that looks
      each one up in the record. */
  method ProjectRow(row: Record, cols: seq<string>) returns (r: Result<seq<Field>>)
    ensures r == Project(row, cols)
  {
    var tempList: seq<Field> := [];
    var j := 0;
    while j < |cols|
      invariant 0 <= j <= |cols|
      invariant Project(row, cols[..j]) == Ok(tempList)
    {
      assert cols[..j + 1][..j] == cols[..j];
      if cols[j] !in row {
        // row[col] raises KeyError
        ProjectPrefixErr(row, cols, j + 1);
        return Err(MissingKey(cols[j]));
      }
      tempList := tempList + [row[cols[j]]];
      j := j + 1;
    }
    assert cols[..j] == cols;
    return Ok(tempList);
  }

  /** Once a prefix of the columns fails, the whole projection fails the same way. */
  lemma {:induction false} ProjectPrefixErr(rec: Record, cols: seq<string>, n: nat)
    requires n <= |cols| && Project(rec, cols[..n]).Err?
    ensures Project(rec, cols) == Project(rec, cols[..n])
    decreases |cols| - n
  {
    if n < |cols| {
      assert cols[..n + 1][..n] == cols[..n];
      ProjectPrefixErr(rec, cols, n + 1);
    } else {
      assert cols[..n] == cols;
    }
  }

  /** Once a prefix of the records fails, the whole export fails the same way. */
  lemma {:induction false} ProjectAllPrefixErr(records: seq<Record>, cols: seq<string>, n: nat)
    requires n <= |records| && ProjectAll(records[..n], cols).Err?
    ensures ProjectAll(records, cols) == ProjectAll(records[..n], cols)
    decreases |records| - n
  {
    if n < |records| {
      assert records[..n + 1][..n] == records[..n];
      ProjectAllPrefixErr(records, cols, n + 1);
    } else {
      assert records[..n] == records;
    }
  }

  // ---------------------------------------------------------------------
  // csv_to_list followed by list_to_csv
  // ---------------------------------------------------------------------

  /** A row as long as a header of distinct names that avoids
      "track_column_order" comes back from its dictionary unchanged. */
  lemma {:induction false} ProjectRowRecord(header: seq<string>, row: seq<string>, track: bool)
    requires |row| == |header|
    requires forall i, j :: 0 <= i < j < |header| ==> header[i] != header[j]
    requires TrackColumnOrder !in header
    ensures Project(WithColumnOrder(RowRecord(header, row), header, track), header) == Ok(TextRow(row))
  {
    var base := RowRecord(header, row);
    var rec := WithColumnOrder(base, header, track);
    forall i | 0 <= i < |header|
      ensures header[i] in rec && rec[header[i]] == Text(row[i])
    {
      RowRecordAt(header, row, i);
      assert header[i] != TrackColumnOrder;
    }
    assert forall c :: c in header ==> c in rec;
    ProjectSpec(rec, header);
    var out := Project(rec, header).value;
    assert |out| == |TextRow(row)|;
    assert forall i :: 0 <= i < |out| ==> out[i] == TextRow(row)[i];
    assert out == TextRow(row);
  }

  /** A row shorter than the header yields a dictionary that lacks the
      column after its last cell, and exporting it raises KeyError there. */
  lemma {:induction false} ShortRowMissesColumn(header: seq<string>, row: seq<string>, track: bool)
    requires |row| < |header|
    requires forall i, j :: 0 <= i < j < |header| ==> header[i] != header[j]
    requires TrackColumnOrder !in header
    ensures Project(WithColumnOrder(RowRecord(header, row), header, track), header) == Err(MissingKey(header[|row|]))
  {
    var rec := WithColumnOrder(RowRecord(header, row), header, track);
    assert header[|row|] !in rec;
    forall j | 0 <= j < |row|
      ensures header[j] in rec
    {
      RowRecordAt(header, row, j);
    }
    ProjectSpec(rec, header);
  }

  /** The table of plain cells that a table of strings is written as. */
  function TextRows(rows: seq<seq<string>>): seq<seq<Field>>
  {
    seq(|rows|, k requires 0 <= k < |rows| => TextRow(rows[k]))
  }

  /** The dictionaries of full-length data rows project back onto the header
      as the rows themselves. */
  lemma {:induction false} ProjectParsedData(header: seq<string>, data: seq<seq<string>>, recs: seq<Record>)
    requires forall i, j :: 0 <= i < j < |header| ==> header[i] != header[j]
    requires TrackColumnOrder !in header
    requires forall k :: 0 <= k < |data| ==> |data[k]| == |header|
    requires |recs| == |data|
    requires forall k :: 0 <= k < |data| ==> recs[k] == WithColumnOrder(RowRecord(header, data[k]), header, true)
    ensures ProjectAll(recs, header) == Ok(TextRows(data))
  {
    forall k | 0 <= k < |recs|
      ensures Project(recs[k], header) == Ok(TextRow(data[k]))
    {
      ProjectRowRecord(header, data[k], true);
    }
    ProjectAllSpec(recs, header);
    var out := ProjectAll(recs, header).value;
    assert forall k :: 0 <= k < |out| ==> out[k] == TextRows(data)[k];
    assert out == TextRows(data);
  }

  /** Reading a table with the header tracked and writing it back with the
      column order preserved gives the same table, when the table has a data
      row, every row has the header's length, and the header names are
      distinct and avoid "track_column_order". */
  lemma {:induction false} RoundTrip(rows: seq<seq<string>>)
    requires |rows| >= 2
    requires forall i, j :: 0 <= i < j < |rows[0]| ==> rows[0][i] != rows[0][j]
    requires TrackColumnOrder !in rows[0]
    requires forall k :: 1 <= k < |rows| ==> |rows[k]| == |rows[0]|
    ensures Parsed(rows, true).Ok?
    ensures Exported(Parsed(rows, true).value, true) == Ok(TextRows(rows))
  {
    var header, data := rows[0], rows[1..];
    ParseDataSpec(header, data, true, 1);
    var recs := Parsed(rows, true).value;
    assert recs[0] == RowRecord(header, data[0])[TrackColumnOrder := Columns(header)];
    assert HeaderColumns(recs[0], true) == Ok(header);
    ProjectParsedData(header, data, recs);
    assert Exported(recs, true) == Ok([TextRow(header)] + TextRows(data));
    assert [TextRow(header)] + TextRows(data) == TextRows(rows);
  }

  /** A table holding only its header reads as no records, and exporting
      those writes nothing, so the header itself is lost. */
  lemma HeaderOnlyLosesHeader(header: seq<string>)
    ensures Parsed([header], true) == Ok([])
    ensures Exported(Parsed([header], true).value, true) == Ok([])
  {
    assert [header][1..] == [];
  }

  /** Exporting an empty list writes nothing, not even a header; otherwise the
      first row written is the header. */
  lemma {:induction false} ExportedShape(records: seq<Record>, preserveColumnOrder: bool)
    ensures records == [] ==> Exported(records, preserveColumnOrder) == Ok([])
    ensures records != [] && Exported(records, preserveColumnOrder).Ok? ==>
              (HeaderColumns(records[0], preserveColumnOrder).Ok? &&
               |Exported(records, preserveColumnOrder).value| == |records| + 1 &&
               Exported(records, preserveColumnOrder).value[0] ==
                 TextRow(HeaderColumns(records[0], preserveColumnOrder).value))
  {
    if records != [] && Exported(records, preserveColumnOrder).Ok? {
      ProjectAllSpec(records, HeaderColumns(records[0], preserveColumnOrder).value);
    }
  }

  /** With sorted headers, records that all have the first record's keys are
      exported without error, under the first record's keys in sorted order. */
  lemma {:induction false} SortedExportSucceeds(records: seq<Record>)
    requires records != []
    requires forall k :: 0 <= k < |records| ==> records[0].Keys <= records[k].Keys
    ensures Exported(records, false).Ok?
    ensures Exported(records, false).value[0] == TextRow(SortedOf(records[0].Keys))
  {
    var cols := SortedOf(records[0].Keys);
    SortedOfListsKeys(records[0].Keys);
    forall k | 0 <= k < |records|
      ensures Project(records[k], cols).Ok?
    {
      ProjectSpec(records[k], cols);
    }
    ProjectAllSpec(records, cols);
  }
}
