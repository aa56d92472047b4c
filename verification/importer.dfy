/** `DataImporter.import_data_into_database` (gimport.py): clean the
    headers, fill missing cells, stamp every row with `source_file` and
    `import_date`, then hand the rows, as name-indexed records, to the
    duplicate-aware insertion. Reading the workbook, the clock and the
    database connection are parameters: the parsed frame, the date, and the
    table object. */
module Importer {
  import Headers
  import opened Frame
  import opened KeyedInsert
  import opened Strings

  /** One frame row as the record `to_sql` hands over: cell by column name. */
  function RowOf(columns: seq<string>, cells: seq<Value>): (row: Row)
    requires NoDuplicates(columns) && |cells| == |columns|
    ensures row.Keys == set c | c in columns
    ensures forall j :: 0 <= j < |columns| ==> row[columns[j]] == cells[j]
  {
    map j | 0 <= j < |columns| :: columns[j] := cells[j]
  }

  function Records(columns: seq<string>, rows: seq<seq<Value>>): (records: seq<Row>)
    requires NoDuplicates(columns) && HasWidth(rows, |columns|)
    ensures |records| == |rows|
  {
    seq(|rows|, r requires 0 <= r < |rows| => (assert rows[r] in rows; RowOf(columns, rows[r])))
  }

  /** The header row the frame has when it reaches `to_sql`. */
  function PreparedColumns(columns: seq<string>): (r: seq<string>)
    ensures "source_file" in r && "import_date" in r
    ensures |columns| <= |r| <= |columns| + 2
    ensures r[..|columns|] == Headers.CleanHeaders(columns)
  {
    AssignedColumns(AssignedColumns(Headers.CleanHeaders(columns), "source_file"), "import_date")
  }

  /** The cells the frame has when it reaches `to_sql`. */
  function PreparedRows(path: string, columns: seq<string>, cells: seq<seq<Value>>,
                        numeric: seq<bool>, today: int): (r: seq<seq<Value>>)
    requires HasWidth(cells, |columns|) && |numeric| == |columns|
    ensures |r| == |cells| && HasWidth(r, |PreparedColumns(columns)|)
  {
    var cleaned := Headers.CleanHeaders(columns);
    var filled := FillMissing(cells, numeric);
    var withSource := AssignedRows(cleaned, filled, "source_file", Text(BaseName(path)));
    AssignedRows(AssignedColumns(cleaned, "source_file"), withSource, "import_date", Date(today))
  }

  /** How an import ends. `DuplicateColumns`: two cleaned headers coincide,
      so rows cannot be keyed by column name. `MissingKeyColumn`: a key
      column is absent and `row[key]` raised on the row at `index`. */
  datatype ImportOutcome = Imported | DuplicateColumns | MissingKeyColumn(index: nat)

  /** The key columns are all columns of the prepared frame. */
  predicate HasKeys(columns: seq<string>) {
    forall c :: c in KeyColumns ==> c in columns
  }

  /** The frame stages of the import, in order: read (the frame is given),
      clean the headers, fill missing cells, stamp `source_file` and
      `import_date`. */
  method PrepareFrame(path: string, columns: seq<string>, cells: seq<seq<Value>>,
                      numeric: seq<bool>, today: int)
    returns (df: DataFrame)
    requires HasWidth(cells, |columns|) && |numeric| == |columns|
    ensures fresh(df) && df.Valid()
    ensures df.columns == PreparedColumns(columns)
    ensures df.rows == PreparedRows(path, columns, cells, numeric, today)
  {
    df := new DataFrame(columns, cells);
    df.CleanColumnHeaders();
    df := new DataFrame(df.columns, FillMissing(df.rows, numeric));
    df.Assign("source_file", Text(BaseName(path)));
    df.Assign("import_date", Date(today));
  }

  /** The whole import, run against `table`. */
  method ImportDataIntoDatabase(path: string, columns: seq<string>, cells: seq<seq<Value>>,
                                numeric: seq<bool>, today: int, table: Table)
    returns (outcome: ImportOutcome)
    requires HasWidth(cells, |columns|) && |numeric| == |columns|
    modifies table
    ensures var cols := PreparedColumns(columns);
      && (outcome == DuplicateColumns <==> !NoDuplicates(cols))
      && (outcome.MissingKeyColumn? <==> NoDuplicates(cols) && !HasKeys(cols) && |cells| > 0)
      && (outcome.MissingKeyColumn? ==> outcome.index == 0)
      && (outcome.Imported? ==>
            table.rows == InsertAll(old(table.rows), Records(cols, PreparedRows(path, columns, cells, numeric, today))))
      && (!outcome.Imported? ==> table.rows == old(table.rows))
    ensures DistinctKeys(old(table.rows)) ==> DistinctKeys(table.rows)
  {
    ghost var before := table.rows;
    var df := PrepareFrame(path, columns, cells, numeric, today);
    var cols, rows := df.columns, df.rows;
    assert cols == PreparedColumns(columns);
    assert rows == PreparedRows(path, columns, cells, numeric, today);
    if !NoDuplicates(cols) {
      return DuplicateColumns;
    }
    var records := Records(cols, rows);
    RecordsHaveKeys(cols, rows);
    var result := table.MyInsert(records);
    if result.KeyError? {
      assert !HasKeys(cols);
      assert !HasKeyColumns(records[0]);
      assert result.index == 0;
      assert records[..0] == [];
      assert table.rows == InsertAll(before, []);
      return MissingKeyColumn(result.index);
    }
    assert table.rows == InsertAll(before, records);
    return Imported;
  }

  /** A record has every key column exactly when the header row does. */
  lemma RecordsHaveKeys(columns: seq<string>, rows: seq<seq<Value>>)
    requires NoDuplicates(columns) && HasWidth(rows, |columns|)
    ensures forall r :: 0 <= r < |rows| ==> (HasKeyColumns(Records(columns, rows)[r]) <==> HasKeys(columns))
  {
    forall r | 0 <= r < |rows| ensures Records(columns, rows)[r].Keys == set c | c in columns {
      assert rows[r] in rows;
    }
  }

  /** The prepared frame has one cell per column and none of them is
      missing. */
  lemma PreparedRowsNoMissing(path: string, columns: seq<string>, cells: seq<seq<Value>>,
                              numeric: seq<bool>, today: int)
    requires HasWidth(cells, |columns|) && |numeric| == |columns|
    ensures var rows := PreparedRows(path, columns, cells, numeric, today);
      |rows| == |cells| && HasWidth(rows, |PreparedColumns(columns)|) && NoMissing(rows)
  {
    var cleaned := Headers.CleanHeaders(columns);
    var filled := FillMissing(cells, numeric);
    AssignKeepsNoMissing(cleaned, filled, "source_file", Text(BaseName(path)));
    var cols1 := AssignedColumns(cleaned, "source_file");
    var rows1 := AssignedRows(cleaned, filled, "source_file", Text(BaseName(path)));
    AssignKeepsNoMissing(cols1, rows1, "import_date", Date(today));
  }

  /** Every prepared row carries the file name in `source_file` and the
      import date in `import_date`. */
  lemma PreparedRowsStamped(path: string, columns: seq<string>, cells: seq<seq<Value>>,
                            numeric: seq<bool>, today: int)
    requires HasWidth(cells, |columns|) && |numeric| == |columns|
    ensures var cols, rows := PreparedColumns(columns), PreparedRows(path, columns, cells, numeric, today);
      && "source_file" in cols && "import_date" in cols
      && |rows| == |cells| && HasWidth(rows, |cols|)
      && forall r, j :: 0 <= r < |rows| && 0 <= j < |cols| ==>
           && (cols[j] == "source_file" ==> rows[r][j] == Text(BaseName(path)))
           && (cols[j] == "import_date" ==> rows[r][j] == Date(today))
  {
    var cleaned := Headers.CleanHeaders(columns);
    var filled := FillMissing(cells, numeric);
    assert "source_file" != "import_date" by {
      assert "source_file"[0] != "import_date"[0];
    }
    AssignTwice(cleaned, filled, "source_file", Text(BaseName(path)), "import_date", Date(today));
  }

  /** The records handed to the insertion: each one holds the prepared
      values under the prepared column names. */
  lemma RecordsSpec(columns: seq<string>, rows: seq<seq<Value>>)
    requires NoDuplicates(columns) && HasWidth(rows, |columns|)
    ensures forall r, j :: 0 <= r < |rows| && 0 <= j < |columns| ==>
              columns[j] in Records(columns, rows)[r] && Records(columns, rows)[r][columns[j]] == rows[r][j]
  {
    forall r | 0 <= r < |rows| ensures |rows[r]| == |columns| {
      assert rows[r] in rows;
    }
  }

  /** When the key columns are present, every record has a complete key:
      the provenance columns are never missing, and imputation has filled
      the business columns. */
  lemma PreparedRecordsKeyComplete(path: string, columns: seq<string>, cells: seq<seq<Value>>,
                                   numeric: seq<bool>, today: int)
    requires HasWidth(cells, |columns|) && |numeric| == |columns|
    requires NoDuplicates(PreparedColumns(columns)) && HasKeys(PreparedColumns(columns))
    ensures var cols := PreparedColumns(columns);
      var rows := PreparedRows(path, columns, cells, numeric, today);
      HasWidth(rows, |cols|) &&
      forall r :: 0 <= r < |rows| ==> KeyComplete(Records(cols, rows)[r])
  {
    PreparedRowsNoMissing(path, columns, cells, numeric, today);
    RecordsKeyComplete(PreparedColumns(columns), PreparedRows(path, columns, cells, numeric, today));
  }

  /** Records built from a frame with every key column and no missing cell
      have complete keys. */
  lemma RecordsKeyComplete(cols: seq<string>, rows: seq<seq<Value>>)
    requires NoDuplicates(cols) && HasWidth(rows, |cols|) && NoMissing(rows) && HasKeys(cols)
    ensures forall r :: 0 <= r < |rows| ==> KeyComplete(Records(cols, rows)[r])
  {
    RecordsSpec(cols, rows);
    var records := Records(cols, rows);
    forall r, c | 0 <= r < |rows| && c in KeyColumns
      ensures c in records[r] && records[r][c] != Missing
    {
      var j :| 0 <= j < |cols| && cols[j] == c;
      assert rows[r] in rows;
      assert records[r][c] == rows[r][j];
    }
  }

  /** Running the same import again, with the same file path and the same
      date, appends nothing: the table after two runs is the table after
      one. */
  lemma ImportIsIdempotent(path: string, columns: seq<string>, cells: seq<seq<Value>>,
                           numeric: seq<bool>, today: int, t: seq<Row>)
    requires HasWidth(cells, |columns|) && |numeric| == |columns|
    requires NoDuplicates(PreparedColumns(columns)) && HasKeys(PreparedColumns(columns))
    ensures var cols := PreparedColumns(columns);
      var rows := PreparedRows(path, columns, cells, numeric, today);
      HasWidth(rows, |cols|) &&
      var once := InsertAll(t, Records(cols, rows));
      InsertAll(once, Records(cols, rows)) == once
  {
    PreparedRecordsKeyComplete(path, columns, cells, numeric, today);
    var cols := PreparedColumns(columns);
    var rows := PreparedRows(path, columns, cells, numeric, today);
    InsertAllIdempotent(t, Records(cols, rows));
  }
}
