/** The importer's data frame and the stages that transform it before
    insertion (gimport.py): header cleaning in place, missing-value
    imputation, and the provenance columns `source_file` and `import_date`. */
module Frame {
  import Headers

  /** A cell. Numbers are opaque (no arithmetic is done on them); `Missing`
      is pandas' NaN/None, which the database stores as NULL. */
  datatype Value = Num(x: real) | Text(s: string) | Date(day: int) | Missing

  /** Every row has `width` cells. */
  ghost predicate HasWidth(rows: seq<seq<Value>>, width: nat) {
    forall r :: r in rows ==> |r| == width
  }

  /** A pandas data frame: an ordered header row and positional rows. */
  class DataFrame {
    var columns: seq<string>
    var rows: seq<seq<Value>>

    ghost predicate Valid()
      reads this
    {
      HasWidth(rows, |columns|)
    }

    constructor (columns: seq<string>, rows: seq<seq<Value>>)
      requires HasWidth(rows, |columns|)
      ensures Valid()
      ensures this.columns == columns && this.rows == rows
    {
      this.columns := columns;
      this.rows := rows;
    }

    /** `clean_column_headers`: the header row is replaced by its cleaned
        form, position by position; the cells do not move. */
    method CleanColumnHeaders()
      requires Valid()
      modifies this
      ensures Valid()
      ensures columns == Headers.CleanHeaders(old(columns))
      ensures rows == old(rows)
    {
      columns := Headers.CleanHeaders(columns);
    }

    /** `df[name] = v` with a scalar `v`. */
    method Assign(name: string, v: Value)
      requires Valid()
      modifies this
      ensures Valid()
      ensures columns == AssignedColumns(old(columns), name)
      ensures rows == AssignedRows(old(columns), old(rows), name, v)
    {
      AssignSpec(columns, rows, name, v);
      rows := AssignedRows(columns, rows, name, v);
      columns := AssignedColumns(columns, name);
    }
  }

  /** The header row after `df[name] = v`: unchanged when a column `name`
      exists, otherwise `name` appended at the end. */
  function AssignedColumns(columns: seq<string>, name: string): (r: seq<string>)
    ensures name in r && |columns| <= |r| <= |columns| + 1 && r[..|columns|] == columns
    ensures |r| == |columns| <==> name in columns
  {
    if name in columns then columns else columns + [name]
  }

  /** The cells after `df[name] = v`: every column called `name` holds `v`
      in every row; when there is none, `v` is appended to every row. */
  function AssignedRows(columns: seq<string>, rows: seq<seq<Value>>, name: string, v: Value): (rs: seq<seq<Value>>)
    requires HasWidth(rows, |columns|)
    ensures |rs| == |rows| && HasWidth(rs, |AssignedColumns(columns, name)|)
  {
    if name !in columns then
      seq(|rows|, r requires 0 <= r < |rows| => rows[r] + [v])
    else
      seq(|rows|, r requires 0 <= r < |rows| =>
        seq(|columns|, j requires 0 <= j < |columns| => if columns[j] == name then v else rows[r][j]))
  }

  /** After `df[name] = v` the frame has a column `name`, keeps its shape,
      holds `v` in that column of every row and leaves every other cell
      where and as it was. */
  lemma AssignSpec(columns: seq<string>, rows: seq<seq<Value>>, name: string, v: Value)
    requires HasWidth(rows, |columns|)
    ensures var cols, rs := AssignedColumns(columns, name), AssignedRows(columns, rows, name, v);
      && name in cols
      && cols[..|columns|] == columns
      && |rs| == |rows| && HasWidth(rs, |cols|)
      && forall r, j :: 0 <= r < |rs| && 0 <= j < |cols| ==>
           rs[r][j] == if cols[j] == name then v else rows[r][j]
  {
    var cols, rs := AssignedColumns(columns, name), AssignedRows(columns, rows, name, v);
    forall r, j | 0 <= r < |rs| && 0 <= j < |cols|
      ensures rs[r][j] == if cols[j] == name then v else rows[r][j]
    {
      AssignCell(columns, rows, name, v, r, j);
    }
  }

  /** The fill value for a missing cell: `0` in a numeric column, `''` in
      any other. */
  function FillValue(numeric: bool): (v: Value)
    ensures v != Missing
  {
    if numeric then Num(0.0) else Text("")
  }

  function FillCell(v: Value, numeric: bool): Value {
    if v == Missing then FillValue(numeric) else v
  }

  /** `handle_missing_data`: a new frame body in which every missing cell of
      a numeric column is `0` and every other missing cell is `''`; present
      cells, row count and column count are unchanged. `numeric[j]` is the
      kind pandas inferred for column `j`. */
  function FillMissing(rows: seq<seq<Value>>, numeric: seq<bool>): (filled: seq<seq<Value>>)
    requires HasWidth(rows, |numeric|)
    ensures |filled| == |rows| && HasWidth(filled, |numeric|) && NoMissing(filled)
    ensures forall r, j :: 0 <= r < |rows| && 0 <= j < |numeric| ==>
              filled[r][j] != Missing
              && (rows[r][j] != Missing ==> filled[r][j] == rows[r][j])
              && (rows[r][j] == Missing && numeric[j] ==> filled[r][j] == Num(0.0))
              && (rows[r][j] == Missing && !numeric[j] ==> filled[r][j] == Text(""))
  {
    seq(|rows|, r requires 0 <= r < |rows| =>
      seq(|numeric|, j requires 0 <= j < |numeric| => FillCell(rows[r][j], numeric[j])))
  }

  /** One cell of `AssignSpec`. */
  lemma AssignCell(columns: seq<string>, rows: seq<seq<Value>>, name: string, v: Value, r: nat, j: nat)
    requires HasWidth(rows, |columns|)
    requires r < |rows| && j < |AssignedColumns(columns, name)|
    ensures var cols, rs := AssignedColumns(columns, name), AssignedRows(columns, rows, name, v);
      && |rs[r]| == |cols|
      && rs[r][j] == if cols[j] == name then v else rows[r][j]
  {
    assert rows[r] in rows;
    var rs := AssignedRows(columns, rows, name, v);
    assert rs[r] in rs;
  }

  /** Two assignments to different names in a row: each of the two
      columns holds its own value in every row afterwards. */
  lemma AssignTwice(columns: seq<string>, rows: seq<seq<Value>>, a: string, va: Value, b: string, vb: Value)
    requires HasWidth(rows, |columns|) && a != b
    ensures var cols1, rows1 := AssignedColumns(columns, a), AssignedRows(columns, rows, a, va);
      var cols, rs := AssignedColumns(cols1, b), AssignedRows(cols1, rows1, b, vb);
      && a in cols && b in cols
      && forall r, j :: 0 <= r < |rs| && 0 <= j < |cols| ==>
           (cols[j] == a ==> rs[r][j] == va) && (cols[j] == b ==> rs[r][j] == vb)
  {
    var cols1, rows1 := AssignedColumns(columns, a), AssignedRows(columns, rows, a, va);
    var cols, rs := AssignedColumns(cols1, b), AssignedRows(cols1, rows1, b, vb);
    assert cols == cols1 || cols == cols1 + [b];
    forall r, j | 0 <= r < |rs| && 0 <= j < |cols|
      ensures (cols[j] == a ==> rs[r][j] == va) && (cols[j] == b ==> rs[r][j] == vb)
    {
      AssignCell(cols1, rows1, b, vb, r, j);
      if cols[j] == a {
        assert j < |cols1| && cols[j] == cols1[j];
        AssignCell(columns, rows, a, va, r, j);
      }
    }
  }

  /** No cell is missing. */
  ghost predicate NoMissing(rows: seq<seq<Value>>) {
    forall r, j :: 0 <= r < |rows| && 0 <= j < |rows[r]| ==> rows[r][j] != Missing
  }

  /** Assigning a present value keeps a frame free of missing cells. */
  lemma AssignKeepsNoMissing(columns: seq<string>, rows: seq<seq<Value>>, name: string, v: Value)
    requires HasWidth(rows, |columns|) && NoMissing(rows) && v != Missing
    ensures NoMissing(AssignedRows(columns, rows, name, v))
  {
    AssignSpec(columns, rows, name, v);
    var rs := AssignedRows(columns, rows, name, v);
    forall r, j | 0 <= r < |rs| && 0 <= j < |rs[r]| ensures rs[r][j] != Missing {
      assert rs[r] in rs;
      assert rows[r] in rows;
    }
  }

  /** `path.split('/')[-1]`: the part of the path after its last `/`, or
      the whole path when it has none. */
  function BaseName(path: string): (name: string)
    ensures '/' !in name
    ensures |name| <= |path| && name == path[|path| - |name|..]
    ensures |name| < |path| ==> path[|path| - |name| - 1] == '/'
  {
    if path == [] || path[|path| - 1] == '/' then []
    else BaseName(path[..|path| - 1]) + [path[|path| - 1]]
  }
}
