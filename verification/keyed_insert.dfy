/** The duplicate-aware insertion of the importer (`my_insert` and
    `_build_condition_query` in gimport.py): for each row, in order, count
    the stored rows that agree with it on the five key columns and append
    the whole row only when that count is zero. */
module KeyedInsert {
  import opened Frame
  import opened Strings

  /** A row as the insertion sees it: cells by column name. */
  type Row = map<string, Value>

  /** The columns whose values identify a record. */
  const KeyColumns: seq<string> := ["source_file", "import_date", "smith_a", "smith_b", "smith_c"]

  /** A stored row's cell; a column the row was not given holds NULL. */
  function Cell(row: Row, c: string): Value {
    if c in row then row[c] else Missing
  }

  /** SQL `a = b`, which is never true when either side is NULL. */
  predicate SqlEquals(a: Value, b: Value) {
    a != Missing && b != Missing && a == b
  }

  /** The duplicate query's WHERE clause, with `row`'s key values bound to
      its placeholders, holds of the stored row `stored`. */
  predicate KeyMatch(stored: Row, row: Row) {
    forall c :: c in KeyColumns ==> SqlEquals(Cell(stored, c), Cell(row, c))
  }

  /** `row[key]` succeeds for every key column. */
  predicate HasKeyColumns(row: Row) {
    forall c :: c in KeyColumns ==> c in row
  }

  /** Every key column is present and not NULL. */
  predicate KeyComplete(row: Row) {
    forall c :: c in KeyColumns ==> c in row && row[c] != Missing
  }

  /** The key tuple of a row. */
  function KeyOf(row: Row): seq<Value> {
    seq(|KeyColumns|, i requires 0 <= i < |KeyColumns| => Cell(row, KeyColumns[i]))
  }

  /** No two stored rows satisfy each other's duplicate query. */
  ghost predicate DistinctKeys(t: seq<Row>) {
    forall i, j :: 0 <= i < j < |t| ==> !KeyMatch(t[i], t[j])
  }

  /** `SELECT COUNT(*) FROM table WHERE <key clause>` with `row`'s keys. */
  function CountMatches(t: seq<Row>, row: Row): (r: nat)
    ensures r <= |t|
  {
    if t == [] then 0
    else CountMatches(t[..|t| - 1], row) + (if KeyMatch(t[|t| - 1], row) then 1 else 0)
  }

  /** `is_duplicate`: the count is above zero. */
  predicate IsDuplicate(t: seq<Row>, row: Row) {
    CountMatches(t, row) > 0
  }

  /** One iteration of the loop: append the whole row unless it is a duplicate. */
  function InsertOne(t: seq<Row>, row: Row): (r: seq<Row>)
    ensures |t| <= |r| <= |t| + 1 && r[..|t|] == t
    ensures |r| == |t| + 1 <==> !IsDuplicate(t, row)
    ensures |r| == |t| + 1 ==> r[|t|] == row
  {
    if IsDuplicate(t, row) then t else t + [row]
  }

  /** The loop over a batch, in source order; rows appended earlier in the
      batch are part of the table that later rows are checked against. */
  function InsertAll(t: seq<Row>, batch: seq<Row>): (r: seq<Row>)
    ensures |t| <= |r| <= |t| + |batch| && r[..|t|] == t
  {
    if batch == [] then t
    else InsertOne(InsertAll(t, batch[..|batch| - 1]), batch[|batch| - 1])
  }

  /** How a call of `my_insert` ends: every row processed, or `row[key]`
      raised `KeyError` on the row at `index`. */
  datatype InsertOutcome = Completed | KeyError(index: nat)

  /** The database table the importer appends to. */
  class Table {
    var rows: seq<Row>

    constructor (rows: seq<Row>)
      ensures this.rows == rows
    {
      this.rows := rows;
    }

    /** `my_insert`: rows are checked and appended one by one; a row
        without a key column stops the loop with the rows before it already
        appended. */
    method MyInsert(batch: seq<Row>) returns (outcome: InsertOutcome)
      modifies this
      ensures outcome.Completed? ==>
                (forall j :: 0 <= j < |batch| ==> HasKeyColumns(batch[j]))
                && rows == InsertAll(old(rows), batch)
      ensures outcome.KeyError? ==>
                outcome.index < |batch| && !HasKeyColumns(batch[outcome.index])
                && (forall j :: 0 <= j < outcome.index ==> HasKeyColumns(batch[j]))
                && rows == InsertAll(old(rows), batch[..outcome.index])
      ensures DistinctKeys(old(rows)) ==> DistinctKeys(rows)
    {
      var i := 0;
      while i < |batch|
        invariant 0 <= i <= |batch|
        invariant rows == InsertAll(old(rows), batch[..i])
        invariant forall j :: 0 <= j < i ==> HasKeyColumns(batch[j])
      {
        var row := batch[i];
        assert batch[..i + 1] == batch[..i] + [row];
        assert batch[..i + 1][..i] == batch[..i];
        if !HasKeyColumns(row) {
          if DistinctKeys(old(rows)) {
            InsertAllKeepsDistinct(old(rows), batch[..i]);
          }
          return KeyError(i);
        }
        assert forall j :: 0 <= j < i + 1 ==> HasKeyColumns(batch[j]);
        assert InsertAll(old(rows), batch[..i + 1]) == InsertOne(rows, row);
        var count := CountMatches(rows, row);
        if count == 0 {
          rows := rows + [row];
        }
        assert rows == InsertAll(old(rows), batch[..i + 1]);
        i := i + 1;
      }
      assert batch[..i] == batch;
      if DistinctKeys(old(rows)) {
        InsertAllKeepsDistinct(old(rows), batch);
      }
      return Completed;
    }
  }

  /** The count is positive exactly when some stored row matches. */
  lemma {:induction false} CountMatchesPositive(t: seq<Row>, row: Row)
    ensures CountMatches(t, row) > 0 <==> exists i :: 0 <= i < |t| && KeyMatch(t[i], row)
    decreases |t|
  {
    if t != [] {
      var init := t[..|t| - 1];
      CountMatchesPositive(init, row);
      if exists i :: 0 <= i < |init| && KeyMatch(init[i], row) {
        var i :| 0 <= i < |init| && KeyMatch(init[i], row);
        assert t[i] == init[i];
      }
      if exists i :: 0 <= i < |t| && KeyMatch(t[i], row) {
        var i :| 0 <= i < |t| && KeyMatch(t[i], row);
        if i < |init| {
          assert init[i] == t[i];
        }
      }
    }
  }

  /** On rows whose key cells are all present and not NULL, matching is
      equality of key tuples; in particular such a row matches itself. */
  lemma KeyMatchIsKeyEquality(a: Row, b: Row)
    requires KeyComplete(a) && KeyComplete(b)
    ensures KeyMatch(a, b) <==> KeyOf(a) == KeyOf(b)
  {
    if KeyOf(a) == KeyOf(b) {
      forall c | c in KeyColumns ensures SqlEquals(Cell(a, c), Cell(b, c)) {
        var i :| 0 <= i < |KeyColumns| && KeyColumns[i] == c;
        assert KeyOf(a)[i] == KeyOf(b)[i];
      }
    }
  }

  /** On a table whose rows all have complete keys, no two rows matching
      each other is the same as no two rows having the same key tuple. */
  lemma DistinctKeysIsDistinctTuples(t: seq<Row>)
    requires forall i :: 0 <= i < |t| ==> KeyComplete(t[i])
    ensures DistinctKeys(t) <==> forall i, j :: 0 <= i < j < |t| ==> KeyOf(t[i]) != KeyOf(t[j])
  {
    forall i, j | 0 <= i < j < |t| ensures KeyMatch(t[i], t[j]) <==> KeyOf(t[i]) == KeyOf(t[j]) {
      KeyMatchIsKeyEquality(t[i], t[j]);
    }
  }

  /** Appending one more batch row: it goes to the end of the table exactly
      when no row already there (including rows appended earlier in the same
      batch) matches it, and then it is the whole row that goes in. */
  lemma InsertAllStep(t: seq<Row>, batch: seq<Row>, row: Row)
    ensures var before := InsertAll(t, batch);
      InsertAll(t, batch + [row])
        == if exists i :: 0 <= i < |before| && KeyMatch(before[i], row) then before else before + [row]
  {
    var b := batch + [row];
    assert b[..|b| - 1] == batch;
    CountMatchesPositive(InsertAll(t, batch), row);
  }

  /** The table only grows: the rows that were there stay, unchanged and in
      place, and each row added is a whole row of the batch. */
  lemma {:induction false} InsertAllAppendsOnly(t: seq<Row>, batch: seq<Row>)
    ensures var r := InsertAll(t, batch);
      && |t| <= |r| <= |t| + |batch|
      && r[..|t|] == t
      && forall j :: |t| <= j < |r| ==> r[j] in batch
    decreases |batch|
  {
    if batch != [] {
      var init := batch[..|batch| - 1];
      InsertAllAppendsOnly(t, init);
      var before := InsertAll(t, init);
      var r := InsertAll(t, batch);
      forall j | |t| <= j < |r| ensures r[j] in batch {
        if j < |before| {
          assert r[j] == before[j];
          assert before[j] in init;
        } else {
          assert r[j] == batch[|batch| - 1];
        }
      }
    }
  }

  /** Key uniqueness is preserved by the loop. */
  lemma {:induction false} InsertAllKeepsDistinct(t: seq<Row>, batch: seq<Row>)
    requires DistinctKeys(t)
    ensures DistinctKeys(InsertAll(t, batch))
    decreases |batch|
  {
    if batch != [] {
      var init := batch[..|batch| - 1];
      var row := batch[|batch| - 1];
      InsertAllKeepsDistinct(t, init);
      var before := InsertAll(t, init);
      CountMatchesPositive(before, row);
      if !IsDuplicate(before, row) {
        var r := before + [row];
        forall i, j | 0 <= i < j < |r| ensures !KeyMatch(r[i], r[j]) {
          if j == |before| {
            assert r[i] == before[i];
          } else {
            assert r[i] == before[i] && r[j] == before[j];
          }
        }
      }
    }
  }

  /** A row that matches some row of a table also matches some row of any
      table that extends it. */
  lemma DuplicateStaysDuplicate(t: seq<Row>, u: seq<Row>, row: Row)
    requires |t| <= |u| && u[..|t|] == t
    requires IsDuplicate(t, row)
    ensures IsDuplicate(u, row)
  {
    CountMatchesPositive(t, row);
    CountMatchesPositive(u, row);
    var i :| 0 <= i < |t| && KeyMatch(t[i], row);
    assert u[i] == t[i];
  }

  /** After the loop, every batch row with a complete key is matched by
      some row of the table: it was either appended or skipped because of
      a matching row. */
  lemma {:induction false} InsertAllCovers(t: seq<Row>, batch: seq<Row>)
    requires forall j :: 0 <= j < |batch| ==> KeyComplete(batch[j])
    ensures forall j :: 0 <= j < |batch| ==> IsDuplicate(InsertAll(t, batch), batch[j])
    decreases |batch|
  {
    if batch != [] {
      var init := batch[..|batch| - 1];
      var row := batch[|batch| - 1];
      var before := InsertAll(t, init);
      var r := InsertAll(t, batch);
      InsertAllCovers(t, init);
      assert IsDuplicate(r, row) by {
        if !IsDuplicate(before, row) {
          assert r == before + [row];
          KeyMatchIsKeyEquality(row, row);
          CountMatchesPositive(r, row);
          assert r[|before|] == row;
        }
      }
      assert |before| <= |r| && r[..|before|] == before by {
        if !IsDuplicate(before, row) {
          assert r == before + [row];
        }
      }
      forall j | 0 <= j < |init| ensures IsDuplicate(r, init[j]) {
        DuplicateStaysDuplicate(before, r, init[j]);
      }
      assert batch == init + [row];
    }
  }

  /** A batch whose every row is already matched in the table adds nothing. */
  lemma {:induction false} InsertAllOfCovered(t: seq<Row>, batch: seq<Row>)
    requires forall j :: 0 <= j < |batch| ==> IsDuplicate(t, batch[j])
    ensures InsertAll(t, batch) == t
    decreases |batch|
  {
    if batch != [] {
      InsertAllOfCovered(t, batch[..|batch| - 1]);
    }
  }

  /** Re-running the same batch (same `source_file`, same `import_date`)
      appends nothing. */
  lemma InsertAllIdempotent(t: seq<Row>, batch: seq<Row>)
    requires forall j :: 0 <= j < |batch| ==> KeyComplete(batch[j])
    ensures InsertAll(InsertAll(t, batch), batch) == InsertAll(t, batch)
  {
    InsertAllCovers(t, batch);
    InsertAllOfCovered(InsertAll(t, batch), batch);
  }

  /** The clause `col = ?` for one column. */
  function Clause(column: string): string {
    column + " = ?"
  }

  function Clauses(columns: seq<string>): (cs: seq<string>)
    ensures |cs| == |columns|
  {
    seq(|columns|, i requires 0 <= i < |columns| => Clause(columns[i]))
  }

  /** `_build_condition_query`: the clauses joined by ` AND `. */
  function BuildConditionQuery(columns: seq<string>): string {
    Join(" AND ", Clauses(columns))
  }

  /** The clauses appear in column order: no columns give the empty string,
      one column gives its clause, and each further column adds ` AND `
      and its clause at the end. */
  lemma ConditionQueryInOrder(columns: seq<string>, c: string)
    ensures BuildConditionQuery([]) == ""
    ensures BuildConditionQuery([c]) == c + " = ?"
    ensures columns != [] ==>
      BuildConditionQuery(columns + [c]) == BuildConditionQuery(columns) + " AND " + c + " = ?"
  {
    if columns != [] {
      assert Clauses(columns + [c]) == Clauses(columns) + [Clause(c)];
      JoinSnoc(" AND ", Clauses(columns), Clause(c));
    }
  }

  /** There is one placeholder per column (column names without `?`). */
  lemma {:induction false} ConditionQueryPlaceholders(columns: seq<string>)
    requires forall c :: c in columns ==> '?' !in c
    ensures Occurrences(BuildConditionQuery(columns), '?') == |columns|
    decreases |columns|
  {
    if |columns| == 1 {
      OccurrencesAbsent(columns[0], '?');
      OccurrencesAppend(columns[0], " = ?", '?');
    } else if |columns| > 1 {
      var rest := columns[1..];
      ConditionQueryPlaceholders(rest);
      assert Clauses(columns)[1..] == Clauses(rest);
      OccurrencesAbsent(columns[0], '?');
      OccurrencesAppend(columns[0], " = ?", '?');
      OccurrencesAppend(Clause(columns[0]), " AND ", '?');
      OccurrencesAppend(Clause(columns[0]) + " AND ", BuildConditionQuery(rest), '?');
    }
  }
}
