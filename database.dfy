/** An abstract stand-in for the relational database the repositories call.

    A table is a list of rows, a row maps column names to values. Only the
    statement shapes the core issues are given a meaning: a SELECT or DELETE
    on one column equal to a value, an INSERT of one row, and an UPDATE whose
    SET clause comes from sqlForPartialUpdate and whose WHERE clause compares
    one key column with one placeholder. SQL text is not parsed: a statement
    is a datatype, and `RenderUpdate` gives the text the repository sends,
    with its line breaks and indentation written as single spaces. A SET
    clause that names one column twice is refused, as
    PostgreSQL refuses it. */
module Database {
  import opened Wrappers
  import opened Values
  import opened Text
  import opened SqlHelpers

  type Row = map<string, Value>
  type Table = seq<Row>

  /** `column = v` holds of the row; as in SQL, nothing equals NULL. */
  predicate Matches(row: Row, column: string, v: Value) {
    column in row && row[column] == v && !v.Null?
  }

  /** `SELECT ... WHERE column = v`: the matching rows, in table order. */
  function Select(t: Table, column: string, v: Value): (r: Table)
    ensures |r| <= |t|
    ensures forall i :: 0 <= i < |r| ==> Matches(r[i], column, v)
    ensures |r| == 0 <==> forall i :: 0 <= i < |t| ==> !Matches(t[i], column, v)
  {
    if t == [] then []
    else (if Matches(t[0], column, v) then [t[0]] else []) + Select(t[1..], column, v)
  }

  /** The rows of `t` a `DELETE ... WHERE column = v` leaves. */
  function Unmatched(t: Table, column: string, v: Value): (r: Table)
    ensures |r| + |Select(t, column, v)| == |t|
    ensures forall i :: 0 <= i < |r| ==> !Matches(r[i], column, v)
    ensures forall i :: 0 <= i < |t| && !Matches(t[i], column, v) ==> t[i] in r
    ensures forall i :: 0 <= i < |r| ==> exists j :: 0 <= j < |t| && t[j] == r[i]
  {
    if t == [] then []
    else (if Matches(t[0], column, v) then [] else [t[0]]) + Unmatched(t[1..], column, v)
  }

  /** A row appended to a table is found by a select after the rows that
      were there. */
  lemma {:induction false} SelectAppend(t: Table, row: Row, column: string, v: Value)
    ensures Select(t + [row], column, v)
              == Select(t, column, v) + (if Matches(row, column, v) then [row] else [])
    decreases |t|
  {
    var last := if Matches(row, column, v) then [row] else [];
    if t == [] {
      assert t + [row] == [row];
      assert Select([row], column, v) == last + Select([], column, v);
    } else {
      var t' := t + [row];
      assert t'[0] == t[0] && t'[1..] == t[1..] + [row];
      SelectAppend(t[1..], row, column, v);
      var head := if Matches(t[0], column, v) then [t[0]] else [];
      assert Select(t', column, v) == head + (Select(t[1..], column, v) + last);
      assert head + (Select(t[1..], column, v) + last) == (head + Select(t[1..], column, v)) + last;
    }
  }

  /** `SELECT a AS b, ...`: the row under the names of `columns`, which maps
      each output name to the stored column it reads. */
  function Project(row: Row, columns: map<string, string>): (r: Row)
    ensures forall name :: name in r <==> name in columns && columns[name] in row
    ensures forall name :: name in r ==> r[name] == row[columns[name]]
  {
    map name | name in columns && columns[name] in row :: row[columns[name]]
  }

  /** `row` after `SET c1 = v1, c2 = v2, ...`, applied in order: no column
      is lost, and the last assignment always lands. */
  function Assign(row: Row, pairs: seq<(string, Value)>): (r: Row)
    ensures row.Keys <= r.Keys
    ensures pairs != [] ==> pairs[|pairs| - 1].0 in r && r[pairs[|pairs| - 1].0] == pairs[|pairs| - 1].1
    decreases |pairs|
  {
    if pairs == [] then row else Assign(row[pairs[0].0 := pairs[0].1], pairs[1..])
  }

  /** A column the SET clause does not name keeps its value (or stays
      absent). */
  lemma {:induction false} AssignKeepsOthers(row: Row, pairs: seq<(string, Value)>, column: string)
    requires forall i :: 0 <= i < |pairs| ==> pairs[i].0 != column
    ensures column in Assign(row, pairs) <==> column in row
    ensures column in row ==> Assign(row, pairs)[column] == row[column]
    decreases |pairs|
  {
    if pairs != [] {
      AssignKeepsOthers(row[pairs[0].0 := pairs[0].1], pairs[1..], column);
    }
  }

  /** A column no supplied field is stored in keeps its value. */
  lemma SuppliedKeepsOthers(row: Row, data: seq<(string, Value)>, jsToSql: map<string, string>, column: string)
    requires forall j :: 0 <= j < |data| ==> ColumnName(data[j].0, jsToSql) != column
    ensures column in Assign(row, Supplied(data, jsToSql)) <==> column in row
    ensures column in row ==> Assign(row, Supplied(data, jsToSql))[column] == row[column]
  {
    var pairs := Supplied(data, jsToSql);
    assert forall j :: 0 <= j < |pairs| ==> pairs[j].0 != column;
    AssignKeepsOthers(row, pairs, column);
  }

  /** A column the SET clause assigns once takes the value assigned. */
  lemma {:induction false} AssignSetsSupplied(row: Row, pairs: seq<(string, Value)>, j: nat)
    requires j < |pairs|
    requires forall k :: 0 <= k < |pairs| && k != j ==> pairs[k].0 != pairs[j].0
    ensures pairs[j].0 in Assign(row, pairs) && Assign(row, pairs)[pairs[j].0] == pairs[j].1
    decreases |pairs|
  {
    var row' := row[pairs[0].0 := pairs[0].1];
    if j == 0 {
      AssignKeepsOthers(row', pairs[1..], pairs[0].0);
    } else {
      AssignSetsSupplied(row', pairs[1..], j - 1);
    }
  }

  /** When no two supplied fields share a column, each field's column takes
      that field's value. */
  lemma SuppliedSetsColumn(row: Row, data: seq<(string, Value)>, jsToSql: map<string, string>, j: nat)
    requires j < |data| && !SharesColumn(data, jsToSql)
    ensures var column := ColumnName(data[j].0, jsToSql);
            column in Assign(row, Supplied(data, jsToSql)) && Assign(row, Supplied(data, jsToSql))[column] == data[j].1
  {
    var pairs := Supplied(data, jsToSql);
    forall k | 0 <= k < |pairs| && k != j
      ensures pairs[k].0 != pairs[j].0
    {
      if k < j {
        assert !(ColumnName(data[k].0, jsToSql) == ColumnName(data[j].0, jsToSql));
      } else {
        assert !(ColumnName(data[j].0, jsToSql) == ColumnName(data[k].0, jsToSql));
      }
    }
    AssignSetsSupplied(row, pairs, j);
  }

  /** The first row a select returns is a row of the table. */
  lemma {:induction false} SelectedRowIsInTable(t: Table, column: string, v: Value)
    requires |Select(t, column, v)| > 0
    ensures exists i :: 0 <= i < |t| && t[i] == Select(t, column, v)[0]
    decreases |t|
  {
    if !Matches(t[0], column, v) {
      SelectedRowIsInTable(t[1..], column, v);
      var i :| 0 <= i < |t[1..]| && t[1..][i] == Select(t[1..], column, v)[0];
      assert t[i + 1] == Select(t, column, v)[0];
    }
  }

  /** `UPDATE table SET <assignments> WHERE keyColumn = $keyParam
      RETURNING <returning>`. */
  datatype UpdateStatement = UpdateStatement(
    table: string, assignments: seq<Assignment>, keyColumn: string, keyParam: nat, returning: string)

  /** A statement and the parameter list sent with it. */
  datatype UpdateQuery = UpdateQuery(statement: UpdateStatement, params: seq<Value>)

  /** The statement text: the table, the SET clause, the WHERE clause, then
      the RETURNING list, each where the ensures place it. */
  function RenderUpdate(s: UpdateStatement): (text: string)
    ensures "UPDATE " + s.table + " SET " <= text
    ensures var tail := " WHERE " + s.keyColumn + " = $" + NatToString(s.keyParam) + " RETURNING " + s.returning;
            |tail| <= |text| && text[|text| - |tail|..] == tail
    ensures var head, tail := "UPDATE " + s.table + " SET ",
                              " WHERE " + s.keyColumn + " = $" + NatToString(s.keyParam) + " RETURNING " + s.returning;
            |head| + |tail| <= |text| && text[|head|..|text| - |tail|] == SetClause(s.assignments, []).SetCols()
  {
    var head := "UPDATE " + s.table + " SET ";
    var tail := " WHERE " + s.keyColumn + " = $" + NatToString(s.keyParam) + " RETURNING " + s.returning;
    var middle := SetClause(s.assignments, []).SetCols();
    var text := head + middle + tail;
    assert text[|text| - |tail|..] == tail;
    assert text[|head|..|text| - |tail|] == middle;
    text
  }

  /** Every placeholder of the statement has a parameter. */
  predicate WellFormed(s: UpdateStatement, params: seq<Value>) {
    PlaceholdersWithin(s.assignments, |params|) && 1 <= s.keyParam <= |params|
  }

  /** Two assignments of the SET clause name the same column. */
  predicate RepeatsColumn(assignments: seq<Assignment>) {
    exists i, j :: 0 <= i < j < |assignments| && assignments[i].column == assignments[j].column
  }

  /** The SET clause of sqlForPartialUpdate names a column twice exactly
      when two supplied fields are stored in the same column. */
  lemma RepeatsColumnOfSetClause(data: DataObject, jsToSql: map<string, string>)
    requires |data| > 0
    ensures RepeatsColumn(SqlForPartialUpdate(data, jsToSql).value.assignments) <==> SharesColumn(data, jsToSql)
  {
    var a := SqlForPartialUpdate(data, jsToSql).value.assignments;
    if RepeatsColumn(a) {
      var i, j :| 0 <= i < j < |a| && a[i].column == a[j].column;
      assert ColumnName(data[i].0, jsToSql) == ColumnName(data[j].0, jsToSql);
    }
    if SharesColumn(data, jsToSql) {
      var i, j :| 0 <= i < j < |data| && ColumnName(data[i].0, jsToSql) == ColumnName(data[j].0, jsToSql);
      assert a[i].column == a[j].column;
    }
  }

  /** What PostgreSQL raises for a SET clause that names a column twice. */
  const MultipleAssignments: ExpressError := QueryError("multiple assignments to same column")

  /** Running the UPDATE with `params` bound: refused as a whole when the SET
      clause names a column twice; otherwise the new table, and the rows the
      statement returns (the updated rows, in table order). */
  function ExecuteUpdate(t: Table, s: UpdateStatement, params: seq<Value>): (r: Result<(Table, Table), ExpressError>)
    requires WellFormed(s, params)
    ensures r.Failure? <==> RepeatsColumn(s.assignments)
    ensures r.Failure? ==> r.error == MultipleAssignments
    ensures r.Success? ==>
            var key, pairs := params[s.keyParam - 1], Bind(s.assignments, params);
            && |r.value.0| == |t|
            && (forall i :: 0 <= i < |t| ==>
                  r.value.0[i] == if Matches(t[i], s.keyColumn, key) then Assign(t[i], pairs) else t[i])
            && |r.value.1| == |Select(t, s.keyColumn, key)|
            && (forall j :: 0 <= j < |r.value.1| ==> r.value.1[j] == Assign(Select(t, s.keyColumn, key)[j], pairs))
  {
    if RepeatsColumn(s.assignments) then Failure(MultipleAssignments)
    else
      var key, pairs := params[s.keyParam - 1], Bind(s.assignments, params);
      var updated := Select(t, s.keyColumn, key);
      Success((seq(|t|, i requires 0 <= i < |t| => if Matches(t[i], s.keyColumn, key) then Assign(t[i], pairs) else t[i]),
               seq(|updated|, j requires 0 <= j < |updated| => Assign(updated[j], pairs))))
  }

  /** Running `DELETE FROM table WHERE column = v RETURNING ...`: the table
      splits into the rows left, none of which matches, and the rows
      deleted, all of which match. */
  function ExecuteDelete(t: Table, column: string, v: Value): (r: (Table, Table))
    ensures |r.0| + |r.1| == |t|
    ensures forall i :: 0 <= i < |r.0| ==> !Matches(r.0[i], column, v)
    ensures forall i :: 0 <= i < |r.1| ==> Matches(r.1[i], column, v)
    ensures |r.1| == 0 <==> forall i :: 0 <= i < |t| ==> !Matches(t[i], column, v)
  {
    (Unmatched(t, column, v), Select(t, column, v))
  }
}
