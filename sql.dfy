/** helpers/sql.js: the SET-clause builder behind every partial update.

    A JavaScript object is modelled as the list of its own enumerable
    properties in enumeration order, which is the order `Object.keys` and
    `Object.values` both use; property names are distinct. A SET clause is a
    list of assignments, each a column and a placeholder number, rendered to
    text exactly as the source formats it. */
module SqlHelpers {
  import opened Wrappers
  import opened Values
  import opened Text

  predicate DistinctKeys(data: seq<(string, Value)>) {
    forall i, j :: 0 <= i < j < |data| ==> data[i].0 != data[j].0
  }

  /** `dataToUpdate`: a plain object, field name to new value. */
  type DataObject = data: seq<(string, Value)> | DistinctKeys(data)

  /** `Object.keys(data)`. */
  function Keys(data: seq<(string, Value)>): (keys: seq<string>)
    ensures |keys| == |data|
    ensures forall i :: 0 <= i < |data| ==> keys[i] == data[i].0
  {
    if data == [] then [] else [data[0].0] + Keys(data[1..])
  }

  /** `Object.values(data)`. */
  function ValuesOf(data: seq<(string, Value)>): (values: seq<Value>)
    ensures |values| == |data|
    ensures forall i :: 0 <= i < |data| ==> values[i] == data[i].1
  {
    if data == [] then [] else [data[0].1] + ValuesOf(data[1..])
  }

  /** One `"column"=$param` assignment. */
  datatype Assignment = Assignment(column: string, param: nat)

  /** `"column"=$param`: the column sits between the quotes and the
      placeholder's digits follow `=$`, so both can be read back. */
  function RenderAssignment(a: Assignment): (r: string)
    ensures |r| == |a.column| + 4 + |NatToString(a.param)|
    ensures r[1..|a.column| + 1] == a.column
    ensures r[|a.column| + 4..] == NatToString(a.param)
  {
    "\"" + a.column + "\"=$" + NatToString(a.param)
  }

  /** For a column without `"`, the closing quote of `"column"=$n` is the
      first `"` after the opening one, so the column the database reads
      from the text is the assignment's column. A column containing `"`
      ends early and the rest of it is read as more SQL, which the model
      does not capture. */
  lemma RenderAssignmentReadsBack(a: Assignment)
    requires forall k :: 0 <= k < |a.column| ==> a.column[k] != '"'
    ensures var r := RenderAssignment(a);
            && r[0] == '"' && r[|a.column| + 1] == '"'
            && (forall k :: 1 <= k <= |a.column| ==> r[k] != '"')
  {
    var r := RenderAssignment(a);
    assert r == "\"" + a.column + "\"=$" + NatToString(a.param);
    forall k | 1 <= k <= |a.column|
      ensures r[k] != '"'
    {
      assert r[k] == a.column[k - 1];
    }
  }

  function RenderAssignments(assignments: seq<Assignment>): (texts: seq<string>)
    ensures |texts| == |assignments|
    ensures forall i :: 0 <= i < |assignments| ==> texts[i] == RenderAssignment(assignments[i])
  {
    if assignments == [] then []
    else [RenderAssignment(assignments[0])] + RenderAssignments(assignments[1..])
  }

  /** The `{setCols, values}` object sqlForPartialUpdate returns. */
  datatype SetClause = SetClause(assignments: seq<Assignment>, values: seq<Value>) {
    /** `setCols`: the assignments joined by ", "; empty without
        assignments, otherwise from the first assignment to the last. */
    function SetCols(): (r: string)
      ensures |assignments| == 0 ==> r == ""
      ensures |assignments| > 0 ==> RenderAssignment(assignments[0]) <= r
      ensures |assignments| > 0 ==> var last := RenderAssignment(assignments[|assignments| - 1]);
                |last| <= |r| && r[|r| - |last|..] == last
    {
      JoinEnds(RenderAssignments(assignments), ", ");
      Join(RenderAssignments(assignments), ", ")
    }
  }

  /** `jsToSql[key] || key`: the renamed column when the rename exists and is
      not the empty string, the key itself otherwise. */
  function ColumnName(key: string, jsToSql: map<string, string>): (column: string)
    ensures key in jsToSql && jsToSql[key] != "" ==> column == jsToSql[key]
    ensures !(key in jsToSql && jsToSql[key] != "") ==> column == key
  {
    if key in jsToSql && jsToSql[key] != "" then jsToSql[key] else key
  }

  /** `keys.map((colName, idx) => ...)`, starting the placeholders after
      `offset`. */
  function Assignments(keys: seq<string>, jsToSql: map<string, string>, offset: nat): (r: seq<Assignment>)
    ensures |r| == |keys|
    ensures |keys| > 0 ==> r[0] == Assignment(ColumnName(keys[0], jsToSql), offset + 1)
    decreases |keys|
  {
    if keys == [] then []
    else [Assignment(ColumnName(keys[0], jsToSql), offset + 1)]
         + Assignments(keys[1..], jsToSql, offset + 1)
  }

  /** The assignment for the key at index `idx` is to that key's column, with
      placeholder `$(offset + idx + 1)`. */
  lemma {:induction false} AssignmentsAt(keys: seq<string>, jsToSql: map<string, string>, offset: nat)
    ensures |Assignments(keys, jsToSql, offset)| == |keys|
    ensures forall idx :: 0 <= idx < |keys| ==>
              Assignments(keys, jsToSql, offset)[idx] == Assignment(ColumnName(keys[idx], jsToSql), offset + idx + 1)
    decreases |keys|
  {
    if keys != [] {
      AssignmentsAt(keys[1..], jsToSql, offset + 1);
    }
  }

  /** sqlForPartialUpdate(dataToUpdate, jsToSql). */
  function SqlForPartialUpdate(data: DataObject, jsToSql: map<string, string>): (r: Result<SetClause, ExpressError>)
    ensures r.Failure? <==> |data| == 0
    ensures r.Failure? ==> r.error == BadRequest("No data")
    ensures r.Success? ==>
              && |r.value.assignments| == |data| && |r.value.values| == |data|
              && forall idx :: 0 <= idx < |data| ==>
                   && r.value.assignments[idx] == Assignment(ColumnName(data[idx].0, jsToSql), idx + 1)
                   && r.value.values[idx] == data[idx].1
  {
    var keys := Keys(data);
    if |keys| == 0 then Failure(BadRequest("No data"))
    else
      AssignmentsAt(keys, jsToSql, 0);
      Success(SetClause(Assignments(keys, jsToSql, 0), ValuesOf(data)))
  }

  /** The column and value the database pairs up for each assignment once the
      parameter list `params` is bound to the placeholders. */
  predicate PlaceholdersWithin(assignments: seq<Assignment>, n: nat) {
    forall i :: 0 <= i < |assignments| ==> 1 <= assignments[i].param <= n
  }

  function Bind(assignments: seq<Assignment>, params: seq<Value>): (pairs: seq<(string, Value)>)
    requires PlaceholdersWithin(assignments, |params|)
    ensures |pairs| == |assignments|
    ensures forall i :: 0 <= i < |assignments| ==>
              pairs[i] == (assignments[i].column, params[assignments[i].param - 1])
  {
    if assignments == [] then []
    else [(assignments[0].column, params[assignments[0].param - 1])] + Bind(assignments[1..], params)
  }

  /** Each supplied field under the column it is stored in. */
  function Supplied(data: seq<(string, Value)>, jsToSql: map<string, string>): (pairs: seq<(string, Value)>)
    ensures |pairs| == |data|
    ensures forall i :: 0 <= i < |data| ==> pairs[i] == (ColumnName(data[i].0, jsToSql), data[i].1)
  {
    if data == [] then [] else [(ColumnName(data[0].0, jsToSql), data[0].1)] + Supplied(data[1..], jsToSql)
  }

  /** Two supplied fields are stored in the same column. */
  predicate SharesColumn(data: seq<(string, Value)>, jsToSql: map<string, string>) {
    exists i, j :: 0 <= i < j < |data| && ColumnName(data[i].0, jsToSql) == ColumnName(data[j].0, jsToSql)
  }

  /** Placeholders and values line up: binding `values` (followed by any
      further parameters, such as the key of the row to update) to the
      placeholders of setCols assigns each field's new value to that field's
      column, in key order. */
  lemma SetClauseBinds(data: DataObject, jsToSql: map<string, string>, extra: seq<Value>)
    requires |data| > 0
    ensures var c := SqlForPartialUpdate(data, jsToSql).value;
            && PlaceholdersWithin(c.assignments, |c.values + extra|)
            && Bind(c.assignments, c.values + extra) == Supplied(data, jsToSql)
  {
    var c := SqlForPartialUpdate(data, jsToSql).value;
    var params := c.values + extra;
    assert forall i :: 0 <= i < |c.assignments| ==> params[c.assignments[i].param - 1] == data[i].1;
  }

  /** Placeholders are numbered 1..n with no gaps or repeats, and the text of
      setCols shows `=$<idx+1>` for the key at index `idx`. */
  lemma SetColsText(data: DataObject, jsToSql: map<string, string>, idx: nat)
    requires idx < |data|
    ensures var c := SqlForPartialUpdate(data, jsToSql).value;
            RenderAssignments(c.assignments)[idx]
              == "\"" + ColumnName(data[idx].0, jsToSql) + "\"=$" + NatToString(idx + 1)
  {
    var c := SqlForPartialUpdate(data, jsToSql).value;
    assert c.assignments[idx] == Assignment(ColumnName(data[idx].0, jsToSql), idx + 1);
    assert RenderAssignments(c.assignments)[idx] == RenderAssignment(c.assignments[idx]);
  }

  /** No two assignments share a placeholder text. */
  lemma PlaceholdersDistinct(data: DataObject, jsToSql: map<string, string>, i: nat, j: nat)
    requires i < j < |data|
    ensures var c := SqlForPartialUpdate(data, jsToSql).value;
            NatToString(c.assignments[i].param) != NatToString(c.assignments[j].param)
  {
    var c := SqlForPartialUpdate(data, jsToSql).value;
    if NatToString(c.assignments[i].param) == NatToString(c.assignments[j].param) {
      NatToStringInjective(c.assignments[i].param, c.assignments[j].param);
    }
  }

  /** The text of a SET clause of two assignments. */
  lemma SetColsOfTwo(c: SetClause)
    requires |c.assignments| == 2
    ensures c.SetCols() == RenderAssignment(c.assignments[0]) + ", " + RenderAssignment(c.assignments[1])
  {
    var parts := RenderAssignments(c.assignments);
    assert parts == [parts[0], parts[1]];
    JoinTwo(parts[0], parts[1], ", ");
  }

  /** The example of helpers/sql.test.js: the clause built. */
  lemma TwoRenamedFieldsClause()
    ensures var r := SqlForPartialUpdate(
                       [("testField", Str("testValue")), ("testField2", Str("testValue2"))],
                       map["testField" := "test_field", "testField2" := "test_field2"]);
            && r.Success?
            && r.value == SetClause([Assignment("test_field", 1), Assignment("test_field2", 2)],
                                    [Str("testValue"), Str("testValue2")])
  {
    var r := SqlForPartialUpdate(
               [("testField", Str("testValue")), ("testField2", Str("testValue2"))],
               map["testField" := "test_field", "testField2" := "test_field2"]);
    assert r.value.assignments == [Assignment("test_field", 1), Assignment("test_field2", 2)];
    assert r.value.values == [Str("testValue"), Str("testValue2")];
  }

  /** The example of helpers/sql.test.js: the text and values it expects. */
  lemma TwoRenamedFields()
    ensures var r := SqlForPartialUpdate(
                       [("testField", Str("testValue")), ("testField2", Str("testValue2"))],
                       map["testField" := "test_field", "testField2" := "test_field2"]);
            && r.Success?
            && r.value.SetCols() == "\"test_field\"=$1" + ", " + "\"test_field2\"=$2"
            && r.value.values == [Str("testValue"), Str("testValue2")]
  {
    TwoRenamedFieldsClause();
    var c := SetClause([Assignment("test_field", 1), Assignment("test_field2", 2)],
                       [Str("testValue"), Str("testValue2")]);
    SetColsOfTwo(c);
    assert RenderAssignment(c.assignments[0]) == "\"test_field\"=$1" by {
      assert NatToString(1) == "1";
    }
    assert RenderAssignment(c.assignments[1]) == "\"test_field2\"=$2" by {
      assert NatToString(2) == "2";
    }
  }
}
