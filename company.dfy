/** models/company.js: the company filter clause of findAll, the update
    statement of update, and the outcomes of create, get, update and remove
    against the abstract companies table. */
module Company {
  import opened Wrappers
  import opened Values
  import opened Text
  import opened SqlHelpers
  import opened Where
  import opened Database

  // ------------------------------------------------------------- findAll

  /** The `filters` object of findAll; an absent key is `None`. */
  datatype Filters = Filters(nameLike: Option<string>, minEmployees: Option<int>, maxEmployees: Option<int>)

  const NoFilters := Filters(None, None, None)

  const RangeError := BadRequest("Max employees must be greater than or equal to min")

  /** JavaScript's `a < b` on numbers that may be `undefined`: false
      whenever either is, since `undefined` converts to NaN. */
  predicate JsLess(a: Option<int>, b: Option<int>) {
    match (a, b)
    case (Some(x), Some(y)) => x < y
    case _ => false
  }

  /** The range check of the where-clause builder: both bounds present and
      max below min. */
  predicate RangeInverted(f: Filters) {
    f.minEmployees.Some? && f.maxEmployees.Some? && f.maxEmployees.value < f.minEmployees.value
  }

  /** The condition is `maxEmployees < minEmployees` as JavaScript evaluates
      it on the filters as given. */
  lemma RangeInvertedIsJsLess(f: Filters)
    ensures RangeInverted(f) <==> JsLess(f.maxEmployees, f.minEmployees)
  {
  }

  /** The number of filters present. */
  function PresentCount(f: Filters): nat {
    (if f.nameLike.Some? then 1 else 0)
    + (if f.minEmployees.Some? then 1 else 0)
    + (if f.maxEmployees.Some? then 1 else 0)
  }

  /** What the filters ask for, in the order the source checks them: a
      case-insensitive substring match on the name, then the inclusive lower
      and upper bounds on the employee count. */
  function Intent(f: Filters): seq<Predicate> {
    NameFilter(f) + MinFilter(f) + MaxFilter(f)
  }

  /** One comparison per present filter. */
  lemma IntentShape(f: Filters)
    ensures |Intent(f)| == PresentCount(f)
    ensures forall i :: 0 <= i < |Intent(f)| ==> Intent(f)[i].Cmp?
  {
  }

  function NameFilter(f: Filters): seq<Predicate> {
    if f.nameLike.Some? then [Cmp("name", "ILIKE", Str("%" + f.nameLike.value + "%"))] else []
  }

  function MinFilter(f: Filters): seq<Predicate> {
    if f.minEmployees.Some? then [Cmp("num_employees", ">=", Int(f.minEmployees.value))] else []
  }

  function MaxFilter(f: Filters): seq<Predicate> {
    if f.maxEmployees.Some? then [Cmp("num_employees", "<=", Int(f.maxEmployees.value))] else []
  }

  /** `_makeWhereClause(filters)`: pushes one condition and one value per
      present filter, numbering each placeholder `values.length + 1`. */
  method MakeWhereClause(f: Filters) returns (r: Result<WhereClause, ExpressError>)
    ensures r.Failure? <==> RangeInverted(f)
    ensures r.Failure? ==> r.error == RangeError
    ensures r.Success? ==> r.value == Parameterized(Intent(f))
  {
    if f.maxEmployees.Some? && f.minEmployees.Some? && f.maxEmployees.value < f.minEmployees.value {
      return Failure(RangeError);
    }
    var values: seq<Value> := [];
    var whereSub: seq<Condition> := [];
    // the predicates pushed so far
    ghost var done: seq<Predicate> := [];
    if f.nameLike.Some? {
      ghost var p := Cmp("name", "ILIKE", Str("%" + f.nameLike.value + "%"));
      whereSub := whereSub + [Compare("name", "ILIKE", |values| + 1)];
      values := values + [Str("%" + f.nameLike.value + "%")];
      assert whereSub == Numbered(done + [p], 0) && values == BoundValues(done + [p]) by {
        PushPredicate(done, p);
      }
      done := done + [p];
    }
    assert done == NameFilter(f);
    if f.minEmployees.Some? {
      ghost var p := Cmp("num_employees", ">=", Int(f.minEmployees.value));
      whereSub := whereSub + [Compare("num_employees", ">=", |values| + 1)];
      values := values + [Int(f.minEmployees.value)];
      assert whereSub == Numbered(done + [p], 0) && values == BoundValues(done + [p]) by {
        PushPredicate(done, p);
      }
      done := done + [p];
    }
    assert done == NameFilter(f) + MinFilter(f);
    if f.maxEmployees.Some? {
      ghost var p := Cmp("num_employees", "<=", Int(f.maxEmployees.value));
      whereSub := whereSub + [Compare("num_employees", "<=", |values| + 1)];
      values := values + [Int(f.maxEmployees.value)];
      assert whereSub == Numbered(done + [p], 0) && values == BoundValues(done + [p]) by {
        PushPredicate(done, p);
      }
      done := done + [p];
    }
    assert done == Intent(f);
    r := Success(WhereClause(whereSub, values));
  }

  /** The company clause lines up: one condition and one value per present
      filter, the condition at index `i` uses `$(i + 1)` and the value at
      index `i` is the one its filter asks for. */
  lemma ClauseLinesUp(f: Filters)
    ensures var w := Parameterized(Intent(f));
            && |w.conditions| == |w.values| == PresentCount(f)
            && forall i :: 0 <= i < |w.conditions| ==>
                 w.conditions[i] == Compare(Intent(f)[i].column, Intent(f)[i].op, i + 1)
                 && w.values[i] == Intent(f)[i].value
  {
    IntentShape(f);
    AllComparisonsParameterized(Intent(f));
  }

  /** Without filters the clause is empty and binds nothing. */
  lemma NoFiltersNoClause()
    ensures Parameterized(Intent(NoFilters)) == WhereClause([], [])
    ensures Parameterized(Intent(NoFilters)).Where() == ""
  {
  }

  /** Only an inverted pair of bounds is refused: a lone bound, or two
      bounds with min <= max (equal ones included), are accepted. */
  lemma BoundsAccepted(f: Filters)
    requires f.minEmployees.None? || f.maxEmployees.None? || f.minEmployees.value <= f.maxEmployees.value
    ensures !RangeInverted(f)
  {
  }

  /** All three filters: the conditions and values of the clause. */
  lemma AllFiltersClause(name: string, min: int, max: int)
    ensures var w := Parameterized(Intent(Filters(Some(name), Some(min), Some(max))));
            && w.conditions == [Compare("name", "ILIKE", 1), Compare("num_employees", ">=", 2),
                                Compare("num_employees", "<=", 3)]
            && w.values == [Str("%" + name + "%"), Int(min), Int(max)]
  {
    var f := Filters(Some(name), Some(min), Some(max));
    assert Intent(f) == [Cmp("name", "ILIKE", Str("%" + name + "%")), Cmp("num_employees", ">=", Int(min)),
                         Cmp("num_employees", "<=", Int(max))];
    ClauseLinesUp(f);
  }

  /** Only the bounds: the conditions and values of the clause. */
  lemma BoundsOnlyClause(min: int, max: int)
    ensures var w := Parameterized(Intent(Filters(None, Some(min), Some(max))));
            && w.conditions == [Compare("num_employees", ">=", 1), Compare("num_employees", "<=", 2)]
            && w.values == [Int(min), Int(max)]
  {
    var f := Filters(None, Some(min), Some(max));
    assert Intent(f) == [Cmp("num_employees", ">=", Int(min)), Cmp("num_employees", "<=", Int(max))];
    ClauseLinesUp(f);
  }

  /** The text of the company conditions at the placeholders they take. */
  lemma ConditionTexts()
    ensures RenderCondition(Compare("name", "ILIKE", 1)) == "name ILIKE $1"
    ensures RenderCondition(Compare("num_employees", ">=", 1)) == "num_employees >= $1"
    ensures RenderCondition(Compare("num_employees", ">=", 2)) == "num_employees >= $2"
    ensures RenderCondition(Compare("num_employees", "<=", 2)) == "num_employees <= $2"
    ensures RenderCondition(Compare("num_employees", "<=", 3)) == "num_employees <= $3"
  {
    assert NatToString(1) == "1" && NatToString(2) == "2" && NatToString(3) == "3";
    assert RenderCondition(Compare("name", "ILIKE", 1)) == "name" + " " + "ILIKE" + " $" + "1";
    assert RenderCondition(Compare("num_employees", ">=", 1)) == "num_employees" + " " + ">=" + " $" + "1";
    assert RenderCondition(Compare("num_employees", ">=", 2)) == "num_employees" + " " + ">=" + " $" + "2";
    assert RenderCondition(Compare("num_employees", "<=", 2)) == "num_employees" + " " + "<=" + " $" + "2";
    assert RenderCondition(Compare("num_employees", "<=", 3)) == "num_employees" + " " + "<=" + " $" + "3";
  }

  /** All three filters: the text findAll sends and the values it binds. */
  lemma AllFiltersText(name: string, min: int, max: int)
    requires min <= max
    ensures !RangeInverted(Filters(Some(name), Some(min), Some(max)))
    ensures var w := Parameterized(Intent(Filters(Some(name), Some(min), Some(max))));
            && w.Where() == "WHERE " + "name ILIKE $1" + " AND " + "num_employees >= $2"
                            + " AND " + "num_employees <= $3"
            && w.values == [Str("%" + name + "%"), Int(min), Int(max)]
  {
    var w := Parameterized(Intent(Filters(Some(name), Some(min), Some(max))));
    AllFiltersClause(name, min, max);
    WhereOfThree(w);
    ConditionTexts();
  }

  /** Only the bounds: the first placeholder goes to minEmployees. */
  lemma BoundsOnlyText(min: int, max: int)
    ensures var w := Parameterized(Intent(Filters(None, Some(min), Some(max))));
            && w.Where() == "WHERE " + "num_employees >= $1" + " AND " + "num_employees <= $2"
            && w.values == [Int(min), Int(max)]
  {
    var w := Parameterized(Intent(Filters(None, Some(min), Some(max))));
    BoundsOnlyClause(min, max);
    WhereOfTwo(w);
    ConditionTexts();
  }

  // ------------------------------------------------------------- the table

  /** The columns create, get and update return, under their JavaScript
      names. */
  const Returning: map<string, string> := map[
    "handle" := "handle", "name" := "name", "description" := "description",
    "numEmployees" := "num_employees", "logoUrl" := "logo_url"]

  /** The RETURNING list as the statements spell it; `Returning` is what it
      selects. */
  const ReturningText := "handle, name, description, num_employees AS \"numEmployees\", logo_url AS \"logoUrl\""

  /** The argument of create. */
  datatype NewCompany = NewCompany(handle: string, name: Value, description: Value, numEmployees: Value, logoUrl: Value)

  /** The row the INSERT of create stores. */
  function StoredRow(c: NewCompany): Row {
    map["handle" := Str(c.handle), "name" := c.name, "description" := c.description,
        "num_employees" := c.numEmployees, "logo_url" := c.logoUrl]
  }

  predicate HasHandle(t: Table, handle: string) {
    exists i :: 0 <= i < |t| && Matches(t[i], "handle", Str(handle))
  }

  /** `Company.create(data)`: refuses a handle already in the table, otherwise
      inserts the row and returns it. */
  function Create(t: Table, c: NewCompany): (r: (Result<Row, ExpressError>, Table))
    ensures r.0.Failure? <==> HasHandle(t, c.handle)
    ensures r.0.Failure? ==> r.0.error == BadRequest("Duplicate company: " + c.handle) && r.1 == t
    ensures r.0.Success? ==> r.1 == t + [StoredRow(c)] && r.0.value == Project(StoredRow(c), Returning)
  {
    var duplicateCheck := Select(t, "handle", Str(c.handle));
    if |duplicateCheck| > 0 then (Failure(BadRequest("Duplicate company: " + c.handle)), t)
    else
      var row := StoredRow(c);
      (Success(Project(row, Returning)), t + [row])
  }

  /** `Company.get(handle)`. */
  function Get(t: Table, handle: string): (r: Result<Row, ExpressError>)
    ensures r.Failure? <==> !HasHandle(t, handle)
    ensures r.Failure? ==> r.error == NotFound("No company: " + handle)
    ensures r.Success? ==> exists i :: 0 <= i < |t| && Matches(t[i], "handle", Str(handle))
                                       && r.value == Project(t[i], Returning)
  {
    var rows := Select(t, "handle", Str(handle));
    if |rows| == 0 then Failure(NotFound("No company: " + handle))
    else
      SelectedRowIsInTable(t, "handle", Str(handle));
      Success(Project(rows[0], Returning))
  }

  /** The renames update passes to sqlForPartialUpdate. */
  const Renames: map<string, string> := map["numEmployees" := "num_employees", "logoUrl" := "logo_url"]

  /** The query of `Company.update(handle, data)`: the SET clause of
      sqlForPartialUpdate, the handle at placeholder `$(values.length + 1)`,
      and `[...values, handle]` as parameters. */
  function UpdateQueryFor(handle: string, data: DataObject): (r: Result<UpdateQuery, ExpressError>)
    ensures r.Failure? <==> |data| == 0
    ensures r.Failure? ==> r.error == BadRequest("No data")
    ensures r.Success? ==>
              var s, params := r.value.statement, r.value.params;
              && s.table == "companies" && s.keyColumn == "handle"
              && s.keyParam == |data| + 1 == |params|
              && params == ValuesOf(data) + [Str(handle)]
              && WellFormed(s, params)
              && (forall i :: 0 <= i < |s.assignments| ==> s.assignments[i].param < s.keyParam)
              && params[s.keyParam - 1] == Str(handle)
              && Bind(s.assignments, params) == Supplied(data, Renames)
              && (RepeatsColumn(s.assignments) <==> SharesColumn(data, Renames))
  {
    match SqlForPartialUpdate(data, Renames)
    case Failure(e) => Failure(e)
    case Success(c) =>
      var handleVarIdx := |c.values| + 1;
      SetClauseBinds(data, Renames, [Str(handle)]);
      RepeatsColumnOfSetClause(data, Renames);
      Success(UpdateQuery(UpdateStatement("companies", c.assignments, "handle", handleVarIdx, ReturningText),
                          c.values + [Str(handle)]))
  }

  /** The statement text starts `UPDATE companies SET `, continues with the
      setCols of sqlForPartialUpdate, and ends with the handle compared with
      placeholder `$(values.length + 1)`, then the RETURNING list. */
  lemma UpdateStatementText(handle: string, data: DataObject)
    requires |data| > 0
    ensures var text, tail := RenderUpdate(UpdateQueryFor(handle, data).value.statement),
                              " WHERE " + "handle" + " = $" + NatToString(|data| + 1) + " RETURNING " + ReturningText;
            && "UPDATE " + "companies" + " SET " <= text
            && |tail| <= |text| && text[|text| - |tail|..] == tail
            && |"UPDATE " + "companies" + " SET "| + |tail| <= |text|
            && text[|"UPDATE " + "companies" + " SET "|..|text| - |tail|] == SqlForPartialUpdate(data, Renames).value.SetCols()
  {
    var s := UpdateQueryFor(handle, data).value.statement;
    assert s.table == "companies" && s.keyColumn == "handle" && s.keyParam == |data| + 1 && s.returning == ReturningText;
    assert s.assignments == SqlForPartialUpdate(data, Renames).value.assignments;
  }

  /** The handle's placeholder text differs from every SET placeholder. */
  lemma HandlePlaceholderFresh(handle: string, data: DataObject, i: nat)
    requires |data| > 0
    requires i < |UpdateQueryFor(handle, data).value.statement.assignments|
    ensures var s := UpdateQueryFor(handle, data).value.statement;
            NatToString(s.assignments[i].param) != NatToString(s.keyParam)
  {
    var s := UpdateQueryFor(handle, data).value.statement;
    if NatToString(s.assignments[i].param) == NatToString(s.keyParam) {
      NatToStringInjective(s.assignments[i].param, s.keyParam);
    }
  }

  /** `Company.update(handle, data)`: no data is refused before the database
      is reached, and so, by the database, is data with two fields stored in
      one column (numEmployees and num_employees, say). Otherwise every row
      with that handle gets the supplied fields under their column names and
      nothing else changes; no such row is NotFound. */
  function Update(t: Table, handle: string, data: DataObject): (r: (Result<Row, ExpressError>, Table))
    ensures |data| == 0 ==> r == (Failure(BadRequest("No data")), t)
    ensures |data| > 0 && SharesColumn(data, Renames) ==> r == (Failure(MultipleAssignments), t)
    ensures |data| > 0 && !SharesColumn(data, Renames) ==>
              && |r.1| == |t|
              && forall i :: 0 <= i < |t| ==>
                   r.1[i] == if Matches(t[i], "handle", Str(handle)) then Assign(t[i], Supplied(data, Renames)) else t[i]
    ensures |data| > 0 && !SharesColumn(data, Renames) ==> (r.0.Failure? <==> !HasHandle(t, handle))
    ensures |data| > 0 && !SharesColumn(data, Renames) && r.0.Failure? ==>
              r.0.error == NotFound("No company: " + handle) && r.1 == t
    ensures r.0.Success? ==>
              r.0.value == Project(Assign(Select(t, "handle", Str(handle))[0], Supplied(data, Renames)), Returning)
  {
    match UpdateQueryFor(handle, data)
    case Failure(e) => (Failure(e), t)
    case Success(q) =>
      match ExecuteUpdate(t, q.statement, q.params)
      case Failure(e) => (Failure(e), t)
      case Success(result) =>
        if |result.1| == 0 then
          assert result.0 == t;
          (Failure(NotFound("No company: " + handle)), result.0)
        else (Success(Project(result.1[0], Returning)), result.0)
  }

  /** `Company.remove(handle)`: deletes the rows with that handle; none is
      NotFound. */
  function Remove(t: Table, handle: string): (r: (Result<(), ExpressError>, Table))
    ensures r.0.Failure? <==> !HasHandle(t, handle)
    ensures r.0.Failure? ==> r.0.error == NotFound("No company: " + handle)
    ensures r.1 == Unmatched(t, "handle", Str(handle))
    ensures !HasHandle(r.1, handle)
    ensures forall i :: 0 <= i < |t| && !Matches(t[i], "handle", Str(handle)) ==> t[i] in r.1
    ensures forall i :: 0 <= i < |r.1| ==> r.1[i] in t
  {
    var result := ExecuteDelete(t, "handle", Str(handle));
    if |result.1| == 0 then (Failure(NotFound("No company: " + handle)), result.0)
    else (Success(()), result.0)
  }

  // ------------------------------------------------------------- lemmas

  /** A company just created is what get returns for its handle. */
  lemma CreateThenGet(t: Table, c: NewCompany)
    requires Create(t, c).0.Success?
    ensures Get(Create(t, c).1, c.handle) == Create(t, c).0
  {
    SelectAppend(t, StoredRow(c), "handle", Str(c.handle));
  }

  /** Creating the same handle twice: the second create is a BadRequest and
      leaves the table as the first left it. */
  lemma CreateTwiceRejected(t: Table, c: NewCompany, c': NewCompany)
    requires Create(t, c).0.Success? && c'.handle == c.handle
    ensures var t' := Create(t, c).1;
            Create(t', c') == (Failure(BadRequest("Duplicate company: " + c.handle)), t')
  {
    var t' := Create(t, c).1;
    assert Matches(t'[|t|], "handle", Str(c.handle));
  }

  /** After a remove, get and a second remove of the same handle are
      NotFound. */
  lemma RemoveThenNotFound(t: Table, handle: string)
    ensures var t' := Remove(t, handle).1;
            && Get(t', handle) == Failure(NotFound("No company: " + handle))
            && Remove(t', handle).0 == Failure(NotFound("No company: " + handle))
  {
  }

  /** A successful update sets each supplied field's column to its value. */
  lemma UpdateSetsSupplied(t: Table, handle: string, data: DataObject, i: nat, j: nat)
    requires |data| > 0 && !SharesColumn(data, Renames)
    requires i < |t| && Matches(t[i], "handle", Str(handle)) && j < |data|
    ensures var row, column := Update(t, handle, data).1[i], ColumnName(data[j].0, Renames);
            column in row && row[column] == data[j].1
  {
    assert Update(t, handle, data).1[i] == Assign(t[i], Supplied(data, Renames));
    SuppliedSetsColumn(t[i], data, Renames, j);
  }

  /** An update naming numEmployees and num_employees both is refused by the
      database and changes nothing. */
  lemma UpdateRepeatedColumnRefused(t: Table, handle: string, n: Value, m: Value)
    ensures Update(t, handle, [("numEmployees", n), ("num_employees", m)]) == (Failure(MultipleAssignments), t)
  {
    var data: DataObject := [("numEmployees", n), ("num_employees", m)];
    assert ColumnName(data[0].0, Renames) == ColumnName(data[1].0, Renames);
  }

  /** An update leaves every column it was not given as it was. */
  lemma UpdateKeepsOthers(t: Table, handle: string, data: DataObject, i: nat, column: string)
    requires |data| > 0 && i < |t|
    requires forall j :: 0 <= j < |data| ==> ColumnName(data[j].0, Renames) != column
    ensures var row := Update(t, handle, data).1[i];
            && (column in row <==> column in t[i])
            && (column in row ==> row[column] == t[i][column])
  {
    if !SharesColumn(data, Renames) {
      assert Update(t, handle, data).1[i]
          == (if Matches(t[i], "handle", Str(handle)) then Assign(t[i], Supplied(data, Renames)) else t[i]);
      SuppliedKeepsOthers(t[i], data, Renames, column);
    }
  }

  /** numEmployees and logoUrl are stored as num_employees and logo_url; any
      other field under its own name. */
  lemma CompanyRenames()
    ensures ColumnName("numEmployees", Renames) == "num_employees"
    ensures ColumnName("logoUrl", Renames) == "logo_url"
    ensures forall key :: key != "numEmployees" && key != "logoUrl" ==> ColumnName(key, Renames) == key
  {
  }
}
