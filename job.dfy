/** models/job.js: the job filter clause of findAll, the update statement of
    update, and the outcomes of create, get, update and remove against the
    abstract jobs table. */
module Job {
  import opened Wrappers
  import opened Values
  import opened Text
  import opened SqlHelpers
  import opened Where
  import opened Database
  import Company

  // ------------------------------------------------------------- findAll

  /** The `filters` object of findAll; an absent key is `None`. */
  datatype Filters = Filters(title: Option<string>, minSalary: Option<int>, hasEquity: Option<bool>)

  const NoFilters := Filters(None, None, None)

  /** The comparisons the filters ask for, in the order the source checks
      them: a case-insensitive substring match on the title, then the
      inclusive lower bound on the salary. */
  function Comparisons(f: Filters): (ps: seq<Predicate>)
    ensures forall i :: 0 <= i < |ps| ==> ps[i].Cmp?
  {
    (if f.title.Some? then [Cmp("title", "ILIKE", Str("%" + f.title.value + "%"))] else [])
    + (if f.minSalary.Some? then [Cmp("salary", ">=", Int(f.minSalary.value))] else [])
  }

  /** `hasEquity === true` alone adds the fixed clause `equity > 0`. */
  function EquityClause(f: Filters): seq<Predicate> {
    if WantsEquity(f) then [Lit("equity > 0")] else []
  }

  /** `hasEquity === true`: present and true, nothing else. */
  predicate WantsEquity(f: Filters): (b: bool)
    ensures b <==> f.hasEquity == Some(true)
  {
    f.hasEquity.Some? && f.hasEquity.value
  }

  /** Everything the filters ask for: the comparisons, then the equity
      clause. */
  function Intent(f: Filters): seq<Predicate> {
    Comparisons(f) + EquityClause(f)
  }

  /** The number of filters with a value to bind. */
  function ValueCount(f: Filters): nat {
    (if f.title.Some? then 1 else 0) + (if f.minSalary.Some? then 1 else 0)
  }

  /** `#makeWhereClause(filters)`: pushes one condition per filter that
      applies and one value per comparison, numbering each placeholder
      `values.length + 1`; it never fails. */
  method MakeWhereClause(f: Filters) returns (w: WhereClause)
    ensures w == Parameterized(Intent(f))
  {
    var values: seq<Value> := [];
    var whereSub: seq<Condition> := [];
    // the predicates pushed so far
    ghost var done: seq<Predicate> := [];
    if f.title.Some? {
      ghost var p := Cmp("title", "ILIKE", Str("%" + f.title.value + "%"));
      whereSub := whereSub + [Compare("title", "ILIKE", |values| + 1)];
      values := values + [Str("%" + f.title.value + "%")];
      assert whereSub == Numbered(done + [p], 0) && values == BoundValues(done + [p]) by {
        PushPredicate(done, p);
      }
      done := done + [p];
    }
    if f.minSalary.Some? {
      ghost var p := Cmp("salary", ">=", Int(f.minSalary.value));
      whereSub := whereSub + [Compare("salary", ">=", |values| + 1)];
      values := values + [Int(f.minSalary.value)];
      assert whereSub == Numbered(done + [p], 0) && values == BoundValues(done + [p]) by {
        PushPredicate(done, p);
      }
      done := done + [p];
    }
    assert done == Comparisons(f);
    if f.hasEquity.Some? && f.hasEquity.value {
      ghost var p := Lit("equity > 0");
      whereSub := whereSub + [Fixed("equity > 0")];
      assert whereSub == Numbered(done + [p], 0) && values == BoundValues(done + [p]) by {
        PushPredicate(done, p);
      }
      done := done + [p];
    }
    assert done == Intent(f);
    w := WhereClause(whereSub, values);
  }

  /** The job clause lines up: the comparisons come first, the one at index
      `i` using `$(i + 1)` with the value its filter asks for; the equity
      clause, when asked for, comes last and binds nothing, so there is one
      value per title or minSalary filter. */
  lemma ClauseLinesUp(f: Filters)
    ensures var w := Parameterized(Intent(f));
            && |w.values| == ValueCount(f)
            && |w.conditions| == ValueCount(f) + (if WantsEquity(f) then 1 else 0)
            && (forall i :: 0 <= i < |w.values| ==>
                  w.conditions[i] == Compare(Intent(f)[i].column, Intent(f)[i].op, i + 1)
                  && w.values[i] == Intent(f)[i].value)
            && (WantsEquity(f) ==> w.conditions[|w.values|] == Fixed("equity > 0"))
  {
    var cs, eq := Comparisons(f), EquityClause(f);
    NumberedAppend(cs, eq, 0);
    BoundValuesAppend(cs, eq);
    AllComparisonsParameterized(cs);
    AllComparisonsCount(cs);
    assert |cs| == ValueCount(f);
    if eq != [] {
      assert eq[1..] == [];
      assert Numbered(eq, |cs|) == [Fixed("equity > 0")] && BoundValues(eq) == [];
    }
    var ps := Intent(f);
    assert forall i :: 0 <= i < |cs| ==> ps[i] == cs[i];
  }

  /** `hasEquity: false` filters exactly as an absent hasEquity does. */
  lemma HasEquityFalseSameAsAbsent(title: Option<string>, minSalary: Option<int>)
    ensures Parameterized(Intent(Filters(title, minSalary, Some(false))))
         == Parameterized(Intent(Filters(title, minSalary, None)))
  {
  }

  /** With no filters there is no WHERE clause and nothing to bind. */
  lemma NoFiltersNoClause()
    ensures Parameterized(Intent(NoFilters)) == WhereClause([], [])
    ensures Parameterized(Intent(NoFilters)).Where() == ""
  {
  }

  /** The text of the job comparisons at the placeholders they take. */
  lemma ConditionTexts()
    ensures RenderCondition(Compare("title", "ILIKE", 1)) == "title ILIKE $1"
    ensures RenderCondition(Compare("salary", ">=", 2)) == "salary >= $2"
  {
    assert NatToString(1) == "1" && NatToString(2) == "2";
  }

  /** All three filters: the conditions and values of the clause. */
  lemma AllFiltersClause(title: string, minSalary: int)
    ensures var w := Parameterized(Intent(Filters(Some(title), Some(minSalary), Some(true))));
            && w.conditions == [Compare("title", "ILIKE", 1), Compare("salary", ">=", 2), Fixed("equity > 0")]
            && w.values == [Str("%" + title + "%"), Int(minSalary)]
  {
    ClauseLinesUp(Filters(Some(title), Some(minSalary), Some(true)));
  }

  /** All three filters, as in models/job.test.js: the text findAll sends and
      the values it binds. */
  lemma AllFiltersText(title: string, minSalary: int)
    ensures var w := Parameterized(Intent(Filters(Some(title), Some(minSalary), Some(true))));
            && w.Where() == "WHERE " + "title ILIKE $1" + " AND " + "salary >= $2" + " AND " + "equity > 0"
            && w.values == [Str("%" + title + "%"), Int(minSalary)]
  {
    AllFiltersClause(title, minSalary);
    WhereOfThree(Parameterized(Intent(Filters(Some(title), Some(minSalary), Some(true)))));
    ConditionTexts();
  }

  /** hasEquity alone: a clause with no placeholder and no value. */
  lemma EquityOnlyText()
    ensures var w := Parameterized(Intent(Filters(None, None, Some(true))));
            w.Where() == "WHERE " + "equity > 0" && w.values == []
  {
    var f := Filters(None, None, Some(true));
    var w := Parameterized(Intent(f));
    assert w.conditions == [Fixed("equity > 0")] && w.values == [] by {
      ClauseLinesUp(f);
    }
    WhereOfOne(w);
  }

  // ------------------------------------------------------------- the table

  /** The columns create, get and update return, under their JavaScript
      names. */
  const Returning: map<string, string> := map[
    "id" := "id", "title" := "title", "salary" := "salary", "equity" := "equity",
    "companyHandle" := "company_handle"]

  /** The RETURNING list as the statements spell it; `Returning` is what it
      selects. */
  const ReturningText := "id, title, salary, equity, company_handle AS \"companyHandle\""

  /** The jobs table with the next value of its `id` sequence. */
  datatype Jobs = Jobs(rows: Table, nextId: nat)

  predicate HasId(t: Table, id: nat) {
    exists i :: 0 <= i < |t| && Matches(t[i], "id", Int(id))
  }

  /** Every id in the table came from the sequence before its current
      value. */
  predicate Valid(jobs: Jobs) {
    forall i :: 0 <= i < |jobs.rows| && "id" in jobs.rows[i] && jobs.rows[i]["id"].Int? ==>
      jobs.rows[i]["id"].i < jobs.nextId
  }

  /** The argument of create. */
  datatype NewJob = NewJob(title: Value, salary: Value, equity: Value, companyHandle: Value)

  /** The row the INSERT of create stores under the id it draws. */
  function StoredRow(id: nat, j: NewJob): Row {
    map["id" := Int(id), "title" := j.title, "salary" := j.salary, "equity" := j.equity,
        "company_handle" := j.companyHandle]
  }

  /** `Job.create(data)`: draws the next id, inserts the row and returns it;
      nothing is checked before the insert. */
  function Create(jobs: Jobs, j: NewJob): (r: (Row, Jobs))
    ensures r.1 == Jobs(jobs.rows + [StoredRow(jobs.nextId, j)], jobs.nextId + 1)
    ensures r.0 == Project(StoredRow(jobs.nextId, j), Returning)
    ensures Valid(jobs) ==> Valid(r.1)
  {
    var row := StoredRow(jobs.nextId, j);
    (Project(row, Returning), Jobs(jobs.rows + [row], jobs.nextId + 1))
  }

  /** What get returns: the job, and under `company` its company, absent when
      no company row has the job's handle. */
  datatype JobDetail = JobDetail(job: Row, company: Option<Row>)

  function NotFoundError(id: nat): ExpressError {
    NotFound("No job: " + NatToString(id))
  }

  /** The rows of the companies query for a job's handle. */
  function CompanyOf(companies: Table, job: Row): Table {
    if "companyHandle" in job then Select(companies, "handle", job["companyHandle"]) else []
  }

  /** `Job.get(id)`: the job with that id and its company looked up by
      handle; no job with that id is NotFound. */
  function Get(jobs: Jobs, companies: Table, id: nat): (r: Result<JobDetail, ExpressError>)
    ensures r.Failure? <==> !HasId(jobs.rows, id)
    ensures r.Failure? ==> r.error == NotFoundError(id)
    ensures r.Success? ==>
              && (exists i :: 0 <= i < |jobs.rows| && Matches(jobs.rows[i], "id", Int(id))
                               && r.value.job == Project(jobs.rows[i], Returning))
              && (r.value.company.None? <==> |CompanyOf(companies, r.value.job)| == 0)
              && (r.value.company.Some? ==>
                    r.value.company.value == Project(CompanyOf(companies, r.value.job)[0], Company.Returning))
  {
    var jobRes := Select(jobs.rows, "id", Int(id));
    if |jobRes| == 0 then Failure(NotFoundError(id))
    else
      SelectedRowIsInTable(jobs.rows, "id", Int(id));
      var job := Project(jobRes[0], Returning);
      var companiesRes := CompanyOf(companies, job);
      Success(JobDetail(job, if |companiesRes| == 0 then None else Some(Project(companiesRes[0], Company.Returning))))
  }

  /** The renames update passes to sqlForPartialUpdate: none. */
  const Renames: map<string, string> := map[]

  /** The query of `Job.update(id, data)`: the SET clause of
      sqlForPartialUpdate with no renames, the id at placeholder
      `$(values.length + 1)`, and `[...values, id]` as parameters. */
  function UpdateQueryFor(id: nat, data: DataObject): (r: Result<UpdateQuery, ExpressError>)
    ensures r.Failure? <==> |data| == 0
    ensures r.Failure? ==> r.error == BadRequest("No data")
    ensures r.Success? ==>
              var s, params := r.value.statement, r.value.params;
              && s.table == "jobs" && s.keyColumn == "id"
              && s.keyParam == |data| + 1 == |params|
              && params == ValuesOf(data) + [Int(id)]
              && WellFormed(s, params)
              && (forall i :: 0 <= i < |s.assignments| ==> s.assignments[i].param < s.keyParam)
              && params[s.keyParam - 1] == Int(id)
              && Bind(s.assignments, params) == Supplied(data, Renames)
              && (RepeatsColumn(s.assignments) <==> SharesColumn(data, Renames))
  {
    match SqlForPartialUpdate(data, Renames)
    case Failure(e) => Failure(e)
    case Success(c) =>
      var idVarIdx := |c.values| + 1;
      SetClauseBinds(data, Renames, [Int(id)]);
      RepeatsColumnOfSetClause(data, Renames);
      Success(UpdateQuery(UpdateStatement("jobs", c.assignments, "id", idVarIdx, ReturningText),
                                  c.values + [Int(id)]))
  }

  /** The statement text starts `UPDATE jobs SET `, continues with the
      setCols of sqlForPartialUpdate, and ends with the id compared with
      placeholder `$(values.length + 1)`, then the RETURNING list. */
  lemma UpdateStatementText(id: nat, data: DataObject)
    requires |data| > 0
    ensures var text, tail := RenderUpdate(UpdateQueryFor(id, data).value.statement),
                              " WHERE " + "id" + " = $" + NatToString(|data| + 1) + " RETURNING " + ReturningText;
            && "UPDATE " + "jobs" + " SET " <= text
            && |tail| <= |text| && text[|text| - |tail|..] == tail
            && |"UPDATE " + "jobs" + " SET "| + |tail| <= |text|
            && text[|"UPDATE " + "jobs" + " SET "|..|text| - |tail|] == SqlForPartialUpdate(data, Renames).value.SetCols()
  {
    var s := UpdateQueryFor(id, data).value.statement;
    assert s.table == "jobs" && s.keyColumn == "id" && s.keyParam == |data| + 1 && s.returning == ReturningText;
    assert s.assignments == SqlForPartialUpdate(data, Renames).value.assignments;
  }

  /** With no renames every field is stored under its own name. */
  lemma NoRenames(key: string)
    ensures ColumnName(key, Renames) == key
  {
  }

  /** Field names are distinct and stored under their own names, so no two
      share a column. */
  lemma FieldsNeverShareColumn(data: DataObject)
    ensures !SharesColumn(data, Renames)
  {
    forall i, j | 0 <= i < j < |data|
      ensures ColumnName(data[i].0, Renames) != ColumnName(data[j].0, Renames)
    {
      NoRenames(data[i].0);
      NoRenames(data[j].0);
    }
  }

  /** `Job.update(id, data)`: no data is refused before the database is
      reached; otherwise the row with that id gets the supplied fields and
      nothing else changes (the database never sees a column twice); no such
      row is NotFound. */
  function Update(jobs: Jobs, id: nat, data: DataObject): (r: (Result<Row, ExpressError>, Jobs))
    ensures r.1.nextId == jobs.nextId
    ensures |data| == 0 ==> r == (Failure(BadRequest("No data")), jobs)
    ensures |data| > 0 ==>
              && |r.1.rows| == |jobs.rows|
              && forall i :: 0 <= i < |jobs.rows| ==>
                   r.1.rows[i] == if Matches(jobs.rows[i], "id", Int(id)) then Assign(jobs.rows[i], Supplied(data, Renames))
                                  else jobs.rows[i]
    ensures |data| > 0 ==> (r.0.Failure? <==> !HasId(jobs.rows, id))
    ensures |data| > 0 && r.0.Failure? ==> r.0.error == NotFoundError(id) && r.1 == jobs
    ensures r.0.Success? ==>
              r.0.value == Project(Assign(Select(jobs.rows, "id", Int(id))[0], Supplied(data, Renames)), Returning)
  {
    match UpdateQueryFor(id, data)
    case Failure(e) => (Failure(e), jobs)
    case Success(q) =>
      FieldsNeverShareColumn(data);
      assert !RepeatsColumn(q.statement.assignments);
      assert q.params[q.statement.keyParam - 1] == Int(id);
      var result := ExecuteUpdate(jobs.rows, q.statement, q.params).value;
      if |result.1| == 0 then
        assert result.0 == jobs.rows;
        (Failure(NotFoundError(id)), jobs)
      else (Success(Project(result.1[0], Returning)), Jobs(result.0, jobs.nextId))
  }

  /** `Job.remove(id)`: deletes the row with that id; none is NotFound. */
  function Remove(jobs: Jobs, id: nat): (r: (Result<(), ExpressError>, Jobs))
    ensures r.1.nextId == jobs.nextId
    ensures r.0.Failure? <==> !HasId(jobs.rows, id)
    ensures r.0.Failure? ==> r.0.error == NotFoundError(id)
    ensures r.1.rows == Unmatched(jobs.rows, "id", Int(id))
    ensures !HasId(r.1.rows, id)
    ensures forall i :: 0 <= i < |jobs.rows| && !Matches(jobs.rows[i], "id", Int(id)) ==> jobs.rows[i] in r.1.rows
    ensures forall i :: 0 <= i < |r.1.rows| ==> r.1.rows[i] in jobs.rows
  {
    var result := ExecuteDelete(jobs.rows, "id", Int(id));
    if |result.1| == 0 then (Failure(NotFoundError(id)), Jobs(result.0, jobs.nextId))
    else (Success(()), Jobs(result.0, jobs.nextId))
  }

  // ------------------------------------------------------------- lemmas

  /** A job just created is what get returns for the id it was given. */
  lemma CreateThenGet(jobs: Jobs, companies: Table, j: NewJob)
    requires Valid(jobs)
    ensures var (created, jobs') := Create(jobs, j);
            && Get(jobs', companies, jobs.nextId).Success?
            && Get(jobs', companies, jobs.nextId).value.job == created
  {
    var row := StoredRow(jobs.nextId, j);
    SelectAppend(jobs.rows, row, "id", Int(jobs.nextId));
    assert Matches(Create(jobs, j).1.rows[|jobs.rows|], "id", Int(jobs.nextId));
    assert Select(jobs.rows, "id", Int(jobs.nextId)) == [] by {
      if |Select(jobs.rows, "id", Int(jobs.nextId))| > 0 {
        SelectedRowIsInTable(jobs.rows, "id", Int(jobs.nextId));
      }
    }
  }

  /** Ids are never reused: a new job's id was not in the table. */
  lemma CreateDrawsFreshId(jobs: Jobs, j: NewJob)
    requires Valid(jobs)
    ensures !HasId(jobs.rows, jobs.nextId)
    ensures Create(jobs, j).1.nextId > jobs.nextId
  {
  }

  /** After a remove, get, update and a second remove of the same id are
      NotFound. */
  lemma RemoveThenNotFound(jobs: Jobs, companies: Table, id: nat, data: DataObject)
    requires |data| > 0
    ensures var jobs' := Remove(jobs, id).1;
            && Get(jobs', companies, id) == Failure(NotFoundError(id))
            && Update(jobs', id, data).0 == Failure(NotFoundError(id))
            && Remove(jobs', id).0 == Failure(NotFoundError(id))
  {
  }

  /** An update with no data is a BadRequest and changes nothing, whether or
      not the job exists. */
  lemma UpdateNoDataRejected(jobs: Jobs, id: nat)
    ensures Update(jobs, id, []) == (Failure(BadRequest("No data")), jobs)
  {
  }

  /** A successful update sets each supplied field to its value. */
  lemma UpdateSetsSupplied(jobs: Jobs, id: nat, data: DataObject, i: nat, j: nat)
    requires |data| > 0 && i < |jobs.rows| && Matches(jobs.rows[i], "id", Int(id)) && j < |data|
    ensures var row := Update(jobs, id, data).1.rows[i];
            data[j].0 in row && row[data[j].0] == data[j].1
  {
    assert Update(jobs, id, data).1.rows[i] == Assign(jobs.rows[i], Supplied(data, Renames));
    FieldsNeverShareColumn(data);
    NoRenames(data[j].0);
    SuppliedSetsColumn(jobs.rows[i], data, Renames, j);
  }

  /** An update leaves every column it was not given as it was. */
  lemma UpdateKeepsOthers(jobs: Jobs, id: nat, data: DataObject, i: nat, column: string)
    requires |data| > 0 && i < |jobs.rows|
    requires forall j :: 0 <= j < |data| ==> data[j].0 != column
    ensures var row := Update(jobs, id, data).1.rows[i];
            && (column in row <==> column in jobs.rows[i])
            && (column in row ==> row[column] == jobs.rows[i][column])
  {
    assert Update(jobs, id, data).1.rows[i]
        == (if Matches(jobs.rows[i], "id", Int(id)) then Assign(jobs.rows[i], Supplied(data, Renames)) else jobs.rows[i]);
    forall j | 0 <= j < |data|
      ensures ColumnName(data[j].0, Renames) != column
    {
      NoRenames(data[j].0);
    }
    SuppliedKeepsOthers(jobs.rows[i], data, Renames, column);
  }

  /** Remove keeps every job id below the sequence value. */
  lemma RemoveKeepsValid(jobs: Jobs, id: nat)
    requires Valid(jobs)
    ensures Valid(Remove(jobs, id).1)
  {
    var t: Table := Remove(jobs, id).1.rows;
    forall i | 0 <= i < |t| && "id" in t[i] && t[i]["id"].Int?
      ensures t[i]["id"].i < jobs.nextId
    {
      assert t[i] in jobs.rows;
      var i' :| 0 <= i' < |jobs.rows| && jobs.rows[i'] == t[i];
    }
  }

  /** An update that does not set the id column keeps every job id below
      the sequence value. */
  lemma UpdateKeepsValid(jobs: Jobs, id: nat, data: DataObject)
    requires Valid(jobs)
    requires forall j :: 0 <= j < |data| ==> data[j].0 != "id"
    ensures Valid(Update(jobs, id, data).1)
  {
    if |data| > 0 {
      var u: Table := Update(jobs, id, data).1.rows;
      forall i | 0 <= i < |u| && "id" in u[i] && u[i]["id"].Int?
        ensures u[i]["id"].i < jobs.nextId
      {
        UpdateKeepsOthers(jobs, id, data, i, "id");
      }
    }
  }
}
