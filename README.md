# express-jobly: filters, partial updates, repositories and auth guards in Dafny

This project models the core of the express-jobly job board API:

- **helpers/sql.js**: `sqlForPartialUpdate`. It turns a partial-update object into a SET clause of `"column"=$n` assignments plus the list of values to bind, and refuses an empty object.
- **models/company.js**: the filter clause of `Company.findAll`, with the min > max employee check. The outcomes of `create`, `get`, `update` and `remove` against a companies table.
- **models/job.js**: the filter clause of `Job.findAll`. Here `hasEquity === true` adds a fixed `equity > 0` condition that binds no value. The outcomes of `create`, `get`, `update` and `remove` against a jobs table whose ids come from a sequence.
- **middleware/auth.js**: `authenticateJWT`, plus the three guards `ensureLoggedIn`, `ensureAdmin` and `ensureAdminOrCorrectUser`.

How the modules are built:

- **Where and SqlHelpers.** A clause is a datatype: conditions with numbered placeholders, plus the values. Its text is rendered exactly as the source formats it. Column names go between double quotes without escaping, and the model takes an update's columns from the assignment list rather than re-reading them from that text; the two agree when no key or rename contains `"`. Beside each clause is the list of predicates it is meant to express. The main lemmas show that binding the values to the placeholders gives back exactly those predicates. They also show that the placeholders are numbered `$1, $2, …` in push order with no gaps or repeats.
- **Database.** The database is abstract: a table is a sequence of rows, and a row maps column names to values. Only the statements the repositories issue are given a meaning: a select or delete on one key, an insert, and an update made of a SET clause and a key placeholder. As in PostgreSQL, an update whose SET clause names one column twice is refused as a whole.
- **Company and Job.** The repositories are functions from the table to the result, plus the new table. Lemmas relate the operations to each other, for example create then get, remove then get/update/remove, and update sets the supplied fields and nothing else (for keys and renames without `"`).
- **Auth.** `res.locals` is a class whose `user` field `authenticateJWT` updates. Token verification is a parameter.

## Model

| member | source | states |
|---|---|---|
| SqlHelpers.Keys | helpers/sql.js:20 | one key per property, the key at index i being the i-th property's name |
| SqlHelpers.ValuesOf | helpers/sql.js:30 | one value per property, in the same order as the keys |
| SqlHelpers.ColumnName | helpers/sql.js:25 | the renamed column when a non-empty rename exists, the key itself otherwise |
| SqlHelpers.Assignments | helpers/sql.js:24-26 | one assignment per key, the first to the first key's column at placeholder offset+1 |
| SqlHelpers.AssignmentsAt | helpers/sql.js:24-26 | the assignment for key idx is to that key's column, at placeholder offset+idx+1 |
| SqlHelpers.RenderAssignment | helpers/sql.js:25 | the text `"column"=$n`: the column sits at positions 1 to its length, then `"=$` and the placeholder digits, which are the text's end |
| SqlHelpers.RenderAssignmentReadsBack | helpers/sql.js:25 | for a column without `"`, the closing quote is the first `"` after the opening one, so the column read from the text is the assignment's column |
| SqlHelpers.RenderAssignments | helpers/sql.js:24-26 | the `keys.map(...)`: one rendered assignment per assignment, in order |
| SqlHelpers.SetClause.SetCols | helpers/sql.js:29 | empty without assignments, otherwise starts with the first rendered assignment and ends with the last |
| SqlHelpers.SqlForPartialUpdate | helpers/sql.js:19-32 | fails with BadRequest "No data" exactly when there are no keys. Otherwise assignment i sets key i's column to placeholder i+1, and value i is key i's value |
| SqlHelpers.SetClauseBinds | helpers/sql.js:24-31 | every placeholder has a value, even with extra parameters appended. Binding the values pairs each field's column with that field's value, in key order |
| SqlHelpers.SetColsText | helpers/sql.js:24-26 | the i-th piece of setCols is `"column"=$` followed by the decimal of i+1 |
| SqlHelpers.PlaceholdersDistinct | helpers/sql.js:24-26 | no two assignments share a placeholder text |
| SqlHelpers.SetColsOfTwo | helpers/sql.js:29 | a two-assignment setCols is the two pieces joined by ", " |
| SqlHelpers.TwoRenamedFieldsClause | helpers/sql.test.js:7-16 | the two-field example builds assignments test_field=$1 and test_field2=$2 with values testValue and testValue2 |
| SqlHelpers.TwoRenamedFields | helpers/sql.test.js:7-16 | the same example gives the setCols text `"test_field"=$1, "test_field2"=$2` |
| Text.NatToString | helpers/sql.js:25 | decimal rendering of a placeholder number: digits only, no leading zero |
| Text.DecimalValueOfNatToString | helpers/sql.js:25 | reading the rendered digits back gives the number |
| Text.NatToStringOfDecimalValue | helpers/sql.js:25 | every canonical digit string is the rendering of its value (the round trip the other way) |
| Text.NatToStringInjective | helpers/sql.js:25 | different numbers render to different texts |
| Text.Join | helpers/sql.js:29 | `Array.prototype.join` (also models/company.js:92 and models/job.js:62). It carries no contract of its own; what a join gives is stated by JoinEnds, JoinTwo and JoinThree |
| Text.JoinEnds | helpers/sql.js:29 | a join of no parts is empty; otherwise it starts with the first part and ends with the last |
| Text.JoinTwo | helpers/sql.js:29 | joining two parts is part, separator, part |
| Text.JoinThree | models/company.js:92 | joining three parts puts the separator between each pair |
| Text.TrimStart | middleware/auth.js:22 | a suffix of the input, with only whitespace dropped and no whitespace at its start |
| Text.TrimEnd | middleware/auth.js:22 | a prefix of the input, with only whitespace dropped and no whitespace at its end |
| Text.Trim | middleware/auth.js:22 | no longer than the input, with no whitespace at either end |
| Text.TrimIdempotent | middleware/auth.js:22 | trimming a trimmed string changes nothing |
| Where.WhereOfOne | models/job.js:60-63 | the where text of one condition is "WHERE " and that condition |
| Where.WhereOfTwo | models/company.js:90-93 | the where text of two conditions joins them with " AND " |
| Where.WhereOfThree | models/company.js:90-93 | the where text of three conditions joins them with " AND " |
| Where.RenderCondition | models/company.js:78-86 | a comparison renders as `column op $` followed by its placeholder's digits; a fixed condition as its own text |
| Where.WhereClause.Where | models/company.js:90-93 | empty exactly when there are no conditions, otherwise starts with "WHERE " and the first condition |
| Where.Instantiate | models/company.js:107-108 | binding gives one predicate per condition |
| Where.BoundValues | models/company.js:74-88 | one value per comparison |
| Where.Numbered | models/company.js:77-88 | one condition per predicate |
| Where.NumberedRange | models/company.js:77-88 | placeholders run from base+1 to base+(number of comparisons) |
| Where.NumberedAt | models/company.js:77-88 | the comparison at index i is numbered one past the comparisons before it, so numbering follows push order |
| Where.AllComparisonsNumbered | models/company.js:77-88 | with comparisons only, condition i uses $(i+1) and value i is its value |
| Where.AllComparisonsParameterized | models/company.js:74-95 | with comparisons only, the whole clause lines up element by element |
| Where.AllComparisonsCount | models/company.js:74-88 | with comparisons only, there are as many values as predicates |
| Where.AllComparisonsValues | models/company.js:74-88 | with comparisons only, value i is predicate i's value |
| Where.BindNumbered | models/company.js:74-95 | each placeholder has a value, and binding the numbered conditions after a prefix gives back the predicates |
| Where.NumberedAppend | models/job.js:45-58 | numbering is compositional: later predicates are numbered after the placeholders of earlier ones |
| Where.BoundValuesAppend | models/job.js:45-58 | values and placeholder counts add up over concatenation |
| Where.PushPredicate | models/company.js:77-88 | a push appends the condition numbered values.length+1 and its value (or, for a fixed text, no value) |
| Where.Parameterized | models/company.js:95 | a reference clause has one condition per predicate and one value per comparison |
| Where.ParameterizedInstantiates | models/company.js:74-95 | every placeholder has a value, binding gives back exactly the predicates, and the where text is empty exactly when there is no predicate |
| Database.Select | models/company.js:121-131 | only matching rows, where as in SQL nothing equals NULL. Empty exactly when no row matches |
| Database.Unmatched | models/company.js:178-183 | the rows a delete leaves: none matching, every non-matching row kept, nothing new |
| Database.SelectAppend | models/company.js:29-46 | an inserted row is selected after the rows already there |
| Database.Project | models/company.js:38 | the RETURNING row has an output name exactly where the column it reads is present, and that column's value |
| Database.Assign | models/company.js:159-163 | a SET clause loses no column, and its last assignment always lands |
| Database.AssignKeepsOthers | models/company.js:159-163 | a SET clause leaves every column it does not name as it was |
| Database.SuppliedKeepsOthers | models/company.js:159-163 | a column no supplied field is stored in keeps its value |
| Database.AssignSetsSupplied | models/company.js:159-163 | a column the SET clause assigns once takes the value assigned |
| Database.SuppliedSetsColumn | models/company.js:159-163 | when no two supplied fields share a column, each field's column takes that field's value |
| Database.SelectedRowIsInTable | models/company.js:131 | the first row selected is a row of the table |
| Database.RenderUpdate | models/company.js:159-163 | the statement text is `UPDATE <table> SET `, then exactly the SET clause's setCols, then ` WHERE <key> = $` with the key placeholder's digits and ` RETURNING ` with the returned list, which ends the text |
| Database.RepeatsColumnOfSetClause | helpers/sql.js:24-26 | the assignment list of sqlForPartialUpdate names a column twice exactly when two supplied fields are stored in one column |
| Database.ExecuteUpdate | models/company.js:159-164 | a SET clause naming a column twice is refused with PostgreSQL's error. Otherwise the matching rows get the bound SET clause, the others are unchanged, and the returned rows are the updated matching rows |
| Database.ExecuteDelete | models/company.js:178-183 | the table splits into the rows left, none matching, and the rows deleted (returned), all matching. None is returned exactly when no row matches |
| Company.IntentShape | models/company.js:77-88 | one comparison per present filter |
| Company.MakeWhereClause | models/company.js:67-96 | fails with the range error exactly when both bounds are present and max < min. Otherwise the clause is the reference clause of the name, min and max predicates, in that order |
| Company.ClauseLinesUp | models/company.js:74-95 | one condition and one value per present filter. Condition i uses $(i+1), and value i is the one its filter asks for |
| Company.NoFiltersNoClause | models/company.js:90-95 | no filters give an empty clause and no values |
| Company.JsLess | models/company.js:70 | JavaScript's `<` on numbers that may be `undefined`: false whenever either side is |
| Company.RangeInverted | models/company.js:70 | both bounds present and max below min |
| Company.RangeInvertedIsJsLess | models/company.js:70 | the check is `maxEmployees < minEmployees` under JavaScript's rule that a comparison with `undefined` is false |
| Company.BoundsAccepted | models/company.js:70-72 | a lone bound, or bounds with min <= max, equal ones included, are never refused |
| Company.AllFiltersClause | models/company.js:77-88 | all three filters give conditions at $1, $2, $3 and values %name%, min, max |
| Company.BoundsOnlyClause | models/company.js:81-88 | only the bounds give min at $1 and max at $2 |
| Company.ConditionTexts | models/company.js:77-88 | the text of each company condition at its placeholder |
| Company.AllFiltersText | models/company.js:77-93 | the where text and values sent for all three filters |
| Company.BoundsOnlyText | models/company.js:81-93 | the where text and values sent for the two bounds |
| Company.StoredRow | models/company.js:29-37 | the INSERT's column list paired with its values: handle, name, description, then num_employees and logo_url from numEmployees and logoUrl |
| Company.Create | models/company.js:19-50 | a duplicate handle is a BadRequest that changes nothing. Otherwise the row is appended and returned under the JavaScript names |
| Company.Get | models/company.js:120-136 | NotFound exactly when no row has the handle. Otherwise the projection of a row with that handle |
| Company.UpdateQueryFor | models/company.js:150-164 | no data is BadRequest. Otherwise the handle is placeholder values.length+1, the last parameter, binding the SET clause supplies each field to its renamed column, and the clause repeats a column exactly when two fields are stored in one |
| Company.UpdateStatementText | models/company.js:157-163 | the statement starts `UPDATE companies SET `, continues with exactly the setCols of sqlForPartialUpdate, and ends ` WHERE handle = $` with values.length+1, then ` RETURNING handle, name, description, num_employees AS "numEmployees", logo_url AS "logoUrl"` |
| Company.HandlePlaceholderFresh | models/company.js:157-162 | the handle's placeholder text differs from every SET placeholder |
| Company.Update | models/company.js:150-170 | no data is BadRequest with nothing changed. Two fields stored in one column are the database's refusal, with nothing changed. Otherwise the rows with the handle get the supplied fields and the others are unchanged; NotFound exactly when no row has the handle; the result is the updated row |
| Company.Remove | models/company.js:177-187 | NotFound exactly when no row has the handle. The new table is what the DELETE leaves: no row with the handle, every other row kept, and no row that was not there |
| Company.CreateThenGet | models/company.js:19-50 | get after a successful create returns what create returned |
| Company.CreateTwiceRejected | models/company.js:20-27 | a second create with the same handle is the duplicate BadRequest and leaves the table as is |
| Company.RemoveThenNotFound | models/company.js:177-187 | after a remove, get and remove of that handle are NotFound |
| Company.UpdateSetsSupplied | models/company.js:150-164 | when no two fields share a column, a matching row has each supplied field's column set to its value |
| Company.UpdateRepeatedColumnRefused | models/company.js:150-164 | data naming both numEmployees and num_employees is refused by the database and changes nothing |
| Company.UpdateKeepsOthers | models/company.js:140-141 | a column no field is stored in keeps its value in every row |
| Company.CompanyRenames | models/company.js:151-156 | numEmployees and logoUrl go to num_employees and logo_url, any other field under its own name |
| Job.WantsEquity | models/job.js:56 | `hasEquity === true`: present and true, nothing else |
| Job.Comparisons | models/job.js:48-55 | the title and minSalary filters give comparisons only |
| Job.MakeWhereClause | models/job.js:42-66 | the clause is the reference clause of the title and minSalary comparisons, followed by the equity condition when hasEquity is true |
| Job.ClauseLinesUp | models/job.js:45-65 | comparisons come first, condition i using $(i+1) with its filter's value. `equity > 0`, when asked for, is last and binds nothing |
| Job.HasEquityFalseSameAsAbsent | models/job.js:56-58 | hasEquity false gives the same clause as an absent hasEquity |
| Job.NoFiltersNoClause | models/job.js:60-65 | no filters give no where text and no values |
| Job.ConditionTexts | models/job.js:49-53 | the text of the title and salary conditions at their placeholders |
| Job.AllFiltersClause | models/job.js:48-58 | all three filters give title at $1, salary at $2, then `equity > 0`, with values %title% and minSalary |
| Job.AllFiltersText | models/job.js:48-63 | the where text and values sent for all three filters |
| Job.EquityOnlyText | models/job.js:56-63 | hasEquity alone gives `WHERE equity > 0` and no values |
| Job.StoredRow | models/job.js:18-23 | the INSERT's column list paired with its values: the sequence id, title, salary, equity, and company_handle from companyHandle |
| Job.Create | models/job.js:17-30 | the row is stored under the next sequence id and returned, the sequence advances, and every id stays below the sequence |
| Job.CompanyOf | models/job.js:115-124 | the companies query keyed by the job's companyHandle; with no handle, the NULL parameter matches no row |
| Job.Get | models/job.js:100-129 | NotFound "No job: id" exactly when no row has the id. Otherwise the job's projection, with its company absent exactly when no company row has its handle |
| Job.UpdateQueryFor | models/job.js:143-158 | no data is BadRequest. Otherwise the id is placeholder values.length+1, the last parameter, binding supplies each field under its own name, and the clause repeats a column exactly when two fields share one |
| Job.UpdateStatementText | models/job.js:147-157 | the statement starts `UPDATE jobs SET `, continues with exactly the setCols of sqlForPartialUpdate, and ends ` WHERE id = $` with values.length+1, then ` RETURNING id, title, salary, equity, company_handle AS "companyHandle"` |
| Job.NoRenames | models/job.js:144-146 | with no renames each field is stored under its own name |
| Job.FieldsNeverShareColumn | models/job.js:144-146 | with no renames, distinct fields never share a column, so no job update's assignment list repeats a column |
| Job.Update | models/job.js:143-164 | no data is BadRequest with nothing changed. Otherwise the row with the id gets the supplied fields and the others are unchanged. NotFound exactly when no row has the id. The sequence is untouched |
| Job.Remove | models/job.js:171-181 | NotFound exactly when no row has the id. The new rows are what the DELETE leaves: no row with the id, every other row kept, and no row that was not there. The sequence is untouched |
| Job.CreateThenGet | models/job.js:17-30 | on a table whose ids are below the sequence, get of the new id returns what create returned |
| Job.CreateDrawsFreshId | models/job.js:17-26 | the id a create draws is not in the table, and the sequence moves past it |
| Job.RemoveThenNotFound | models/job.test.js:274-281 | after a remove, get, update and remove of that id are NotFound |
| Job.UpdateNoDataRejected | models/job.test.js:242-249 | an update with no data is BadRequest "No data" and changes nothing |
| Job.UpdateSetsSupplied | models/job.js:143-158 | the row with the id has each supplied field set to its value |
| Job.UpdateKeepsOthers | models/job.js:133-134 | a column that is not supplied keeps its value in every row |
| Job.RemoveKeepsValid | models/job.js:171-181 | remove keeps every id below the sequence |
| Job.UpdateKeepsValid | models/job.js:143-164 | an update that does not set `id` keeps every id below the sequence |
| Auth.StripBearer | middleware/auth.js:22 | exactly one leading `Bearer ` or `bearer ` is removed, and a header without one is unchanged |
| Auth.HasBearerPrefix | middleware/auth.js:22 | the regex `^[Bb]earer `: the header starts with `Bearer ` or `bearer ` |
| Auth.ExtractToken | middleware/auth.js:22 | the token is no longer than the header with its prefix removed, and has no whitespace at either end |
| Auth.AuthHeader | middleware/auth.js:20-21 | the header acted on exists exactly when headers and a non-empty authorization are present |
| Auth.Authenticated | middleware/auth.js:18-29 | the user changes only to the payload of a verifying token, does so whenever the token verifies, and is otherwise kept |
| Auth.AuthenticateJWT | middleware/auth.js:18-29 | always ends in next, and sets the user exactly as Authenticated says |
| Auth.BearerTokenExtracted | middleware/auth.js:22 | `Bearer t` and `bearer t` verify the trimmed t |
| Auth.UnprefixedHeaderTrimmed | middleware/auth.js:22 | a header without the prefix is only trimmed |
| Auth.OnePrefixRemoved | middleware/auth.js:22 | `Bearer Bearer t` verifies `Bearer t` trimmed: only one prefix goes |
| Auth.ExtractedTokenTrimmed | middleware/auth.js:22 | the token has no whitespace at either end, and extracting again from an unprefixed token changes nothing |
| Auth.BearerHeaderAuthenticates | middleware/auth.test.js:22-33 | a bearer header whose token verifies attaches the payload |
| Auth.NoValidTokenNoUser | middleware/auth.test.js:35-47 | with no header, or a token that does not verify, the user is unchanged |
| Auth.EnsureLoggedIn | middleware/auth.js:36-39 | next exactly when a user is attached, and Unauthorized otherwise |
| Auth.EnsureAdmin | middleware/auth.js:46-51 | next exactly when an admin is attached, and Unauthorized "Only admins can access" otherwise |
| Auth.UsernameOf | middleware/auth.js:61 | `user?.username`: present exactly when a user is, and then the user's name |
| Auth.EnsureAdminOrCorrectUser | middleware/auth.js:58-65 | next exactly for an admin, or when the user's name equals the route's. A TypeError exactly for a non-admin with no route params. Unauthorized otherwise |
| Auth.AdminPassesEveryGuard | middleware/auth.js:36-65 | what ensureAdmin lets through, the other two guards let through |
| Auth.CorrectUserPasses | middleware/auth.test.js:92-96 | the user named in the route passes without being an admin |
| Auth.IncorrectUserRejected | middleware/auth.test.js:98-102 | a non-admin naming another user is Unauthorized |
| Auth.RouteUsernameNeedsLogin | middleware/auth.test.js:104-108 | with a route username, passing takes a logged-in user who is that user or an admin |
| Auth.AnonymousWithoutRouteUsernamePasses | middleware/auth.js:61 | no user and no route username pass, because `undefined === undefined`. ensureLoggedIn refuses the same request |
| Auth.AdminTokenOpensGuards | middleware/auth.js:18-65 | an admin token in the header opens all three guards |

## Left out

- Columns in unescaped quotes: helpers/sql.js:25 puts a key, or its rename, between double quotes without escaping, and PostgreSQL reads the columns from that text. A key containing `"` closes the quote early and the rest of the key is read as more SQL: `name"=$1, "description` also assigns `description`, and `title"=$1, "title` assigns `title` twice. The model reads the columns from the assignment list instead. The two readings agree exactly for keys and renames without `"` (RenderAssignmentReadsBack); only the routes' request schemas keep other keys out. The members below promise their results under the assignment-list reading:
- SqlHelpers.RenderAssignment: the column is recovered from the text only when it contains no `"`.
- Database.ExecuteUpdate: takes the SET columns from the assignment list, not from the rendered text.
- Database.RepeatsColumnOfSetClause: compares the assignment list's columns; a key containing `"` can make the text repeat a column when the list does not.
- Database.SuppliedKeepsOthers: a key containing `"` can write further columns in the sent text.
- Database.SuppliedSetsColumn: for a key containing `"`, the column the sent text sets is not ColumnName of the key.
- Company.UpdateQueryFor: the repeated-column equivalence is about the assignment list.
- Company.Update: for a key containing `"`, the sent statement can set other columns, or be refused, where the model's update is not.
- Company.UpdateSetsSupplied: holds under the assignment-list reading only.
- Company.UpdateKeepsOthers: holds under the assignment-list reading only.
- Job.UpdateQueryFor: the repeated-column equivalence is about the assignment list.
- Job.Update: for a key containing `"`, the sent statement can set other columns, or be refused, where the model's update is not.
- Job.UpdateSetsSupplied: holds under the assignment-list reading only.
- Job.UpdateKeepsOthers: holds under the assignment-list reading only.
- Job.FieldsNeverShareColumn: is about the assignment list; the sent text of a key containing `"` can still repeat a column.
- SQL is not parsed or executed. `ILIKE` matching, `ORDER BY`, the jobs–companies `JOIN` and the `companyName` column of `Job.findAll` have no meaning in the abstract database. So the rows findAll returns are not modelled, only the clause and values it sends.
- The database schema is not modelled: no column types, no foreign key from jobs to companies, no unique constraint on the handle beyond create's own check. An update naming an unknown column, for example `nope`, succeeds in the model; the real database raises an error there instead.
- Database.RenderUpdate: the template's line breaks and indentation are rendered as single spaces, so the text is the sent statement up to whitespace.
- Database.ExecuteUpdate: the error PostgreSQL raises for a column named twice carries that column's name; the model's message leaves the name out.
- Request-schema validation and the coercion of query strings to numbers and booleans belong to the routes, which are not part of this model. Filter bounds are integers and `hasEquity` is a boolean.
- Company.RangeInverted: compares the bounds as integers. JavaScript's `<` on strings or mixed types is not modelled.
- `jwt.verify` and its cryptography are the `verify` parameter. The payload is assumed to have a string `username` and a boolean `isAdmin`, so the truthiness of other `isAdmin` values and the `iat` field are not modelled.
- Auth.AuthenticateJWT: `res.locals` is always present. The TypeError the `try` would catch when it is absent is not modelled.
- Auth.EnsureLoggedIn: reads `res.locals.user` without `?.`; the TypeError it would throw when `res.locals` is absent is not modelled, because `res.locals` is always present here.
- Auth.EnsureAdmin: the same, for the `res.locals.user` reads of middleware/auth.js:47.
- SqlHelpers.ColumnName: a rename is looked up among the map's own keys only. JavaScript also finds inherited properties such as `constructor`.
- A JavaScript object is a list of distinct keys in enumeration order. The JavaScript rule that integer-like keys enumerate first is not modelled; the keys and values still come out in the same order.
- `undefined` field values, and `null` as a filter, are not modelled. A filter is either absent or has a value.
- Job ids are natural numbers. A non-numeric or negative id passed to get, update or remove is not modelled.
- Job.UpdateKeepsValid: holds only for updates that do not set `id`, because the source lets an update write the id column.
- Text.Trim: the ensures state the ends and the length. That the result is a contiguous slice of the input follows from TrimStart and TrimEnd, but is not restated as one property.
- Job.Get: the source attaches `company` to the job object; the model returns the job and its company side by side. One test in models/job.test.js expects `get` without a `company` key. The model follows the code.
- Job.MakeWhereClause: the doc comment of models/job.js gives the example title value without `%` wildcards. The code binds `%title%`, and the model follows the code.
- `async` and concurrency: every database call is atomic and in program order.
