# A model of the users/professores CRUD API

The system is a small HTTP API backed by one embedded SQLite file with two
tables, `users (id, username, password, cpf, telefone, email)` and
`professores (id, nome, disciplina, email, telefone)`. Each table's `id` is
`INTEGER PRIMARY KEY AUTOINCREMENT`. POST, PUT and PATCH check the request
body's fields for truthiness; the list, get-by-id and delete routes take no
body. Every handler except `GET /` runs at most one statement (PATCH on
professores runs none when no field is truthy), and maps the outcome to a
status code and a plain-text or JSON body:
- 400 on failed validation;
- 404 when no row matched;
- 200 with the row or rows as JSON for the GET routes, or 200/201 with a
  message that may embed the username, nome or id for the write routes;
- 500 with the engine's message when the statement fails.

This project models that logic in Dafny:

- `records.dfy` — the two records, JavaScript truthiness on optional strings,
  and the three validation guards. It also holds `PatchRow`, the column-wise
  meaning of a partial update.
- `sql.dfy` — a table is a map from id to row plus the largest id
  AUTOINCREMENT has handed out. The fixed statements (`SELECT`, `INSERT`,
  `UPDATE ... WHERE id = ?`, `DELETE ... WHERE id = ?`) are functions on it,
  returning `this.changes` / `this.lastID`.
- `patch_builder.dfy` — the statement builder of `PATCH /professores/:id`,
  written as a method that appends to `updates` and `params` step by step. It
  also gives the meaning of the statement the builder produces (`SetColumns`,
  `RunPatch`). The lemmas show that the built statement is well formed exactly
  when validation passes. They also show that it sets exactly the supplied
  columns.
- `strings.dfy` — `join`, placeholder counting, and the decimal rendering of
  an id.
- `responses.dfy` — the response shapes and the fixed messages.
- `handlers.dfy` — the class `Api` holds both tables and has one method per
  handler. Each method is one atomic step on the tables, and its contract
  states the response and the new state of both tables for every outcome.
- `scenarios.dfy` — clients that chain requests: create then get, patch one
  column then get, delete then 404, PATCH of a user against PUT, and a
  concrete run on an empty database.

The storage engine is a parameter. Each handler takes
`engineError: Option<string>`. `Some(message)` means the statement failed:
the handler answers 500 with that message and the table is unchanged.

## Model

| member | source | states |
|---|---|---|
| Records.PatchRow | index.js:250-272 | after a partial update, each column holds the body's value if that field is truthy and keeps its stored value otherwise |
| Records.PatchWithEveryColumnIsFullUpdate | index.js:245-272 | a PATCH body that supplies all four professor fields overwrites the whole row, exactly as PUT would |
| Records.Set | index.js:253-268 | assigning one column sets that column and leaves the other three unchanged |
| Sql.Insert | index.js:88-91 | an INSERT stores the row under id `lastSeq + 1`, which no row has had before; it keeps the table invariant (every id between 1 and the largest id handed out) and leaves every other row unchanged |
| Sql.UpdateWhereId | index.js:110-113 | `UPDATE ... WHERE id = ?` reports `changes` 0 exactly when the id is absent, and then leaves the table unchanged; otherwise only that row changes, the key set stays the same, and the invariant is kept |
| Sql.DeleteWhereId | index.js:155 | `DELETE ... WHERE id = ?` removes exactly that id and no other row; `changes` is 0 exactly when the id was absent, and then the table is unchanged |
| Sql.DeletedIdNotReused | index.js:11 | under AUTOINCREMENT an insert after a delete never reuses the deleted id |
| Strings.CountJoin | index.js:272 | joining pieces that each hold one placeholder, with a separator that holds none, yields one placeholder per piece |
| Strings.DecimalRoundTrip | index.js:164 | a check on the model's own decimal rendering of the id it puts in the delete message: reading it back gives the id (the source echoes the raw path text instead, see Left out) |
| Strings.DecimalStringInjective | index.js:298 | a check on the model's own rendering: distinct ids have distinct decimal renderings |
| Responses.UserDeletedInjective | index.js:164 | in the model, distinct ids give distinct user delete messages |
| Responses.ProfessorDeletedInjective | index.js:298 | in the model, distinct ids give distinct professor delete messages |
| PatchBuilder.ColumnOfFragment | index.js:253-268 | a recognised SET fragment is the fragment of the column it names |
| PatchBuilder.FragmentHasOnePlaceholder | index.js:254 | each `col = ?` fragment holds exactly one placeholder |
| PatchBuilder.SuppliedColumns | index.js:253-268 | the columns of a partial update are exactly those whose field is truthy, in the order nome, disciplina, email, telefone |
| PatchBuilder.BuildProfessorPatch | index.js:250-272 | `updates` has one fragment per truthy field, in the fixed order; `params` has the matching values in that order with the id last, so `|params| = |updates| + 1`; `updates` is non-empty exactly when some field is truthy; the SQL text is `UPDATE professores SET <joined fragments> WHERE id = ?` and holds one placeholder per parameter |
| PatchBuilder.SuppliedFragmentsExact | index.js:253-268 | a column's fragment is in `updates` exactly when its field is truthy; `updates` is empty exactly when no field is |
| PatchBuilder.PatchSqlPlaceholders | index.js:270-274 | the statement text has one placeholder per fragment plus the one of `WHERE id = ?` |
| PatchBuilder.BuiltPatchWellFormedIff | index.js:245-272 | the built statement is well formed (non-empty SET list, every fragment a known column bound to a value, the id bound last) exactly when at least one field is truthy; the 400 guard at line 245 is exactly what excludes the malformed `SET  WHERE` statement |
| PatchBuilder.PatchStatementEffect | index.js:272-274 | running the built statement on a row gives `PatchRow`: exactly the supplied columns take the supplied values |
| Handlers.Api.constructor | index.js:6-46 | opening the database gives an API over the tables the file already holds |
| Handlers.Api.ListUsers | index.js:55-63 | 200 with every row of `users`, or 500 with the engine's message |
| Handlers.Api.GetUser | index.js:65-78 | 404 "User not found" when no row has that id, otherwise 200 with that row; 500 on an engine error |
| Handlers.Api.PostUser | index.js:80-99 | any falsy field gives 400 "Dados incompletos" and no change; otherwise one row holding exactly the body is added under a fresh id, and the answer is 201 with a message that embeds the username; 500 and no change on an engine error; `professores` never changes |
| Handlers.Api.PutUser | index.js:101-125 | any falsy field gives 400 "Dados incompletos" and no change; a missing id gives 404 "User not found" and no change; otherwise that row is replaced by the body and the answer is 200; 500 and no change on an engine error |
| Handlers.Api.PatchUser | index.js:127-151 | the same contract as PutUser: the same all-fields validation, the same full-row update, the same responses |
| Handlers.Api.DeleteUser | index.js:153-166 | a missing id gives 404 "User not found" and no change; otherwise exactly that row is removed and the answer is 200 with a message echoing the id |
| Handlers.Api.ListProfessores | index.js:169-177 | 200 with every row of `professores`, or 500 with the engine's message |
| Handlers.Api.GetProfessor | index.js:179-192 | 404 "Professor not found" when no row has that id, otherwise 200 with that row; 500 on an engine error |
| Handlers.Api.PostProfessor | index.js:194-213 | any falsy field gives 400 "Dados incompletos" and no change; otherwise one row holding exactly the body is added under a fresh id, and the answer is 201 with a message that embeds the nome |
| Handlers.Api.PutProfessor | index.js:215-239 | any falsy field gives 400 "Dados incompletos" and no change; a missing id gives 404 "Professor not found" and no change; otherwise that row is replaced and the answer is 200 with a message naming the nome |
| Handlers.Api.PatchProfessor | index.js:241-285 | all four fields falsy gives 400 "Nada para atualizar" and no statement runs; a missing id gives 404 and no change; otherwise only the supplied columns of that one row change, every other row and `users` stay unchanged, and the answer is 200 "Professor atualizado com sucesso" |
| Handlers.Api.DeleteProfessor | index.js:287-300 | a missing id gives 404 "Professor not found" and no change; otherwise exactly that row is removed and the answer is 200 |
| Scenarios.PostThenGetProfessor | index.js:179-213 | a created professor is fetched under the new id with every submitted value |
| Scenarios.PatchOneColumnThenGet | index.js:241-285 | after patching only `disciplina`, a fetch shows the new disciplina, and nome, email and telefone are unchanged |
| Scenarios.DeleteThenMissing | index.js:153-166 | after a user is deleted, fetching it, updating it or deleting it again answers 404 "User not found" |
| Scenarios.PatchUserIsPutUser | index.js:101-151 | from equal tables, PUT and PATCH on a user with the same id, body and engine outcome give the same response and the same tables |
| Scenarios.ProfessorAnaScenario | index.js:194-285 | on an empty database: creating Ana answers 201 "Professor Ana cadastrado com sucesso"; she is fetched as id 1; patching disciplina to Physics answers 200 and changes only that column; deleting user 999 answers 404 |

## Left out

- Express routing, JSON body parsing, the `GET /` greeting route, `app.listen` and console logging (index.js:48-52, 302-304). These are HTTP and I/O plumbing with no logic of their own.
- The startup `ALTER TABLE users ADD COLUMN` migrations (index.js:20-34). Their outcome depends on matching the engine's error text ("duplicate column name"). The model starts from tables that already have every column.
- The sqlite3 connection, `db.serialize` and the callback style. Each handler is one atomic step; concurrency between requests is not modelled.
- The content of 500 responses. The engine's failure is an opaque `engineError` message that the handler echoes. The model does not say when the engine fails.
- Ids are naturals. The path parameter's string-to-integer coercion by SQLite is not modelled, nor is a non-numeric id.
- Handlers.Api.DeleteUser: the source's message echoes the raw path string (`${id}`); the model renders the numeric id in decimal, which differs for a path such as `007`.
- Handlers.Api.DeleteProfessor: the same decimal rendering of the id as DeleteUser.
- The row order of the list endpoints (no `ORDER BY`). A list result is the whole table as a map from id to row.
- JavaScript truthiness over non-string JSON values (numbers, booleans, objects). Body fields are optional strings, and "truthy" means present and non-empty.
- SQLite's failure when AUTOINCREMENT reaches the largest 64-bit rowid. Ids are unbounded.
