/**
 * The route handlers of the API. `Api` holds the two tables of the database
 * file the process opened; each handler is one atomic step on them: it
 * validates the body, runs its one statement and maps the outcome to a
 * response. `engineError` stands for the storage engine: `Some(message)`
 * when the statement fails (the handler answers 500 with the engine's
 * message and the table is left as it was), `None` when it runs.
 */
module Handlers {
  import opened Wrappers
  import opened Records
  import opened Sql
  import opened Responses
  import opened PatchBuilder

  class Api {
    var users: Table<User>
    var professores: Table<Professor>

    ghost predicate Valid()
      reads this
    {
      users.Valid() && professores.Valid()
    }

    /** Opens the database with the tables it already holds. */
    constructor (users0: Table<User>, professores0: Table<Professor>)
      requires users0.Valid() && professores0.Valid()
      ensures Valid() && users == users0 && professores == professores0
    {
      users := users0;
      professores := professores0;
    }

    /** `GET /users`: every row, or the engine's error. */
    method ListUsers(engineError: Option<string>) returns (resp: Response<User>)
      ensures engineError.Some? ==> resp == Text(500, engineError.value)
      ensures engineError.None? ==> resp == Rows(200, users.rows)
    {
      if engineError.Some? {
        resp := Text(500, engineError.value);
        return;
      }
      resp := Rows(200, SelectAll(users));
    }

    /** `GET /users/:id`: the row with that id, or 404 when there is none. */
    method GetUser(id: nat, engineError: Option<string>) returns (resp: Response<User>)
      ensures engineError.Some? ==> resp == Text(500, engineError.value)
      ensures engineError.None? && id !in users.rows ==> resp == Text(404, UserNotFound)
      ensures engineError.None? && id in users.rows ==> resp == Row(200, id, users.rows[id])
    {
      if engineError.Some? {
        resp := Text(500, engineError.value);
        return;
      }
      var row := SelectById(users, id);
      if row.None? {
        resp := Text(404, UserNotFound);
        return;
      }
      resp := Row(200, id, row.value);
    }

    /** `POST /users`: stores the body under a fresh id when every field is truthy. */
    method PostUser(body: User, engineError: Option<string>) returns (resp: Response<User>)
      requires Valid()
      modifies this
      ensures Valid() && professores == old(professores)
      ensures !UserComplete(body) ==> resp == Text(400, Incomplete) && users == old(users)
      ensures UserComplete(body) && engineError.Some? ==>
        resp == Text(500, engineError.value) && users == old(users)
      ensures UserComplete(body) && engineError.None? ==>
        && resp == Text(201, UserCreated(body.username.value))
        && users.lastSeq == old(users.lastSeq) + 1 && users.lastSeq !in old(users.rows)
        && users.rows == old(users.rows)[users.lastSeq := body]
    {
      if !UserComplete(body) {
        resp := Text(400, Incomplete);
        return;
      }
      var run := Insert(users, body);
      if engineError.Some? {
        resp := Text(500, engineError.value);
        return;
      }
      users := run.table;
      resp := Text(201, UserCreated(body.username.value));
    }

    /** `PUT /users/:id`: replaces every column of that row when every field is truthy. */
    method PutUser(id: nat, body: User, engineError: Option<string>) returns (resp: Response<User>)
      requires Valid()
      modifies this
      ensures Valid() && professores == old(professores)
      ensures !UserComplete(body) ==> resp == Text(400, Incomplete) && users == old(users)
      ensures UserComplete(body) && engineError.Some? ==>
        resp == Text(500, engineError.value) && users == old(users)
      ensures UserComplete(body) && engineError.None? && id !in old(users.rows) ==>
        resp == Text(404, UserNotFound) && users == old(users)
      ensures UserComplete(body) && engineError.None? && id in old(users.rows) ==>
        && resp == Text(200, UserUpdated(body.username.value))
        && users == old(users).(rows := old(users.rows)[id := body])
    {
      if !UserComplete(body) {
        resp := Text(400, Incomplete);
        return;
      }
      var run := UpdateWhereId(users, id, _ => body);
      if engineError.Some? {
        resp := Text(500, engineError.value);
        return;
      }
      users := run.table;
      if run.changes == 0 {
        resp := Text(404, UserNotFound);
        return;
      }
      resp := Text(200, UserUpdated(body.username.value));
    }

    /**
     * `PATCH /users/:id`: despite the verb, the same full update as PUT, with
     * the same validation and the same responses.
     */
    method PatchUser(id: nat, body: User, engineError: Option<string>) returns (resp: Response<User>)
      requires Valid()
      modifies this
      ensures Valid() && professores == old(professores)
      ensures !UserComplete(body) ==> resp == Text(400, Incomplete) && users == old(users)
      ensures UserComplete(body) && engineError.Some? ==>
        resp == Text(500, engineError.value) && users == old(users)
      ensures UserComplete(body) && engineError.None? && id !in old(users.rows) ==>
        resp == Text(404, UserNotFound) && users == old(users)
      ensures UserComplete(body) && engineError.None? && id in old(users.rows) ==>
        && resp == Text(200, UserUpdated(body.username.value))
        && users == old(users).(rows := old(users.rows)[id := body])
    {
      if !UserComplete(body) {
        resp := Text(400, Incomplete);
        return;
      }
      var run := UpdateWhereId(users, id, _ => body);
      if engineError.Some? {
        resp := Text(500, engineError.value);
        return;
      }
      users := run.table;
      if run.changes == 0 {
        resp := Text(404, UserNotFound);
        return;
      }
      resp := Text(200, UserUpdated(body.username.value));
    }

    /** `DELETE /users/:id`: removes exactly that row, or answers 404 when there is none. */
    method DeleteUser(id: nat, engineError: Option<string>) returns (resp: Response<User>)
      requires Valid()
      modifies this
      ensures Valid() && professores == old(professores)
      ensures engineError.Some? ==> resp == Text(500, engineError.value) && users == old(users)
      ensures engineError.None? && id !in old(users.rows) ==>
        resp == Text(404, UserNotFound) && users == old(users)
      ensures engineError.None? && id in old(users.rows) ==>
        && resp == Text(200, UserDeleted(id))
        && users == old(users).(rows := old(users.rows) - {id})
    {
      var run := DeleteWhereId(users, id);
      if engineError.Some? {
        resp := Text(500, engineError.value);
        return;
      }
      users := run.table;
      if run.changes == 0 {
        resp := Text(404, UserNotFound);
        return;
      }
      resp := Text(200, UserDeleted(id));
    }

    /** `GET /professores`: every row, or the engine's error. */
    method ListProfessores(engineError: Option<string>) returns (resp: Response<Professor>)
      ensures engineError.Some? ==> resp == Text(500, engineError.value)
      ensures engineError.None? ==> resp == Rows(200, professores.rows)
    {
      if engineError.Some? {
        resp := Text(500, engineError.value);
        return;
      }
      resp := Rows(200, SelectAll(professores));
    }

    /** `GET /professores/:id`: the row with that id, or 404 when there is none. */
    method GetProfessor(id: nat, engineError: Option<string>) returns (resp: Response<Professor>)
      ensures engineError.Some? ==> resp == Text(500, engineError.value)
      ensures engineError.None? && id !in professores.rows ==> resp == Text(404, ProfessorNotFound)
      ensures engineError.None? && id in professores.rows ==> resp == Row(200, id, professores.rows[id])
    {
      if engineError.Some? {
        resp := Text(500, engineError.value);
        return;
      }
      var row := SelectById(professores, id);
      if row.None? {
        resp := Text(404, ProfessorNotFound);
        return;
      }
      resp := Row(200, id, row.value);
    }

    /** `POST /professores`: stores the body under a fresh id when every field is truthy. */
    method PostProfessor(body: Professor, engineError: Option<string>) returns (resp: Response<Professor>)
      requires Valid()
      modifies this
      ensures Valid() && users == old(users)
      ensures !ProfessorComplete(body) ==> resp == Text(400, Incomplete) && professores == old(professores)
      ensures ProfessorComplete(body) && engineError.Some? ==>
        resp == Text(500, engineError.value) && professores == old(professores)
      ensures ProfessorComplete(body) && engineError.None? ==>
        && resp == Text(201, ProfessorCreated(body.nome.value))
        && professores.lastSeq == old(professores.lastSeq) + 1 && professores.lastSeq !in old(professores.rows)
        && professores.rows == old(professores.rows)[professores.lastSeq := body]
    {
      if !ProfessorComplete(body) {
        resp := Text(400, Incomplete);
        return;
      }
      var run := Insert(professores, body);
      if engineError.Some? {
        resp := Text(500, engineError.value);
        return;
      }
      professores := run.table;
      resp := Text(201, ProfessorCreated(body.nome.value));
    }

    /** `PUT /professores/:id`: replaces every column of that row when every field is truthy. */
    method PutProfessor(id: nat, body: Professor, engineError: Option<string>) returns (resp: Response<Professor>)
      requires Valid()
      modifies this
      ensures Valid() && users == old(users)
      ensures !ProfessorComplete(body) ==> resp == Text(400, Incomplete) && professores == old(professores)
      ensures ProfessorComplete(body) && engineError.Some? ==>
        resp == Text(500, engineError.value) && professores == old(professores)
      ensures ProfessorComplete(body) && engineError.None? && id !in old(professores.rows) ==>
        resp == Text(404, ProfessorNotFound) && professores == old(professores)
      ensures ProfessorComplete(body) && engineError.None? && id in old(professores.rows) ==>
        && resp == Text(200, ProfessorUpdated(body.nome.value))
        && professores == old(professores).(rows := old(professores.rows)[id := body])
    {
      if !ProfessorComplete(body) {
        resp := Text(400, Incomplete);
        return;
      }
      var run := UpdateWhereId(professores, id, _ => body);
      if engineError.Some? {
        resp := Text(500, engineError.value);
        return;
      }
      professores := run.table;
      if run.changes == 0 {
        resp := Text(404, ProfessorNotFound);
        return;
      }
      resp := Text(200, ProfessorUpdated(body.nome.value));
    }

    /**
     * `PATCH /professores/:id`: a true partial update. With no truthy field it
     * answers 400 and runs nothing; otherwise it builds and runs the
     * statement that sets only the supplied columns of that row.
     */
    method PatchProfessor(id: nat, body: Professor, engineError: Option<string>) returns (resp: Response<Professor>)
      requires Valid()
      modifies this
      ensures Valid() && users == old(users)
      ensures !ProfessorAnySupplied(body) ==>
        resp == Text(400, NothingToUpdate) && professores == old(professores)
      ensures ProfessorAnySupplied(body) && engineError.Some? ==>
        resp == Text(500, engineError.value) && professores == old(professores)
      ensures ProfessorAnySupplied(body) && engineError.None? && id !in old(professores.rows) ==>
        resp == Text(404, ProfessorNotFound) && professores == old(professores)
      ensures ProfessorAnySupplied(body) && engineError.None? && id in old(professores.rows) ==>
        && resp == Text(200, ProfessorPatched)
        && professores == old(professores).(rows := old(professores.rows)[id := PatchRow(old(professores.rows)[id], body)])
    {
      if !ProfessorAnySupplied(body) {
        resp := Text(400, NothingToUpdate);
        return;
      }
      var updates, params, sql := BuildProfessorPatch(body, id);
      BuiltPatchWellFormedIff(body, id);
      var run := RunPatch(professores, updates, params);
      if engineError.Some? {
        resp := Text(500, engineError.value);
        return;
      }
      ghost var before := professores;
      professores := run.table;
      if run.changes == 0 {
        resp := Text(404, ProfessorNotFound);
        return;
      }
      PatchStatementEffect(before.rows[id], body, id);
      assert professores.rows == before.rows[id := PatchRow(before.rows[id], body)];
      resp := Text(200, ProfessorPatched);
    }

    /** `DELETE /professores/:id`: removes exactly that row, or answers 404 when there is none. */
    method DeleteProfessor(id: nat, engineError: Option<string>) returns (resp: Response<Professor>)
      requires Valid()
      modifies this
      ensures Valid() && users == old(users)
      ensures engineError.Some? ==> resp == Text(500, engineError.value) && professores == old(professores)
      ensures engineError.None? && id !in old(professores.rows) ==>
        resp == Text(404, ProfessorNotFound) && professores == old(professores)
      ensures engineError.None? && id in old(professores.rows) ==>
        && resp == Text(200, ProfessorDeleted(id))
        && professores == old(professores).(rows := old(professores.rows) - {id})
    {
      var run := DeleteWhereId(professores, id);
      if engineError.Some? {
        resp := Text(500, engineError.value);
        return;
      }
      professores := run.table;
      if run.changes == 0 {
        resp := Text(404, ProfessorNotFound);
        return;
      }
      resp := Text(200, ProfessorDeleted(id));
    }
  }
}
