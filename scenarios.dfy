/**
 * Clients of the handlers: sequences of requests and what the handlers'
 * contracts alone let a caller conclude about their responses.
 */
module Scenarios {
  import opened Wrappers
  import opened Records
  import opened Sql
  import opened Responses
  import opened Handlers

  /** A created professor can be fetched under the new id, with every submitted value. */
  method PostThenGetProfessor(api: Api, body: Professor) returns (created: Response<Professor>, fetched: Response<Professor>)
    requires api.Valid() && ProfessorComplete(body)
    modifies api
    ensures api.Valid()
    ensures created == Text(201, ProfessorCreated(body.nome.value))
    ensures api.professores.lastSeq !in old(api.professores.rows)
    ensures fetched == Row(200, api.professores.lastSeq, body)
  {
    created := api.PostProfessor(body, None);
    fetched := api.GetProfessor(api.professores.lastSeq, None);
  }

  /**
   * Patching one column of an existing professor changes that column and
   * leaves the other three as they were.
   */
  method PatchOneColumnThenGet(api: Api, id: nat, disciplina: string) returns (patched: Response<Professor>, fetched: Response<Professor>)
    requires api.Valid() && id in api.professores.rows && disciplina != ""
    modifies api
    ensures api.Valid()
    ensures patched == Text(200, ProfessorPatched)
    ensures fetched.Row? && fetched.status == 200 && fetched.id == id
    ensures fetched.row.disciplina == Some(disciplina)
    ensures fetched.row.nome == old(api.professores.rows[id].nome)
    ensures fetched.row.email == old(api.professores.rows[id].email)
    ensures fetched.row.telefone == old(api.professores.rows[id].telefone)
  {
    patched := api.PatchProfessor(id, Professor(None, Some(disciplina), None, None), None);
    fetched := api.GetProfessor(id, None);
  }

  /** Once a user is deleted, fetching, updating or deleting it again answers 404. */
  method DeleteThenMissing(api: Api, id: nat, body: User) returns (deleted: Response<User>, fetched: Response<User>, updated: Response<User>, again: Response<User>)
    requires api.Valid() && id in api.users.rows && UserComplete(body)
    modifies api
    ensures api.Valid()
    ensures deleted == Text(200, UserDeleted(id))
    ensures fetched == Text(404, UserNotFound)
    ensures updated == Text(404, UserNotFound)
    ensures again == Text(404, UserNotFound)
    ensures api.users.rows == old(api.users.rows) - {id}
  {
    deleted := api.DeleteUser(id, None);
    fetched := api.GetUser(id, None);
    updated := api.PutUser(id, body, None);
    again := api.DeleteUser(id, None);
  }

  /**
   * On an empty database: creating Ana, fetching her, patching her subject,
   * fetching again, and deleting a user that does not exist.
   */
  method ProfessorAnaScenario() returns (created: Response<Professor>, fetched: Response<Professor>,
                                         patched: Response<Professor>, refetched: Response<Professor>,
                                         missing: Response<User>)
    ensures created == Text(201, "Professor Ana cadastrado com sucesso")
    ensures fetched == Row(200, 1, Professor(Some("Ana"), Some("Math"), Some("a@x.com"), Some("123")))
    ensures patched == Text(200, "Professor atualizado com sucesso")
    ensures refetched == Row(200, 1, Professor(Some("Ana"), Some("Physics"), Some("a@x.com"), Some("123")))
    ensures missing == Text(404, "User not found")
  {
    var api := new Api(Table(map[], 0), Table(map[], 0));
    var ana := Professor(Some("Ana"), Some("Math"), Some("a@x.com"), Some("123"));
    created := api.PostProfessor(ana, None);
    AnaCreatedMessage();
    assert api.professores.rows == map[1 := ana];
    fetched := api.GetProfessor(1, None);
    var physics := Professor(None, Some("Physics"), None, None);
    patched := api.PatchProfessor(1, physics, None);
    assert PatchRow(ana, physics) == ana.(disciplina := Some("Physics"));
    refetched := api.GetProfessor(1, None);
    missing := api.DeleteUser(999, None);
  }

  lemma AnaCreatedMessage()
    ensures ProfessorCreated("Ana") == "Professor Ana cadastrado com sucesso"
  {
  }

  /**
   * PATCH on a user behaves exactly like PUT: from equal tables, the same
   * request gives the same response and the same tables.
   */
  method PatchUserIsPutUser(a1: Api, a2: Api, id: nat, body: User, engineError: Option<string>)
    returns (put: Response<User>, patch: Response<User>)
    requires a1 != a2 && a1.Valid() && a2.Valid()
    requires a1.users == a2.users && a1.professores == a2.professores
    modifies a1, a2
    ensures put == patch
    ensures a1.users == a2.users && a1.professores == a2.professores
  {
    put := a1.PutUser(id, body, engineError);
    patch := a2.PatchUser(id, body, engineError);
  }
}
