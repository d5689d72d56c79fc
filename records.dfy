/**
 * The two entities of the API. A request body is destructured into the same
 * fields a row stores, so one record type serves as both: a field is absent
 * (`undefined`/`null` in the body, NULL in the table) or a string.
 */
module Records {
  import opened Wrappers

  type Field = Option<string>

  /** JavaScript truthiness, restricted to optional strings: present and non-empty. */
  predicate Truthy(f: Field) {
    f.Some? && f.value != ""
  }

  /** A row of `users` (the id is the table's key) or the body of a users request. */
  datatype User = User(username: Field, password: Field, cpf: Field, telefone: Field, email: Field)

  /** A row of `professores` (the id is the table's key) or the body of a professores request. */
  datatype Professor = Professor(nome: Field, disciplina: Field, email: Field, telefone: Field)

  /** The guard of POST, PUT and PATCH on users: every field is truthy. */
  predicate UserComplete(u: User) {
    Truthy(u.username) && Truthy(u.password) && Truthy(u.cpf) && Truthy(u.telefone) && Truthy(u.email)
  }

  /** The guard of POST and PUT on professores: every field is truthy. */
  predicate ProfessorComplete(p: Professor) {
    Truthy(p.nome) && Truthy(p.disciplina) && Truthy(p.email) && Truthy(p.telefone)
  }

  /** The guard of PATCH on professores: at least one field is truthy. */
  predicate ProfessorAnySupplied(p: Professor) {
    Truthy(p.nome) || Truthy(p.disciplina) || Truthy(p.email) || Truthy(p.telefone)
  }

  /** The columns of `professores` other than the id. */
  datatype Column = Nome | Disciplina | Email | Telefone

  /** The order in which the partial update visits the columns. */
  const ColumnOrder: seq<Column> := [Nome, Disciplina, Email, Telefone]

  function Get(p: Professor, c: Column): (v: Field) {
    match c
    case Nome => p.nome
    case Disciplina => p.disciplina
    case Email => p.email
    case Telefone => p.telefone
  }

  /** Column-wise assignment, as `SET c = ?` does to one row. */
  function Set(p: Professor, c: Column, v: Field): (r: Professor)
    ensures Get(r, c) == v
    ensures forall d :: d != c ==> Get(r, d) == Get(p, d)
  {
    match c
    case Nome => p.(nome := v)
    case Disciplina => p.(disciplina := v)
    case Email => p.(email := v)
    case Telefone => p.(telefone := v)
  }

  /** Two professor rows that agree on every column are equal. */
  lemma ProfessorExtensional(p: Professor, q: Professor)
    requires forall c :: Get(p, c) == Get(q, c)
    ensures p == q
  {
    assert Get(p, Nome) == Get(q, Nome);
    assert Get(p, Disciplina) == Get(q, Disciplina);
    assert Get(p, Email) == Get(q, Email);
    assert Get(p, Telefone) == Get(q, Telefone);
  }

  /**
   * The reference meaning of a partial update of one row: each column the
   * body supplies a truthy value for takes that value, every other column
   * keeps its stored value.
   */
  function PatchRow(row: Professor, body: Professor): (r: Professor)
    ensures forall c :: Get(r, c) == (if Truthy(Get(body, c)) then Get(body, c) else Get(row, c))
  {
    Professor(
      if Truthy(body.nome) then body.nome else row.nome,
      if Truthy(body.disciplina) then body.disciplina else row.disciplina,
      if Truthy(body.email) then body.email else row.email,
      if Truthy(body.telefone) then body.telefone else row.telefone)
  }

  /** A partial update that supplies every column overwrites the whole row, as a full update does. */
  lemma PatchWithEveryColumnIsFullUpdate(row: Professor, body: Professor)
    requires ProfessorComplete(body)
    ensures PatchRow(row, body) == body
  {
  }
}
