/**
 * What a handler sends back: a status code with a plain-text body, or a
 * status code with one row or all rows as JSON.
 */
module Responses {
  import opened Strings

  datatype Response<R> =
    | Text(status: nat, text: string)
    | Row(status: nat, id: nat, row: R)
    | Rows(status: nat, rows: map<nat, R>)

  const Incomplete := "Dados incompletos"
  const NothingToUpdate := "Nada para atualizar"
  const UserNotFound := "User not found"
  const ProfessorNotFound := "Professor not found"
  const ProfessorPatched := "Professor atualizado com sucesso"

  function UserCreated(username: string): string {
    "Usuário " + username + " cadastrado com sucesso"
  }

  function UserUpdated(username: string): string {
    "Usuário " + username + " atualizado com sucesso"
  }

  function UserDeleted(id: nat): string {
    "Usuário " + DecimalString(id) + " deletado com sucesso"
  }

  function ProfessorCreated(nome: string): string {
    "Professor " + nome + " cadastrado com sucesso"
  }

  function ProfessorUpdated(nome: string): string {
    "Professor " + nome + " atualizado com sucesso"
  }

  function ProfessorDeleted(id: nat): string {
    "Professor " + DecimalString(id) + " deletado com sucesso"
  }

  /** The user delete message tells ids apart: distinct ids give distinct messages. */
  lemma UserDeletedInjective(m: nat, n: nat)
    requires UserDeleted(m) == UserDeleted(n)
    ensures m == n
  {
    var p, s := "Usuário ", " deletado com sucesso";
    var a, b := DecimalString(m), DecimalString(n);
    assert |a| == |b|;
    assert a == (p + a + s)[|p|..|p| + |a|];
    assert b == (p + b + s)[|p|..|p| + |b|];
    DecimalStringInjective(m, n);
  }

  /** The professor delete message tells ids apart: distinct ids give distinct messages. */
  lemma ProfessorDeletedInjective(m: nat, n: nat)
    requires ProfessorDeleted(m) == ProfessorDeleted(n)
    ensures m == n
  {
    var p, s := "Professor ", " deletado com sucesso";
    var a, b := DecimalString(m), DecimalString(n);
    assert |a| == |b|;
    assert a == (p + a + s)[|p|..|p| + |a|];
    assert b == (p + b + s)[|p|..|p| + |b|];
    DecimalStringInjective(m, n);
  }
}
