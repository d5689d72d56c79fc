/**
 * The statement builder of `PATCH /professores/:id` and the meaning of the
 * statement it builds. The builder walks the columns in the order nome,
 * disciplina, email, telefone; for each truthy field of the body it pushes
 * a `col = ?` fragment onto `updates` and the value onto `params`; it then
 * pushes the id and joins the fragments into
 * `UPDATE professores SET <fragments> WHERE id = ?`.
 */
module PatchBuilder {
  import opened Wrappers
  import opened Records
  import opened Strings
  import opened Sql

  /** A bound statement parameter: a column value, or the id of the WHERE clause. */
  datatype Param = Str(s: string) | Id(id: nat)

  function ColumnName(c: Column): (name: string) {
    match c
    case Nome => "nome"
    case Disciplina => "disciplina"
    case Email => "email"
    case Telefone => "telefone"
  }

  /** The SET-list fragment for one column. */
  function Fragment(c: Column): (f: string) {
    ColumnName(c) + " = ?"
  }

  /** The column a SET-list fragment assigns, if it is one of the four. */
  function ColumnOfFragment(f: string): (r: Option<Column>)
    ensures r.Some? ==> Fragment(r.value) == f
  {
    if f == Fragment(Nome) then Some(Nome)
    else if f == Fragment(Disciplina) then Some(Disciplina)
    else if f == Fragment(Email) then Some(Email)
    else if f == Fragment(Telefone) then Some(Telefone)
    else None
  }

  lemma FragmentRecognised(c: Column)
    ensures ColumnOfFragment(Fragment(c)) == Some(c)
  {
  }

  /** Each fragment holds exactly one placeholder. */
  lemma FragmentHasOnePlaceholder(c: Column)
    ensures Count(Fragment(c), '?') == 1
  {
    CountConcat(ColumnName(c), " = ?", '?');
    CountAbsent(ColumnName(c), '?');
    assert " = ?" == " = " + "?";
    CountConcat(" = ", "?", '?');
    CountAbsent(" = ", '?');
    assert "?"[1..] == [];
  }

  /** The position of a column in the visiting order. */
  function Rank(c: Column): nat {
    match c
    case Nome => 0
    case Disciplina => 1
    case Email => 2
    case Telefone => 3
  }

  predicate Increasing(cs: seq<Column>) {
    forall i, j :: 0 <= i < j < |cs| ==> Rank(cs[i]) < Rank(cs[j])
  }

  /** The columns of `order` whose field the body supplies truthy, kept in the order of `order`. */
  function Supplied(body: Professor, order: seq<Column>): (cs: seq<Column>) {
    if order == [] then []
    else (if Truthy(Get(body, order[0])) then [order[0]] else []) + Supplied(body, order[1..])
  }

  lemma {:induction false} SuppliedMembers(body: Professor, order: seq<Column>, c: Column)
    ensures c in Supplied(body, order) <==> c in order && Truthy(Get(body, c))
  {
    if order != [] {
      SuppliedMembers(body, order[1..], c);
      assert c in order <==> c == order[0] || c in order[1..];
    }
  }

  lemma {:induction false} SuppliedIncreasing(body: Professor, order: seq<Column>)
    requires Increasing(order)
    ensures Increasing(Supplied(body, order))
  {
    if order != [] {
      var tail := Supplied(body, order[1..]);
      assert Increasing(order[1..]);
      SuppliedIncreasing(body, order[1..]);
      forall k | 0 <= k < |tail| ensures Rank(order[0]) < Rank(tail[k]) {
        assert tail[k] in tail;
        SuppliedMembers(body, order[1..], tail[k]);
        var m :| 0 <= m < |order[1..]| && order[1..][m] == tail[k];
        assert order[m + 1] == tail[k];
      }
    }
  }

  /**
   * The columns a partial update with this body assigns: exactly those whose
   * field is truthy, in the order nome, disciplina, email, telefone.
   */
  function SuppliedColumns(body: Professor): (cs: seq<Column>)
    ensures forall c :: c in cs <==> Truthy(Get(body, c))
    ensures Increasing(cs)
  {
    var cs := Supplied(body, ColumnOrder);
    forall c ensures c in cs <==> Truthy(Get(body, c)) {
      SuppliedMembers(body, ColumnOrder, c);
      assert ColumnOrder[Rank(c)] == c;
    }
    SuppliedIncreasing(body, ColumnOrder);
    cs
  }

  function Fragments(cs: seq<Column>): (fs: seq<string>)
    ensures |fs| == |cs|
  {
    if cs == [] then [] else [Fragment(cs[0])] + Fragments(cs[1..])
  }

  function ValueOf(f: Field): string {
    match f
    case Some(v) => v
    case None => ""
  }

  /** The values the body supplies for the columns `cs`, as statement parameters. */
  function Values(body: Professor, cs: seq<Column>): (ps: seq<Param>)
    ensures |ps| == |cs|
  {
    if cs == [] then []
    else [Str(ValueOf(Get(body, cs[0])))] + Values(body, cs[1..])
  }

  lemma {:induction false} FragmentsAppend(a: seq<Column>, b: seq<Column>)
    ensures Fragments(a + b) == Fragments(a) + Fragments(b)
  {
    if a == [] {
      assert a + b == b;
    } else {
      assert (a + b)[1..] == a[1..] + b;
      FragmentsAppend(a[1..], b);
    }
  }

  lemma {:induction false} ValuesAppend(body: Professor, a: seq<Column>, b: seq<Column>)
    ensures Values(body, a + b) == Values(body, a) + Values(body, b)
  {
    if a == [] {
      assert a + b == b;
    } else {
      assert (a + b)[1..] == a[1..] + b;
      ValuesAppend(body, a[1..], b);
    }
  }

  lemma {:induction false} FragmentsAt(cs: seq<Column>, i: nat)
    requires i < |cs|
    ensures Fragments(cs)[i] == Fragment(cs[i])
  {
    if i > 0 {
      FragmentsAt(cs[1..], i - 1);
    }
  }

  /** The SQL text of the statement, built as `UPDATE professores SET ${updates.join(", ")} WHERE id = ?`. */
  function PatchSql(updates: seq<string>): (sql: string) {
    "UPDATE professores SET " + Join(updates, ", ") + " WHERE id = ?"
  }

  /** The statement is one the engine accepts and binds in full. */
  predicate WellFormedPatch(updates: seq<string>, params: seq<Param>) {
    && |updates| >= 1
    && |params| == |updates| + 1
    && (forall i :: 0 <= i < |updates| ==> ColumnOfFragment(updates[i]).Some? && params[i].Str?)
    && params[|updates|].Id?
  }

  /**
   * What the SET list of the statement does to the matched row: the i-th
   * fragment assigns the i-th parameter to its column.
   */
  function SetColumns(row: Professor, updates: seq<string>, params: seq<Param>): (r: Professor)
    decreases |updates|
  {
    if updates == [] || params == [] then row
    else
      var row' := match (ColumnOfFragment(updates[0]), params[0])
        case (Some(c), Str(v)) => Set(row, c, Some(v))
        case _ => row;
      SetColumns(row', updates[1..], params[1..])
  }

  /**
   * Builds the partial-update statement for `body` and `id`. `updates` names
   * exactly the truthy fields, in the order nome, disciplina, email,
   * telefone; `params` holds their values in the same order and the id last;
   * the SQL text has one placeholder per parameter.
   */
  method BuildProfessorPatch(body: Professor, id: nat) returns (updates: seq<string>, params: seq<Param>, sql: string)
    ensures updates == Fragments(SuppliedColumns(body))
    ensures params == Values(body, SuppliedColumns(body)) + [Id(id)]
    ensures |params| == |updates| + 1
    ensures forall c :: Fragment(c) in updates <==> Truthy(Get(body, c))
    ensures updates != [] <==> ProfessorAnySupplied(body)
    ensures sql == PatchSql(updates)
    ensures Count(sql, '?') == |params|
  {
    updates := [];
    params := [];

    if Truthy(body.nome) {
      updates := updates + [Fragment(Nome)];
      params := params + [Str(body.nome.value)];
    }
    assert updates == IfTruthy(body.nome, Fragment(Nome));
    assert params == IfTruthy(body.nome, Str(ValueOf(body.nome)));
    if Truthy(body.disciplina) {
      updates := updates + [Fragment(Disciplina)];
      params := params + [Str(body.disciplina.value)];
    }
    assert updates == IfTruthy(body.nome, Fragment(Nome)) + IfTruthy(body.disciplina, Fragment(Disciplina));
    assert params == IfTruthy(body.nome, Str(ValueOf(body.nome))) + IfTruthy(body.disciplina, Str(ValueOf(body.disciplina)));
    if Truthy(body.email) {
      updates := updates + [Fragment(Email)];
      params := params + [Str(body.email.value)];
    }
    assert updates == IfTruthy(body.nome, Fragment(Nome)) + IfTruthy(body.disciplina, Fragment(Disciplina))
      + IfTruthy(body.email, Fragment(Email));
    assert params == IfTruthy(body.nome, Str(ValueOf(body.nome))) + IfTruthy(body.disciplina, Str(ValueOf(body.disciplina)))
      + IfTruthy(body.email, Str(ValueOf(body.email)));
    if Truthy(body.telefone) {
      updates := updates + [Fragment(Telefone)];
      params := params + [Str(body.telefone.value)];
    }
    FragmentsUnfold(body);
    ValuesUnfold(body);
    assert updates == Fragments(SuppliedColumns(body));
    assert params == Values(body, SuppliedColumns(body));

    params := params + [Id(id)];

    sql := "UPDATE professores SET " + Join(updates, ", ") + " WHERE id = ?";

    SuppliedFragmentsExact(body);
    FragmentsRecognised(SuppliedColumns(body));
    PatchSqlPlaceholders(updates);
  }

  lemma {:induction false} FragmentOnlyIfSupplied(body: Professor, c: Column)
    requires Fragment(c) in Fragments(SuppliedColumns(body))
    ensures Truthy(Get(body, c))
  {
    var cs := SuppliedColumns(body);
    var updates := Fragments(cs);
    var i :| 0 <= i < |updates| && updates[i] == Fragment(c);
    FragmentsAt(cs, i);
    FragmentRecognised(c);
    FragmentRecognised(cs[i]);
  }

  lemma {:induction false} FragmentIfSupplied(body: Professor, c: Column)
    requires Truthy(Get(body, c))
    ensures Fragment(c) in Fragments(SuppliedColumns(body))
  {
    var cs := SuppliedColumns(body);
    var i :| 0 <= i < |cs| && cs[i] == c;
    FragmentsAt(cs, i);
  }

  /** The SET list names a column exactly when the body supplies it. */
  lemma SuppliedFragmentsExact(body: Professor)
    ensures forall c :: Fragment(c) in Fragments(SuppliedColumns(body)) <==> Truthy(Get(body, c))
    ensures Fragments(SuppliedColumns(body)) != [] <==> ProfessorAnySupplied(body)
  {
    forall c ensures Fragment(c) in Fragments(SuppliedColumns(body)) <==> Truthy(Get(body, c)) {
      if Truthy(Get(body, c)) {
        FragmentIfSupplied(body, c);
      } else if Fragment(c) in Fragments(SuppliedColumns(body)) {
        FragmentOnlyIfSupplied(body, c);
      }
    }
    if ProfessorAnySupplied(body) {
      var c :| Truthy(Get(body, c));
      FragmentIfSupplied(body, c);
    }
  }

  lemma FragmentsRecognised(cs: seq<Column>)
    ensures forall i :: 0 <= i < |Fragments(cs)| ==> ColumnOfFragment(Fragments(cs)[i]).Some?
  {
    forall i | 0 <= i < |Fragments(cs)| ensures ColumnOfFragment(Fragments(cs)[i]).Some? {
      FragmentsAt(cs, i);
      FragmentRecognised(cs[i]);
    }
  }

  function IfTruthy<T>(f: Field, x: T): seq<T> {
    if Truthy(f) then [x] else []
  }

  lemma SuppliedColumnsSplit(body: Professor)
    ensures SuppliedColumns(body) ==
      IfTruthy(body.nome, Nome) + IfTruthy(body.disciplina, Disciplina) +
      IfTruthy(body.email, Email) + IfTruthy(body.telefone, Telefone)
  {
    var a, b, c, d := IfTruthy(body.nome, Nome), IfTruthy(body.disciplina, Disciplina),
      IfTruthy(body.email, Email), IfTruthy(body.telefone, Telefone);
    var o1, o2, o3 := [Disciplina, Email, Telefone], [Email, Telefone], [Telefone];
    assert ColumnOrder[1..] == o1 && o1[1..] == o2 && o2[1..] == o3 && o3[1..] == [];
    assert Supplied(body, o3) == d + Supplied(body, []);
    assert Supplied(body, o2) == c + Supplied(body, o3);
    assert Supplied(body, o1) == b + Supplied(body, o2);
    assert Supplied(body, ColumnOrder) == a + Supplied(body, o1);
    assert a + (b + (c + d)) == a + b + c + d;
  }

  /** The fragments the builder pushes, one `if` at a time. */
  lemma FragmentsUnfold(body: Professor)
    ensures Fragments(SuppliedColumns(body)) ==
      IfTruthy(body.nome, Fragment(Nome)) + IfTruthy(body.disciplina, Fragment(Disciplina)) +
      IfTruthy(body.email, Fragment(Email)) + IfTruthy(body.telefone, Fragment(Telefone))
  {
    var a, b, c, d := IfTruthy(body.nome, Nome), IfTruthy(body.disciplina, Disciplina),
      IfTruthy(body.email, Email), IfTruthy(body.telefone, Telefone);
    SuppliedColumnsSplit(body);
    FragmentsAppend(a + b + c, d);
    FragmentsAppend(a + b, c);
    FragmentsAppend(a, b);
  }

  lemma ValuesOfIfTruthy(body: Professor, c: Column)
    ensures Values(body, IfTruthy(Get(body, c), c)) == IfTruthy(Get(body, c), Str(ValueOf(Get(body, c))))
  {
    if Truthy(Get(body, c)) {
      assert [c][1..] == [];
    }
  }

  /** The values the builder pushes, one `if` at a time. */
  lemma ValuesUnfold(body: Professor)
    ensures Values(body, SuppliedColumns(body)) ==
      IfTruthy(body.nome, Str(ValueOf(body.nome))) + IfTruthy(body.disciplina, Str(ValueOf(body.disciplina))) +
      IfTruthy(body.email, Str(ValueOf(body.email))) + IfTruthy(body.telefone, Str(ValueOf(body.telefone)))
  {
    var a, b, c, d := IfTruthy(body.nome, Nome), IfTruthy(body.disciplina, Disciplina),
      IfTruthy(body.email, Email), IfTruthy(body.telefone, Telefone);
    SuppliedColumnsSplit(body);
    ValuesOfIfTruthy(body, Nome);
    ValuesOfIfTruthy(body, Disciplina);
    ValuesOfIfTruthy(body, Email);
    ValuesOfIfTruthy(body, Telefone);
    ValuesAppend(body, a + b + c, d);
    ValuesAppend(body, a + b, c);
    ValuesAppend(body, a, b);
  }

  lemma SqlHeadHasNoPlaceholder()
    ensures Count("UPDATE professores SET ", '?') == 0
  {
    CountAbsent("UPDATE professores SET ", '?');
  }

  lemma SqlTailHasOnePlaceholder()
    ensures Count(" WHERE id = ?", '?') == 1
  {
    assert " WHERE id = ?" == " WHERE id = " + "?";
    CountAbsent(" WHERE id = ", '?');
    CountConcat(" WHERE id = ", "?", '?');
    assert "?"[1..] == [];
  }

  lemma JoinedFragmentsPlaceholders(updates: seq<string>)
    requires forall i :: 0 <= i < |updates| ==> ColumnOfFragment(updates[i]).Some?
    ensures Count(Join(updates, ", "), '?') == |updates|
  {
    forall i | 0 <= i < |updates| ensures Count(updates[i], '?') == 1 {
      FragmentHasOnePlaceholder(ColumnOfFragment(updates[i]).value);
    }
    CountAbsent(", ", '?');
    CountJoin(updates, ", ", '?');
  }

  /** The statement text has one placeholder per fragment plus the one of `WHERE id = ?`. */
  lemma PatchSqlPlaceholders(updates: seq<string>)
    requires forall i :: 0 <= i < |updates| ==> ColumnOfFragment(updates[i]).Some?
    ensures Count(PatchSql(updates), '?') == |updates| + 1
  {
    var head, joined, tail := "UPDATE professores SET ", Join(updates, ", "), " WHERE id = ?";
    SqlHeadHasNoPlaceholder();
    SqlTailHasOnePlaceholder();
    JoinedFragmentsPlaceholders(updates);
    CountConcat(head, joined, '?');
    CountConcat(head + joined, tail, '?');
  }

  /**
   * The statement built for a body is well formed exactly when the body
   * supplies a field: with none, the SET list would be empty and the
   * statement `UPDATE professores SET  WHERE id = ?` would be rejected.
   */
  lemma BuiltPatchWellFormedIff(body: Professor, id: nat)
    ensures WellFormedPatch(Fragments(SuppliedColumns(body)), Values(body, SuppliedColumns(body)) + [Id(id)])
        <==> ProfessorAnySupplied(body)
  {
    var cs := SuppliedColumns(body);
    var updates := Fragments(cs);
    var params := Values(body, cs) + [Id(id)];
    FragmentsUnfold(body);
    ValuesUnfold(body);
    if ProfessorAnySupplied(body) {
      forall i | 0 <= i < |updates| ensures ColumnOfFragment(updates[i]).Some? && params[i].Str? {
        FragmentsAt(cs, i);
        FragmentRecognised(cs[i]);
        ValuesAt(body, cs, i);
      }
    }
  }

  lemma {:induction false} ValuesAt(body: Professor, cs: seq<Column>, i: nat)
    requires i < |cs|
    ensures Values(body, cs)[i].Str?
    ensures Truthy(Get(body, cs[i])) ==> Values(body, cs)[i] == Str(Get(body, cs[i]).value)
  {
    if i > 0 {
      ValuesAt(body, cs[1..], i - 1);
    }
  }

  /** Running a SET list whose first fragment assigns `c` the value `v`. */
  lemma SetColumnsStep(row: Professor, c: Column, v: string, updates: seq<string>, params: seq<Param>)
    requires |updates| >= 1 && updates[0] == Fragment(c)
    requires |params| >= 1 && params[0] == Str(v)
    ensures SetColumns(row, updates, params) == SetColumns(Set(row, c, Some(v)), updates[1..], params[1..])
  {
    FragmentRecognised(c);
  }

  /** Assigning, column by column along `order`, every truthy field of the body. */
  function PatchAlong(row: Professor, body: Professor, order: seq<Column>): (r: Professor)
    decreases order
  {
    if order == [] then row
    else
      var c := order[0];
      PatchAlong(if Truthy(Get(body, c)) then Set(row, c, Get(body, c)) else row, body, order[1..])
  }

  lemma {:induction false} PatchAlongColumns(row: Professor, body: Professor, order: seq<Column>, c: Column)
    ensures Get(PatchAlong(row, body, order), c) ==
      (if c in order && Truthy(Get(body, c)) then Get(body, c) else Get(row, c))
    decreases order
  {
    if order != [] {
      var d := order[0];
      var row' := if Truthy(Get(body, d)) then Set(row, d, Get(body, d)) else row;
      PatchAlongColumns(row', body, order[1..], c);
      assert c in order <==> c == d || c in order[1..];
    }
  }

  /**
   * Running the fragments and values for the supplied columns of `order`
   * does what assigning those columns one by one does.
   */
  lemma {:induction false} SetSuppliedAlong(row: Professor, body: Professor, order: seq<Column>, rest: seq<Param>)
    decreases order
    ensures SetColumns(row, Fragments(Supplied(body, order)), Values(body, Supplied(body, order)) + rest)
         == PatchAlong(row, body, order)
  {
    if order != [] {
      var c := order[0];
      var tail := Supplied(body, order[1..]);
      if Truthy(Get(body, c)) {
        var v := Get(body, c).value;
        var row' := Set(row, c, Some(v));
        assert Supplied(body, order) == [c] + tail;
        assert ([c] + tail)[1..] == tail;
        var updates := Fragments([c] + tail);
        var params := Values(body, [c] + tail) + rest;
        assert updates[0] == Fragment(c) && updates[1..] == Fragments(tail);
        assert params[0] == Str(v) && params[1..] == Values(body, tail) + rest;
        SetColumnsStep(row, c, v, updates, params);
        SetSuppliedAlong(row', body, order[1..], rest);
      } else {
        assert Supplied(body, order) == tail;
        SetSuppliedAlong(row, body, order[1..], rest);
      }
    }
  }

  /**
   * The statement the builder produces changes, in the matched row, exactly
   * the columns the body supplies truthy, to the supplied values.
   */
  lemma PatchStatementEffect(row: Professor, body: Professor, id: nat)
    ensures SetColumns(row, Fragments(SuppliedColumns(body)), Values(body, SuppliedColumns(body)) + [Id(id)])
         == PatchRow(row, body)
  {
    SetSuppliedAlong(row, body, ColumnOrder, [Id(id)]);
    var r := PatchAlong(row, body, ColumnOrder);
    forall c ensures Get(r, c) == Get(PatchRow(row, body), c) {
      PatchAlongColumns(row, body, ColumnOrder, c);
      assert c in ColumnOrder by { assert ColumnOrder[Rank(c)] == c; }
    }
    ProfessorExtensional(r, PatchRow(row, body));
  }

  /**
   * Runs the built statement against `professores`: the SET list applies to
   * the row whose id is the last parameter.
   */
  function RunPatch(t: Table<Professor>, updates: seq<string>, params: seq<Param>): (e: Changed<Professor>)
    requires WellFormedPatch(updates, params)
  {
    UpdateWhereId(t, params[|updates|].id, row => SetColumns(row, updates, params))
  }
}
