/**
 * The effect of the fixed SQL statements of the API on one table declared
 * `id INTEGER PRIMARY KEY AUTOINCREMENT`. A table is its rows keyed by id
 * together with the largest id AUTOINCREMENT has handed out so far.
 */
module Sql {
  import opened Wrappers

  datatype Table<R> = Table(rows: map<nat, R>, lastSeq: nat) {
    /** Every id in use lies between 1 and the largest id ever handed out. */
    ghost predicate Valid() {
      forall id :: id in rows ==> 1 <= id <= lastSeq
    }
  }

  /** The table after an INSERT and the statement's `this.lastID`. */
  datatype Inserted<R> = Inserted(table: Table<R>, lastId: nat)

  /** The table after an UPDATE or DELETE and the statement's `this.changes`. */
  datatype Changed<R> = Changed(table: Table<R>, changes: nat)

  /** `SELECT * FROM t`: every row, in no particular order. */
  function SelectAll<R>(t: Table<R>): (rows: map<nat, R>) {
    t.rows
  }

  /** `SELECT * FROM t WHERE id = ?`: the matching row, if there is one. */
  function SelectById<R>(t: Table<R>, id: nat): (r: Option<R>) {
    if id in t.rows then Some(t.rows[id]) else None
  }

  /**
   * `INSERT INTO t (...) VALUES (...)`: the row is stored under an id no row
   * has had before: AUTOINCREMENT hands out one more than the largest id it
   * ever handed out, so an id is never reused.
   */
  function Insert<R>(t: Table<R>, row: R): (r: Inserted<R>)
    requires t.Valid()
    ensures r.table.Valid()
    ensures r.lastId !in t.rows && r.lastId == t.lastSeq + 1
    ensures r.table.lastSeq == r.lastId
    ensures r.table.rows == t.rows[r.lastId := row]
  {
    var id := t.lastSeq + 1;
    Inserted(Table(t.rows[id := row], id), id)
  }

  /**
   * `UPDATE t SET ... WHERE id = ?`, where `assign` is what the SET list does
   * to the matched row: only the row with that id changes, and `changes` is
   * 1 exactly when there is one.
   */
  function UpdateWhereId<R>(t: Table<R>, id: nat, assign: R -> R): (e: Changed<R>)
    ensures e.changes == 0 <==> id !in t.rows
    ensures e.changes <= 1
    ensures id !in t.rows ==> e.table == t
    ensures e.table.lastSeq == t.lastSeq && e.table.rows.Keys == t.rows.Keys
    ensures id in t.rows ==> e.table.rows[id] == assign(t.rows[id])
    ensures forall k :: k in t.rows && k != id ==> e.table.rows[k] == t.rows[k]
    ensures t.Valid() ==> e.table.Valid()
  {
    if id in t.rows then Changed(t.(rows := t.rows[id := assign(t.rows[id])]), 1)
    else Changed(t, 0)
  }

  /**
   * `DELETE FROM t WHERE id = ?`: exactly the row with that id goes, every
   * other row stays as it was, and `changes` is 1 exactly when there was one.
   */
  function DeleteWhereId<R>(t: Table<R>, id: nat): (e: Changed<R>)
    ensures e.changes == 0 <==> id !in t.rows
    ensures e.changes <= 1
    ensures id !in t.rows ==> e.table == t
    ensures e.table.lastSeq == t.lastSeq && e.table.rows.Keys == t.rows.Keys - {id}
    ensures forall k :: k in e.table.rows ==> e.table.rows[k] == t.rows[k]
    ensures t.Valid() ==> e.table.Valid()
  {
    if id in t.rows then Changed(t.(rows := t.rows - {id}), 1)
    else Changed(t, 0)
  }

  /** A deleted id is never handed out again: a later insert uses a different id. */
  lemma DeletedIdNotReused<R>(t: Table<R>, id: nat, row: R)
    requires t.Valid() && id in t.rows
    ensures Insert(DeleteWhereId(t, id).table, row).lastId != id
  {
  }
}
