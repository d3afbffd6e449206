/**
 * The relational store behind the controllers, reduced to what the handlers rely on:
 * tables of rows, primary keys, declared foreign keys enforced on every write, the
 * four kinds of statement the handlers issue, and a pool that hands out one connection
 * with a transaction on it. Vendor error codes become the `Outcome` variants:
 * `RowIsReferenced` is MySQL's ER_ROW_IS_REFERENCED_2, `Failed` is every other error.
 */
module Store {
  import opened Js

  datatype Table =
    | Alumnos
    | AlumnoDiscapacidad
    | AlumnoNecesidadEducativa
    | AtencionEspecialista
    | Personal
    | Instituciones
    | Grupos
    | CatalogoGrado
    | CatalogoGenero
    | CatalogoTipoInstitucion

  function PrimaryKey(t: Table): string {
    match t
    case Alumnos => "id_alumno"
    case Personal => "id_personal"
    case Instituciones => "id_institucion"
    case Grupos => "id_grupo"
    case CatalogoGrado => "id_grado"
    case CatalogoGenero => "id_genero"
    case CatalogoTipoInstitucion => "id_tipo"
    case AlumnoDiscapacidad => "id"
    case AlumnoNecesidadEducativa => "id"
    case AtencionEspecialista => "id"
  }

  /** The contents of the store: the rows of each table, in storage order. */
  type Db = map<Table, seq<Record>>

  function Rows(db: Db, t: Table): seq<Record> {
    if t in db then db[t] else []
  }

  /**
   * The integer an equality test against an integer column sees: numbers, booleans
   * and numerals compare by value; NULL and anything else match no integer.
   */
  function KeyOf(v: Value): Option<int> {
    match v
    case Num(n) => Some(n)
    case Bool(b) => Some(if b then 1 else 0)
    case Str(s) => if s != "" && AllDigits(s) then Some(DigitsValue(s)) else None
    case _ => None
  }

  /** `WHERE column = id` holds of row `r`. */
  predicate Matches(r: Record, column: string, id: int) {
    KeyOf(Get(r, column)) == Some(id)
  }

  /** `child.column` references the primary key of `parent`. */
  datatype ForeignKey = ForeignKey(child: Table, column: string, parent: Table)

  /**
   * The constraints this model assumes the database declares: each dependent table
   * of a student references it, and a student's and a group's catalogue, institution,
   * group and teacher columns reference their tables.
   */
  const Schema: seq<ForeignKey> := [
    ForeignKey(AlumnoDiscapacidad, "id_alumno", Alumnos),
    ForeignKey(AlumnoNecesidadEducativa, "id_alumno", Alumnos),
    ForeignKey(AtencionEspecialista, "id_alumno", Alumnos),
    ForeignKey(Alumnos, "id_institucion", Instituciones),
    ForeignKey(Alumnos, "id_genero", CatalogoGenero),
    ForeignKey(Alumnos, "id_grado", CatalogoGrado),
    ForeignKey(Alumnos, "id_grupo", Grupos),
    ForeignKey(Alumnos, "id_maestro", Personal),
    ForeignKey(Grupos, "id_grado", CatalogoGrado),
    ForeignKey(Grupos, "id_maestro", Personal),
    ForeignKey(Instituciones, "id_tipo", CatalogoTipoInstitucion)
  ]

  /** Which constraints of the standard schema point at each parent table. */
  lemma SchemaParents()
    ensures forall j :: 0 <= j < |Schema| ==>
      (Schema[j].parent == Alumnos <==> j <= 2) &&
      (Schema[j].parent == Instituciones <==> j == 3) &&
      (Schema[j].parent == Grupos <==> j == 6) &&
      (Schema[j].parent == Personal <==> j == 7 || j == 9)
  {
  }

  /** Some row of `fk.child` points at key `k` of `fk.parent`. */
  predicate PointsAt(db: Db, fk: ForeignKey, k: int) {
    exists c :: c in Rows(db, fk.child) && Matches(c, fk.column, k)
  }

  /** Some declared constraint has a row pointing at key `k` of table `t`. */
  predicate Referenced(db: Db, schema: seq<ForeignKey>, t: Table, k: int) {
    exists i :: 0 <= i < |schema| && schema[i].parent == t && PointsAt(db, schema[i], k)
  }

  /** Row `r` of `t` cannot go: its key is still referenced. */
  predicate Pinned(db: Db, schema: seq<ForeignKey>, t: Table, r: Record) {
    match KeyOf(Get(r, PrimaryKey(t)))
    case Some(k) => Referenced(db, schema, t, k)
    case None => false
  }

  /** `DELETE FROM t WHERE column = id` would remove a pinned row. */
  predicate DeleteBlocked(db: Db, schema: seq<ForeignKey>, t: Table, column: string, id: int) {
    exists r :: r in Rows(db, t) && Matches(r, column, id) && Pinned(db, schema, t, r)
  }

  /** A value written to `fk.column` is NULL or the key of an existing parent row. */
  predicate ValueAllowed(db: Db, fk: ForeignKey, v: Value) {
    Nullish(v) ||
    (KeyOf(v).Some? &&
     exists p :: p in Rows(db, fk.parent) && Matches(p, PrimaryKey(fk.parent), KeyOf(v).value))
  }

  /** Every constrained column that `assignments` sets in table `t` gets an allowed value. */
  predicate AssignmentsAllowed(db: Db, schema: seq<ForeignKey>, t: Table, assignments: Record) {
    forall i :: 0 <= i < |schema| && schema[i].child == t && schema[i].column in assignments ==>
      ValueAllowed(db, schema[i], assignments[schema[i].column])
  }

  function CountMatching(rows: seq<Record>, column: string, id: int): (n: nat)
    ensures n <= |rows|
  {
    if rows == [] then 0
    else (if Matches(rows[0], column, id) then 1 else 0) + CountMatching(rows[1..], column, id)
  }

  /** The rows that `DELETE ... WHERE column = id` keeps, in order. */
  function Without(rows: seq<Record>, column: string, id: int): seq<Record> {
    if rows == [] then []
    else (if Matches(rows[0], column, id) then [] else [rows[0]]) + Without(rows[1..], column, id)
  }

  /** `UPDATE ... SET assignments WHERE column = id` on `rows`. */
  function Assigned(rows: seq<Record>, assignments: Record, column: string, id: int): (r: seq<Record>)
    ensures |r| == |rows|
  {
    if rows == [] then []
    else [if Matches(rows[0], column, id) then rows[0] + assignments else rows[0]]
         + Assigned(rows[1..], assignments, column, id)
  }

  /** The rows that `SELECT ... WHERE column = id` returns, in order. */
  function Selected(rows: seq<Record>, column: string, id: int): seq<Record> {
    if rows == [] then []
    else (if Matches(rows[0], column, id) then [rows[0]] else []) + Selected(rows[1..], column, id)
  }

  /** WHERE returns exactly the matching rows and DELETE keeps exactly the others. */
  lemma {:induction false} WhereMembers(rows: seq<Record>, column: string, id: int)
    ensures forall r :: r in Selected(rows, column, id) <==> r in rows && Matches(r, column, id)
    ensures forall r :: r in Without(rows, column, id) <==> r in rows && !Matches(r, column, id)
  {
    if rows != [] {
      WhereMembers(rows[1..], column, id);
      assert rows == [rows[0]] + rows[1..];
    }
  }

  /** WHERE and DELETE split the rows between them, each row going to one side. */
  lemma {:induction false} WhereSplits(rows: seq<Record>, column: string, id: int)
    ensures multiset(Selected(rows, column, id)) + multiset(Without(rows, column, id)) == multiset(rows)
    ensures |Selected(rows, column, id)| == CountMatching(rows, column, id)
  {
    if rows != [] {
      WhereSplits(rows[1..], column, id);
      assert rows == [rows[0]] + rows[1..];
    }
  }

  /** A delete that matches nothing keeps every row. */
  lemma {:induction false} WithoutNothing(rows: seq<Record>, column: string, id: int)
    requires forall r :: r in rows ==> !Matches(r, column, id)
    ensures Without(rows, column, id) == rows
    ensures CountMatching(rows, column, id) == 0
  {
    if rows != [] {
      WithoutNothing(rows[1..], column, id);
      assert rows == [rows[0]] + rows[1..];
    }
  }

  /** An UPDATE rewrites exactly the matching rows, each by the assignments, and keeps the rest in place. */
  lemma {:induction false} AssignedRows(rows: seq<Record>, assignments: Record, column: string, id: int)
    ensures var r := Assigned(rows, assignments, column, id);
      forall i :: 0 <= i < |rows| ==>
        r[i] == if Matches(rows[i], column, id) then rows[i] + assignments else rows[i]
  {
    if rows != [] {
      AssignedRows(rows[1..], assignments, column, id);
    }
  }

  /** After `SET column = NULL WHERE column = id` no row matches `column = id` any more. */
  lemma SetNullClears(rows: seq<Record>, column: string, id: int)
    ensures forall r :: r in Assigned(rows, map[column := Null], column, id) ==> !Matches(r, column, id)
  {
    var after := Assigned(rows, map[column := Null], column, id);
    AssignedRows(rows, map[column := Null], column, id);
    forall r | r in after
      ensures !Matches(r, column, id)
    {
      var i :| 0 <= i < |after| && after[i] == r;
      assert Matches(rows[i], column, id) ==> Get(r, column) == Null;
    }
  }

  predicate KeyInUse(rows: seq<Record>, key: string, id: int) {
    exists r :: r in rows && Matches(r, key, id)
  }

  datatype Statement =
    | Delete(table: Table, column: string, id: int)                     // DELETE FROM t WHERE column = id
    | SetNull(table: Table, column: string, id: int)                    // UPDATE t SET column = NULL WHERE column = id
    | Update(table: Table, assignments: Record, column: string, id: int) // UPDATE t SET ? WHERE column = id
    | Insert(table: Table, row: Record, autoId: int)                    // INSERT INTO t SET ?

  datatype Outcome =
    | Done(affected: nat, insertId: int)
    | RowIsReferenced
    | Failed

  datatype Executed = Executed(outcome: Outcome, db: Db)

  /** The key an INSERT gives its row: the one it names, else the auto-increment value. */
  function InsertKey(t: Table, row: Record, autoId: int): int {
    match KeyOf(Get(row, PrimaryKey(t)))
    case Some(k) => k
    case None => autoId
  }

  /** `DELETE FROM t WHERE column = id`: refused when a row it would remove is still referenced. */
  function DeleteRows(db: Db, schema: seq<ForeignKey>, t: Table, column: string, id: int): Executed {
    if DeleteBlocked(db, schema, t, column, id) then Executed(RowIsReferenced, db)
    else Executed(Done(CountMatching(Rows(db, t), column, id), 0), db[t := Without(Rows(db, t), column, id)])
  }

  /** `UPDATE t SET assignments WHERE column = id`: an empty `SET` list is a syntax error. */
  function UpdateRows(db: Db, schema: seq<ForeignKey>, t: Table, assignments: Record, column: string, id: int): Executed {
    var n := CountMatching(Rows(db, t), column, id);
    if assignments == map[] || (n > 0 && !AssignmentsAllowed(db, schema, t, assignments)) then Executed(Failed, db)
    else Executed(Done(n, 0), db[t := Assigned(Rows(db, t), assignments, column, id)])
  }

  /** `INSERT INTO t SET row`: fails on an empty row, a value with no parent row, or a key in use. */
  function InsertRow(db: Db, schema: seq<ForeignKey>, t: Table, row: Record, autoId: int): Executed {
    var k := InsertKey(t, row, autoId);
    if row == map[] || !AssignmentsAllowed(db, schema, t, row) || KeyInUse(Rows(db, t), PrimaryKey(t), k)
    then Executed(Failed, db)
    else Executed(Done(1, k), db[t := Rows(db, t) + [row[PrimaryKey(t) := Num(k)]]])
  }

  /**
   * One statement against the store. A statement either completes or leaves every
   * table as it was. Setting a column to NULL needs no parent row and always completes.
   */
  function Execute(db: Db, schema: seq<ForeignKey>, s: Statement): Executed {
    match s
    case Delete(t, column, id) => DeleteRows(db, schema, t, column, id)
    case SetNull(t, column, id) =>
      Executed(Done(CountMatching(Rows(db, t), column, id), 0),
               db[t := Assigned(Rows(db, t), map[column := Null], column, id)])
    case Update(t, assignments, column, id) => UpdateRows(db, schema, t, assignments, column, id)
    case Insert(t, row, autoId) => InsertRow(db, schema, t, row, autoId)
  }

  /** The two stores hold the same rows in every table. */
  predicate SameRows(a: Db, b: Db) {
    forall t :: Rows(a, t) == Rows(b, t)
  }

  /**
   * The statements of a transaction run in order from awaited call number `step`:
   * `None` when one of them throws (a fault or any outcome but `Done`), otherwise
   * the store they leave.
   */
  function RunAll(db: Db, schema: seq<ForeignKey>, statements: seq<Statement>, faults: set<nat>, step: nat): Option<Db>
    decreases statements
  {
    if statements == [] then Some(db)
    else if step in faults then None
    else
      var e := Execute(db, schema, statements[0]);
      if e.outcome.Done? then RunAll(e.db, schema, statements[1..], faults, step + 1) else None
  }

  /** The first statement of a transaction either completes and the rest run after it, or the transaction stops. */
  lemma RunAllStep(db: Db, schema: seq<ForeignKey>, statements: seq<Statement>, faults: set<nat>, step: nat)
    requires statements != []
    ensures RunAll(db, schema, statements, faults, step) ==
      if step in faults || !Execute(db, schema, statements[0]).outcome.Done? then None
      else RunAll(Execute(db, schema, statements[0]).db, schema, statements[1..], faults, step + 1)
  {
  }

  /** One `pool.query` outside a transaction; `fault` is a failure of the store itself. */
  function Run(db: Db, schema: seq<ForeignKey>, s: Statement, fault: bool): Executed {
    if fault then Executed(Failed, db) else Execute(db, schema, s)
  }

  /** `DELETE FROM t WHERE column = id` for each table `t` of `tables`, in order. */
  function DeleteFromEach(tables: seq<Table>, column: string, id: int): (ss: seq<Statement>)
    ensures |ss| == |tables|
  {
    seq(|tables|, i requires 0 <= i < |tables| => Delete(tables[i], column, id))
  }

  /**
   * When a chain of deletes on distinct tables all complete, each of those tables
   * keeps exactly its rows that do not match, and every other table is unchanged.
   */
  lemma {:induction false} DeletesCommit(db: Db, schema: seq<ForeignKey>, tables: seq<Table>, column: string, id: int,
                                         faults: set<nat>, step: nat)
    requires forall i, j :: 0 <= i < j < |tables| ==> tables[i] != tables[j]
    requires RunAll(db, schema, DeleteFromEach(tables, column, id), faults, step).Some?
    ensures var after := RunAll(db, schema, DeleteFromEach(tables, column, id), faults, step).value;
      forall t :: Rows(after, t) == if t in tables then Without(Rows(db, t), column, id) else Rows(db, t)
    decreases |tables|
  {
    if tables != [] {
      var ss := DeleteFromEach(tables, column, id);
      var e := Execute(db, schema, ss[0]);
      assert ss[1..] == DeleteFromEach(tables[1..], column, id);
      DeletesCommit(e.db, schema, tables[1..], column, id, faults, step + 1);
      assert tables == [tables[0]] + tables[1..];
    }
  }

  /** Whether the pool's one connection is checked out, and the snapshot its open transaction would restore. */
  datatype Connection = Free | Held(tx: Option<Db>)

  /**
   * The connection pool. `pool.query` runs one statement on its own; a handler that
   * needs a transaction checks out the connection, begins, queries, then commits or
   * rolls back, and releases it.
   */
  class Pool {
    var db: Db
    const schema: seq<ForeignKey>
    var conn: Connection

    constructor (contents: Db, constraints: seq<ForeignKey>)
      ensures db == contents && schema == constraints && conn == Free
    {
      db := contents;
      schema := constraints;
      conn := Free;
    }

    /** `pool.getConnection()`; `fault` is the store being unreachable. */
    method GetConnection(fault: bool) returns (ok: bool)
      requires conn == Free
      modifies this`conn
      ensures ok == !fault
      ensures conn == if ok then Held(None) else Free
    {
      ok := !fault;
      if ok {
        conn := Held(None);
      }
    }

    /** `conn.beginTransaction()` */
    method BeginTransaction(fault: bool) returns (ok: bool)
      requires conn == Held(None)
      modifies this`conn
      ensures ok == !fault
      ensures conn == if ok then Held(Some(db)) else Held(None)
    {
      ok := !fault;
      if ok {
        conn := Held(Some(db));
      }
    }

    /** `conn.query(...)` or `pool.query(...)`; `fault` is a failure of the store itself. */
    method Query(s: Statement, fault: bool) returns (o: Outcome)
      modifies this`db
      ensures o == if fault then Failed else Execute(old(db), schema, s).outcome
      ensures db == if fault then old(db) else Execute(old(db), schema, s).db
    {
      if fault {
        o := Failed;
      } else {
        var e := Execute(db, schema, s);
        o, db := e.outcome, e.db;
      }
    }

    /** `conn.commit()`: on success the statements since the snapshot stay. */
    method Commit(fault: bool) returns (ok: bool)
      requires conn.Held? && conn.tx.Some?
      modifies this`conn
      ensures ok == !fault
      ensures conn == if ok then Held(None) else old(conn)
    {
      ok := !fault;
      if ok {
        conn := Held(None);
      }
    }

    /**
     * `conn.rollback()`: the tables return to the snapshot taken at `beginTransaction`;
     * with no transaction open it changes nothing.
     */
    method Rollback()
      requires conn.Held?
      modifies this
      ensures db == if old(conn.tx).Some? then old(conn.tx.value) else old(db)
      ensures conn == Held(None)
    {
      if conn.tx.Some? {
        db := conn.tx.value;
      }
      conn := Held(None);
    }

    /** `conn.release()` */
    method Release()
      requires conn.Held?
      modifies this`conn
      ensures conn == Free
    {
      conn := Free;
    }
  }
}
