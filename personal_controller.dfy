/**
 * The staff endpoints: the list with each member's institution name, the detail
 * read, the list of active teachers, create and update, and the delete that first
 * detaches the member from the students they teach, in one transaction.
 */
module PersonalController {
  import opened Js
  import opened Store
  import opened Http
  import opened Sql
  import opened Ordering

  // ---------------------------------------------------------------- reads

  /** The staff member's own columns the list and the detail select. */
  const StaffFields: seq<string> := [
    "id_personal", "nombre_completo", "rfc", "curp", "puesto", "especialidad",
    "telefono", "email", "fecha_ingreso", "activo"
  ]

  const InstitutionJoin: Join := Join(Instituciones, "i", "p", "id_institucion")

  /** `IFNULL(i.nombre, p.id_institucion)`: the institution's name, else the key as text. */
  const InstitutionLabel: Expr := IfNull(Col("i", "nombre"), Col("p", "id_institucion"))

  function Own(names: seq<string>): Projection {
    map name | name in names :: Col("p", name)
  }

  const ListColumns: Projection := Own(StaffFields)["institucion" := InstitutionLabel]

  /** The rows of `getAllPersonal`; there is no `ORDER BY`, so storage order. */
  function Listing(db: Db): seq<Record> {
    ProjectAll(Joins(db, Tuples(Rows(db, Personal), "p"), [InstitutionJoin]), ListColumns)
  }

  /** `GET /personal` */
  function GetAllPersonal(db: Db, fault: bool): Reply {
    if fault then Message(500, "Error obteniendo personal")
    else Answer(200, RowsValue(Listing(db)))
  }

  /**
   * The label a member's row shows: when an institution carries the member's
   * `id_institucion`, its name (or the key's text if that name is NULL); when none
   * does, the key's text (NULL when the member has no key). The name column is
   * text, so the numeric key comes back as a string, never as a number.
   */
  predicate LabelFor(db: Db, p: Record, shown: Value) {
    var key := Cell(p, "id_institucion");
    var keyText := if key.Null? then Null else Str(ToString(key));
    (forall inst :: inst in Rows(db, Instituciones) && Refers(key, inst, "id_institucion") ==>
      shown == if Cell(inst, "nombre").Null? then keyText else Cell(inst, "nombre")) &&
    ((forall inst :: inst in Rows(db, Instituciones) ==> !Refers(key, inst, "id_institucion")) ==>
      shown == keyText)
  }

  /** The label of one joined row, for either read. */
  lemma LabelRead(db: Db, p: Record)
    requires KeysUnique(db)
    ensures LabelFor(db, p, Eval(map["p" := p, "i" := Lookup(db, Instituciones, Cell(p, "id_institucion"))], InstitutionLabel))
  {
    var key := Cell(p, "id_institucion");
    forall inst | inst in Rows(db, Instituciones) && Refers(key, inst, "id_institucion")
      ensures Lookup(db, Instituciones, key) == inst
    {
      LookupFinds(db, Instituciones, key, inst);
    }
    if forall inst :: inst in Rows(db, Instituciones) ==> !Refers(key, inst, "id_institucion") {
      LookupMisses(db, Instituciones, key);
    }
  }

  /** The joined row of one member: the member and the institution its key finds. */
  function WithInstitution(db: Db, p: Record): Tuple {
    map["p" := p, "i" := Lookup(db, Instituciones, Cell(p, "id_institucion"))]
  }

  /** Under unique keys the join keeps one row per member, in storage order. */
  lemma JoinedRows(db: Db, rows: seq<Record>)
    requires KeysUnique(db)
    ensures var joined := Joins(db, Tuples(rows, "p"), [InstitutionJoin]);
      |joined| == |rows| && forall i :: 0 <= i < |rows| ==> joined[i] == WithInstitution(db, rows[i])
  {
    var ts := Tuples(rows, "p");
    JoinAllUnique(db, ts, InstitutionJoin);
    assert Joins(db, ts, [InstitutionJoin]) == JoinAll(db, ts, InstitutionJoin);
    forall i | 0 <= i < |rows|
      ensures JoinAll(db, ts, InstitutionJoin)[i] == WithInstitution(db, rows[i])
    {
      assert ts[i] == map["p" := rows[i]];
    }
  }

  /** The key and the label in a projected row of one member. */
  lemma LabelledRow(db: Db, p: Record, columns: Projection, labelName: string)
    requires KeysUnique(db)
    requires "id_personal" in columns && columns["id_personal"] == Col("p", "id_personal")
    requires labelName in columns && columns[labelName] == InstitutionLabel
    ensures Get(Project(WithInstitution(db, p), columns), "id_personal") == Cell(p, "id_personal")
    ensures LabelFor(db, p, Get(Project(WithInstitution(db, p), columns), labelName))
  {
    ProjectColumn(WithInstitution(db, p), columns, "id_personal", "p", "id_personal");
    ProjectField(WithInstitution(db, p), columns, labelName);
    LabelRead(db, p);
  }

  lemma ListColumnsRead()
    ensures "id_personal" in ListColumns && ListColumns["id_personal"] == Col("p", "id_personal")
    ensures "institucion" in ListColumns && ListColumns["institucion"] == InstitutionLabel
  {
    assert "id_personal" in StaffFields;
  }

  /**
   * One row per staff member, in storage order: row `i` carries member `i`'s key and
   * the label `IFNULL` gives, with no member lost to an unmatched join.
   */
  lemma AllPersonalLabels(db: Db, i: int)
    requires KeysUnique(db)
    requires 0 <= i < |Rows(db, Personal)|
    ensures |Listing(db)| == |Rows(db, Personal)|
    ensures Get(Listing(db)[i], "id_personal") == Cell(Rows(db, Personal)[i], "id_personal")
    ensures LabelFor(db, Rows(db, Personal)[i], Get(Listing(db)[i], "institucion"))
  {
    var staff := Rows(db, Personal);
    JoinedRows(db, staff);
    ListColumnsRead();
    assert Listing(db)[i] == Project(WithInstitution(db, staff[i]), ListColumns);
    LabelledRow(db, staff[i], ListColumns, "institucion");
  }

  const DetailColumns: Projection := Own(StaffFields + ["id_institucion"])["institucion_label" := InstitutionLabel]

  function DetailRows(db: Db, id: int): seq<Record> {
    ProjectAll(Joins(db, Tuples(Selected(Rows(db, Personal), "id_personal", id), "p"), [InstitutionJoin]), DetailColumns)
  }

  const NotFound: string := "Registro no encontrado"

  /** `GET /personal/:id` */
  function GetPersonalById(db: Db, id: int, fault: bool): Reply {
    if fault then Message(500, "Error obteniendo registro")
    else
      var rows := DetailRows(db, id);
      if |rows| == 0 then Message(404, NotFound) else Answer(200, Obj(rows[0]))
  }

  /** 404 exactly when no staff member has the id. */
  lemma PersonalByIdNotFound(db: Db, id: int)
    ensures GetPersonalById(db, id, false) == Message(404, NotFound) <==>
      forall p :: p in Rows(db, Personal) ==> !Matches(p, "id_personal", id)
  {
    var sel := Selected(Rows(db, Personal), "id_personal", id);
    WhereMembers(Rows(db, Personal), "id_personal", id);
    JoinsEmptyIff(db, Tuples(sel, "p"), [InstitutionJoin]);
    if sel != [] {
      assert sel[0] in sel;
    }
  }

  lemma DetailColumnsRead()
    ensures "id_personal" in DetailColumns && DetailColumns["id_personal"] == Col("p", "id_personal")
    ensures "institucion_label" in DetailColumns && DetailColumns["institucion_label"] == InstitutionLabel
  {
    assert "id_personal" in StaffFields + ["id_institucion"];
  }

  /** Under unique keys the detail is the projection of the first member with the id. */
  lemma DetailFirst(db: Db, id: int)
    requires KeysUnique(db)
    requires Selected(Rows(db, Personal), "id_personal", id) != []
    ensures var sel := Selected(Rows(db, Personal), "id_personal", id);
      GetPersonalById(db, id, false) == Answer(200, Obj(Project(WithInstitution(db, sel[0]), DetailColumns)))
  {
    JoinedRows(db, Selected(Rows(db, Personal), "id_personal", id));
  }

  /** A found member's answer carries the requested id and the institution label of that member. */
  lemma PersonalByIdFound(db: Db, id: int)
    requires KeysUnique(db)
    ensures var reply := GetPersonalById(db, id, false);
      reply.status == 200 ==>
        KeyOf(Field(reply.body, "id_personal")) == Some(id) &&
        exists p :: p in Rows(db, Personal) && Matches(p, "id_personal", id) &&
          LabelFor(db, p, Field(reply.body, "institucion_label"))
  {
    var sel := Selected(Rows(db, Personal), "id_personal", id);
    if sel != [] {
      WhereMembers(Rows(db, Personal), "id_personal", id);
      assert sel[0] in sel;
      DetailFirst(db, id);
      DetailColumnsRead();
      LabelledRow(db, sel[0], DetailColumns, "institucion_label");
      assert Cell(sel[0], "id_personal") == Get(sel[0], "id_personal");
    } else {
      JoinsEmptyIff(db, Tuples(sel, "p"), [InstitutionJoin]);
      assert DetailRows(db, id) == [];
    }
  }

  /** `SELECT id_personal, nombre_completo` of one member. */
  function Profesor(p: Record): Record {
    map["id_personal" := Cell(p, "id_personal"), "nombre_completo" := Cell(p, "nombre_completo")]
  }

  const ProfesorColumns: Projection := Own(["id_personal", "nombre_completo"])

  /** `FROM personal WHERE activo = 1`, before `ORDER BY`. */
  function Active(db: Db): seq<Record> {
    ProjectAll(Tuples(Selected(Rows(db, Personal), "activo", 1), "p"), ProfesorColumns)
  }

  /** `ORDER BY nombre_completo` */
  function ByName(r: Record): Key {
    ColumnKey(r, "nombre_completo")
  }

  function Profesores(db: Db): seq<Record> {
    SortBy(Active(db), ByName)
  }

  /** `GET /personal/profesores`: every active member counts as a teacher. */
  function GetAllProfesores(db: Db, fault: bool): Reply {
    if fault then Message(500, "Error obteniendo profesores")
    else Answer(200, RowsValue(Profesores(db)))
  }

  lemma ProfesorRow(p: Record)
    ensures Project(map["p" := p], ProfesorColumns) == Profesor(p)
  {
    ProjectColumn(map["p" := p], ProfesorColumns, "id_personal", "p", "id_personal");
    ProjectColumn(map["p" := p], ProfesorColumns, "nombre_completo", "p", "nombre_completo");
  }

  lemma ActiveRows(db: Db)
    ensures var sel := Selected(Rows(db, Personal), "activo", 1);
      |Active(db)| == |sel| && forall i :: 0 <= i < |sel| ==> Active(db)[i] == Profesor(sel[i])
  {
    var sel := Selected(Rows(db, Personal), "activo", 1);
    forall i | 0 <= i < |sel|
      ensures Active(db)[i] == Profesor(sel[i])
    {
      assert Tuples(sel, "p")[i] == map["p" := sel[i]];
      ProfesorRow(sel[i]);
    }
  }

  /** Before ordering: one entry per active member, and nothing else. */
  lemma ActiveMembers(db: Db)
    ensures |Active(db)| == CountMatching(Rows(db, Personal), "activo", 1)
    ensures forall r :: r in Active(db) <==>
      exists p :: p in Rows(db, Personal) && Matches(p, "activo", 1) && r == Profesor(p)
  {
    var sel := Selected(Rows(db, Personal), "activo", 1);
    ActiveRows(db);
    WhereMembers(Rows(db, Personal), "activo", 1);
    WhereSplits(Rows(db, Personal), "activo", 1);
    forall r | r in Active(db)
      ensures exists p :: p in Rows(db, Personal) && Matches(p, "activo", 1) && r == Profesor(p)
    {
      var i :| 0 <= i < |Active(db)| && Active(db)[i] == r;
      assert sel[i] in sel;
    }
    forall p | p in Rows(db, Personal) && Matches(p, "activo", 1)
      ensures Profesor(p) in Active(db)
    {
      var i :| 0 <= i < |sel| && sel[i] == p;
      assert Active(db)[i] == Profesor(p);
    }
  }

  /**
   * The teachers are exactly the id and name of the members whose `activo` is 1, one
   * entry per such member, ordered by name.
   */
  lemma ProfesoresAreActive(db: Db)
    ensures SortedBy(Profesores(db), ByName)
    ensures |Profesores(db)| == CountMatching(Rows(db, Personal), "activo", 1)
    ensures forall r :: r in Profesores(db) <==>
      exists p :: p in Rows(db, Personal) && Matches(p, "activo", 1) && r == Profesor(p)
  {
    SortByCorrect(Active(db), ByName);
    ActiveMembers(db);
    forall r
      ensures r in Profesores(db) <==> r in Active(db)
    {
      assert r in Profesores(db) <==> r in multiset(Profesores(db));
      assert r in Active(db) <==> r in multiset(Active(db));
    }
  }

  // ---------------------------------------------------------------- create and update

  const CreateFailed: string := "Error creando registro"

  function CreatePersonalOutcome(db: Db, schema: seq<ForeignKey>, body: Record, autoId: int, fault: bool): Handled {
    var e := Run(db, schema, Insert(Personal, body, autoId), fault);
    if e.outcome.Done? then Handled(Answer(201, Json(map["id" := Num(e.outcome.insertId)] + body)), e.db)
    else Handled(Message(400, CreateFailed), db)
  }

  /** `POST /personal`; `autoId` is the table's next auto-increment value. */
  method CreatePersonal(pool: Pool, body: Record, autoId: int, fault: bool) returns (reply: Reply)
    modifies pool`db
    ensures Handled(reply, pool.db) == CreatePersonalOutcome(old(pool.db), pool.schema, body, autoId, fault)
  {
    var o := pool.Query(Insert(Personal, body, autoId), fault);
    if o.Done? {
      reply := Answer(201, Json(map["id" := Num(o.insertId)] + body));
    } else {
      reply := Message(400, CreateFailed);
    }
  }

  /**
   * A created member is the body with its key, appended to the staff; the answer
   * echoes every property of the body and the new key as `id` unless the body had one.
   */
  lemma CreatePersonalEcho(db: Db, schema: seq<ForeignKey>, body: Record, autoId: int)
    ensures var h := CreatePersonalOutcome(db, schema, body, autoId, false);
      var k := InsertKey(Personal, body, autoId);
      h.reply.Answer? && h.reply.status == 201 ==>
        Rows(h.db, Personal) == Rows(db, Personal) + [body["id_personal" := Num(k)]] &&
        (forall t :: t != Personal ==> Rows(h.db, t) == Rows(db, t)) &&
        Field(h.reply.body, "id") == (if "id" in body then body["id"] else Num(k)) &&
        (forall f :: f in body && f != "id" ==> Field(h.reply.body, f) == body[f])
  {
    var e := Run(db, schema, Insert(Personal, body, autoId), false);
    if e.outcome.Done? {
      var fields := map["id" := Num(e.outcome.insertId)] + body;
      JsonField(fields, "id");
      forall f | f in body && f != "id"
        ensures Field(Json(fields), f) == body[f]
      {
        JsonField(fields, f);
      }
    }
  }

  const Updated: string := "Registro actualizado"
  const UpdateFailed: string := "Error actualizando registro"

  function UpdatePersonalOutcome(db: Db, schema: seq<ForeignKey>, id: int, body: Record, fault: bool): Handled {
    var e := Run(db, schema, Update(Personal, body, "id_personal", id), fault);
    if e.outcome.Done? then Handled(Message(200, Updated), e.db)
    else Handled(Message(400, UpdateFailed), db)
  }

  /** `PUT /personal/:id` */
  method UpdatePersonal(pool: Pool, id: int, body: Record, fault: bool) returns (reply: Reply)
    modifies pool`db
    ensures Handled(reply, pool.db) == UpdatePersonalOutcome(old(pool.db), pool.schema, id, body, fault)
  {
    var o := pool.Query(Update(Personal, body, "id_personal", id), fault);
    if o.Done? {
      reply := Message(200, Updated);
    } else {
      reply := Message(400, UpdateFailed);
    }
  }

  /**
   * A successful update overlays the body on the addressed member and on no other
   * row; an empty body is refused; an id nobody has still answers success.
   */
  lemma UpdatePersonalOverlays(db: Db, schema: seq<ForeignKey>, id: int, body: Record)
    ensures var h := UpdatePersonalOutcome(db, schema, id, body, false);
      h.reply == Message(200, Updated) ==>
        |Rows(h.db, Personal)| == |Rows(db, Personal)| &&
        (forall i :: 0 <= i < |Rows(db, Personal)| ==>
          Rows(h.db, Personal)[i] ==
            if Matches(Rows(db, Personal)[i], "id_personal", id) then Rows(db, Personal)[i] + body
            else Rows(db, Personal)[i]) &&
        (forall t :: t != Personal ==> Rows(h.db, t) == Rows(db, t))
    ensures body == map[] ==> UpdatePersonalOutcome(db, schema, id, body, false) == Handled(Message(400, UpdateFailed), db)
    ensures body != map[] && (forall p :: p in Rows(db, Personal) ==> !Matches(p, "id_personal", id)) ==>
      UpdatePersonalOutcome(db, schema, id, body, false).reply == Message(200, Updated)
  {
    AssignedRows(Rows(db, Personal), body, "id_personal", id);
    if forall p :: p in Rows(db, Personal) ==> !Matches(p, "id_personal", id) {
      WithoutNothing(Rows(db, Personal), "id_personal", id);
    }
  }

  // ---------------------------------------------------------------- delete

  /** `UPDATE alumnos SET id_maestro = NULL WHERE id_maestro = ?` then `DELETE FROM personal WHERE id_personal = ?`. */
  function Detach(id: int): seq<Statement> {
    [SetNull(Alumnos, "id_maestro", id), Delete(Personal, "id_personal", id)]
  }

  const Deleted: string := "Personal eliminado correctamente."
  const DeleteFailed: string := "Error al eliminar personal"

  /**
   * `deletePersonal` with `faults` naming the awaited calls that reject: 0 getting the
   * connection (outside the `try`: no answer), 1 `beginTransaction`, 2 and 3 the two
   * statements, 4 `commit`. Any rejection inside the `try` rolls back and answers 500.
   */
  function DeletePersonalOutcome(db: Db, schema: seq<ForeignKey>, id: int, faults: set<nat>): Handled {
    if 0 in faults then Handled(Unanswered, db)
    else
      var run := RunAll(db, schema, Detach(id), faults, 2);
      if 1 !in faults && run.Some? && 4 !in faults
      then Handled(Message(200, Deleted), run.value)
      else Handled(Message(500, DeleteFailed), db)
  }

  /** `DELETE /personal/:id`: the connection is back in the pool on every path. */
  method DeletePersonal(pool: Pool, id: int, faults: set<nat>) returns (reply: Reply)
    requires pool.conn == Free
    modifies pool
    ensures pool.conn == Free
    ensures Handled(reply, pool.db) == DeletePersonalOutcome(old(pool.db), pool.schema, id, faults)
  {
    var ok := pool.GetConnection(0 in faults);
    if !ok {
      return Unanswered;
    }
    ghost var ss := Detach(id);
    ghost var run := RunAll(pool.db, pool.schema, ss, faults, 2);
    ok := pool.BeginTransaction(1 in faults);
    var o: Outcome;
    if ok {
      RunAllStep(pool.db, pool.schema, ss, faults, 2);
      o := pool.Query(SetNull(Alumnos, "id_maestro", id), 2 in faults);
      ok := o.Done?;
    }
    assert ok ==> RunAll(pool.db, pool.schema, ss[1..], faults, 3) == run;
    assert !ok ==> 1 in faults || run.None?;
    if ok {
      RunAllStep(pool.db, pool.schema, ss[1..], faults, 3);
      o := pool.Query(Delete(Personal, "id_personal", id), 3 in faults);
      ok := o.Done?;
    }
    assert ok ==> run == Some(pool.db);
    assert !ok ==> 1 in faults || run.None?;
    if ok {
      ok := pool.Commit(4 in faults);
    }
    if ok {
      reply := Message(200, Deleted);
    } else {
      pool.Rollback();
      reply := Message(500, DeleteFailed);
    }
    pool.Release();
  }

  /** The store after the first statement: the member's students have no teacher. */
  function Detached(db: Db, id: int): Db {
    db[Alumnos := Assigned(Rows(db, Alumnos), map["id_maestro" := Null], "id_maestro", id)]
  }

  /** Without failures of the store the delete commits exactly when its second statement is not refused. */
  lemma DeletePersonalRuns(db: Db, schema: seq<ForeignKey>, id: int)
    ensures var h := DeletePersonalOutcome(db, schema, id, {});
      if DeleteBlocked(Detached(db, id), schema, Personal, "id_personal", id)
      then h == Handled(Message(500, DeleteFailed), db)
      else h == Handled(Message(200, Deleted), DeleteRows(Detached(db, id), schema, Personal, "id_personal", id).db)
  {
    var ss := Detach(id);
    RunAllStep(db, schema, ss, {}, 2);
    RunAllStep(Detached(db, id), schema, ss[1..], {}, 3);
  }

  /**
   * After a committed delete no student has the member as teacher, only those
   * students' `id_maestro` changed, the member's row is gone, and no other table changes.
   */
  lemma DeletePersonalCommitted(db: Db, schema: seq<ForeignKey>, id: int, faults: set<nat>)
    requires DeletePersonalOutcome(db, schema, id, faults).reply == Message(200, Deleted)
    ensures var after := DeletePersonalOutcome(db, schema, id, faults).db;
      var students := Rows(db, Alumnos);
      |Rows(after, Alumnos)| == |students| &&
      (forall i :: 0 <= i < |students| ==>
        Rows(after, Alumnos)[i] ==
          if Matches(students[i], "id_maestro", id) then students[i]["id_maestro" := Null] else students[i]) &&
      (forall s :: s in Rows(after, Alumnos) ==> !Matches(s, "id_maestro", id))
    ensures var after := DeletePersonalOutcome(db, schema, id, faults).db;
      Rows(after, Personal) == Without(Rows(db, Personal), "id_personal", id) &&
      (forall p :: p in Rows(after, Personal) ==> !Matches(p, "id_personal", id))
    ensures var after := DeletePersonalOutcome(db, schema, id, faults).db;
      forall t :: t != Alumnos && t != Personal ==> Rows(after, t) == Rows(db, t)
  {
    var ss := Detach(id);
    var students := Rows(db, Alumnos);
    RunAllStep(db, schema, ss, faults, 2);
    RunAllStep(Detached(db, id), schema, ss[1..], faults, 3);
    AssignedRows(students, map["id_maestro" := Null], "id_maestro", id);
    forall i | 0 <= i < |students|
      ensures students[i] + map["id_maestro" := Null] == students[i]["id_maestro" := Null]
    {
    }
    SetNullClears(students, "id_maestro", id);
    WhereMembers(Rows(db, Personal), "id_personal", id);
  }

  /** With students detached, only a group led by the member still references them. */
  lemma ReferencedOnlyByGroups(d: Db, id: int)
    requires forall s :: s in Rows(d, Alumnos) ==> !Matches(s, "id_maestro", id)
    ensures Referenced(d, Schema, Personal, id) <==>
      exists g :: g in Rows(d, Grupos) && Matches(g, "id_maestro", id)
  {
    assert Schema[9] == ForeignKey(Grupos, "id_maestro", Personal);
    if Referenced(d, Schema, Personal, id) {
      var i :| 0 <= i < |Schema| && Schema[i].parent == Personal && PointsAt(d, Schema[i], id);
      assert i == 7 || i == 9;
    }
  }

  /**
   * With the standard constraints and no failure of the store, deleting a member
   * fails exactly when the member exists and still leads a group: the students they
   * teach are detached first, but groups are not.
   */
  lemma DeletePersonalBlockedByGroup(db: Db, id: int)
    ensures DeletePersonalOutcome(db, Schema, id, {}).reply == Message(500, DeleteFailed) <==>
      (exists p :: p in Rows(db, Personal) && Matches(p, "id_personal", id)) &&
      (exists g :: g in Rows(db, Grupos) && Matches(g, "id_maestro", id))
    ensures DeletePersonalOutcome(db, Schema, id, {}).reply != Message(500, DeleteFailed) ==>
      DeletePersonalOutcome(db, Schema, id, {}).reply == Message(200, Deleted)
  {
    var d := Detached(db, id);
    DeletePersonalRuns(db, Schema, id);
    SetNullClears(Rows(db, Alumnos), "id_maestro", id);
    ReferencedOnlyByGroups(d, id);
    assert Rows(d, Personal) == Rows(db, Personal) && Rows(d, Grupos) == Rows(db, Grupos);
    if exists p :: p in Rows(db, Personal) && Matches(p, "id_personal", id) {
      var p :| p in Rows(db, Personal) && Matches(p, "id_personal", id);
      if exists g :: g in Rows(db, Grupos) && Matches(g, "id_maestro", id) {
        assert Pinned(d, Schema, Personal, p);
      }
    }
  }

  /** An id no member has is not an error: the delete commits and the staff table is unchanged. */
  lemma DeletePersonalMissingId(db: Db, schema: seq<ForeignKey>, id: int)
    requires forall p :: p in Rows(db, Personal) ==> !Matches(p, "id_personal", id)
    ensures DeletePersonalOutcome(db, schema, id, {}).reply == Message(200, Deleted)
    ensures Rows(DeletePersonalOutcome(db, schema, id, {}).db, Personal) == Rows(db, Personal)
  {
    DeletePersonalRuns(db, schema, id);
    WithoutNothing(Rows(db, Personal), "id_personal", id);
  }
}
