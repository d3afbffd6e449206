/**
 * The student endpoints: the list and detail reads, create and update with their
 * key-field normalisation, the cascading delete in one transaction, and the group
 * assignment. Each state-changing handler is a method on the pool, proved to leave
 * the answer and the store that its `...Outcome` function describes; the lemmas
 * state what those functions promise.
 */
module AlumnosController {
  import opened Js
  import opened Store
  import opened Http
  import opened Sql
  import opened Ordering

  // ---------------------------------------------------------------- reads

  /** The student's own columns both reads select. */
  const StudentFields: seq<string> := [
    "nombre_completo", "curp", "fecha_nacimiento", "edad_calculada", "padre_tutor",
    "contacto_emergencia", "domicilio", "diagnostico_medico", "medicamentos", "alergias",
    "promovido", "no_promovido", "observaciones", "fecha_inscripcion", "activo"
  ]

  /** `alias.name AS name` for each name. */
  function Own(alias: string, names: seq<string>): Projection {
    map name | name in names :: Col(alias, name)
  }

  const ListJoins: seq<Join> := [
    Join(Instituciones, "i", "a", "id_institucion"),
    Join(CatalogoGenero, "cg", "a", "id_genero"),
    Join(Grupos, "grp", "a", "id_grupo"),
    Join(CatalogoGrado, "gr", "grp", "id_grado"),
    Join(Personal, "pal", "a", "id_maestro"),
    Join(Personal, "pgrp", "grp", "id_maestro")
  ]

  const ListColumns: Projection := Own("a", StudentFields) + map[
    "id_alumno" := Col("a", "id_alumno"),
    "institucion" := Col("i", "nombre"),
    "genero" := Col("cg", "genero"),
    "maestro" := Col("pal", "nombre_completo"),
    "id_grupo" := Col("grp", "id_grupo"),
    "grupo" := Col("grp", "nombre_grupo"),
    "grado_grupo" := Col("gr", "descripcion"),
    "profesor_grupo" := Col("pgrp", "nombre_completo")
  ]

  /** `ORDER BY a.nombre_completo` */
  function ByName(r: Record): Key {
    ColumnKey(r, "nombre_completo")
  }

  /** The rows of `getAllAlumnos` in storage order, before `ORDER BY`. */
  function Listing(db: Db): seq<Record> {
    ProjectAll(Joins(db, Tuples(Rows(db, Alumnos), "a"), ListJoins), ListColumns)
  }

  /** `GET /alumnos`; `fault` is the query failing. */
  function GetAllAlumnos(db: Db, fault: bool): Reply {
    if fault then Message(500, "Error obteniendo alumnos")
    else Answer(200, RowsValue(SortBy(Listing(db), ByName)))
  }

  lemma ListColumnsRead()
    ensures "id_alumno" in ListColumns && ListColumns["id_alumno"] == Col("a", "id_alumno")
    ensures "nombre_completo" in ListColumns && ListColumns["nombre_completo"] == Col("a", "nombre_completo")
  {
    assert "nombre_completo" in StudentFields;
  }

  /**
   * The list has one row per student: row `i` of the storage-order listing carries
   * student `i`'s id and name, however many groups, teachers or catalogue entries
   * the joins find, and the answer is that listing ordered by name.
   */
  lemma AllAlumnosOnePerStudent(db: Db)
    requires KeysUnique(db)
    ensures |Listing(db)| == |Rows(db, Alumnos)|
    ensures forall i :: 0 <= i < |Rows(db, Alumnos)| ==>
      Get(Listing(db)[i], "id_alumno") == Cell(Rows(db, Alumnos)[i], "id_alumno") &&
      Get(Listing(db)[i], "nombre_completo") == Cell(Rows(db, Alumnos)[i], "nombre_completo")
    ensures SortedBy(SortBy(Listing(db), ByName), ByName)
    ensures multiset(SortBy(Listing(db), ByName)) == multiset(Listing(db))
  {
    var students := Rows(db, Alumnos);
    var ts := Tuples(students, "a");
    var joined := Joins(db, ts, ListJoins);
    JoinsKeepRows(db, ts, ListJoins, "a");
    ListColumnsRead();
    forall i | 0 <= i < |students|
      ensures Get(Listing(db)[i], "id_alumno") == Cell(students[i], "id_alumno")
      ensures Get(Listing(db)[i], "nombre_completo") == Cell(students[i], "nombre_completo")
    {
      assert ts[i]["a"] == students[i];
      ProjectColumn(joined[i], ListColumns, "id_alumno", "a", "id_alumno");
      ProjectColumn(joined[i], ListColumns, "nombre_completo", "a", "nombre_completo");
    }
    SortByCorrect(Listing(db), ByName);
  }

  const DetailJoins: seq<Join> := [
    Join(Instituciones, "i", "a", "id_institucion"),
    Join(CatalogoGenero, "cg", "a", "id_genero"),
    Join(CatalogoGrado, "cg2", "a", "id_grado"),
    Join(Grupos, "grp", "a", "id_grupo"),
    Join(Personal, "pgrp", "grp", "id_maestro"),
    Join(Personal, "pal", "a", "id_maestro")
  ]

  /** The detail's columns; the three parts name disjoint columns. */
  const DetailColumns: Projection :=
    map[
      "institucion_label" := Col("i", "nombre"),
      "genero_label" := Col("cg", "genero"),
      "grado_descripcion" := Col("cg2", "descripcion"),
      "grupo_label" := Col("grp", "nombre_grupo"),
      "profesor_grupo_label" := Col("pgrp", "nombre_completo"),
      "maestro_label" := Col("pal", "nombre_completo")
    ] + Own("a", ["id_alumno", "id_institucion", "id_genero", "id_grado", "id_grupo", "id_maestro"]) + Own("a", StudentFields)

  function DetailRows(db: Db, id: int): seq<Record> {
    ProjectAll(Joins(db, Tuples(Selected(Rows(db, Alumnos), "id_alumno", id), "a"), DetailJoins), DetailColumns)
  }

  /** `GET /alumnos/:id` */
  function GetAlumnoById(db: Db, id: int, fault: bool): Reply {
    if fault then Message(500, "Error obteniendo alumno")
    else
      var rows := DetailRows(db, id);
      if |rows| == 0 then Message(404, "Alumno no encontrado") else Answer(200, Obj(rows[0]))
  }

  lemma DetailColumnsRead()
    ensures "id_alumno" in DetailColumns && DetailColumns["id_alumno"] == Col("a", "id_alumno")
  {
  }

  /** 404 exactly when no student has the id. */
  lemma AlumnoByIdNotFound(db: Db, id: int)
    ensures GetAlumnoById(db, id, false).status == 404 <==>
      forall s :: s in Rows(db, Alumnos) ==> !Matches(s, "id_alumno", id)
  {
    var sel := Selected(Rows(db, Alumnos), "id_alumno", id);
    WhereMembers(Rows(db, Alumnos), "id_alumno", id);
    JoinsEmptyIff(db, Tuples(sel, "a"), DetailJoins);
    if sel != [] {
      assert sel[0] in sel;
    }
  }

  /**
   * A found student's answer is that student's detail row: the stored student with
   * the requested id, joined by key to its institution, catalogues, group, the
   * group's teacher and its own teacher, and projected to the detail columns; its
   * own columns are the stored student's.
   */
  lemma AlumnoByIdFound(db: Db, id: int)
    requires KeysUnique(db)
    ensures var reply := GetAlumnoById(db, id, false);
      reply.status == 200 ==>
        KeyOf(Field(reply.body, "id_alumno")) == Some(id) &&
        exists s :: s in Rows(db, Alumnos) && Matches(s, "id_alumno", id) &&
          reply.body == Obj(Project(Joined(db, map["a" := s], DetailJoins), DetailColumns)) &&
          forall f :: f in StudentFields ==> Field(reply.body, f) == Cell(s, f)
  {
    var sel := Selected(Rows(db, Alumnos), "id_alumno", id);
    if sel != [] {
      WhereMembers(Rows(db, Alumnos), "id_alumno", id);
      var s := sel[0];
      assert s in sel;
      FoundDetail(db, id);
      DetailOfStudent(db, s);
      var row := Obj(Project(Joined(db, map["a" := s], DetailJoins), DetailColumns));
      assert GetAlumnoById(db, id, false).body == row;
      assert Field(row, "id_alumno") == Cell(s, "id_alumno");
    } else {
      JoinsEmptyIff(db, Tuples(sel, "a"), DetailJoins);
      assert DetailRows(db, id) == [];
    }
  }

  /** The answer for a selected student is the first selected student's detail row. */
  lemma FoundDetail(db: Db, id: int)
    requires KeysUnique(db)
    requires Selected(Rows(db, Alumnos), "id_alumno", id) != []
    ensures var sel := Selected(Rows(db, Alumnos), "id_alumno", id);
      GetAlumnoById(db, id, false) == Answer(200, Obj(Project(Joined(db, map["a" := sel[0]], DetailJoins), DetailColumns)))
  {
    var sel := Selected(Rows(db, Alumnos), "id_alumno", id);
    var ts := Tuples(sel, "a");
    JoinsEach(db, ts, DetailJoins);
    assert ts[0] == map["a" := sel[0]];
  }

  /** A student's detail row carries the student's key and own columns. */
  lemma DetailOfStudent(db: Db, s: Record)
    ensures var row := Obj(Project(Joined(db, map["a" := s], DetailJoins), DetailColumns));
      Field(row, "id_alumno") == Cell(s, "id_alumno") &&
      forall f :: f in StudentFields ==> Field(row, f) == Cell(s, f)
  {
    var t := Joined(db, map["a" := s], DetailJoins);
    JoinedKeeps(db, map["a" := s], DetailJoins, "a");
    DetailColumnsRead();
    ProjectColumn(t, DetailColumns, "id_alumno", "a", "id_alumno");
    forall f | f in StudentFields
      ensures Field(Obj(Project(t, DetailColumns)), f) == Cell(s, f)
    {
      OwnColumnRead(f);
      ProjectColumn(t, DetailColumns, f, "a", f);
    }
  }

  /** The detail selects each of the student's own columns unchanged. */
  lemma OwnColumnRead(f: string)
    requires f in StudentFields
    ensures f in DetailColumns && DetailColumns[f] == Col("a", f)
  {
  }

  // ---------------------------------------------------------------- create and update

  /** The key fields a form sends as `''` when nothing is chosen. */
  const OptionalKeys: seq<string> := ["id_genero", "id_grado", "id_maestro", "id_grupo"]

  /** The `forEach` over `fields`: each one holding `''` becomes `null`. */
  function NullingEmpty(data: Record, fields: seq<string>): Record
    decreases |fields|
  {
    if fields == [] then data
    else
      var f := fields[0];
      NullingEmpty(if f in data && data[f] == Str("") then data[f := Null] else data, fields[1..])
  }

  /** The body `createAlumno` and `updateAlumno` write. */
  function Normalised(body: Record): Record {
    NullingEmpty(body, OptionalKeys)
  }

  /** Exactly the listed fields holding `''` become `null`; no key is added or removed and nothing else changes. */
  lemma {:induction false} NullingEmptyFields(data: Record, fields: seq<string>)
    ensures NullingEmpty(data, fields).Keys == data.Keys
    ensures forall k :: k in data ==>
      NullingEmpty(data, fields)[k] == if k in fields && data[k] == Str("") then Null else data[k]
    decreases |fields|
  {
    if fields != [] {
      var f := fields[0];
      var next := if f in data && data[f] == Str("") then data[f := Null] else data;
      NullingEmptyFields(next, fields[1..]);
      assert fields == [f] + fields[1..];
    }
  }

  /** `id_institucion` and every other field pass through; only the four optional keys can change. */
  lemma NormalisedFields(body: Record)
    ensures Normalised(body).Keys == body.Keys
    ensures forall k :: k in body && k !in OptionalKeys ==> Normalised(body)[k] == body[k]
    ensures forall k :: k in body && k in OptionalKeys ==>
      Normalised(body)[k] == if body[k] == Str("") then Null else body[k]
  {
    NullingEmptyFields(body, OptionalKeys);
  }

  /** `const data = { ...req.body }` followed by the `forEach`. */
  method Normalise(body: Record) returns (data: Record)
    ensures data == Normalised(body)
  {
    data := body;
    for n := 0 to |OptionalKeys|
      invariant NullingEmpty(data, OptionalKeys[n..]) == Normalised(body)
    {
      var field := OptionalKeys[n];
      assert OptionalKeys[n..] == [field] + OptionalKeys[n + 1..];
      if field in data && data[field] == Str("") {
        data := data[field := Null];
      }
    }
  }

  const CreateFailed: string := "Error creando alumno"

  function CreateAlumnoOutcome(db: Db, schema: seq<ForeignKey>, body: Record, autoId: int, fault: bool): Handled {
    var data := Normalised(body);
    var e := Run(db, schema, Insert(Alumnos, data, autoId), fault);
    if e.outcome.Done? then Handled(Answer(201, Json(map["id" := Num(e.outcome.insertId)] + data)), e.db)
    else Handled(Message(400, CreateFailed), db)
  }

  /** `POST /alumnos`; `autoId` is the table's next auto-increment value. */
  method CreateAlumno(pool: Pool, body: Record, autoId: int, fault: bool) returns (reply: Reply)
    modifies pool`db
    ensures Handled(reply, pool.db) == CreateAlumnoOutcome(old(pool.db), pool.schema, body, autoId, fault)
  {
    var data := Normalise(body);
    var o := pool.Query(Insert(Alumnos, data, autoId), fault);
    if o.Done? {
      reply := Answer(201, Json(map["id" := Num(o.insertId)] + data));
    } else {
      reply := Message(400, CreateFailed);
    }
  }

  /** A created student is appended, with the normalised body and its key, and no other table changes. */
  lemma CreateAlumnoAppends(db: Db, schema: seq<ForeignKey>, body: Record, autoId: int)
    ensures var h := CreateAlumnoOutcome(db, schema, body, autoId, false);
      var k := InsertKey(Alumnos, Normalised(body), autoId);
      h.reply.status == 201 ==>
        Rows(h.db, Alumnos) == Rows(db, Alumnos) + [Normalised(body)["id_alumno" := Num(k)]] &&
        (forall t :: t != Alumnos ==> Rows(h.db, t) == Rows(db, t))
  {
  }

  /** The 201 answer carries the new key as `id` unless the body itself has an `id`, which the spread lets win. */
  lemma CreateAlumnoAnswer(db: Db, schema: seq<ForeignKey>, body: Record, autoId: int)
    ensures var h := CreateAlumnoOutcome(db, schema, body, autoId, false);
      var k := InsertKey(Alumnos, Normalised(body), autoId);
      h.reply.status == 201 ==> Field(h.reply.body, "id") == if "id" in body then body["id"] else Num(k)
  {
    var data := Normalised(body);
    NormalisedFields(body);
    assert "id" !in OptionalKeys;
    var e := Run(db, schema, Insert(Alumnos, data, autoId), false);
    if e.outcome.Done? {
      JsonField(map["id" := Num(e.outcome.insertId)] + data, "id");
    }
  }

  /** An empty body makes `INSERT ... SET ?` an SQL error: 400 and no row. */
  lemma CreateAlumnoEmpty(db: Db, schema: seq<ForeignKey>, autoId: int)
    ensures CreateAlumnoOutcome(db, schema, map[], autoId, false) == Handled(Message(400, CreateFailed), db)
  {
    NormalisedFields(map[]);
  }

  const Updated: string := "Alumno actualizado"
  const UpdateFailed: string := "Error actualizando alumno"

  function UpdateAlumnoOutcome(db: Db, schema: seq<ForeignKey>, id: int, body: Record, fault: bool): Handled {
    var e := Run(db, schema, Update(Alumnos, Normalised(body), "id_alumno", id), fault);
    if e.outcome.Done? then Handled(Message(200, Updated), e.db)
    else Handled(Message(400, UpdateFailed), db)
  }

  /** `PUT /alumnos/:id` */
  method UpdateAlumno(pool: Pool, id: int, body: Record, fault: bool) returns (reply: Reply)
    modifies pool`db
    ensures Handled(reply, pool.db) == UpdateAlumnoOutcome(old(pool.db), pool.schema, id, body, fault)
  {
    var data := Normalise(body);
    var o := pool.Query(Update(Alumnos, data, "id_alumno", id), fault);
    if o.Done? {
      reply := Message(200, Updated);
    } else {
      reply := Message(400, UpdateFailed);
    }
  }

  /**
   * A successful update overlays the normalised body on the addressed students and
   * on no other row, and touches no other table.
   */
  lemma UpdateAlumnoOverlays(db: Db, schema: seq<ForeignKey>, id: int, body: Record)
    ensures var h := UpdateAlumnoOutcome(db, schema, id, body, false);
      h.reply == Message(200, Updated) ==>
        |Rows(h.db, Alumnos)| == |Rows(db, Alumnos)| &&
        (forall i :: 0 <= i < |Rows(db, Alumnos)| ==>
          Rows(h.db, Alumnos)[i] ==
            if Matches(Rows(db, Alumnos)[i], "id_alumno", id) then Rows(db, Alumnos)[i] + Normalised(body)
            else Rows(db, Alumnos)[i]) &&
        (forall t :: t != Alumnos ==> Rows(h.db, t) == Rows(db, t))
  {
    AssignedRows(Rows(db, Alumnos), Normalised(body), "id_alumno", id);
  }

  /** Updating an id no student carries still answers success. */
  lemma UpdateAlumnoMissingId(db: Db, schema: seq<ForeignKey>, id: int, body: Record)
    requires body != map[]
    requires forall s :: s in Rows(db, Alumnos) ==> !Matches(s, "id_alumno", id)
    ensures UpdateAlumnoOutcome(db, schema, id, body, false).reply == Message(200, Updated)
  {
    NormalisedFields(body);
    WithoutNothing(Rows(db, Alumnos), "id_alumno", id);
  }

  // ---------------------------------------------------------------- delete

  /** The tables holding a student's dependent rows, emptied before the student. */
  const ChildTables: seq<Table> := [AlumnoDiscapacidad, AlumnoNecesidadEducativa, AtencionEspecialista]

  /** The deletes of `deleteAlumno`, children first. */
  function Cascade(id: int): seq<Statement> {
    DeleteFromEach(ChildTables + [Alumnos], "id_alumno", id)
  }

  const Deleted: string := "Alumno y todos sus datos relacionados fueron eliminados."
  const DeleteFailed: string := "Error al eliminar alumno"

  /**
   * `deleteAlumno` with `faults` naming the awaited calls that reject: 0 getting the
   * connection (outside the `try`: no answer), 1 `beginTransaction`, 2 to 5 the deletes,
   * 6 `commit`. Any rejection inside the `try` rolls back and answers 500.
   */
  function DeleteAlumnoOutcome(db: Db, schema: seq<ForeignKey>, id: int, faults: set<nat>): Handled {
    if 0 in faults then Handled(Unanswered, db)
    else
      var run := RunAll(db, schema, Cascade(id), faults, 2);
      if 1 !in faults && run.Some? && 6 !in faults
      then Handled(Message(200, Deleted), run.value)
      else Handled(Message(500, DeleteFailed), db)
  }

  lemma CascadeSteps(id: int)
    ensures Cascade(id) == [
      Delete(AlumnoDiscapacidad, "id_alumno", id), Delete(AlumnoNecesidadEducativa, "id_alumno", id),
      Delete(AtencionEspecialista, "id_alumno", id), Delete(Alumnos, "id_alumno", id)]
  {
  }

  /** `DELETE /alumnos/:id`: the connection is back in the pool on every path. */
  method DeleteAlumno(pool: Pool, id: int, faults: set<nat>) returns (reply: Reply)
    requires pool.conn == Free
    modifies pool
    ensures pool.conn == Free
    ensures Handled(reply, pool.db) == DeleteAlumnoOutcome(old(pool.db), pool.schema, id, faults)
  {
    var ok := pool.GetConnection(0 in faults);
    if !ok {
      return Unanswered;
    }
    ghost var ss := Cascade(id);
    ghost var run := RunAll(pool.db, pool.schema, ss, faults, 2);
    CascadeSteps(id);
    ok := pool.BeginTransaction(1 in faults);
    var o: Outcome;
    if ok {
      RunAllStep(pool.db, pool.schema, ss, faults, 2);
      o := pool.Query(Delete(AlumnoDiscapacidad, "id_alumno", id), 2 in faults);
      ok := o.Done?;
    }
    assert ok ==> RunAll(pool.db, pool.schema, ss[1..], faults, 3) == run;
    assert !ok ==> 1 in faults || run.None?;
    if ok {
      RunAllStep(pool.db, pool.schema, ss[1..], faults, 3);
      o := pool.Query(Delete(AlumnoNecesidadEducativa, "id_alumno", id), 3 in faults);
      ok := o.Done?;
    }
    assert ok ==> RunAll(pool.db, pool.schema, ss[2..], faults, 4) == run;
    assert !ok ==> 1 in faults || run.None?;
    if ok {
      RunAllStep(pool.db, pool.schema, ss[2..], faults, 4);
      o := pool.Query(Delete(AtencionEspecialista, "id_alumno", id), 4 in faults);
      ok := o.Done?;
    }
    assert ok ==> RunAll(pool.db, pool.schema, ss[3..], faults, 5) == run;
    assert !ok ==> 1 in faults || run.None?;
    if ok {
      RunAllStep(pool.db, pool.schema, ss[3..], faults, 5);
      o := pool.Query(Delete(Alumnos, "id_alumno", id), 5 in faults);
      ok := o.Done?;
    }
    assert ok ==> run == Some(pool.db);
    assert !ok ==> 1 in faults || run.None?;
    if ok {
      ok := pool.Commit(6 in faults);
    }
    if ok {
      reply := Message(200, Deleted);
    } else {
      pool.Rollback();
      reply := Message(500, DeleteFailed);
    }
    pool.Release();
  }


  /**
   * After a committed delete none of the four tables holds a row for the student,
   * each of them keeps every other row in order, and no other table changes.
   */
  lemma DeleteAlumnoCommitted(db: Db, schema: seq<ForeignKey>, id: int, faults: set<nat>)
    requires DeleteAlumnoOutcome(db, schema, id, faults).reply == Message(200, Deleted)
    ensures var after := DeleteAlumnoOutcome(db, schema, id, faults).db;
      forall t :: t in ChildTables + [Alumnos] ==>
        Rows(after, t) == Without(Rows(db, t), "id_alumno", id) &&
        forall r :: r in Rows(after, t) ==> !Matches(r, "id_alumno", id)
    ensures var after := DeleteAlumnoOutcome(db, schema, id, faults).db;
      forall t :: t !in ChildTables + [Alumnos] ==> Rows(after, t) == Rows(db, t)
  {
    var tables := ChildTables + [Alumnos];
    DeletesCommit(db, schema, tables, "id_alumno", id, faults, 2);
    forall t | t in tables
      ensures forall r :: r in Without(Rows(db, t), "id_alumno", id) ==> !Matches(r, "id_alumno", id)
    {
      WhereMembers(Rows(db, t), "id_alumno", id);
    }
  }

  /**
   * Deleting an id no row carries still commits and answers success, whatever the
   * constraints, and leaves every table as it was: there is no not-found answer.
   */
  lemma DeleteAlumnoMissingId(db: Db, schema: seq<ForeignKey>, id: int)
    requires forall t :: t in ChildTables + [Alumnos] ==>
      forall r :: r in Rows(db, t) ==> !Matches(r, "id_alumno", id)
    ensures DeleteAlumnoOutcome(db, schema, id, {}).reply == Message(200, Deleted)
    ensures SameRows(DeleteAlumnoOutcome(db, schema, id, {}).db, db)
  {
    CascadeSteps(id);
    var ss := Cascade(id);
    var tables := ChildTables + [Alumnos];
    var d := db;
    for k := 0 to 4
      invariant SameRows(d, db)
      invariant RunAll(db, schema, ss, {}, 2) == RunAll(d, schema, ss[k..], {}, 2 + k)
    {
      RunAllStep(d, schema, ss[k..], {}, 2 + k);
      assert ss[k] == Delete(tables[k], "id_alumno", id);
      assert tables[k] in tables;
      WithoutNothing(Rows(d, tables[k]), "id_alumno", id);
      assert ss[k..][1..] == ss[k + 1..];
      d := Execute(d, schema, ss[k]).db;
    }
  }

  /** The constraints that reference a student all live in the child tables, and nothing references those. */
  predicate CascadeCovers(schema: seq<ForeignKey>) {
    (forall i :: 0 <= i < |schema| && schema[i].parent == Alumnos ==>
      schema[i].child in ChildTables && schema[i].column == "id_alumno") &&
    (forall i :: 0 <= i < |schema| ==> schema[i].parent !in ChildTables)
  }

  lemma SchemaCovered()
    ensures CascadeCovers(Schema)
  {
  }

  /**
   * Where the child tables are the only ones pointing at students, the cascade never
   * meets a constraint: with no failure of the store it always commits.
   */
  lemma DeleteAlumnoNeverBlocked(db: Db, schema: seq<ForeignKey>, id: int)
    requires CascadeCovers(schema)
    ensures DeleteAlumnoOutcome(db, schema, id, {}).reply == Message(200, Deleted)
  {
    CascadeSteps(id);
    var ss := Cascade(id);
    var d := db;
    for k := 0 to 3
      invariant RunAll(db, schema, ss, {}, 2) == RunAll(d, schema, ss[k..], {}, 2 + k)
      invariant forall j :: 0 <= j < k ==>
        forall r :: r in Rows(d, ChildTables[j]) ==> !Matches(r, "id_alumno", id)
    {
      RunAllStep(d, schema, ss[k..], {}, 2 + k);
      assert ss[k] == Delete(ChildTables[k], "id_alumno", id);
      assert !DeleteBlocked(d, schema, ChildTables[k], "id_alumno", id);
      WhereMembers(Rows(d, ChildTables[k]), "id_alumno", id);
      assert ss[k..][1..] == ss[k + 1..];
      d := Execute(d, schema, ss[k]).db;
    }
    RunAllStep(d, schema, ss[3..], {}, 5);
    assert ss[3] == Delete(Alumnos, "id_alumno", id);
    assert !DeleteBlocked(d, schema, Alumnos, "id_alumno", id);
    assert ss[3..][1..] == [];
  }

  /**
   * Why the children go first: with a dependent row still present, deleting the
   * student itself is refused by the constraint.
   */
  lemma ParentFirstRefused(db: Db, id: int, t: Table, c: Record, s: Record)
    requires t in ChildTables && c in Rows(db, t) && Matches(c, "id_alumno", id)
    requires s in Rows(db, Alumnos) && Matches(s, "id_alumno", id)
    ensures Execute(db, Schema, Delete(Alumnos, "id_alumno", id)).outcome == RowIsReferenced
  {
    var i := if t == AlumnoDiscapacidad then 0 else if t == AlumnoNecesidadEducativa then 1 else 2;
    assert Schema[i].parent == Alumnos && Schema[i].child == t && PointsAt(db, Schema[i], id);
    assert Pinned(db, Schema, Alumnos, s);
  }

  // ---------------------------------------------------------------- group assignment

  const GroupRequired: string := "id_grupo es obligatorio"
  const GroupAssigned: string := "Grupo asignado correctamente"
  const AssignFailed: string := "Error al asignar grupo"

  function AsignarGrupoOutcome(db: Db, schema: seq<ForeignKey>, id: int, body: Record, fault: bool): Handled {
    var group := Get(body, "id_grupo");
    if !Truthy(group) then Handled(Message(400, GroupRequired), db)
    else
      var e := Run(db, schema, Update(Alumnos, map["id_grupo" := group], "id_alumno", id), fault);
      if e.outcome.Done? then Handled(Message(200, GroupAssigned), e.db)
      else Handled(Message(500, AssignFailed), db)
  }

  /** `PUT /alumnos/:id/grupo` */
  method AsignarGrupoAlumno(pool: Pool, id: int, body: Record, fault: bool) returns (reply: Reply)
    modifies pool`db
    ensures Handled(reply, pool.db) == AsignarGrupoOutcome(old(pool.db), pool.schema, id, body, fault)
  {
    var group := Get(body, "id_grupo");
    if !Truthy(group) {
      return Message(400, GroupRequired);
    }
    var o := pool.Query(Update(Alumnos, map["id_grupo" := group], "id_alumno", id), fault);
    if o.Done? {
      reply := Message(200, GroupAssigned);
    } else {
      reply := Message(500, AssignFailed);
    }
  }

  /**
   * A missing or falsy group is refused with 400 before any write; a successful
   * assignment sets `id_grupo` of the addressed students and changes nothing else.
   */
  lemma AsignarGrupoOnlyGroup(db: Db, schema: seq<ForeignKey>, id: int, body: Record, fault: bool)
    ensures var h := AsignarGrupoOutcome(db, schema, id, body, fault);
      !Truthy(Get(body, "id_grupo")) ==> h == Handled(Message(400, GroupRequired), db)
    ensures var h := AsignarGrupoOutcome(db, schema, id, body, fault);
      var rows := Rows(db, Alumnos);
      h.reply == Message(200, GroupAssigned) ==>
        |Rows(h.db, Alumnos)| == |rows| &&
        (forall i :: 0 <= i < |rows| ==>
          Rows(h.db, Alumnos)[i] ==
            if Matches(rows[i], "id_alumno", id) then rows[i]["id_grupo" := Get(body, "id_grupo")] else rows[i]) &&
        (forall t :: t != Alumnos ==> Rows(h.db, t) == Rows(db, t))
  {
    var group := Get(body, "id_grupo");
    var rows := Rows(db, Alumnos);
    AssignedRows(rows, map["id_grupo" := group], "id_alumno", id);
    forall i | 0 <= i < |rows|
      ensures rows[i] + map["id_grupo" := group] == rows[i]["id_grupo" := group]
    {
    }
  }

  /** With the standard constraints, assigning a student who exists to a group that does not exist fails with 500. */
  lemma AsignarGrupoUnknownGroup(db: Db, id: int, body: Record, s: Record)
    requires Truthy(Get(body, "id_grupo"))
    requires s in Rows(db, Alumnos) && Matches(s, "id_alumno", id)
    requires forall g :: g in Rows(db, Grupos) ==> KeyOf(Get(g, "id_grupo")) != KeyOf(Get(body, "id_grupo"))
    ensures AsignarGrupoOutcome(db, Schema, id, body, false) == Handled(Message(500, AssignFailed), db)
  {
    var rows := Rows(db, Alumnos);
    WhereSplits(rows, "id_alumno", id);
    WhereMembers(rows, "id_alumno", id);
    assert s in Selected(rows, "id_alumno", id);
    assert Schema[6] == ForeignKey(Alumnos, "id_grupo", Grupos);
    assert !ValueAllowed(db, Schema[6], Get(body, "id_grupo"));
  }
}
