/**
 * The group endpoints: the ordered list and the detail read, the students of a
 * group, a teacher's groups in two orders, create and update with their required
 * fields, the delete that turns a refusal into a fixed 400, and two unimplemented
 * bulk assignments.
 */
module GruposController {
  import opened Js
  import opened Store
  import opened Http
  import opened Sql
  import opened Ordering

  // ---------------------------------------------------------------- reads

  const GroupJoins: seq<Join> := [
    Join(CatalogoGrado, "gr", "g", "id_grado"),
    Join(Personal, "p", "g", "id_maestro")
  ]

  const ListColumns: Projection := map[
    "id_grupo" := Col("g", "id_grupo"),
    "grupo" := Col("g", "nombre_grupo"),
    "grado" := Col("gr", "descripcion"),
    "ciclo_escolar" := Col("g", "ciclo_escolar"),
    "profesor" := Concat(Col("p", "nombre_completo"))
  ]

  /** The rows of `getAllGrupos` in storage order, before `ORDER BY`. */
  function Listing(db: Db): seq<Record> {
    ProjectAll(Joins(db, Tuples(Rows(db, Grupos), "g"), GroupJoins), ListColumns)
  }

  /** `ORDER BY gr.descripcion, g.nombre_grupo`, read through the result's column names. */
  function ByGradeThenName(r: Record): Key {
    TwoColumnKey(r, "grado", "grupo")
  }

  /** `GET /grupos` */
  function GetAllGrupos(db: Db, fault: bool): Reply {
    if fault then Message(500, "Error obteniendo grupos")
    else Answer(200, RowsValue(SortBy(Listing(db), ByGradeThenName)))
  }

  /** Row `i` of the storage-order listing carries group `i`'s key and name. */
  lemma ListingRows(db: Db)
    requires KeysUnique(db)
    ensures |Listing(db)| == |Rows(db, Grupos)|
    ensures forall i :: 0 <= i < |Rows(db, Grupos)| ==>
      Get(Listing(db)[i], "id_grupo") == Cell(Rows(db, Grupos)[i], "id_grupo") &&
      Get(Listing(db)[i], "grupo") == Cell(Rows(db, Grupos)[i], "nombre_grupo")
  {
    var groups := Rows(db, Grupos);
    var ts := Tuples(groups, "g");
    var joined := Joins(db, ts, GroupJoins);
    JoinsKeepRows(db, ts, GroupJoins, "g");
    forall i | 0 <= i < |groups|
      ensures Get(Listing(db)[i], "id_grupo") == Cell(groups[i], "id_grupo")
      ensures Get(Listing(db)[i], "grupo") == Cell(groups[i], "nombre_grupo")
    {
      assert ts[i]["g"] == groups[i];
      ProjectColumn(joined[i], ListColumns, "id_grupo", "g", "id_grupo");
      ProjectColumn(joined[i], ListColumns, "grupo", "g", "nombre_grupo");
    }
  }

  /** One row per group, whatever the joins find, ordered by grade description then by name. */
  lemma AllGruposOnePerGroup(db: Db)
    requires KeysUnique(db)
    ensures |Listing(db)| == |Rows(db, Grupos)|
    ensures forall i :: 0 <= i < |Rows(db, Grupos)| ==>
      Get(Listing(db)[i], "id_grupo") == Cell(Rows(db, Grupos)[i], "id_grupo") &&
      Get(Listing(db)[i], "grupo") == Cell(Rows(db, Grupos)[i], "nombre_grupo")
    ensures SortedBy(SortBy(Listing(db), ByGradeThenName), ByGradeThenName)
    ensures multiset(SortBy(Listing(db), ByGradeThenName)) == multiset(Listing(db))
  {
    ListingRows(db);
    SortByCorrect(Listing(db), ByGradeThenName);
  }

  const DetailColumns: Projection := map[
    "id_grupo" := Col("g", "id_grupo"),
    "nombre_grupo" := Col("g", "nombre_grupo"),
    "id_grado" := Col("g", "id_grado"),
    "id_maestro" := Col("g", "id_maestro"),
    "ciclo_escolar" := Col("g", "ciclo_escolar"),
    "grado_descripcion" := Col("gr", "descripcion"),
    "profesor" := Col("p", "nombre_completo")
  ]

  function DetailRows(db: Db, id: int): seq<Record> {
    ProjectAll(Joins(db, Tuples(Selected(Rows(db, Grupos), "id_grupo", id), "g"), GroupJoins), DetailColumns)
  }

  const NotFound: string := "Grupo no encontrado"

  /** `GET /grupos/:id` */
  function GetGrupoById(db: Db, id: int, fault: bool): Reply {
    if fault then Message(500, "Error obteniendo grupo")
    else
      var rows := DetailRows(db, id);
      if |rows| == 0 then Message(404, NotFound) else Answer(200, Obj(rows[0]))
  }

  /** 404 exactly when no group has the id. */
  lemma GrupoByIdNotFound(db: Db, id: int)
    ensures GetGrupoById(db, id, false) == Message(404, NotFound) <==>
      forall g :: g in Rows(db, Grupos) ==> !Matches(g, "id_grupo", id)
  {
    var sel := Selected(Rows(db, Grupos), "id_grupo", id);
    WhereMembers(Rows(db, Grupos), "id_grupo", id);
    JoinsEmptyIff(db, Tuples(sel, "g"), GroupJoins);
    if sel != [] {
      assert sel[0] in sel;
    }
  }

  /** A found group's answer carries the requested id. */
  lemma GrupoByIdFound(db: Db, id: int)
    requires KeysUnique(db)
    ensures GetGrupoById(db, id, false).status == 200 ==>
      KeyOf(Field(GetGrupoById(db, id, false).body, "id_grupo")) == Some(id)
  {
    var sel := Selected(Rows(db, Grupos), "id_grupo", id);
    var ts := Tuples(sel, "g");
    if sel != [] {
      WhereMembers(Rows(db, Grupos), "id_grupo", id);
      assert sel[0] in sel;
      JoinsKeepRows(db, ts, GroupJoins, "g");
      var joined := Joins(db, ts, GroupJoins);
      assert joined[0]["g"] == sel[0];
      ProjectColumn(joined[0], DetailColumns, "id_grupo", "g", "id_grupo");
    } else {
      JoinsEmptyIff(db, ts, GroupJoins);
      assert DetailRows(db, id) == [];
    }
  }

  /** The student columns `getAlumnosByGrupo` selects. */
  const PupilFields: seq<string> := [
    "id_alumno", "nombre_completo", "curp", "edad_calculada", "padre_tutor", "contacto_emergencia",
    "domicilio", "diagnostico_medico", "medicamentos", "alergias", "observaciones"
  ]

  const PupilColumns: Projection := map name | name in PupilFields :: Col("a", name)

  /** The selected columns of one student. */
  function Pupil(s: Record): Record {
    Project(map["a" := s], PupilColumns)
  }

  /** A pupil row holds exactly the listed columns, each as the student has it. */
  lemma PupilRow(s: Record)
    ensures Pupil(s).Keys == set name | name in PupilFields
    ensures forall name :: name in PupilFields ==> Pupil(s)[name] == Cell(s, name)
  {
    forall name | name in PupilFields
      ensures Pupil(s)[name] == Cell(s, name)
    {
      ProjectColumn(map["a" := s], PupilColumns, name, "a", name);
    }
  }

  function GroupPupils(db: Db, id: int): seq<Record> {
    ProjectAll(Tuples(Selected(Rows(db, Alumnos), "id_grupo", id), "a"), PupilColumns)
  }

  /** `GET /grupos/:id/alumnos` */
  function GetAlumnosByGrupo(db: Db, id: int, fault: bool): Reply {
    if fault then Message(500, "Error obteniendo alumnos del grupo")
    else Answer(200, RowsValue(GroupPupils(db, id)))
  }

  lemma GroupPupilsAt(db: Db, id: int)
    ensures var sel := Selected(Rows(db, Alumnos), "id_grupo", id);
      |GroupPupils(db, id)| == |sel| && forall i :: 0 <= i < |sel| ==> GroupPupils(db, id)[i] == Pupil(sel[i])
  {
    var sel := Selected(Rows(db, Alumnos), "id_grupo", id);
    forall i | 0 <= i < |sel|
      ensures GroupPupils(db, id)[i] == Pupil(sel[i])
    {
      assert Tuples(sel, "a")[i] == map["a" := sel[i]];
    }
  }

  /** Exactly the students whose `id_grupo` is the id, one row each, in storage order. */
  lemma GroupPupilsExactly(db: Db, id: int)
    ensures |GroupPupils(db, id)| == CountMatching(Rows(db, Alumnos), "id_grupo", id)
    ensures forall r :: r in GroupPupils(db, id) <==>
      exists s :: s in Rows(db, Alumnos) && Matches(s, "id_grupo", id) && r == Pupil(s)
  {
    var sel := Selected(Rows(db, Alumnos), "id_grupo", id);
    WhereMembers(Rows(db, Alumnos), "id_grupo", id);
    WhereSplits(Rows(db, Alumnos), "id_grupo", id);
    GroupPupilsAt(db, id);
    forall r | r in GroupPupils(db, id)
      ensures exists s :: s in Rows(db, Alumnos) && Matches(s, "id_grupo", id) && r == Pupil(s)
    {
      var i :| 0 <= i < |sel| && GroupPupils(db, id)[i] == r;
      assert sel[i] in sel;
    }
    forall s | s in Rows(db, Alumnos) && Matches(s, "id_grupo", id)
      ensures Pupil(s) in GroupPupils(db, id)
    {
      var i :| 0 <= i < |sel| && sel[i] == s;
      assert GroupPupils(db, id)[i] == Pupil(s);
    }
  }

  const TeacherJoins: seq<Join> := [Join(CatalogoGrado, "gr", "g", "id_grado")]

  const TeacherColumns: Projection := map[
    "id_grupo" := Col("g", "id_grupo"),
    "grupo" := Col("g", "nombre_grupo"),
    "grado" := Col("gr", "descripcion"),
    "ciclo_escolar" := Col("g", "ciclo_escolar")
  ]

  /** The groups whose `id_maestro` is the teacher, before `ORDER BY`. */
  function TeacherRows(db: Db, id: int): seq<Record> {
    ProjectAll(Joins(db, Tuples(Selected(Rows(db, Grupos), "id_maestro", id), "g"), TeacherJoins), TeacherColumns)
  }

  /** `FIELD(gr.descripcion, 'Preescolar', 'Primaria', 'Secundaria', 'Media Superior')`: 0 when absent or NULL. */
  function LevelRank(v: Value): int {
    if v == Str("Preescolar") then 1
    else if v == Str("Primaria") then 2
    else if v == Str("Secundaria") then 3
    else if v == Str("Media Superior") then 4
    else 0
  }

  /** `ORDER BY FIELD(...), g.nombre_grupo` */
  function ByLevelThenName(r: Record): Key {
    Key(LevelRank(Cell(r, "grado")), SortText(Cell(r, "grupo")), "")
  }

  /** `GET /grupos/profesor/:id` */
  function GetGruposByProfesor(db: Db, id: int, fault: bool): Reply {
    if fault then Message(500, "Error obteniendo grupos del profesor")
    else Answer(200, RowsValue(SortBy(TeacherRows(db, id), ByLevelThenName)))
  }

  /** `getGruposPorProfesor`: the same rows ordered by description then by name. */
  function GetGruposPorProfesor(db: Db, id: int, fault: bool): Reply {
    if fault then Message(500, "Error obteniendo grupos del profesor")
    else Answer(200, RowsValue(SortBy(TeacherRows(db, id), ByGradeThenName)))
  }

  /** Under unique keys the teacher's rows are the matching groups' projections, in storage order. */
  lemma TeacherRowsAre(db: Db, id: int)
    requires KeysUnique(db)
    ensures var sel := Selected(Rows(db, Grupos), "id_maestro", id);
      |TeacherRows(db, id)| == |sel| &&
      forall i :: 0 <= i < |sel| ==>
        RowOf(TeacherRows(db, id)[i], sel[i])
  {
    var sel := Selected(Rows(db, Grupos), "id_maestro", id);
    var ts := Tuples(sel, "g");
    var joined := Joins(db, ts, TeacherJoins);
    JoinsKeepRows(db, ts, TeacherJoins, "g");
    forall i | 0 <= i < |sel|
      ensures Get(TeacherRows(db, id)[i], "id_grupo") == Cell(sel[i], "id_grupo")
      ensures Get(TeacherRows(db, id)[i], "grupo") == Cell(sel[i], "nombre_grupo")
    {
      assert ts[i]["g"] == sel[i];
      ProjectColumn(joined[i], TeacherColumns, "id_grupo", "g", "id_grupo");
      ProjectColumn(joined[i], TeacherColumns, "grupo", "g", "nombre_grupo");
    }
  }

  /** Result row `r` is the row of group `g`: it carries the group's key and name. */
  predicate RowOf(r: Record, g: Record) {
    Get(r, "id_grupo") == Cell(g, "id_grupo") && Get(r, "grupo") == Cell(g, "nombre_grupo")
  }

  /**
   * A teacher's list holds one row per group they lead and no other: every row is
   * such a group's, and every such group has a row.
   */
  lemma TeacherGroupsOnly(db: Db, id: int)
    requires KeysUnique(db)
    ensures |TeacherRows(db, id)| == CountMatching(Rows(db, Grupos), "id_maestro", id)
    ensures forall r :: r in TeacherRows(db, id) ==>
      exists g :: g in Rows(db, Grupos) && Matches(g, "id_maestro", id) && RowOf(r, g)
    ensures forall g :: g in Rows(db, Grupos) && Matches(g, "id_maestro", id) ==>
      exists r :: r in TeacherRows(db, id) && RowOf(r, g)
  {
    var sel := Selected(Rows(db, Grupos), "id_maestro", id);
    var rows := TeacherRows(db, id);
    TeacherRowsAre(db, id);
    WhereMembers(Rows(db, Grupos), "id_maestro", id);
    WhereSplits(Rows(db, Grupos), "id_maestro", id);
    forall r | r in rows
      ensures exists g :: g in Rows(db, Grupos) && Matches(g, "id_maestro", id) && RowOf(r, g)
    {
      var i :| 0 <= i < |rows| && rows[i] == r;
      assert sel[i] in sel && RowOf(r, sel[i]);
    }
    forall g | g in Rows(db, Grupos) && Matches(g, "id_maestro", id)
      ensures exists r :: r in rows && RowOf(r, g)
    {
      var i :| 0 <= i < |sel| && sel[i] == g;
      assert rows[i] in rows && RowOf(rows[i], g);
    }
  }

  /**
   * `getGruposByProfesor` answers the teacher's rows reordered: unlisted or missing
   * grades first, then Preescolar, Primaria, Secundaria and Media Superior, and by
   * group name within one level.
   */
  lemma GruposByProfesorOrder(db: Db, id: int)
    ensures var s := SortBy(TeacherRows(db, id), ByLevelThenName);
      multiset(s) == multiset(TeacherRows(db, id)) &&
      forall i, j :: 0 <= i < j < |s| ==>
        LevelRank(Cell(s[i], "grado")) <= LevelRank(Cell(s[j], "grado")) &&
        (LevelRank(Cell(s[i], "grado")) == LevelRank(Cell(s[j], "grado")) ==>
          TextLe(SortText(Cell(s[i], "grupo")), SortText(Cell(s[j], "grupo"))))
  {
    var s := SortBy(TeacherRows(db, id), ByLevelThenName);
    SortByCorrect(TeacherRows(db, id), ByLevelThenName);
    forall i, j | 0 <= i < j < |s|
      ensures LevelRank(Cell(s[i], "grado")) <= LevelRank(Cell(s[j], "grado"))
      ensures LevelRank(Cell(s[i], "grado")) == LevelRank(Cell(s[j], "grado")) ==>
        TextLe(SortText(Cell(s[i], "grupo")), SortText(Cell(s[j], "grupo")))
    {
      assert KeyLe(ByLevelThenName(s[i]), ByLevelThenName(s[j]));
      TextLeTotal(SortText(Cell(s[i], "grupo")), SortText(Cell(s[j], "grupo")));
    }
  }

  /** `getGruposPorProfesor` answers the same rows ordered by grade description, then by name. */
  lemma GruposPorProfesorOrder(db: Db, id: int)
    ensures SortedBy(SortBy(TeacherRows(db, id), ByGradeThenName), ByGradeThenName)
    ensures multiset(SortBy(TeacherRows(db, id), ByGradeThenName)) == multiset(TeacherRows(db, id))
  {
    SortByCorrect(TeacherRows(db, id), ByGradeThenName);
  }

  /** `setAlumnosToGrupo`: a placeholder. */
  function SetAlumnosToGrupo(): (r: Reply)
    ensures r.Answer? && r.status == 501
  {
    Message(501, "setAlumnosToGrupo no implementado")
  }

  /** `setProfesToGrupo`: a placeholder. */
  function SetProfesToGrupo(): (r: Reply)
    ensures r.Answer? && r.status == 501
  {
    Message(501, "setProfesToGrupo no implementado")
  }

  // ---------------------------------------------------------------- create and update

  const Required: string := "Grupo y grado son obligatorios"

  /** `!nombre_grupo || !id_grado` */
  predicate Incomplete(body: Record) {
    !Truthy(Get(body, "nombre_grupo")) || !Truthy(Get(body, "id_grado"))
  }

  /** The four columns written, with a falsy teacher or school year stored as NULL. */
  function GroupValues(body: Record): Record {
    map[
      "nombre_grupo" := Get(body, "nombre_grupo"),
      "id_grado" := Get(body, "id_grado"),
      "id_maestro" := Or(Get(body, "id_maestro"), Null),
      "ciclo_escolar" := Or(Get(body, "ciclo_escolar"), Null)
    ]
  }

  /** The written columns are the body's, except that falsy optional ones become NULL. */
  lemma GroupValuesNulls(body: Record)
    ensures GroupValues(body).Keys == {"nombre_grupo", "id_grado", "id_maestro", "ciclo_escolar"}
    ensures forall k :: k in {"id_maestro", "ciclo_escolar"} ==>
      GroupValues(body)[k] == if Truthy(Get(body, k)) then Get(body, k) else Null
    ensures forall k :: k in {"nombre_grupo", "id_grado"} ==> GroupValues(body)[k] == Get(body, k)
  {
  }

  const CreateFailed: string := "Error creando grupo"

  function CreateGrupoOutcome(db: Db, schema: seq<ForeignKey>, body: Record, autoId: int, fault: bool): Handled {
    if Incomplete(body) then Handled(Message(400, Required), db)
    else
      var e := Run(db, schema, Insert(Grupos, GroupValues(body), autoId), fault);
      if e.outcome.Done? then
        Handled(Answer(201, Json(map[
          "id_grupo" := Num(e.outcome.insertId),
          "nombre_grupo" := Get(body, "nombre_grupo"),
          "id_grado" := Get(body, "id_grado"),
          "id_maestro" := Get(body, "id_maestro"),
          "ciclo_escolar" := Get(body, "ciclo_escolar")])), e.db)
      else Handled(Message(500, CreateFailed), db)
  }

  /** `POST /grupos` */
  method CreateGrupo(pool: Pool, body: Record, autoId: int, fault: bool) returns (reply: Reply)
    modifies pool`db
    ensures Handled(reply, pool.db) == CreateGrupoOutcome(old(pool.db), pool.schema, body, autoId, fault)
  {
    var nombre, grado, maestro, ciclo := Get(body, "nombre_grupo"), Get(body, "id_grado"), Get(body, "id_maestro"), Get(body, "ciclo_escolar");
    if !Truthy(nombre) || !Truthy(grado) {
      return Message(400, Required);
    }
    var o := pool.Query(Insert(Grupos, GroupValues(body), autoId), fault);
    if o.Done? {
      reply := Answer(201, Json(map[
        "id_grupo" := Num(o.insertId), "nombre_grupo" := nombre, "id_grado" := grado,
        "id_maestro" := maestro, "ciclo_escolar" := ciclo]));
    } else {
      reply := Message(500, CreateFailed);
    }
  }

  /**
   * A missing name or grade is refused with 400 before any write. A created group is
   * the four columns, with its new key, appended to the groups; the answer's
   * `id_grupo` is that key.
   */
  lemma CreateGrupoChecks(db: Db, schema: seq<ForeignKey>, body: Record, autoId: int, fault: bool)
    ensures Incomplete(body) ==> CreateGrupoOutcome(db, schema, body, autoId, fault) == Handled(Message(400, Required), db)
    ensures var h := CreateGrupoOutcome(db, schema, body, autoId, fault);
      h.reply.Answer? && h.reply.status == 201 ==>
        !Incomplete(body) &&
        Rows(h.db, Grupos) == Rows(db, Grupos) + [GroupValues(body)["id_grupo" := Num(autoId)]] &&
        (forall t :: t != Grupos ==> Rows(h.db, t) == Rows(db, t)) &&
        Field(h.reply.body, "id_grupo") == Num(autoId)
  {
    var e := Run(db, schema, Insert(Grupos, GroupValues(body), autoId), fault);
    if !Incomplete(body) && e.outcome.Done? {
      assert InsertKey(Grupos, GroupValues(body), autoId) == autoId;
      JsonField(map[
        "id_grupo" := Num(e.outcome.insertId),
        "nombre_grupo" := Get(body, "nombre_grupo"),
        "id_grado" := Get(body, "id_grado"),
        "id_maestro" := Get(body, "id_maestro"),
        "ciclo_escolar" := Get(body, "ciclo_escolar")], "id_grupo");
    }
  }

  const Updated: string := "Grupo actualizado"
  const UpdateFailed: string := "Error actualizando grupo"

  function UpdateGrupoOutcome(db: Db, schema: seq<ForeignKey>, id: int, body: Record, fault: bool): Handled {
    if Incomplete(body) then Handled(Message(400, Required), db)
    else
      var e := Run(db, schema, Update(Grupos, GroupValues(body), "id_grupo", id), fault);
      if e.outcome.Done? then Handled(Message(200, Updated), e.db)
      else Handled(Message(500, UpdateFailed), db)
  }

  /** `PUT /grupos/:id` */
  method UpdateGrupo(pool: Pool, id: int, body: Record, fault: bool) returns (reply: Reply)
    modifies pool`db
    ensures Handled(reply, pool.db) == UpdateGrupoOutcome(old(pool.db), pool.schema, id, body, fault)
  {
    if !Truthy(Get(body, "nombre_grupo")) || !Truthy(Get(body, "id_grado")) {
      return Message(400, Required);
    }
    var o := pool.Query(Update(Grupos, GroupValues(body), "id_grupo", id), fault);
    if o.Done? {
      reply := Message(200, Updated);
    } else {
      reply := Message(500, UpdateFailed);
    }
  }

  /**
   * A missing name or grade is refused with 400 before any write; a successful
   * update changes only the four columns of the addressed group, and no other row.
   */
  lemma UpdateGrupoFourColumns(db: Db, schema: seq<ForeignKey>, id: int, body: Record, fault: bool)
    ensures Incomplete(body) ==> UpdateGrupoOutcome(db, schema, id, body, fault) == Handled(Message(400, Required), db)
    ensures var h := UpdateGrupoOutcome(db, schema, id, body, fault);
      var groups := Rows(db, Grupos);
      h.reply == Message(200, Updated) ==>
        |Rows(h.db, Grupos)| == |groups| &&
        (forall i :: 0 <= i < |groups| ==>
          var after := Rows(h.db, Grupos)[i];
          if Matches(groups[i], "id_grupo", id) then
            after.Keys == groups[i].Keys + GroupValues(body).Keys &&
            (forall k :: k in GroupValues(body) ==> after[k] == GroupValues(body)[k]) &&
            (forall k :: k in groups[i] && k !in GroupValues(body) ==> after[k] == groups[i][k])
          else after == groups[i]) &&
        (forall t :: t != Grupos ==> Rows(h.db, t) == Rows(db, t))
  {
    AssignedRows(Rows(db, Grupos), GroupValues(body), "id_grupo", id);
  }

  // ---------------------------------------------------------------- delete

  const Deleted: string := "Grupo eliminado correctamente"
  const HasStudents: string :=
    "No se puede eliminar este grupo porque hay alumnos asignados. Primero reasigna o elimina esos alumnos."
  const DeleteFailed: string := "Error eliminando grupo"

  function DeleteGrupoOutcome(db: Db, schema: seq<ForeignKey>, id: int, fault: bool): Handled {
    var e := Run(db, schema, Delete(Grupos, "id_grupo", id), fault);
    match e.outcome
    case Done(_, _) => Handled(Message(200, Deleted), e.db)
    case RowIsReferenced => Handled(Message(400, HasStudents), db)
    case Failed => Handled(Message(500, DeleteFailed), db)
  }

  /** `DELETE /grupos/:id` */
  method DeleteGrupo(pool: Pool, id: int, fault: bool) returns (reply: Reply)
    modifies pool`db
    ensures Handled(reply, pool.db) == DeleteGrupoOutcome(old(pool.db), pool.schema, id, fault)
  {
    var o := pool.Query(Delete(Grupos, "id_grupo", id), fault);
    if o.Done? {
      reply := Message(200, Deleted);
    } else if o.RowIsReferenced? {
      reply := Message(400, HasStudents);
    } else {
      reply := Message(500, DeleteFailed);
    }
  }

  /**
   * With no failure of the store a delete either removes the group's rows and
   * nothing else, or, when one of them is referenced, answers 400 and leaves the store.
   */
  lemma DeleteGrupoDecides(db: Db, schema: seq<ForeignKey>, id: int)
    ensures var h := DeleteGrupoOutcome(db, schema, id, false);
      if DeleteBlocked(db, schema, Grupos, "id_grupo", id) then h == Handled(Message(400, HasStudents), db)
      else
        h.reply == Message(200, Deleted) &&
        (forall g :: g in Rows(h.db, Grupos) <==> g in Rows(db, Grupos) && !Matches(g, "id_grupo", id)) &&
        (forall t :: t != Grupos ==> Rows(h.db, t) == Rows(db, t))
  {
    WhereMembers(Rows(db, Grupos), "id_grupo", id);
  }

  /** Under the standard constraints only students reference a group. */
  lemma GroupReferencedByStudents(db: Db, id: int)
    ensures Referenced(db, Schema, Grupos, id) <==> exists s :: s in Rows(db, Alumnos) && Matches(s, "id_grupo", id)
  {
    SchemaParents();
    assert Schema[6] == ForeignKey(Alumnos, "id_grupo", Grupos);
    if Referenced(db, Schema, Grupos, id) {
      var i :| 0 <= i < |Schema| && Schema[i].parent == Grupos && PointsAt(db, Schema[i], id);
    }
  }

  /** Under the standard constraints the delete is refused exactly when the group exists and has a student. */
  lemma DeleteGrupoRefusedIffStudents(db: Db, id: int)
    ensures DeleteGrupoOutcome(db, Schema, id, false).reply == Message(400, HasStudents) <==>
      (exists g :: g in Rows(db, Grupos) && Matches(g, "id_grupo", id)) &&
      (exists s :: s in Rows(db, Alumnos) && Matches(s, "id_grupo", id))
  {
    GroupReferencedByStudents(db, id);
    if DeleteBlocked(db, Schema, Grupos, "id_grupo", id) {
      var g :| g in Rows(db, Grupos) && Matches(g, "id_grupo", id) && Pinned(db, Schema, Grupos, g);
      assert Referenced(db, Schema, Grupos, id);
    }
    if exists g :: g in Rows(db, Grupos) && Matches(g, "id_grupo", id) {
      var g :| g in Rows(db, Grupos) && Matches(g, "id_grupo", id);
      assert Referenced(db, Schema, Grupos, id) ==> Pinned(db, Schema, Grupos, g);
    }
  }
}
