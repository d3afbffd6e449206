/**
 * The institution endpoints: the list with each institution's type, the value/label
 * options, the detail read, create and update, and the delete that relies on the
 * store's constraints and, when refused, reports the students still enrolled.
 */
module InstitucionesController {
  import opened Js
  import opened Store
  import opened Http
  import opened Sql

  // ---------------------------------------------------------------- reads

  const TypeJoin: Join := Join(CatalogoTipoInstitucion, "ct", "i", "id_tipo")

  /** `i.*, ct.tipo, ct.descripcion`: the catalogue's two columns are added to, or replace, the row's own. */
  function Typed(t: Tuple): Record {
    (if "i" in t then t["i"] else map[]) +
    map["tipo" := Column(t, "ct", "tipo"), "descripcion" := Column(t, "ct", "descripcion")]
  }

  /** The rows of `getAllInstituciones`; there is no `ORDER BY`, so storage order. */
  function Listing(db: Db): seq<Record> {
    var joined := Joins(db, Tuples(Rows(db, Instituciones), "i"), [TypeJoin]);
    seq(|joined|, k requires 0 <= k < |joined| => Typed(joined[k]))
  }

  const ListFailed: string := "Error obteniendo instituciones"

  /** `GET /instituciones` */
  function GetAllInstituciones(db: Db, fault: bool): Reply {
    if fault then Message(500, ListFailed)
    else Answer(200, RowsValue(Listing(db)))
  }

  /**
   * The type columns an institution's row shows: those of the catalogue entry its
   * `id_tipo` refers to, or NULL when there is none.
   */
  predicate TypeFor(db: Db, inst: Record, row: Record) {
    var key := Cell(inst, "id_tipo");
    "tipo" in row && "descripcion" in row &&
    (forall c :: c in Rows(db, CatalogoTipoInstitucion) && Refers(key, c, "id_tipo") ==>
      row["tipo"] == Cell(c, "tipo") && row["descripcion"] == Cell(c, "descripcion")) &&
    ((forall c :: c in Rows(db, CatalogoTipoInstitucion) ==> !Refers(key, c, "id_tipo")) ==>
      row["tipo"] == Null && row["descripcion"] == Null)
  }

  lemma TypedRow(db: Db, inst: Record)
    requires KeysUnique(db)
    ensures var row := Typed(map["i" := inst, "ct" := Lookup(db, CatalogoTipoInstitucion, Cell(inst, "id_tipo"))]);
      TypeFor(db, inst, row) &&
      forall k :: k in inst && k != "tipo" && k != "descripcion" ==> k in row && row[k] == inst[k]
  {
    var key := Cell(inst, "id_tipo");
    forall c | c in Rows(db, CatalogoTipoInstitucion) && Refers(key, c, "id_tipo")
      ensures Lookup(db, CatalogoTipoInstitucion, key) == c
    {
      LookupFinds(db, CatalogoTipoInstitucion, key, c);
    }
    if forall c :: c in Rows(db, CatalogoTipoInstitucion) ==> !Refers(key, c, "id_tipo") {
      LookupMisses(db, CatalogoTipoInstitucion, key);
    }
  }

  /**
   * One row per institution, in storage order: row `k` is institution `k` with every
   * column of its own, plus the type columns of its catalogue entry.
   */
  lemma AllInstitucionesTyped(db: Db, k: int)
    requires KeysUnique(db)
    requires 0 <= k < |Rows(db, Instituciones)|
    ensures |Listing(db)| == |Rows(db, Instituciones)|
    ensures var inst := Rows(db, Instituciones)[k];
      TypeFor(db, inst, Listing(db)[k]) &&
      forall c :: c in inst && c != "tipo" && c != "descripcion" ==> c in Listing(db)[k] && Listing(db)[k][c] == inst[c]
  {
    var insts := Rows(db, Instituciones);
    var ts := Tuples(insts, "i");
    JoinAllUnique(db, ts, TypeJoin);
    assert Joins(db, ts, [TypeJoin]) == JoinAll(db, ts, TypeJoin);
    assert ts[k] == map["i" := insts[k]];
    assert Listing(db)[k] == Typed(map["i" := insts[k], "ct" := Lookup(db, CatalogoTipoInstitucion, Cell(insts[k], "id_tipo"))]);
    TypedRow(db, insts[k]);
  }

  /** `id_institucion AS value, nombre AS label` */
  const OptionColumns: Projection := map["value" := Col("i", "id_institucion"), "label" := Col("i", "nombre")]

  function Options(db: Db): seq<Record> {
    ProjectAll(Tuples(Rows(db, Instituciones), "i"), OptionColumns)
  }

  /** `GET /instituciones/label` */
  function GetInstitucionesLabel(db: Db, fault: bool): Reply {
    if fault then Message(500, ListFailed)
    else Answer(200, RowsValue(Options(db)))
  }

  /** One option per institution, in storage order, holding exactly its key and its name. */
  lemma OptionsOnePerInstitution(db: Db)
    ensures |Options(db)| == |Rows(db, Instituciones)|
    ensures forall k :: 0 <= k < |Rows(db, Instituciones)| ==>
      Options(db)[k].Keys == {"value", "label"} &&
      Options(db)[k]["value"] == Cell(Rows(db, Instituciones)[k], "id_institucion") &&
      Options(db)[k]["label"] == Cell(Rows(db, Instituciones)[k], "nombre")
  {
    var insts := Rows(db, Instituciones);
    forall k | 0 <= k < |insts|
      ensures Options(db)[k].Keys == {"value", "label"}
      ensures Options(db)[k]["value"] == Cell(insts[k], "id_institucion")
      ensures Options(db)[k]["label"] == Cell(insts[k], "nombre")
    {
      var t := Tuples(insts, "i")[k];
      assert t == map["i" := insts[k]];
      ProjectColumn(t, OptionColumns, "value", "i", "id_institucion");
      ProjectColumn(t, OptionColumns, "label", "i", "nombre");
    }
  }

  const NotFound: string := "No encontrada"

  /** `GET /instituciones/:id`: `SELECT *` answers the stored row itself. */
  function GetInstitucionById(db: Db, id: int, fault: bool): Reply {
    if fault then Message(500, "Error obteniendo institución")
    else
      var rows := Selected(Rows(db, Instituciones), "id_institucion", id);
      if |rows| == 0 then Message(404, NotFound) else Answer(200, Obj(rows[0]))
  }

  /** 404 exactly when no institution has the id; otherwise the answer is a stored institution with that id. */
  lemma InstitucionById(db: Db, id: int)
    ensures GetInstitucionById(db, id, false) == Message(404, NotFound) <==>
      forall r :: r in Rows(db, Instituciones) ==> !Matches(r, "id_institucion", id)
    ensures GetInstitucionById(db, id, false).status == 200 ==>
      exists r :: r in Rows(db, Instituciones) && Matches(r, "id_institucion", id) &&
        GetInstitucionById(db, id, false).body == Obj(r)
  {
    var sel := Selected(Rows(db, Instituciones), "id_institucion", id);
    WhereMembers(Rows(db, Instituciones), "id_institucion", id);
    if sel != [] {
      assert sel[0] in sel;
    }
  }

  // ---------------------------------------------------------------- create and update

  const CreateFailed: string := "Error creando institución"

  function CreateInstitucionOutcome(db: Db, schema: seq<ForeignKey>, body: Record, autoId: int, fault: bool): Handled {
    var e := Run(db, schema, Insert(Instituciones, body, autoId), fault);
    if e.outcome.Done? then Handled(Answer(200, Json(map["id" := Num(e.outcome.insertId)] + body)), e.db)
    else Handled(Message(500, CreateFailed), db)
  }

  /** `POST /instituciones`: success answers 200, not 201. */
  method CreateInstitucion(pool: Pool, body: Record, autoId: int, fault: bool) returns (reply: Reply)
    modifies pool`db
    ensures Handled(reply, pool.db) == CreateInstitucionOutcome(old(pool.db), pool.schema, body, autoId, fault)
  {
    var o := pool.Query(Insert(Instituciones, body, autoId), fault);
    if o.Done? {
      reply := Answer(200, Json(map["id" := Num(o.insertId)] + body));
    } else {
      reply := Message(500, CreateFailed);
    }
  }

  /**
   * A created institution is the body with its key, appended; the answer echoes every
   * property of the body and the new key as `id` unless the body had one.
   */
  lemma CreateInstitucionEcho(db: Db, schema: seq<ForeignKey>, body: Record, autoId: int)
    ensures var h := CreateInstitucionOutcome(db, schema, body, autoId, false);
      var k := InsertKey(Instituciones, body, autoId);
      h.reply.Answer? && h.reply.status == 200 ==>
        Rows(h.db, Instituciones) == Rows(db, Instituciones) + [body["id_institucion" := Num(k)]] &&
        (forall t :: t != Instituciones ==> Rows(h.db, t) == Rows(db, t)) &&
        Field(h.reply.body, "id") == (if "id" in body then body["id"] else Num(k)) &&
        (forall f :: f in body && f != "id" ==> Field(h.reply.body, f) == body[f])
  {
    var e := Run(db, schema, Insert(Instituciones, body, autoId), false);
    if e.outcome.Done? {
      var fields := map["id" := Num(e.outcome.insertId)] + body;
      JsonField(fields, "id");
      forall f | f in body && f != "id"
        ensures Field(Json(fields), f) == body[f]
      {
        JsonField(fields, f);
      }
    }
  }

  const Updated: string := "Institución actualizada"
  const UpdateFailed: string := "Error actualizando institución"

  function UpdateInstitucionOutcome(db: Db, schema: seq<ForeignKey>, id: int, body: Record, fault: bool): Handled {
    var e := Run(db, schema, Update(Instituciones, body, "id_institucion", id), fault);
    if e.outcome.Done? then Handled(Message(200, Updated), e.db)
    else Handled(Message(500, UpdateFailed), db)
  }

  /** `PUT /instituciones/:id` */
  method UpdateInstitucion(pool: Pool, id: int, body: Record, fault: bool) returns (reply: Reply)
    modifies pool`db
    ensures Handled(reply, pool.db) == UpdateInstitucionOutcome(old(pool.db), pool.schema, id, body, fault)
  {
    var o := pool.Query(Update(Instituciones, body, "id_institucion", id), fault);
    if o.Done? {
      reply := Message(200, Updated);
    } else {
      reply := Message(500, UpdateFailed);
    }
  }

  /** A successful update overlays the body on the addressed institution and on no other row. */
  lemma UpdateInstitucionOverlays(db: Db, schema: seq<ForeignKey>, id: int, body: Record)
    ensures var h := UpdateInstitucionOutcome(db, schema, id, body, false);
      h.reply == Message(200, Updated) ==>
        |Rows(h.db, Instituciones)| == |Rows(db, Instituciones)| &&
        (forall k :: 0 <= k < |Rows(db, Instituciones)| ==>
          Rows(h.db, Instituciones)[k] ==
            if Matches(Rows(db, Instituciones)[k], "id_institucion", id) then Rows(db, Instituciones)[k] + body
            else Rows(db, Instituciones)[k]) &&
        (forall t :: t != Instituciones ==> Rows(h.db, t) == Rows(db, t))
    ensures body == map[] ==>
      UpdateInstitucionOutcome(db, schema, id, body, false) == Handled(Message(500, UpdateFailed), db)
  {
    AssignedRows(Rows(db, Instituciones), body, "id_institucion", id);
  }

  // ---------------------------------------------------------------- delete

  const Deleted: string := "Institución eliminada correctamente"
  const StillEnrolled: string :=
    "No se puede eliminar la institución porque tiene alumnos asignados, reasignalos o eliminalos para poder eliminar la institucion. xd"
  const DeleteFailed: string := "Error eliminando institución."

  /** `SELECT nombre_completo FROM alumnos WHERE id_institucion = ?`, mapped to the names. */
  function EnrolledNames(db: Db, id: int): seq<Value> {
    var enrolled := Selected(Rows(db, Alumnos), "id_institucion", id);
    seq(|enrolled|, k requires 0 <= k < |enrolled| => Cell(enrolled[k], "nombre_completo"))
  }

  /** The 409 body: the fixed message and the enrolled students' names. */
  function Conflict(db: Db, id: int): Reply {
    Answer(409, Obj(map["mensaje" := Str(StillEnrolled), "alumnos" := Arr(EnrolledNames(db, id))]))
  }

  /**
   * `deleteInstitucion` with `faults` naming the awaited calls that reject: 0 the
   * delete itself (an error other than a referenced row), 1 the follow-up query
   * for the names, which runs inside the `catch` and so leaves the request unanswered.
   */
  function DeleteInstitucionOutcome(db: Db, schema: seq<ForeignKey>, id: int, faults: set<nat>): Handled {
    var e := Run(db, schema, Delete(Instituciones, "id_institucion", id), 0 in faults);
    match e.outcome
    case Done(_, _) => Handled(Message(200, Deleted), e.db)
    case RowIsReferenced => if 1 in faults then Handled(Unanswered, db) else Handled(Conflict(db, id), db)
    case Failed => Handled(Message(500, DeleteFailed), db)
  }

  /** `DELETE /instituciones/:id`: no pre-check; the store's refusal decides. */
  method DeleteInstitucion(pool: Pool, id: int, faults: set<nat>) returns (reply: Reply)
    modifies pool`db
    ensures Handled(reply, pool.db) == DeleteInstitucionOutcome(old(pool.db), pool.schema, id, faults)
  {
    var o := pool.Query(Delete(Instituciones, "id_institucion", id), 0 in faults);
    if o.Done? {
      reply := Message(200, Deleted);
    } else if o.RowIsReferenced? {
      if 1 in faults {
        reply := Unanswered;
      } else {
        reply := Conflict(pool.db, id);
      }
    } else {
      reply := Message(500, DeleteFailed);
    }
  }

  /**
   * With no failure of the store the delete is refused with 409, leaving every table
   * as it was, exactly when a row it would remove is still referenced; otherwise the
   * institution's rows are gone and nothing else changes.
   */
  lemma DeleteInstitucionDecides(db: Db, schema: seq<ForeignKey>, id: int)
    ensures var h := DeleteInstitucionOutcome(db, schema, id, {});
      h.reply.Answer? && h.reply.status == 409 <==> DeleteBlocked(db, schema, Instituciones, "id_institucion", id)
    ensures var h := DeleteInstitucionOutcome(db, schema, id, {});
      h.reply.Answer? && h.reply.status == 409 ==> h.db == db
    ensures var h := DeleteInstitucionOutcome(db, schema, id, {});
      !DeleteBlocked(db, schema, Instituciones, "id_institucion", id) ==>
        h.reply == Message(200, Deleted) &&
        (forall r :: r in Rows(h.db, Instituciones) <==> r in Rows(db, Instituciones) && !Matches(r, "id_institucion", id)) &&
        (forall t :: t != Instituciones ==> Rows(h.db, t) == Rows(db, t))
  {
    WhereMembers(Rows(db, Instituciones), "id_institucion", id);
  }

  /**
   * The conflict's list holds the name of every student enrolled in the institution,
   * one entry per student, in storage order, and nothing else.
   */
  lemma ConflictListsEnrolled(db: Db, id: int)
    ensures |EnrolledNames(db, id)| == CountMatching(Rows(db, Alumnos), "id_institucion", id)
    ensures forall v :: v in EnrolledNames(db, id) <==>
      exists s :: s in Rows(db, Alumnos) && Matches(s, "id_institucion", id) && v == Cell(s, "nombre_completo")
  {
    var enrolled := Selected(Rows(db, Alumnos), "id_institucion", id);
    WhereMembers(Rows(db, Alumnos), "id_institucion", id);
    WhereSplits(Rows(db, Alumnos), "id_institucion", id);
    forall v | v in EnrolledNames(db, id)
      ensures exists s :: s in Rows(db, Alumnos) && Matches(s, "id_institucion", id) && v == Cell(s, "nombre_completo")
    {
      var k :| 0 <= k < |enrolled| && EnrolledNames(db, id)[k] == v;
      assert enrolled[k] in enrolled;
    }
    forall s | s in Rows(db, Alumnos) && Matches(s, "id_institucion", id)
      ensures Cell(s, "nombre_completo") in EnrolledNames(db, id)
    {
      var k :| 0 <= k < |enrolled| && enrolled[k] == s;
      assert EnrolledNames(db, id)[k] == Cell(s, "nombre_completo");
    }
  }

  /** Under the standard constraints only students reference an institution, so a 409 always names at least one. */
  lemma ConflictNeverEmpty(db: Db, id: int)
    requires DeleteBlocked(db, Schema, Instituciones, "id_institucion", id)
    ensures EnrolledNames(db, id) != []
  {
    var r :| r in Rows(db, Instituciones) && Matches(r, "id_institucion", id) && Pinned(db, Schema, Instituciones, r);
    assert Referenced(db, Schema, Instituciones, id);
    var i :| 0 <= i < |Schema| && Schema[i].parent == Instituciones && PointsAt(db, Schema[i], id);
    SchemaParents();
    assert Schema[i] == ForeignKey(Alumnos, "id_institucion", Instituciones);
    var s :| s in Rows(db, Alumnos) && Matches(s, "id_institucion", id);
    WhereMembers(Rows(db, Alumnos), "id_institucion", id);
    assert s in Selected(Rows(db, Alumnos), "id_institucion", id);
  }

  /**
   * The list looks only at students: where another table also references
   * institutions, a refused delete can answer 409 with an empty list.
   */
  lemma ConflictMayBeEmpty()
    ensures var inst := map["id_institucion" := Num(1)];
      var member := map["id_personal" := Num(7), "id_institucion" := Num(1)];
      var db := map[Instituciones := [inst], Personal := [member]];
      var schema := Schema + [ForeignKey(Personal, "id_institucion", Instituciones)];
      DeleteInstitucionOutcome(db, schema, 1, {}).reply ==
        Answer(409, Obj(map["mensaje" := Str(StillEnrolled), "alumnos" := Arr([])]))
  {
    var inst := map["id_institucion" := Num(1)];
    var member := map["id_personal" := Num(7), "id_institucion" := Num(1)];
    var db := map[Instituciones := [inst], Personal := [member]];
    var schema := Schema + [ForeignKey(Personal, "id_institucion", Instituciones)];
    assert PointsAt(db, schema[11], 1) by {
      assert member in Rows(db, Personal);
    }
    assert Pinned(db, schema, Instituciones, inst);
    assert inst in Rows(db, Instituciones);
    assert EnrolledNames(db, 1) == [];
  }
}
