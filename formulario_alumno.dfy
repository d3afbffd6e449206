/**
 * The student form: the blank form, the form loaded from a fetched student
 * (ids kept as they are, text defaulted, date cut, flags as `'1'`/`'0'`), the
 * payload with numeric flags and `no_promovido` forced to 0, the submit, and the
 * group options of its select.
 */
module FormularioAlumno {
  import opened Js
  import opened Client
  import opened Form
  import opened ListView
  import Sql
  import Store
  import GruposController
  import opened Ordering

  const ListPath: string := "/alumnos"
  const SaveFailed: string := "Error al guardar"

  /** The keys of the form, in the order the source lists them. */
  const FormKeys: seq<string> := [
    "id_institucion", "id_genero", "id_grado", "id_grupo", "id_maestro",
    "nombre_completo", "curp", "fecha_nacimiento", "padre_tutor", "contacto_emergencia", "domicilio",
    "diagnostico_medico", "medicamentos", "alergias", "promovido", "activo", "observaciones"
  ]

  /** The catalogue keys, loaded with `??`. */
  const IdKeys: set<string> := {"id_institucion", "id_genero", "id_grado", "id_grupo", "id_maestro"}

  function RuleOf(k: string): Rule {
    if k in IdKeys then AsId
    else if k == "fecha_nacimiento" then AsDate
    else if k == "promovido" || k == "activo" then AsFlag
    else AsText
  }

  /** The blank form: every field empty, not promoted, active. */
  const Initial: Record :=
    map k | k in FormKeys :: if k == "promovido" then Str("0") else if k == "activo" then Str("1") else Str("")

  /** The form built from `GET /alumnos/:id`. */
  function Loaded(data: Value): Option<Record> {
    LoadRecord(data, FormKeys, RuleOf)
  }

  /** `{ ...form, promovido: Number(form.promovido), no_promovido: 0, activo: Number(form.activo) }` */
  function Payload(form: Record): Record {
    WithNumber(WithNumber(form, "promovido"), "activo")["no_promovido" := Num(0)]
  }

  /** `handleSubmit` up to the request it sends. */
  function Submit(isAdmin: bool, id: Option<string>, form: Record): (s: Submission)
    ensures s.Ignored? <==> !isAdmin
    ensures !s.Refused?
    ensures s.Send? ==> s.request.payload == Payload(form)
    ensures s.Send? ==> (s.request.Put? <==> id.Some? && id.value != "")
    ensures s.Send? && s.request.Post? ==> s.request.path == ListPath
  {
    Submitted(isAdmin, ListPath, id, Payload(form))
  }

  /** The loaded form has the blank form's fields. */
  lemma LoadedKeys(data: Value)
    requires Loaded(data).Some?
    ensures Loaded(data).value.Keys == Initial.Keys
  {
    LoadRecordMeaning(data, FormKeys, RuleOf);
  }

  /** The loaded ids are kept unless null or missing, so a 0 stays 0. */
  lemma LoadedIds(data: Value)
    requires Loaded(data).Some?
    ensures forall k :: k in IdKeys ==> k in Loaded(data).value && Describes(Field(data, k), AsId, Loaded(data).value[k])
  {
    LoadRecordMeaning(data, FormKeys, RuleOf);
    assert forall k :: k in IdKeys ==> k in FormKeys;
  }

  /** The loaded birth date and flags. */
  lemma LoadedDateAndFlags(data: Value)
    requires Loaded(data).Some?
    ensures "fecha_nacimiento" in Loaded(data).value
    ensures Describes(Field(data, "fecha_nacimiento"), AsDate, Loaded(data).value["fecha_nacimiento"])
    ensures "promovido" in Loaded(data).value && Loaded(data).value["promovido"] == Flag(Field(data, "promovido"))
    ensures "activo" in Loaded(data).value && Loaded(data).value["activo"] == Flag(Field(data, "activo"))
  {
    LoadRecordMeaning(data, FormKeys, RuleOf);
    assert "promovido" in FormKeys && "activo" in FormKeys && "fecha_nacimiento" in FormKeys;
  }

  /**
   * An edited student loads into a form with the blank form's fields: the ids
   * are kept unless null or missing (so a 0 stays 0), the text is kept unless
   * falsy, the birth date is cut before `T`, the flags become `'1'`/`'0'`.
   * Loading throws only for a null record or a set non-string birth date.
   */
  lemma LoadedAlumno(data: Value)
    ensures Loaded(data).None? <==>
      Nullish(data) || (Truthy(Field(data, "fecha_nacimiento")) && !Field(data, "fecha_nacimiento").Str?)
    ensures Loaded(data).Some? ==>
      var form := Loaded(data).value;
      && form.Keys == Initial.Keys
      && (forall k :: k in IdKeys ==> k in form && Describes(Field(data, k), AsId, form[k]))
      && (forall k :: k in form && RuleOf(k) == AsText ==> Describes(Field(data, k), AsText, form[k]))
      && "fecha_nacimiento" in form && Describes(Field(data, "fecha_nacimiento"), AsDate, form["fecha_nacimiento"])
      && "promovido" in form && form["promovido"] == Flag(Field(data, "promovido"))
      && "activo" in form && form["activo"] == Flag(Field(data, "activo"))
  {
    LoadRecordMeaning(data, FormKeys, RuleOf);
    assert "fecha_nacimiento" in FormKeys;
    if Loaded(data).Some? {
      LoadedKeys(data);
      LoadedIds(data);
      LoadedDateAndFlags(data);
    }
  }

  /** `Payload` converts the two flags, adds `no_promovido` and keeps every other field. */
  lemma PayloadShape(form: Record)
    requires "promovido" in form && "activo" in form
    ensures Payload(form).Keys == form.Keys + {"no_promovido"}
    ensures Payload(form)["promovido"] == ToNumber(form["promovido"])
    ensures Payload(form)["activo"] == ToNumber(form["activo"])
    ensures Payload(form)["no_promovido"] == Num(0)
    ensures forall k :: k in form && k != "promovido" && k != "activo" && k != "no_promovido" ==> Payload(form)[k] == form[k]
  {
  }

  /**
   * Saving a loaded student unchanged sends its fields, `promovido` and
   * `activo` as 1 or 0 as they were set, and `no_promovido` as 0.
   */
  lemma LoadedThenSaved(data: Value)
    requires Loaded(data).Some?
    ensures var form := Loaded(data).value;
      && Payload(form).Keys == form.Keys + {"no_promovido"}
      && Payload(form)["promovido"] == Num(if Truthy(Field(data, "promovido")) then 1 else 0)
      && Payload(form)["activo"] == Num(if Truthy(Field(data, "activo")) then 1 else 0)
      && Payload(form)["no_promovido"] == Num(0)
      && forall k :: k in form && k != "promovido" && k != "activo" && k != "no_promovido" ==> Payload(form)[k] == form[k]
  {
    LoadedDateAndFlags(data);
    PayloadShape(Loaded(data).value);
    FlagRoundTrip(Field(data, "promovido"));
    FlagRoundTrip(Field(data, "activo"));
  }

  /** An option of the group select. */
  datatype GroupOption = GroupOption(value: Value, text: string)

  /** `res.data.map(g => ({ value: g.id_grupo, label: `${g.grado} — ${g.grupo}` }))` */
  function GroupOptions(groups: seq<Value>): seq<GroupOption> {
    seq(|groups|, i requires 0 <= i < |groups| =>
      GroupOption(Field(groups[i], "id_grupo"), GradeAndGroup(Field(groups[i], "grado"), Field(groups[i], "grupo"))))
  }

  /** `text` ends with the dash and `name`. */
  predicate EndsWithName(text: string, name: string) {
    |name| + 3 <= |text| && text[|text| - |name| - 3..] == " — " + name
  }

  /** The option shows stored group `g`: its value is the group's key and its text ends with the group's name. */
  predicate OptionFor(o: GroupOption, g: Record) {
    o.value == Sql.Cell(g, "id_grupo") && EndsWithName(o.text, ToString(Sql.Cell(g, "nombre_grupo")))
  }

  /** Some option shows group `g`. */
  predicate Shown(options: seq<GroupOption>, g: Record) {
    exists j :: 0 <= j < |options| && OptionFor(options[j], g)
  }

  /** Option `o` shows some group. */
  predicate ShowsSome(o: GroupOption, groups: seq<Record>) {
    exists i :: 0 <= i < |groups| && OptionFor(o, groups[i])
  }

  /** As many options as groups; every group has an option that shows it, and every option shows some group. */
  predicate OneOptionPerGroup(options: seq<GroupOption>, groups: seq<Record>) {
    && |options| == |groups|
    && (forall i :: 0 <= i < |groups| ==> Shown(options, groups[i]))
    && (forall j :: 0 <= j < |options| ==> ShowsSome(options[j], groups))
  }

  /**
   * Fed with the answer of `GET /grupos` (ordered by grade, then name), there is
   * one option per stored group: every group has an option that shows it, and
   * every option shows some group.
   */
  lemma OptionsOfGroups(db: Store.Db)
    requires Sql.KeysUnique(db)
    ensures OneOptionPerGroup(GroupOptions(GruposController.GetAllGrupos(db, false).body.items), Store.Rows(db, Store.Grupos))
  {
    var rows := GruposController.Listing(db);
    var sorted := SortBy(rows, GruposController.ByGradeThenName);
    GruposController.ListingRows(db);
    assert multiset(sorted) == multiset(rows) by {
      SortByCorrect(rows, GruposController.ByGradeThenName);
    }
    assert GruposController.GetAllGrupos(db, false).body == Sql.RowsValue(sorted);
    OptionsOfReordered(Store.Rows(db, Store.Grupos), rows, sorted);
  }

  /** Options built from any reordering of rows that carry the groups' keys and names, one row per group. */
  lemma OptionsOfReordered(groups: seq<Record>, rows: seq<Record>, sorted: seq<Record>)
    requires |rows| == |groups| && multiset(sorted) == multiset(rows)
    requires forall i :: 0 <= i < |groups| ==>
      Get(rows[i], "id_grupo") == Sql.Cell(groups[i], "id_grupo") && Get(rows[i], "grupo") == Sql.Cell(groups[i], "nombre_grupo")
    ensures OneOptionPerGroup(GroupOptions(Sql.RowsValue(sorted).items), groups)
  {
    var options := GroupOptions(Sql.RowsValue(sorted).items);
    assert |sorted| == |rows| by {
      assert |multiset(sorted)| == |multiset(rows)|;
    }
    forall i | 0 <= i < |groups|
      ensures Shown(options, groups[i])
    {
      SameElementsIndex(rows, sorted, i);
      var j :| 0 <= j < |sorted| && sorted[j] == rows[i];
      OptionAt(sorted, j, groups[i]);
      assert 0 <= j < |options| && OptionFor(options[j], groups[i]);
    }
    forall j | 0 <= j < |options|
      ensures ShowsSome(options[j], groups)
    {
      SameElementsIndex(sorted, rows, j);
      var i :| 0 <= i < |rows| && rows[i] == sorted[j];
      OptionAt(sorted, j, groups[i]);
      assert 0 <= i < |groups| && OptionFor(options[j], groups[i]);
    }
  }

  /** The option built from a row carrying a group's key and name shows that group. */
  lemma OptionAt(rows: seq<Record>, j: int, g: Record)
    requires 0 <= j < |rows|
    requires Get(rows[j], "id_grupo") == Sql.Cell(g, "id_grupo") && Get(rows[j], "grupo") == Sql.Cell(g, "nombre_grupo")
    ensures |GroupOptions(Sql.RowsValue(rows).items)| == |rows|
    ensures OptionFor(GroupOptions(Sql.RowsValue(rows).items)[j], g)
  {
    var item := Sql.RowsValue(rows).items[j];
    assert item == Obj(rows[j]);
    LabelEndsWithName(Field(item, "grado"), Field(item, "grupo"));
  }

  lemma LabelEndsWithName(grado: Value, grupo: Value)
    ensures EndsWithName(GradeAndGroup(grado, grupo), ToString(grupo))
  {
    var text, name := GradeAndGroup(grado, grupo), ToString(grupo);
    assert text == ToString(grado) + (" — " + name);
  }
}
