/**
 * The staff form: the blank form, the form loaded from a fetched staff member,
 * and the field list whose required inputs are the full name and the position.
 * Its submit is `Form.SubmitActive` with `ListPath` as the base.
 */
module FormularioPersonal {
  import opened Js
  import opened Client
  import opened Form

  const ListPath: string := "/personal"
  const SaveFailed: string := "Error guardando"

  /** The keys of the form, in the order the source lists them. */
  const FormKeys: seq<string> := [
    "id_institucion", "nombre_completo", "rfc", "curp", "puesto", "especialidad", "telefono", "email",
    "fecha_ingreso", "activo"
  ]

  /** How each key is loaded: the date and the flag have their own rule, the rest is text. */
  function RuleOf(k: string): Rule {
    if k == "fecha_ingreso" then AsDate else if k == "activo" then AsFlag else AsText
  }

  /** The blank form: every field empty, `activo` set. */
  const Initial: Record := map k | k in FormKeys :: if k == "activo" then Str("1") else Str("")

  /** The form built from `GET /personal/:id`. */
  function Loaded(data: Value): Option<Record> {
    LoadRecord(data, FormKeys, RuleOf)
  }

  /**
   * An edited staff member loads into a form with the blank form's fields, the
   * hire date cut before `T`, and `activo` as `'1'`/`'0'`; saving it unchanged
   * sends the same fields with `activo` as 1 or 0. Loading throws only for a
   * null record or a set non-string date.
   */
  lemma LoadedThenSaved(data: Value)
    ensures Loaded(data).None? <==>
      Nullish(data) || (Truthy(Field(data, "fecha_ingreso")) && !Field(data, "fecha_ingreso").Str?)
    ensures Loaded(data).Some? ==>
      var form := Loaded(data).value;
      && form.Keys == Initial.Keys
      && (forall k :: k in form && RuleOf(k) == AsText ==> Describes(Field(data, k), AsText, form[k]))
      && Describes(Field(data, "fecha_ingreso"), AsDate, form["fecha_ingreso"])
      && ActivePayload(form).Keys == form.Keys
      && ActivePayload(form)["activo"] == Num(if Truthy(Field(data, "activo")) then 1 else 0)
      && forall k :: k in form && k != "activo" ==> ActivePayload(form)[k] == form[k]
  {
    LoadRecordMeaning(data, FormKeys, RuleOf);
    if Loaded(data).Some? {
      var form := Loaded(data).value;
      assert "activo" in FormKeys && "fecha_ingreso" in FormKeys;
      assert Describes(Field(data, "activo"), AsFlag, form["activo"]);
      FlagRoundTrip(Field(data, "activo"));
    } else if !Nullish(data) {
      assert "fecha_ingreso" in FormKeys;
    }
  }

  /** The listed inputs; every one is an `<input>`. */
  const Fields: seq<FieldDef> := [
    FieldDef("Nombre Completo*", "nombre_completo", None),
    FieldDef("RFC", "rfc", None),
    FieldDef("CURP", "curp", None),
    FieldDef("Puesto*", "puesto", None),
    FieldDef("Especialidad", "especialidad", None),
    FieldDef("Teléfono", "telefono", None),
    FieldDef("Email", "email", Some("email")),
    FieldDef("Fecha Ingreso", "fecha_ingreso", Some("date"))
  ]

  /** Of the listed fields exactly the full name and the position are required; each is a key of the form. */
  lemma NameAndPositionRequired()
    ensures forall i :: 0 <= i < |Fields| ==>
      (Starred(Fields[i]) <==> Fields[i].name == "nombre_completo" || Fields[i].name == "puesto")
    ensures forall i :: 0 <= i < |Fields| ==> Fields[i].name in Initial
  {
    forall i | 0 <= i < |Fields|
      ensures Fields[i].name in FormKeys
      ensures Starred(Fields[i]) <==> Fields[i].name == "nombre_completo" || Fields[i].name == "puesto"
    {
      assert Fields[i].name in FormKeys;
    }
  }
}
