/**
 * The institution form: the blank form, the form loaded from a fetched
 * institution, and the field list whose only required input is the name. Its
 * submit is `Form.SubmitActive` with `ListPath` as the base.
 */
module FormularioInstitucion {
  import opened Js
  import opened Client
  import opened Form

  const ListPath: string := "/instituciones"
  const SaveFailed: string := "Error guardando"

  /** The keys of the form, in the order the source lists them. */
  const FormKeys: seq<string> := [
    "id_tipo", "nombre", "cct", "zona", "sector", "domicilio", "telefono", "email", "director",
    "fecha_creacion", "activo"
  ]

  /** How each key is loaded: the date and the flag have their own rule, the rest is text. */
  function RuleOf(k: string): Rule {
    if k == "fecha_creacion" then AsDate else if k == "activo" then AsFlag else AsText
  }

  /** The blank form: every field empty, `activo` set. */
  const Initial: Record := map k | k in FormKeys :: if k == "activo" then Str("1") else Str("")

  /** The form built from `GET /instituciones/:id`. */
  function Loaded(data: Value): Option<Record> {
    LoadRecord(data, FormKeys, RuleOf)
  }

  /**
   * An edited institution loads into a form with the blank form's fields, the
   * date cut before `T`, and `activo` as `'1'`/`'0'`; saving it unchanged sends
   * the same fields with `activo` as 1 or 0. Loading throws only for a null
   * record or a set non-string date.
   */
  lemma LoadedThenSaved(data: Value)
    ensures Loaded(data).None? <==>
      Nullish(data) || (Truthy(Field(data, "fecha_creacion")) && !Field(data, "fecha_creacion").Str?)
    ensures Loaded(data).Some? ==>
      var form := Loaded(data).value;
      && form.Keys == Initial.Keys
      && (forall k :: k in form && RuleOf(k) == AsText ==> Describes(Field(data, k), AsText, form[k]))
      && Describes(Field(data, "fecha_creacion"), AsDate, form["fecha_creacion"])
      && ActivePayload(form).Keys == form.Keys
      && ActivePayload(form)["activo"] == Num(if Truthy(Field(data, "activo")) then 1 else 0)
      && forall k :: k in form && k != "activo" ==> ActivePayload(form)[k] == form[k]
  {
    LoadRecordMeaning(data, FormKeys, RuleOf);
    if Loaded(data).Some? {
      var form := Loaded(data).value;
      assert "activo" in FormKeys && "fecha_creacion" in FormKeys;
      assert Describes(Field(data, "activo"), AsFlag, form["activo"]);
      FlagRoundTrip(Field(data, "activo"));
    } else if !Nullish(data) {
      assert "fecha_creacion" in FormKeys;
    }
  }

  /** The listed inputs. */
  const Fields: seq<FieldDef> := [
    FieldDef("Nombre*", "nombre", None),
    FieldDef("CCT", "cct", None),
    FieldDef("Zona", "zona", None),
    FieldDef("Sector", "sector", None),
    FieldDef("Domicilio", "domicilio", None),
    FieldDef("Teléfono", "telefono", None),
    FieldDef("Email", "email", Some("email")),
    FieldDef("Director", "director", None),
    FieldDef("Fecha creación", "fecha_creacion", Some("date"))
  ]

  /** `fld.name === 'domicilio'` renders a textarea, which has no `required`. */
  predicate IsTextArea(f: FieldDef) {
    f.name == "domicilio"
  }

  predicate Required(f: FieldDef) {
    !IsTextArea(f) && Starred(f)
  }

  /**
   * Of the listed fields only the name is required; the address is the one
   * textarea; every listed field is a key of the form.
   */
  lemma OnlyNameRequired()
    ensures forall i :: 0 <= i < |Fields| ==> (Required(Fields[i]) <==> Fields[i].name == "nombre")
    ensures forall i :: 0 <= i < |Fields| ==> (IsTextArea(Fields[i]) <==> Fields[i].name == "domicilio")
    ensures forall i :: 0 <= i < |Fields| ==> Fields[i].name in Initial
  {
    forall i | 0 <= i < |Fields|
      ensures Fields[i].name in FormKeys
      ensures Required(Fields[i]) <==> Fields[i].name == "nombre"
    {
      assert Fields[i].name in FormKeys;
    }
  }
}
