/**
 * The group form: the blank form, the edit load that merges the fetched group
 * over the current form, the client-side check of name and grade, and the
 * submit that sends the form as it is.
 */
module FormularioGrupo {
  import opened Js
  import opened Client
  import opened Form
  import Store
  import Http
  import GruposController

  const ListPath: string := "/grupos"
  const Mandatory: string := "Grupo y Grado son obligatorios"
  const SaveFailed: string := "Error guardando grupo"

  const FormKeys: seq<string> := ["nombre_grupo", "id_grado", "id_maestro", "ciclo_escolar"]

  /** The blank form: four empty fields. */
  const Initial: Record := map k | k in FormKeys :: Str("")

  /** `setForm(prev => ({ k: data.k ?? prev.k, ... }))`; reading a field of a null record throws. */
  function Merged(prev: Record, data: Value): Option<Record> {
    if Nullish(data) then None
    else Some(map k | k in FormKeys :: Coalesce(Field(data, k), Get(prev, k)))
  }

  /**
   * The merge has the four fields and no other; each takes the fetched value
   * unless that is null or missing, in which case the previous value stays.
   */
  lemma MergeKeepsUnset(prev: Record, data: Value)
    ensures Merged(prev, data).None? <==> Nullish(data)
    ensures Merged(prev, data).Some? ==>
      var form := Merged(prev, data).value;
      && form.Keys == Initial.Keys
      && (forall k :: k in form && Nullish(Field(data, k)) ==> form[k] == Get(prev, k))
      && (forall k :: k in form && !Nullish(Field(data, k)) ==> form[k] == Field(data, k))
  {
  }

  /** `handleSubmit` up to the request it sends: the name and the grade must be set. */
  function Submit(isAdmin: bool, id: Option<string>, form: Record): (s: Submission)
    ensures s.Ignored? <==> !isAdmin
    ensures s.Refused? <==> isAdmin && (!Truthy(Get(form, "nombre_grupo")) || !Truthy(Get(form, "id_grado")))
    ensures s.Refused? ==> s.alert == Mandatory
    ensures s.Send? ==> s.request.payload == form
    ensures s.Send? ==> (s.request.Put? <==> id.Some? && id.value != "")
    ensures s.Send? && s.request.Post? ==> s.request.path == ListPath
  {
    if isAdmin && (!Truthy(Get(form, "nombre_grupo")) || !Truthy(Get(form, "id_grado"))) then Refused(Mandatory)
    else Submitted(isAdmin, ListPath, id, form)
  }

  /**
   * For an administrator, the form refuses exactly the bodies the backend would
   * answer with its 400 "required" message, on creation and on update alike; a
   * form that is sent never meets that answer.
   */
  lemma SameCheckAsServer(db: Store.Db, schema: seq<Store.ForeignKey>, form: Record, id: int, autoId: int, fault: bool)
    ensures Submit(true, None, form).Refused? <==>
      GruposController.CreateGrupoOutcome(db, schema, form, autoId, fault).reply == Http.Message(400, GruposController.Required)
    ensures Submit(true, None, form).Refused? <==>
      GruposController.UpdateGrupoOutcome(db, schema, id, form, fault).reply == Http.Message(400, GruposController.Required)
  {
  }
}
