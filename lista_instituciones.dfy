/**
 * The institution list screen: a search over name, CCT and director that
 * treats missing values as empty, paging, one expanded row, deletion with the
 * alert that lists the students still enrolled, and the spreadsheet rows.
 */
module ListaInstituciones {
  import opened Js
  import opened ListView
  import opened Client
  import opened Http
  import InstitucionesController
  import Store

  const EnrolledHeader: string := "No se puede eliminar la institución porque tiene alumnos asignados:\n\n"
  const DeleteFailed: string := "Error eliminando institución"

  /** `(v ?? '').toLowerCase().includes(t)` */
  function ContainsOrEmpty(v: Value, term: string): Option<bool> {
    Contains(Coalesce(v, Str("")), term)
  }

  /**
   * The search test over `nombre`, `cct` and `director`, in that order. Reading
   * a property of a null or undefined entry throws (`None`).
   */
  function InstitutionMatches(term: string, i: Value): Option<bool> {
    if Nullish(i) then None
    else
      EitherOf(ContainsOrEmpty(Field(i, "nombre"), term),
        EitherOf(ContainsOrEmpty(Field(i, "cct"), term), ContainsOrEmpty(Field(i, "director"), term)))
  }

  /** The filter's callback. */
  function KeepInstitution(term: string): Value -> Option<bool> {
    i => InstitutionMatches(term, i)
  }

  /** A searched column that is a string, or missing, or null. */
  predicate Searchable(v: Value) {
    v.Str? || Nullish(v)
  }

  /** The text a searched column contributes: a missing or null one counts as empty. */
  function TextOf(v: Value): string {
    if v.Str? then v.s else ""
  }

  /**
   * A null or undefined entry makes the filter throw. When every entry is
   * present and its three columns are strings or absent the filter never throws,
   * and it keeps, in order, exactly the institutions with the term in one of
   * them, ignoring case; an absent column counts as empty.
   */
  lemma InstitutionFilterThrows(rows: seq<Value>, term: string)
    requires exists i :: i in rows && Nullish(i)
    ensures FilterBy(rows, KeepInstitution(term)).None?
  {
    FilterByMeaning(rows, KeepInstitution(term));
  }

  lemma InstitutionFilter(rows: seq<Value>, term: string)
    requires forall i :: i in rows ==>
      !Nullish(i) && Searchable(Field(i, "nombre")) && Searchable(Field(i, "cct")) && Searchable(Field(i, "director"))
    ensures FilterBy(rows, KeepInstitution(term)).Some?
    ensures Subsequence(FilterBy(rows, KeepInstitution(term)).value, rows)
    ensures forall i :: i in FilterBy(rows, KeepInstitution(term)).value <==> (i in rows && (
      IncludesIgnoringCase(TextOf(Field(i, "nombre")), term) ||
      IncludesIgnoringCase(TextOf(Field(i, "cct")), term) ||
      IncludesIgnoringCase(TextOf(Field(i, "director")), term)))
  {
    FilterByMeaning(rows, KeepInstitution(term));
  }

  /**
   * An institution with no name, CCT or director is listed only while the search
   * box is empty; a null or undefined entry is never listed, since the search throws.
   */
  lemma BlankInstitutionOnlyUnfiltered(i: Value, term: string)
    requires Nullish(Field(i, "nombre")) && Nullish(Field(i, "cct")) && Nullish(Field(i, "director"))
    ensures InstitutionMatches(term, i) == Some(true) <==> !Nullish(i) && ToLowerCase(term) == ""
    ensures Nullish(i) ==> InstitutionMatches(term, i).None?
  {
    if Nullish(i) {
    } else if ToLowerCase(term) == "" {
      EmptyTermMatches("");
    } else {
      assert !IncludesIgnoringCase("", term);
    }
  }

  /**
   * The alert after a failed delete: with a non-empty `alumnos` array in the
   * body, the header and the names one per line; otherwise the server's message
   * or the fallback. A non-empty string there has no `join`, so the handler
   * throws and nothing is shown (`None`).
   */
  function DeleteAlert(r: Response): Option<string> {
    var alumnos := if r.Rejected? then Field(r.data, "alumnos") else Undefined;
    if alumnos.Arr? && |alumnos.items| > 0 then Some(EnrolledHeader + Join(alumnos.items, "\n"))
    else if alumnos.Str? && |alumnos.s| > 0 then None
    else Some(ServerMessage(r, DeleteFailed))
  }

  /**
   * What the user reads when the backend refuses the delete with its 409: the
   * names of the enrolled students, or, when it found none to name, the backend's
   * own message.
   */
  lemma ConflictAlert(db: Store.Db, id: int)
    ensures var names := InstitucionesController.EnrolledNames(db, id);
      DeleteAlert(Received(InstitucionesController.Conflict(db, id))) ==
        Some(if names != [] then EnrolledHeader + Join(names, "\n") else InstitucionesController.StillEnrolled)
  {
  }

  /** Any other refusal shows the server's `mensaje`, or the fallback when it has none. */
  lemma OtherFailureAlert(r: Response)
    requires !(r.Rejected? && Field(r.data, "alumnos").Arr? && |Field(r.data, "alumnos").items| > 0)
    requires !(r.Rejected? && Field(r.data, "alumnos").Str?)
    ensures DeleteAlert(r) == Some(ServerMessage(r, DeleteFailed))
  {
  }

  /**
   * `handleDelete(id)`: after the confirmation, a successful delete refetches
   * the list (its array replaces the rows) and a failed one shows `DeleteAlert`.
   */
  method HandleDelete(view: Listing, confirmed: bool, deleted: Response, refetched: Response)
    returns (alert: Option<string>)
    modifies view
    ensures !confirmed ==> alert.None? && view.rows == old(view.rows)
    ensures confirmed && deleted.Ok? ==> (alert.None? &&
      view.rows == (if refetched.Ok? && refetched.data.Arr? then refetched.data.items else old(view.rows)))
    ensures confirmed && !deleted.Ok? ==> alert == DeleteAlert(deleted) && view.rows == old(view.rows)
    ensures view.searchTerm == old(view.searchTerm) && view.page == old(view.page)
    ensures view.pageSize == old(view.pageSize) && view.expandedRow == old(view.expandedRow)
  {
    alert := None;
    if !confirmed {
      return;
    }
    if !deleted.Ok? {
      return DeleteAlert(deleted);
    }
    if refetched.Ok? && refetched.data.Arr? {
      view.SetRows(refetched.data.items);
    }
  }

  /** One spreadsheet row of `handleExportExcel`. */
  function ExcelRow(i: Value, localeDate: Value -> string): seq<SheetCell> {
    [
      SheetCell("Nombre", Field(i, "nombre")),
      SheetCell("Tipo", Coalesce(Field(i, "tipo"), Str(""))),
      SheetCell("CCT", Field(i, "cct")),
      SheetCell("Zona", Field(i, "zona")),
      SheetCell("Sector", Field(i, "sector")),
      SheetCell("Director", Field(i, "director")),
      SheetCell("Teléfono", Field(i, "telefono")),
      SheetCell("Email", Field(i, "email")),
      SheetCell("Fecha creación", Str(FormatDate(Field(i, "fecha_creacion"), localeDate))),
      SheetCell("Activo", Str(YesNo(Field(i, "activo"))))
    ]
  }

  function ExcelRows(filtered: seq<Value>, localeDate: Value -> string): seq<seq<SheetCell>> {
    seq(|filtered|, k requires 0 <= k < |filtered| => ExcelRow(filtered[k], localeDate))
  }

  /**
   * One row per listed institution, in order; a missing or null type is written
   * as an empty cell, any other kept as is, and `activo` becomes "Sí" exactly when set.
   */
  lemma ExportOnePerInstitution(filtered: seq<Value>, localeDate: Value -> string, k: int)
    requires 0 <= k < |filtered|
    ensures |ExcelRows(filtered, localeDate)| == |filtered|
    ensures var row, i := ExcelRows(filtered, localeDate)[k], filtered[k];
      && |row| == 10
      && row[0] == SheetCell("Nombre", Field(i, "nombre"))
      && row[1].header == "Tipo"
      && (Nullish(Field(i, "tipo")) ==> row[1].value == Str(""))
      && (!Nullish(Field(i, "tipo")) ==> row[1].value == Field(i, "tipo"))
      && row[9].header == "Activo" && (row[9].value == Str("Sí") <==> Truthy(Field(i, "activo")))
  {
    assert ExcelRows(filtered, localeDate)[k] == ExcelRow(filtered[k], localeDate);
  }
}
