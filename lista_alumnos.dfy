/**
 * The student list screen: a search over name and CURP, paging, one expanded
 * row, deletion followed by a refetch, the group label of each student and the
 * rows of the spreadsheet export.
 */
module ListaAlumnos {
  import opened Js
  import opened ListView
  import opened Client

  const Unassigned: string := "Sin asignar"
  const NoTeacher: string := "—"

  /** `a.nombre_completo.toLowerCase().includes(t) || a.curp.toLowerCase().includes(t)` */
  function StudentMatches(term: string, a: Value): Option<bool> {
    EitherOf(Contains(Field(a, "nombre_completo"), term), Contains(Field(a, "curp"), term))
  }

  /** The filter's callback. */
  function KeepStudent(term: string): Value -> Option<bool> {
    a => StudentMatches(term, a)
  }

  /**
   * The filter throws when a student has no string name, or has a name without
   * the term and no string CURP. When every name and CURP is a string it keeps,
   * in order, exactly the students whose name or CURP contains the term, ignoring case.
   */
  lemma StudentFilter(rows: seq<Value>, term: string)
    ensures FilterBy(rows, KeepStudent(term)).None? <==>
      exists a :: a in rows && (!Field(a, "nombre_completo").Str? ||
        (!IncludesIgnoringCase(Field(a, "nombre_completo").s, term) && !Field(a, "curp").Str?))
    ensures (forall a :: a in rows ==> Field(a, "nombre_completo").Str? && Field(a, "curp").Str?) ==>
      FilterBy(rows, KeepStudent(term)).Some? &&
      Subsequence(FilterBy(rows, KeepStudent(term)).value, rows) &&
      forall a :: a in FilterBy(rows, KeepStudent(term)).value <==> (a in rows &&
        (IncludesIgnoringCase(Field(a, "nombre_completo").s, term) || IncludesIgnoringCase(Field(a, "curp").s, term)))
  {
    FilterByMeaning(rows, KeepStudent(term));
  }

  /** With an empty search every student is listed, provided every name is a string. */
  lemma EmptySearchListsAll(rows: seq<Value>)
    requires forall a :: a in rows ==> Field(a, "nombre_completo").Str?
    ensures FilterBy(rows, KeepStudent("")) == Some(rows)
  {
    forall a | a in rows
      ensures KeepStudent("")(a) == Some(true)
    {
      EmptyTermMatches(Field(a, "nombre_completo").s);
    }
    FilterKeepsAll(rows, KeepStudent(""));
  }

  /** `renderGroupLabel(a)` */
  function GroupLabel(a: Value): string {
    if Truthy(Field(a, "id_grupo")) then GradeAndGroup(Field(a, "grado_grupo"), Field(a, "grupo")) else Unassigned
  }

  /** "Sin asignar" appears exactly for the students without a group; any other label has the dash. */
  lemma GroupLabelUnassigned(a: Value)
    ensures GroupLabel(a) == Unassigned <==> !Truthy(Field(a, "id_grupo"))
    ensures Truthy(Field(a, "id_grupo")) ==> '—' in GroupLabel(a)
  {
    if Truthy(Field(a, "id_grupo")) {
      var left := ToString(Field(a, "grado_grupo"));
      var text := GroupLabel(a);
      assert text[|left| + 1] == '—';
      assert forall k :: 0 <= k < |Unassigned| ==> Unassigned[k] != '—';
    }
  }

  /** One spreadsheet row of `handleExportExcel`, columns in order, dates rendered by `localeDate`. */
  function ExcelRow(a: Value, localeDate: Value -> string): seq<SheetCell> {
    [
      SheetCell("Nombre completo", Field(a, "nombre_completo")),
      SheetCell("CURP", Field(a, "curp")),
      SheetCell("Institución", Field(a, "institucion")),
      SheetCell("Profesor (Grupo)", Or(Field(a, "profesor_grupo"), Str(NoTeacher))),
      SheetCell("Género", Field(a, "genero")),
      SheetCell("Grupo", Str(GroupLabel(a))),
      SheetCell("F. Nacimiento", Str(FormatDate(Field(a, "fecha_nacimiento"), localeDate))),
      SheetCell("Edad", Field(a, "edad_calculada")),
      SheetCell("F. Inscripción", Str(FormatDate(Field(a, "fecha_inscripcion"), localeDate))),
      SheetCell("Promovido", Str(YesNo(Field(a, "promovido")))),
      SheetCell("Activo", Str(YesNo(Field(a, "activo")))),
      SheetCell("Diagnóstico", Field(a, "diagnostico_medico")),
      SheetCell("Medicamentos", Field(a, "medicamentos")),
      SheetCell("Alergias", Field(a, "alergias")),
      SheetCell("Observaciones", Field(a, "observaciones")),
      SheetCell("Padre/Tutor", Field(a, "padre_tutor")),
      SheetCell("Contacto Emergencia", Field(a, "contacto_emergencia")),
      SheetCell("Domicilio", Field(a, "domicilio"))
    ]
  }

  /** `filtered.map(...)` for the spreadsheet. */
  function ExcelRows(filtered: seq<Value>, localeDate: Value -> string): seq<seq<SheetCell>> {
    seq(|filtered|, i requires 0 <= i < |filtered| => ExcelRow(filtered[i], localeDate))
  }

  /**
   * The export has one row per listed student, in list order, all with the same
   * eighteen columns: the student's own name and CURP first, the group label the
   * list shows, and the flags as "Sí" exactly when set.
   */
  lemma ExportOnePerStudent(filtered: seq<Value>, localeDate: Value -> string, i: int)
    requires 0 <= i < |filtered|
    ensures |ExcelRows(filtered, localeDate)| == |filtered|
    ensures var row, a := ExcelRows(filtered, localeDate)[i], filtered[i];
      && |row| == 18
      && row[0] == SheetCell("Nombre completo", Field(a, "nombre_completo"))
      && row[1] == SheetCell("CURP", Field(a, "curp"))
      && row[5] == SheetCell("Grupo", Str(GroupLabel(a)))
      && row[9].header == "Promovido" && (row[9].value == Str("Sí") <==> Truthy(Field(a, "promovido")))
      && row[10].header == "Activo" && (row[10].value == Str("Sí") <==> Truthy(Field(a, "activo")))
  {
    assert ExcelRows(filtered, localeDate)[i] == ExcelRow(filtered[i], localeDate);
  }

  /**
   * `handleDelete(id)` after the confirmation: the delete, then a refetch whose
   * array replaces the list. Nothing catches a rejection, so either failing
   * leaves the list as it was.
   */
  method HandleDelete(view: Listing, confirmed: bool, deleted: Response, refetched: Response)
    modifies view
    ensures confirmed && deleted.Ok? && refetched.Ok? && refetched.data.Arr? ==> view.rows == refetched.data.items
    ensures !(confirmed && deleted.Ok? && refetched.Ok? && refetched.data.Arr?) ==> view.rows == old(view.rows)
    ensures view.searchTerm == old(view.searchTerm) && view.page == old(view.page)
    ensures view.pageSize == old(view.pageSize) && view.expandedRow == old(view.expandedRow)
  {
    if confirmed && deleted.Ok? && refetched.Ok? && refetched.data.Arr? {
      view.SetRows(refetched.data.items);
    }
  }
}
