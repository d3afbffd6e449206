/**
 * The staff list screen: the fetched staff ordered newest hire first, a search
 * over name, position and institution, paging, one expanded row, and deletion
 * with the alert that blames assigned groups for a server error.
 */
module ListaPersonal {
  import opened Js
  import opened Ordering
  import opened ListView
  import opened Client
  import opened Http
  import opened Store
  import PersonalController

  const Forbidden: string := "No tienes permisos para ver la lista de personal o tu sesión ha expirado."
  const LoadFailed: string := "Ocurrió un error cargando la lista de personal."
  const HasGroups: string :=
    "Este profesor tiene uno o varios grupos asignados. Por favor, reasigna esos grupos antes de eliminar."
  const DeleteFailed: string := "Ocurrió un error al eliminar el registro."

  // ---------------------------------------------------------------- order

  /**
   * The comparator `new Date(b.fecha_ingreso) - new Date(a.fecha_ingreso)` as a
   * key: the later the hire date, the lower the key. `stamp` is the parsed date.
   */
  function IngresoKey(stamp: Value -> int, p: Value): Key {
    Key(-stamp(Field(p, "fecha_ingreso")), "", "")
  }

  function ByIngreso(stamp: Value -> int): Value -> Key {
    p => IngresoKey(stamp, p)
  }

  /** `data.sort(...)` */
  function NewestFirst(rows: seq<Value>, stamp: Value -> int): seq<Value> {
    SortBy(rows, ByIngreso(stamp))
  }

  /** The sorted list has the same staff, each hired no earlier than the ones after it. */
  lemma NewestFirstOrder(rows: seq<Value>, stamp: Value -> int)
    ensures multiset(NewestFirst(rows, stamp)) == multiset(rows)
    ensures forall i, j :: 0 <= i < j < |NewestFirst(rows, stamp)| ==>
      stamp(Field(NewestFirst(rows, stamp)[i], "fecha_ingreso")) >= stamp(Field(NewestFirst(rows, stamp)[j], "fecha_ingreso"))
  {
    SortByCorrect(rows, ByIngreso(stamp));
    var out := NewestFirst(rows, stamp);
    forall i, j | 0 <= i < j < |out|
      ensures stamp(Field(out[i], "fecha_ingreso")) >= stamp(Field(out[j], "fecha_ingreso"))
    {
      assert KeyLe(IngresoKey(stamp, out[i]), IngresoKey(stamp, out[j]));
    }
  }

  // ---------------------------------------------------------------- search

  /** The search test over `nombre_completo`, `puesto` and `institucion`, in that order. */
  function StaffMatches(term: string, p: Value): Option<bool> {
    EitherOf(Contains(Field(p, "nombre_completo"), term),
      EitherOf(Contains(Field(p, "puesto"), term), Contains(Field(p, "institucion"), term)))
  }

  /** The filter's callback. */
  function KeepStaff(term: string): Value -> Option<bool> {
    p => StaffMatches(term, p)
  }

  /**
   * When the three columns are strings on every member the filter keeps, in
   * order, exactly the members with the term in one of them, ignoring case. A
   * member without a string name always makes it throw.
   */
  lemma StaffFilter(rows: seq<Value>, term: string)
    ensures (exists p :: p in rows && !Field(p, "nombre_completo").Str?) ==> FilterBy(rows, KeepStaff(term)).None?
    ensures (forall p :: p in rows ==>
        Field(p, "nombre_completo").Str? && Field(p, "puesto").Str? && Field(p, "institucion").Str?) ==>
      FilterBy(rows, KeepStaff(term)).Some? &&
      Subsequence(FilterBy(rows, KeepStaff(term)).value, rows) &&
      forall p :: p in FilterBy(rows, KeepStaff(term)).value <==> (p in rows && (
        IncludesIgnoringCase(Field(p, "nombre_completo").s, term) ||
        IncludesIgnoringCase(Field(p, "puesto").s, term) ||
        IncludesIgnoringCase(Field(p, "institucion").s, term)))
  {
    FilterByMeaning(rows, KeepStaff(term));
  }

  // ---------------------------------------------------------------- fetching and deleting

  /** The alert of a failed load: a 403 means no permission, anything else is generic. */
  function LoadAlert(r: Response): string {
    if r.Rejected? && r.status == 403 then Forbidden else LoadFailed
  }

  /** The alert of a failed delete: a 500 is blamed on assigned groups, anything else is generic. */
  function DeleteAlert(r: Response): string {
    if r.Rejected? && r.status == 500 then HasGroups else DeleteFailed
  }

  /**
   * `fetchPersonal()`: an array answer replaces the rows, newest hire first;
   * anything else (a rejection, or a body without `sort`) leaves them and alerts.
   * The page index is kept.
   */
  method FetchPersonal(view: Listing, r: Response, stamp: Value -> int) returns (alert: Option<string>)
    modifies view
    ensures r.Ok? && r.data.Arr? ==> alert.None? && view.rows == NewestFirst(r.data.items, stamp)
    ensures !(r.Ok? && r.data.Arr?) ==> alert == Some(LoadAlert(r)) && view.rows == old(view.rows)
    ensures view.searchTerm == old(view.searchTerm) && view.page == old(view.page)
    ensures view.pageSize == old(view.pageSize) && view.expandedRow == old(view.expandedRow)
  {
    if r.Ok? && r.data.Arr? {
      view.SetRows(NewestFirst(r.data.items, stamp));
      return None;
    }
    return Some(LoadAlert(r));
  }

  /**
   * `handleDelete(id)`: after the confirmation, a successful delete awaits the
   * refetch (whose own alert, if any, is the one shown); a failed one shows `DeleteAlert`.
   */
  method HandleDelete(view: Listing, confirmed: bool, deleted: Response, refetched: Response, stamp: Value -> int)
    returns (alert: Option<string>)
    modifies view
    ensures !confirmed ==> alert.None? && view.rows == old(view.rows)
    ensures confirmed && !deleted.Ok? ==> alert == Some(DeleteAlert(deleted)) && view.rows == old(view.rows)
    ensures confirmed && deleted.Ok? && refetched.Ok? && refetched.data.Arr? ==>
      alert.None? && view.rows == NewestFirst(refetched.data.items, stamp)
    ensures confirmed && deleted.Ok? && !(refetched.Ok? && refetched.data.Arr?) ==>
      alert == Some(LoadAlert(refetched)) && view.rows == old(view.rows)
    ensures view.searchTerm == old(view.searchTerm) && view.page == old(view.page)
    ensures view.pageSize == old(view.pageSize) && view.expandedRow == old(view.expandedRow)
  {
    alert := None;
    if !confirmed {
      return;
    }
    if !deleted.Ok? {
      return Some(DeleteAlert(deleted));
    }
    alert := FetchPersonal(view, refetched, stamp);
  }

  /**
   * With the standard constraints and no database failure, the "reassign the
   * groups" alert appears exactly when the member exists and still leads a
   * group; otherwise the delete succeeds and the list is refetched.
   */
  lemma DeleteFeedback(db: Db, id: int)
    ensures var r := Received(PersonalController.DeletePersonalOutcome(db, Schema, id, {}).reply);
      && (!r.Ok? <==>
            (exists p :: p in Rows(db, Personal) && Matches(p, "id_personal", id)) &&
            (exists g :: g in Rows(db, Grupos) && Matches(g, "id_maestro", id)))
      && (!r.Ok? ==> DeleteAlert(r) == HasGroups)
  {
    PersonalController.DeletePersonalBlockedByGroup(db, id);
  }
}
