/**
 * The group list screen. On every change of the search term it fetches the
 * groups and the staff, keeps the groups whose name or grade contains the term,
 * orders them by a fixed grade order and then by name, and adds to each a
 * `profesor_nombre`. It pages the result, deletes groups, and opens one group at
 * a time with its students, fetched once and then cached.
 */
module ListaGrupos {
  import opened Js
  import opened Ordering
  import opened Pagination
  import opened ListView
  import opened Client
  import opened Store
  import opened Http
  import GruposController

  /** `gradeOrder`, compared with `===` and so case-sensitively. */
  const GradeOrder: seq<Value> := [Str("Primero"), Str("segundo"), Str("tercero"), Str("cuarto")]

  /** The columns tried, in order, for a staff id on the first fetched group. */
  const PossibleKeys: seq<string> := ["id_profesor", "profesor_grupo", "id_profesor_grupo"]

  const LoadFailed: string := "Error cargando la lista de grupos"
  const DeleteFailed: string := "Error eliminando grupo"
  const PupilsFailed: string := "Error cargando alumnos"

  // ---------------------------------------------------------------- filter and order

  /** `xs.indexOf(v)` */
  function IndexOf(xs: seq<Value>, v: Value): (r: int)
    ensures -1 <= r < |xs|
    ensures r == -1 <==> v !in xs
    ensures r >= 0 ==> xs[r] == v && forall j :: 0 <= j < r ==> xs[j] != v
  {
    if xs == [] then -1
    else if xs[0] == v then 0
    else
      var k := IndexOf(xs[1..], v);
      if k == -1 then -1 else k + 1
  }

  /** `g.grupo.toLowerCase().includes(t) || g.grado.toLowerCase().includes(t)` */
  function GroupMatches(term: string, g: Value): Option<bool> {
    EitherOf(Contains(Field(g, "grupo"), term), Contains(Field(g, "grado"), term))
  }

  /** The filter's callback. */
  function KeepGroup(term: string): Value -> Option<bool> {
    g => GroupMatches(term, g)
  }

  /** A group's name as the comparator reads it. */
  function NameOf(g: Value): string {
    if Field(g, "grupo").Str? then Field(g, "grupo").s else ""
  }

  /** The comparator: position of the grade in `gradeOrder` (-1 when absent), then the name. */
  function GradeKey(g: Value): Key {
    Key(IndexOf(GradeOrder, Field(g, "grado")), NameOf(g), "")
  }

  // ---------------------------------------------------------------- teacher names

  /** The property name `profMap[p.id_personal]` writes to. */
  function StaffKey(p: Value): string {
    ToString(Field(p, "id_personal"))
  }

  /** `allPersonal.forEach(p => { profMap[p.id_personal] = p.nombre_completo })` */
  function ProfMap(staff: seq<Value>): map<string, Value>
    decreases |staff|
  {
    if staff == [] then map[]
    else
      var last := staff[|staff| - 1];
      ProfMap(staff[..|staff| - 1])[StaffKey(last) := Field(last, "nombre_completo")]
  }

  /** A key names some staff member, and then holds the name of the last one with that id. */
  lemma {:induction false} ProfMapLast(staff: seq<Value>, k: string)
    ensures k in ProfMap(staff) <==> exists j :: 0 <= j < |staff| && StaffKey(staff[j]) == k
    ensures k in ProfMap(staff) ==>
      exists j :: 0 <= j < |staff| && StaffKey(staff[j]) == k &&
        ProfMap(staff)[k] == Field(staff[j], "nombre_completo") &&
        forall j' :: j < j' < |staff| ==> StaffKey(staff[j']) != k
    decreases |staff|
  {
    if staff != [] {
      var n := |staff| - 1;
      var front := staff[..n];
      ProfMapLast(front, k);
      assert forall j :: 0 <= j < n ==> front[j] == staff[j];
      if StaffKey(staff[n]) == k {
        assert ProfMap(staff)[k] == Field(staff[n], "nombre_completo");
      } else if k in ProfMap(front) {
        var j :| 0 <= j < n && StaffKey(front[j]) == k &&
          ProfMap(front)[k] == Field(front[j], "nombre_completo") &&
          forall j' :: j < j' < n ==> StaffKey(front[j']) != k;
        assert StaffKey(staff[j]) == k;
      }
    }
  }

  /** Every staff entry is a value whose properties can be read (not null or undefined). */
  predicate AllPresent(staff: seq<Value>) {
    forall p :: p in staff ==> !Nullish(p)
  }

  /**
   * The `forEach` loop that fills `profMap`; reading `p.id_personal` of a null or
   * undefined entry throws (`None`).
   */
  method BuildProfMap(staff: seq<Value>) returns (profMap: Option<map<string, Value>>)
    ensures profMap.Some? <==> AllPresent(staff)
    ensures profMap.Some? ==> profMap.value == ProfMap(staff)
  {
    var built := map[];
    var i := 0;
    while i < |staff|
      invariant 0 <= i <= |staff|
      invariant built == ProfMap(staff[..i])
      invariant forall j :: 0 <= j < i ==> !Nullish(staff[j])
    {
      if Nullish(staff[i]) {
        return None;
      }
      assert staff[..i + 1][..i] == staff[..i];
      built := built[StaffKey(staff[i]) := Field(staff[i], "nombre_completo")];
      i := i + 1;
    }
    assert staff[..i] == staff;
    profMap := Some(built);
  }

  /** The first of `keys` that `row` has as a property (`keys.find(k => k in row)`). */
  function FirstKeyIn(keys: seq<string>, row: Value): (r: Option<string>)
    ensures r.Some? ==> r.value in keys && row.Obj? && r.value in row.fields
    ensures r.None? <==> !row.Obj? || forall k :: k in keys ==> k !in row.fields
  {
    if keys == [] then None
    else if row.Obj? && keys[0] in row.fields then Some(keys[0])
    else FirstKeyIn(keys[1..], row)
  }

  /** `profKey`: looked for on the first group only, and absent when there are none. */
  function ProfKey(raw: seq<Value>): Option<string> {
    if raw == [] then None else FirstKeyIn(PossibleKeys, raw[0])
  }

  /** `profMap[key]`: undefined when absent. */
  function NameFor(profMap: map<string, Value>, key: string): Value {
    if key in profMap then profMap[key] else Undefined
  }

  /** `{ ...g, profesor_nombre }`: the group's own teacher, else the mapped staff name, else null. */
  function Enrich(g: Value, profKey: Option<string>, profMap: map<string, Value>): (r: Value)
    ensures r.Obj? && "profesor_nombre" in r.fields
    ensures g.Obj? ==> forall k :: k != "profesor_nombre" ==> Field(r, k) == Field(g, k)
  {
    var own := Field(g, "profesor");
    var name :=
      if Truthy(own) then own
      else if profKey.Some? && Truthy(NameFor(profMap, ToString(Field(g, profKey.value)))) then
        NameFor(profMap, ToString(Field(g, profKey.value)))
      else Null;
    Obj((if g.Obj? then g.fields else map[])["profesor_nombre" := name])
  }

  /**
   * The teacher shown for a group: its own `profesor` when that is truthy;
   * otherwise, with a key column found, the name of the last staff member whose
   * id reads as the group's value there, when that name is truthy; otherwise null.
   */
  lemma TeacherShown(g: Value, raw: seq<Value>, staff: seq<Value>)
    ensures var shown := Field(Enrich(g, ProfKey(raw), ProfMap(staff)), "profesor_nombre");
      && (Truthy(Field(g, "profesor")) ==> shown == Field(g, "profesor"))
      && (!Truthy(Field(g, "profesor")) && Truthy(shown) ==>
            ProfKey(raw).Some? &&
            exists j :: 0 <= j < |staff| && StaffKey(staff[j]) == ToString(Field(g, ProfKey(raw).value)) &&
              shown == Field(staff[j], "nombre_completo") &&
              forall j' :: j < j' < |staff| ==> StaffKey(staff[j']) != StaffKey(staff[j]))
      && (!Truthy(shown) ==> shown == Null)
  {
    var pk := ProfKey(raw);
    if pk.Some? {
      ProfMapLast(staff, ToString(Field(g, pk.value)));
    }
  }

  /**
   * The rows `GET /grupos` sends carry none of the key columns, so the staff map
   * is never consulted: a group shows its own `profesor`, or null.
   */
  lemma BackendGroupsNeverMapped(raw: seq<Value>, g: Value, staff: seq<Value>)
    requires raw != [] && raw[0].Obj? && raw[0].fields.Keys == GruposController.ListColumns.Keys
    ensures ProfKey(raw).None?
    ensures Field(Enrich(g, ProfKey(raw), ProfMap(staff)), "profesor_nombre") ==
      if Truthy(Field(g, "profesor")) then Field(g, "profesor") else Null
  {
    assert forall k :: k in PossibleKeys ==> k !in GruposController.ListColumns;
  }

  // ---------------------------------------------------------------- the load pipeline

  /** `sorted.map(g => ({ ...g, profesor_nombre }))` */
  function EnrichAll(sorted: seq<Value>, profKey: Option<string>, profMap: map<string, Value>): seq<Value> {
    seq(|sorted|, i requires 0 <= i < |sorted| => Enrich(sorted[i], profKey, profMap))
  }

  /** Filter, sort and enrich, given the built `profMap`; `None` when the filter throws. */
  function Enriched(raw: seq<Value>, profMap: map<string, Value>, term: string): Option<seq<Value>> {
    match FilterBy(raw, KeepGroup(term))
    case None => None
    case Some(kept) => Some(EnrichAll(SortBy(kept, GradeKey), ProfKey(raw), profMap))
  }

  /**
   * The whole of `fetchAndEnrich` after both fetches succeeded with arrays;
   * `None` when building the staff map or the filter throws.
   */
  function Pipeline(raw: seq<Value>, staff: seq<Value>, term: string): Option<seq<Value>> {
    if AllPresent(staff) then Enriched(raw, ProfMap(staff), term) else None
  }

  /** Enriching an object leaves its grade and name, and so its place in the order. */
  lemma EnrichKeepsKey(g: Value, pk: Option<string>, pm: map<string, Value>)
    requires g.Obj?
    ensures GradeKey(Enrich(g, pk, pm)) == GradeKey(g)
  {
    assert Field(Enrich(g, pk, pm), "grado") == Field(g, "grado");
    assert Field(Enrich(g, pk, pm), "grupo") == Field(g, "grupo");
  }

  /** Enriching a list of objects in grade order keeps it in grade order. */
  lemma EnrichedInOrder(sorted: seq<Value>, pk: Option<string>, pm: map<string, Value>)
    requires forall x :: x in sorted ==> x.Obj?
    requires SortedBy(sorted, GradeKey)
    ensures var out := EnrichAll(sorted, pk, pm);
      forall i, j :: 0 <= i < j < |out| ==> KeyLe(GradeKey(out[i]), GradeKey(out[j]))
  {
    var out := EnrichAll(sorted, pk, pm);
    forall i | 0 <= i < |out|
      ensures GradeKey(out[i]) == GradeKey(sorted[i])
    {
      EnrichKeepsKey(sorted[i], pk, pm);
    }
  }

  /** Sorting then enriching objects: one entry per object, each enriched once, in grade order. */
  lemma SortedEnriched(kept: seq<Value>, pk: Option<string>, pm: map<string, Value>)
    requires forall x :: x in kept ==> x.Obj?
    ensures var out := EnrichAll(SortBy(kept, GradeKey), pk, pm);
      && |out| == |kept|
      && (forall g :: g in kept ==> Enrich(g, pk, pm) in out)
      && (forall x :: x in out ==> exists g :: g in kept && x == Enrich(g, pk, pm))
      && (forall i, j :: 0 <= i < j < |out| ==> KeyLe(GradeKey(out[i]), GradeKey(out[j])))
  {
    var sorted := SortBy(kept, GradeKey);
    var out := EnrichAll(sorted, pk, pm);
    SortByCorrect(kept, GradeKey);
    assert forall x :: x in sorted <==> x in kept by {
      forall x ensures x in sorted <==> x in kept {
        assert x in sorted <==> x in multiset(sorted);
      }
    }
    EnrichedInOrder(sorted, pk, pm);
    forall g | g in kept
      ensures Enrich(g, pk, pm) in out
    {
      var i :| 0 <= i < |sorted| && sorted[i] == g;
      assert out[i] == Enrich(g, pk, pm);
    }
    forall x | x in out
      ensures exists g :: g in kept && x == Enrich(g, pk, pm)
    {
      var i :| 0 <= i < |out| && out[i] == x;
      assert sorted[i] in kept;
    }
  }

  /**
   * The loaded list fails only when some staff entry is null or undefined, or
   * some group lacks a string `grupo` (or, with that not matching, a string
   * `grado`). Otherwise it holds one enriched entry
   * per matching group, every one of them, ordered by grade position and then
   * by name.
   */
  lemma LoadedGroups(raw: seq<Value>, staff: seq<Value>, term: string)
    ensures Pipeline(raw, staff, term).Some? <==>
      AllPresent(staff) && forall g :: g in raw ==> KeepGroup(term)(g).Some?
    ensures Pipeline(raw, staff, term).Some? ==>
      var out := Pipeline(raw, staff, term).value;
      var pk, pm := ProfKey(raw), ProfMap(staff);
      && |out| == |FilterBy(raw, KeepGroup(term)).value|
      && (forall g :: g in raw && KeepGroup(term)(g) == Some(true) ==> Enrich(g, pk, pm) in out)
      && (forall x :: x in out ==> exists g :: g in raw && KeepGroup(term)(g) == Some(true) && x == Enrich(g, pk, pm))
      && (forall i, j :: 0 <= i < j < |out| ==> KeyLe(GradeKey(out[i]), GradeKey(out[j])))
  {
    FilterByMeaning(raw, KeepGroup(term));
    if Pipeline(raw, staff, term).Some? {
      var kept := FilterBy(raw, KeepGroup(term)).value;
      forall x | x in kept
        ensures x.Obj?
      {
        assert GroupMatches(term, x).Some?;
      }
      SortedEnriched(kept, ProfKey(raw), ProfMap(staff));
    }
  }

  /** An empty search keeps every group whose name is a string. */
  lemma EmptySearchKeepsAll(raw: seq<Value>)
    requires forall g :: g in raw ==> Field(g, "grupo").Str?
    ensures FilterBy(raw, KeepGroup("")) == Some(raw)
  {
    forall g | g in raw
      ensures KeepGroup("")(g) == Some(true)
    {
      EmptyTermMatches(Field(g, "grupo").s);
    }
    FilterKeepsAll(raw, KeepGroup(""));
  }

  /** A grade spelled differently from the list (in case, say) goes before all listed grades. */
  lemma UnlistedGradeFirst(g: Value, h: Value)
    requires Field(g, "grado") !in GradeOrder && Field(h, "grado") in GradeOrder
    ensures KeyLe(GradeKey(g), GradeKey(h)) && !KeyLe(GradeKey(h), GradeKey(g))
  {
  }

  // ---------------------------------------------------------------- deleting

  /** `prev.filter(g => g.id_grupo !== id)` */
  function WithoutGroup(rows: seq<Value>, id: int): (r: seq<Value>)
    ensures Subsequence(r, rows)
    ensures forall g :: g in r <==> g in rows && Field(g, "id_grupo") != Num(id)
  {
    var keep := (g: Value) => Some(Field(g, "id_grupo") != Num(id));
    FilterByMeaning(rows, keep);
    FilterBy(rows, keep).value
  }

  // ---------------------------------------------------------------- the screen

  class GroupList {
    var grupos: seq<Value>
    var searchTerm: string
    var page: int
    var pageSize: int
    var expandedRow: Option<int>
    var alumnosPorGrupo: map<int, Value>

    predicate Valid()
      reads this
    {
      page >= 0 && pageSize > 0
    }

    constructor(storedPage: nat, storedExpanded: Option<int>)
      ensures Valid()
      ensures grupos == [] && searchTerm == "" && pageSize == 5 && alumnosPorGrupo == map[]
      ensures page == storedPage && expandedRow == storedExpanded
    {
      grupos := [];
      searchTerm := "";
      page := storedPage;
      pageSize := 5;
      expandedRow := storedExpanded;
      alumnosPorGrupo := map[];
    }

    /**
     * `fetchAndEnrich` for the current term, given how `GET /grupos` and then
     * `GET /personal` settled: any rejection or throw leaves the list and shows
     * the load alert.
     */
    method FetchAndEnrich(raw: Response, staff: Response) returns (alert: Option<string>)
      modifies this
      ensures var ok := raw.Ok? && raw.data.Arr? && staff.Ok? && staff.data.Arr? &&
                Pipeline(raw.data.items, staff.data.items, old(searchTerm)).Some?;
        && (ok ==> grupos == Pipeline(raw.data.items, staff.data.items, old(searchTerm)).value && alert.None?)
        && (!ok ==> grupos == old(grupos) && alert == Some(LoadFailed))
      ensures searchTerm == old(searchTerm) && page == old(page) && pageSize == old(pageSize)
      ensures expandedRow == old(expandedRow) && alumnosPorGrupo == old(alumnosPorGrupo)
    {
      if !(raw.Ok? && raw.data.Arr? && staff.Ok? && staff.data.Arr?) {
        return Some(LoadFailed);
      }
      var profMap := BuildProfMap(staff.data.items);
      if profMap.None? {
        return Some(LoadFailed);
      }
      var result := Enriched(raw.data.items, profMap.value, searchTerm);
      if result.None? {
        return Some(LoadFailed);
      }
      grupos := result.value;
      alert := None;
    }

    /** The search box as written: `setSearchTerm(value)` only; the page index stays. */
    method Search(term: string)
      requires Valid()
      modifies this
      ensures Valid()
      ensures searchTerm == term && page == old(page)
      ensures grupos == old(grupos) && pageSize == old(pageSize)
      ensures expandedRow == old(expandedRow) && alumnosPorGrupo == old(alumnosPorGrupo)
    {
      searchTerm := term;
    }

    /** The search box as the other list screens have it: the page goes back to 0. */
    method SearchFromFirstPage(term: string)
      requires Valid()
      modifies this
      ensures Valid()
      ensures searchTerm == term && page == 0
      ensures grupos == old(grupos) && pageSize == old(pageSize)
      ensures expandedRow == old(expandedRow) && alumnosPorGrupo == old(alumnosPorGrupo)
    {
      searchTerm := term;
      page := 0;
    }

    /** Choosing a page size: `setPageSize(n); setPage(0)`. */
    method ChangePageSize(n: int)
      requires Valid() && n > 0
      modifies this
      ensures Valid()
      ensures pageSize == n && page == 0
      ensures grupos == old(grupos) && searchTerm == old(searchTerm)
      ensures expandedRow == old(expandedRow) && alumnosPorGrupo == old(alumnosPorGrupo)
    {
      pageSize := n;
      page := 0;
    }

    /** A pager button over the loaded groups. */
    method Turn(b: Button)
      requires Valid()
      modifies this
      ensures Valid()
      ensures var total := TotalPages(|grupos|, pageSize);
        page == if Disabled(b, old(page), total) then old(page) else Target(b, old(page), total)
      ensures grupos == old(grupos) && searchTerm == old(searchTerm) && pageSize == old(pageSize)
      ensures expandedRow == old(expandedRow) && alumnosPorGrupo == old(alumnosPorGrupo)
    {
      var total := TotalPages(|grupos|, pageSize);
      if !Disabled(b, page, total) {
        page := Target(b, page, total);
      }
    }

    /**
     * `handleDelete(id)`, given the confirmation and how `DELETE /grupos/:id`
     * settled: on success the group leaves the list and, when it was open, the
     * expansion closes; on failure the server's message (or the fallback) is shown.
     */
    method HandleDelete(id: int, confirmed: bool, response: Response) returns (alert: Option<string>)
      modifies this
      ensures !confirmed ==> alert.None? && grupos == old(grupos) && expandedRow == old(expandedRow)
      ensures confirmed && response.Ok? ==>
        alert.None? && grupos == WithoutGroup(old(grupos), id) &&
        expandedRow == (if old(expandedRow) == Some(id) then None else old(expandedRow))
      ensures confirmed && !response.Ok? ==>
        alert == Some(ServerMessage(response, DeleteFailed)) &&
        grupos == old(grupos) && expandedRow == old(expandedRow)
      ensures searchTerm == old(searchTerm) && page == old(page) && pageSize == old(pageSize)
      ensures alumnosPorGrupo == old(alumnosPorGrupo)
    {
      alert := None;
      if !confirmed {
        return;
      }
      if !response.Ok? {
        return Some(ServerMessage(response, DeleteFailed));
      }
      grupos := WithoutGroup(grupos, id);
      if expandedRow == Some(id) {
        expandedRow := None;
      }
    }

    /**
     * `toggleAlumnos(id)`: the students are fetched unless a truthy entry is
     * cached; a failed fetch shows an alert and changes nothing, otherwise the
     * entry is cached and the group's expansion toggles.
     */
    method ToggleAlumnos(id: int, fetched: Response) returns (alert: Option<string>)
      modifies this
      ensures var cached := id in old(alumnosPorGrupo) && Truthy(old(alumnosPorGrupo)[id]);
        && (!cached && !fetched.Ok? ==>
              alert == Some(PupilsFailed) && alumnosPorGrupo == old(alumnosPorGrupo) && expandedRow == old(expandedRow))
        && (cached ==> alert.None? && alumnosPorGrupo == old(alumnosPorGrupo) && expandedRow == Toggled(old(expandedRow), id))
        && (!cached && fetched.Ok? ==>
              alert.None? && alumnosPorGrupo == old(alumnosPorGrupo)[id := fetched.data] &&
              expandedRow == Toggled(old(expandedRow), id))
      ensures grupos == old(grupos) && searchTerm == old(searchTerm)
      ensures page == old(page) && pageSize == old(pageSize)
    {
      alert := None;
      if !(id in alumnosPorGrupo && Truthy(alumnosPorGrupo[id])) {
        if !fetched.Ok? {
          return Some(PupilsFailed);
        }
        alumnosPorGrupo := alumnosPorGrupo[id := fetched.data];
      }
      expandedRow := Toggled(expandedRow, id);
    }
  }

  /**
   * With the standard constraints and no database failure, deleting a group from
   * the list either succeeds, or is refused with the backend's message naming
   * its students, exactly when the group exists and has a student.
   */
  lemma DeleteFeedback(db: Db, id: int)
    ensures var r := Received(GruposController.DeleteGrupoOutcome(db, Schema, id, false).reply);
      && (!r.Ok? <==>
            (exists g :: g in Rows(db, Grupos) && Matches(g, "id_grupo", id)) &&
            (exists s :: s in Rows(db, Alumnos) && Matches(s, "id_grupo", id)))
      && (!r.Ok? ==> ServerMessage(r, DeleteFailed) == GruposController.HasStudents)
  {
    GruposController.DeleteGrupoRefusedIffStudents(db, id);
    GruposController.DeleteGrupoDecides(db, Schema, id);
    MessageShown(400, GruposController.HasStudents, DeleteFailed);
  }

  // ---------------------------------------------------------------- the stranded page

  /**
   * As written, a search that narrows the list keeps the page index: on page 3
   * of 3 (index 2, five rows a page), a term matching one group leaves the
   * screen on "Página 3 de 1" with no rows.
   */
  lemma SearchStrandsPage(matching: seq<Value>)
    requires |matching| == 1
    ensures TotalPages(|matching|, 5) == 1
    ensures Paged(matching, 2, 5) == []
    ensures Caption(2, TotalPages(|matching|, 5)) == Caption(2, 1)
  {
    PastLastPageEmpty(matching, 2, 5);
  }

  /**
   * Searching from the first page, the page shown after the reload is in range
   * and shows the first rows of the new list, whatever it holds.
   */
  lemma FirstPageAfterSearch(rows: seq<Value>, pageSize: int)
    requires pageSize > 0
    ensures 0 < TotalPages(|rows|, pageSize)
    ensures |Paged(rows, 0, pageSize)| == if |rows| < pageSize then |rows| else pageSize
    ensures forall i :: 0 <= i < |Paged(rows, 0, pageSize)| ==> Paged(rows, 0, pageSize)[i] == rows[i]
  {
    PageContents(rows, 0, pageSize);
  }
}
