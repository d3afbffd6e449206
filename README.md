# A verified model of the school-administration app

The application keeps the records of a network of schools: institutions, staff,
groups and students. An Express API over MySQL serves them, and a React front end
lists, searches, pages, edits and deletes them. This project models that core in
Dafny and proves what each part promises.

**The backend controllers** for students, groups, staff and institutions are
modelled over an abstract store of tables (`Store.Db`). Foreign-key constraints
are a schema parameter. A failing store call is an explicit fault argument.

- Every state-changing handler is a method on a connection pool (`Store.Pool`). It
  is proved to give the answer and leave the store that a `...Outcome` function
  describes. Lemmas then state what those functions promise:
  - the student delete cascades children-first inside one transaction;
  - the staff delete detaches students but not groups;
  - the institution delete reports enrolled students on a 409;
  - the group delete turns a refusal into a fixed 400;
  - no delete has a not-found answer.
- The read handlers are functions over a small relational model (`Sql`): LEFT JOIN
  on a primary key, projection, and `ORDER BY` as a stable sort.

**The front end** is modelled screen by screen:

- **The pager.** Its four buttons and the caption.
- **The four list screens.** Each has:
  - a case-insensitive search filter that may throw on a non-string column;
  - the page count and page slice;
  - the single expanded row;
  - the delete handlers, with their alerts;
  - the spreadsheet rows.
- **The group list** also has its fixed grade order, its teacher-name enrichment
  and its cached students per group.
- **The four edit forms.** Each has:
  - the blank form;
  - the form loaded from a fetched record (text with `||`, ids with `??`, dates cut
    before `T`, flags as `'1'`/`'0'`);
  - the change handler;
  - the payload;
  - the administrator guard;
  - the save request.

A screen's state is a class whose methods update it. The axios layer is the
`Client.Response` datatype, and `Client.Received` links a handler's reply to what
the screen sees.

JavaScript values are `Js.Value`. Objects, rows and forms are `map<string, Value>`.
An exception in a handler or a filter callback is `None`.

## Model

| member | source | states |
|---|---|---|
| AlumnosController.AllAlumnosOnePerStudent | backend/controllers/alumnosController.js:35-42 | The LEFT JOINs on primary keys keep exactly one row per student, with that student's id and name, and the answer is that listing sorted by `nombre_completo`, as a permutation. |
| AlumnosController.AlumnoByIdNotFound | backend/controllers/alumnosController.js:95-97 | The detail answers 404 exactly when no student has the id. |
| AlumnosController.AlumnoByIdFound | backend/controllers/alumnosController.js:52-103 | A 200 detail is the stored student with the requested id, joined by key to its institution, gender, grade, group, the group's teacher and its own teacher, and projected to the detail columns; its own columns are the stored student's. |
| AlumnosController.NullingEmptyFields | backend/controllers/alumnosController.js:109-111 | The `forEach` turns exactly the listed fields holding `''` into null, and adds, removes and changes nothing else. |
| AlumnosController.NormalisedFields | backend/controllers/alumnosController.js:108-111 | Only `id_genero`, `id_grado`, `id_maestro` and `id_grupo` can change (from `''` to null); `id_institucion` and every other field pass through. |
| AlumnosController.Normalise | backend/controllers/alumnosController.js:108-111 | The copy-then-loop of the handler gives the normalised body. |
| AlumnosController.CreateAlumno | backend/controllers/alumnosController.js:106-122 | The handler's reply and new store are those `CreateAlumnoOutcome` describes. |
| AlumnosController.CreateAlumnoAppends | backend/controllers/alumnosController.js:113-117 | A created student is the normalised body with its new key, appended to `alumnos`, and no other table changes. |
| AlumnosController.CreateAlumnoAnswer | backend/controllers/alumnosController.js:117 | The 201 answer carries the new key as `id` unless the body had its own `id`, which the spread lets win. |
| AlumnosController.CreateAlumnoEmpty | backend/controllers/alumnosController.js:118-121 | An empty body is an SQL error: 400 and the store unchanged. |
| AlumnosController.UpdateAlumno | backend/controllers/alumnosController.js:125-141 | The handler's reply and new store are those `UpdateAlumnoOutcome` describes. |
| AlumnosController.UpdateAlumnoOverlays | backend/controllers/alumnosController.js:132-136 | A successful update overlays the normalised body on the students with the id and on no other row or table. |
| AlumnosController.UpdateAlumnoMissingId | backend/controllers/alumnosController.js:132-136 | Updating an id no student has still answers success. |
| AlumnosController.DeleteAlumno | backend/controllers/alumnosController.js:144-168 | The cascade in a transaction, with rollback on any rejection: the reply and store are those `DeleteAlumnoOutcome` describes, and the connection is released on every path. |
| AlumnosController.DeleteAlumnoCommitted | backend/controllers/alumnosController.js:151-160 | After a commit no row of the three child tables or of `alumnos` has the id, every other row of those tables is kept in order, and no other table changes. |
| AlumnosController.DeleteAlumnoMissingId | backend/controllers/alumnosController.js:151-160 | Deleting an id no row has commits, answers success and leaves every table as it was. |
| AlumnosController.DeleteAlumnoNeverBlocked | backend/controllers/alumnosController.js:151-157 | When only the child tables reference students, the children-first cascade never meets a constraint and always commits. |
| AlumnosController.ParentFirstRefused | backend/controllers/alumnosController.js:151-157 | Deleting the student while a dependent row remains is refused by the constraint, which is why the children go first. |
| AlumnosController.AsignarGrupoAlumno | backend/controllers/alumnosController.js:171-189 | The handler's reply and new store are those `AsignarGrupoOutcome` describes. |
| AlumnosController.AsignarGrupoOnlyGroup | backend/controllers/alumnosController.js:175-184 | A falsy `id_grupo` answers 400 with no write; a success changes only `id_grupo` of the addressed students. |
| AlumnosController.AsignarGrupoUnknownGroup | backend/controllers/alumnosController.js:180-188 | Assigning an existing student to a group that does not exist fails with 500 and leaves the store. |
| GruposController.AllGruposOnePerGroup | backend/controllers/gruposController.js:5-24 | One row per group with its key and name, sorted by grade description and then by name, as a permutation. |
| GruposController.GrupoByIdNotFound | backend/controllers/gruposController.js:43-44 | The detail answers 404 exactly when no group has the id. |
| GruposController.GrupoByIdFound | backend/controllers/gruposController.js:26-52 | A 200 detail carries the requested id. |
| GruposController.GroupPupilsExactly | backend/controllers/gruposController.js:113-138 | The students of a group are exactly those whose `id_grupo` is the id, one row each, in storage order. |
| GruposController.TeacherGroupsOnly | backend/controllers/gruposController.js:150-171 | A teacher's list has one row for each group they lead and no other row. |
| GruposController.GruposByProfesorOrder | backend/controllers/gruposController.js:162 | `FIELD` orders unlisted grades first, then Preescolar, Primaria, Secundaria and Media Superior, and by name within a level, as a permutation. |
| GruposController.GruposPorProfesorOrder | backend/controllers/gruposController.js:173-192 | The same rows sorted by grade description, then by name, as a permutation. |
| GruposController.SetAlumnosToGrupo | backend/controllers/gruposController.js:142-144 | The placeholder always answers 501. |
| GruposController.SetProfesToGrupo | backend/controllers/gruposController.js:145-147 | The placeholder always answers 501. |
| GruposController.GroupValuesNulls | backend/controllers/gruposController.js:61-64 | The four written columns are the body's, with a falsy `id_maestro` or `ciclo_escolar` stored as null. |
| GruposController.CreateGrupo | backend/controllers/gruposController.js:55-76 | The handler's reply and new store are those `CreateGrupoOutcome` describes. |
| GruposController.CreateGrupoChecks | backend/controllers/gruposController.js:58-71 | A missing name or grade answers 400 with no write; a created group is the four columns with its new key, appended, and the answer's `id_grupo` is that key. |
| GruposController.UpdateGrupo | backend/controllers/gruposController.js:79-94 | The handler's reply and new store are those `UpdateGrupoOutcome` describes. |
| GruposController.UpdateGrupoFourColumns | backend/controllers/gruposController.js:82-88 | A missing name or grade answers 400 with no write; a success changes only the four columns of the group with the id. |
| GruposController.DeleteGrupo | backend/controllers/gruposController.js:97-110 | The handler's reply and new store are those `DeleteGrupoOutcome` describes. |
| GruposController.DeleteGrupoDecides | backend/controllers/gruposController.js:99-108 | Without store failures the delete either removes the group's rows and nothing else, or answers 400 with the fixed message and leaves the store when a row is referenced. |
| GruposController.GroupReferencedByStudents | backend/controllers/gruposController.js:103-107 | Under the standard constraints only students reference a group. |
| GruposController.DeleteGrupoRefusedIffStudents | backend/controllers/gruposController.js:103-107 | The delete is refused exactly when the group exists and has a student. |
| PersonalController.AllPersonalLabels | backend/controllers/personalController.js:5-28 | One row per staff member in storage order, with its key and the `IFNULL` label: the institution's name, or the key as text (the result column is text) when no institution matches or its name is null. |
| PersonalController.PersonalByIdNotFound | backend/controllers/personalController.js:53-55 | The detail answers 404 exactly when no staff member has the id. |
| PersonalController.PersonalByIdFound | backend/controllers/personalController.js:31-61 | A 200 detail carries the requested id and that member's institution label. |
| PersonalController.ActiveMembers | backend/controllers/personalController.js:122-135 | Before ordering, the teachers are one entry per member with `activo = 1`, and nothing else. |
| PersonalController.ProfesoresAreActive | backend/controllers/personalController.js:122-135 | The teachers are exactly the id and name of the active members, one entry each, sorted by name. |
| PersonalController.CreatePersonal | backend/controllers/personalController.js:64-75 | The handler's reply and new store are those `CreatePersonalOutcome` describes. |
| PersonalController.CreatePersonalEcho | backend/controllers/personalController.js:64-75 | A created member is the body with its key, appended; the answer echoes every property of the body, and the new key as `id` unless the body had one. |
| PersonalController.UpdatePersonal | backend/controllers/personalController.js:78-89 | The handler's reply and new store are those `UpdatePersonalOutcome` describes. |
| PersonalController.UpdatePersonalOverlays | backend/controllers/personalController.js:78-89 | A success overlays the body on the addressed member only; an empty body is refused; an unknown id still answers success. |
| PersonalController.DeletePersonal | backend/controllers/personalController.js:92-119 | The detach and the delete in a transaction, with rollback on any rejection: the reply and store are those `DeletePersonalOutcome` describes, and the connection is released on every path. |
| PersonalController.DeletePersonalRuns | backend/controllers/personalController.js:96-111 | Without store failures the delete commits exactly when its second statement is not refused, and otherwise rolls back to the original store with 500. |
| PersonalController.DeletePersonalCommitted | backend/controllers/personalController.js:102-110 | After a commit no student has the member as teacher, only those students' `id_maestro` changed, the member's row is gone, and no other table changes. |
| PersonalController.ReferencedOnlyByGroups | backend/controllers/personalController.js:102-108 | Once students are detached, only a group led by the member can still reference them. |
| PersonalController.DeletePersonalBlockedByGroup | backend/controllers/personalController.js:102-115 | Under the standard constraints the delete fails with 500 exactly when the member exists and still leads a group, since groups are not detached; the store is then unchanged. |
| PersonalController.DeletePersonalMissingId | backend/controllers/personalController.js:105-111 | An id no member has commits with success and leaves the staff table unchanged. |
| InstitucionesController.AllInstitucionesTyped | backend/controllers/institucionesController.js:5-17 | One row per institution in storage order: its own columns plus the type columns of its catalogue entry, or null when there is none. |
| InstitucionesController.OptionsOnePerInstitution | backend/controllers/institucionesController.js:20-30 | One option per institution, holding exactly its key as `value` and its name as `label`. |
| InstitucionesController.InstitucionById | backend/controllers/institucionesController.js:33-45 | The detail answers 404 exactly when no institution has the id; otherwise it answers a stored institution with that id. |
| InstitucionesController.CreateInstitucion | backend/controllers/institucionesController.js:48-57 | The handler's reply and new store are those `CreateInstitucionOutcome` describes (200, not 201). |
| InstitucionesController.CreateInstitucionEcho | backend/controllers/institucionesController.js:50-52 | A created institution is the body with its key, appended; the answer echoes the body and the new key as `id` unless the body had one. |
| InstitucionesController.UpdateInstitucion | backend/controllers/institucionesController.js:60-68 | The handler's reply and new store are those `UpdateInstitucionOutcome` describes. |
| InstitucionesController.UpdateInstitucionOverlays | backend/controllers/institucionesController.js:62-63 | A success overlays the body on the addressed institution only; an empty body answers 500 and changes nothing. |
| InstitucionesController.DeleteInstitucion | backend/controllers/institucionesController.js:71-92 | The delete with no pre-check, whose refusal is reported afterwards: the reply and store are those `DeleteInstitucionOutcome` describes. |
| InstitucionesController.DeleteInstitucionDecides | backend/controllers/institucionesController.js:74-88 | Without store failures the answer is 409 with the store unchanged exactly when a row it would remove is referenced; otherwise the institution's rows are gone and nothing else changes. |
| InstitucionesController.ConflictListsEnrolled | backend/controllers/institucionesController.js:79-86 | The 409 list holds the name of every student enrolled in the institution, one entry per student, in storage order, and nothing else. |
| InstitucionesController.ConflictNeverEmpty | backend/controllers/institucionesController.js:77-86 | Under the standard constraints only students reference an institution, so a 409 always names at least one. |
| InstitucionesController.ConflictMayBeEmpty | backend/controllers/institucionesController.js:79-86 | The list looks only at students: where another table also references institutions, a 409 can carry an empty list. |
| Client.Received | frontend/src/components/alumnos/FormularioAlumno.jsx:108-113 | A 2xx answer resolves with its body; any other status rejects with the status and body; an unanswered request rejects without a response. |
| Client.ServerMessage | frontend/src/components/alumnos/FormularioAlumno.jsx:113 | `err.response?.data?.mensaje` when it is a non-empty string; otherwise the fallback. |
| Client.MessageShown | frontend/src/components/alumnos/FormularioAlumno.jsx:113 | A non-2xx `{ mensaje }` answer reaches the user word for word. |
| Client.Saved | frontend/src/components/alumnos/FormularioAlumno.jsx:108-114 | A saved form navigates to its list exactly when the request resolved; otherwise it alerts the server's message. |
| Client.SaveRequest | frontend/src/components/alumnos/FormularioAlumno.jsx:109-110 | A non-empty route id gives a PUT to `base/id`; otherwise a POST to `base`; the payload is sent as given. |
| Pagination.ButtonsStayInRange | frontend/src/components/common/Pagination.jsx:6-27 | On a page in range, a button is disabled exactly when pressing it would leave the page where it is, and an enabled button lands on a page in range. |
| Pagination.ButtonsMoveTheirWay | frontend/src/components/common/Pagination.jsx:9-21 | First and previous move back and next and last move forward; previous and next move by exactly one. |
| Pagination.PastTheEnd | frontend/src/components/common/Pagination.jsx:6-26 | Past the last page, next and last are disabled, first goes to page 0 and previous steps back by one. |
| Ordering.SortByCorrect | frontend/src/components/grupos/ListaGrupos.jsx:79-84 | The comparator sort returns its input in ascending key order, as a permutation. |
| ListView.FilterByMeaning | frontend/src/components/alumnos/ListaAlumnos.jsx:76-79 | `filter` throws exactly when the callback throws on some row; otherwise it keeps, in order, exactly the rows the callback accepts. |
| ListView.FilterKeepsAll | frontend/src/components/alumnos/ListaAlumnos.jsx:76-79 | A callback that accepts every row leaves the list unchanged. |
| ListView.Contains | frontend/src/components/alumnos/ListaAlumnos.jsx:77 | `toLowerCase().includes` throws unless the value is a string, and otherwise holds exactly when the term occurs, ignoring case. |
| ListView.EitherOf | frontend/src/components/alumnos/ListaAlumnos.jsx:77-78 | `a \|\| b` over tests that may throw: true when the first is true, or the first is false and the second true; throws when the first throws, or the first is false and the second throws. |
| ListView.EmptyTermMatches | frontend/src/components/alumnos/ListaAlumnos.jsx:77 | Every string contains the empty search term. |
| ListView.YesNo | frontend/src/components/alumnos/ListaAlumnos.jsx:101-102 | The flag shows "Sí" exactly when set, and "No" otherwise. |
| ListView.TotalPages | frontend/src/components/alumnos/ListaAlumnos.jsx:82 | The page count is at least 1, covers every row, and is the least such count. |
| ListView.PageContents | frontend/src/components/alumnos/ListaAlumnos.jsx:83 | A page holds at most a page size of rows, the ones from `page * pageSize` on; it is full unless the list ends on it, and empty exactly when it starts past the end. |
| ListView.RowOnItsPage | frontend/src/components/alumnos/ListaAlumnos.jsx:82-83 | Row `k` is item `k % pageSize` of page `k / pageSize`, and that page is within the page count. |
| ListView.PastLastPageEmpty | frontend/src/components/alumnos/ListaAlumnos.jsx:82-83 | A page index at or past the page count shows no rows. |
| ListView.Toggled | frontend/src/components/alumnos/ListaAlumnos.jsx:73 | The row becomes the open one unless it was open, in which case none is open. |
| ListView.ToggleTwice | frontend/src/components/alumnos/ListaAlumnos.jsx:73 | Toggling the same row twice reopens it if it was open before, and closes everything otherwise. |
| ListView.Listing.constructor | frontend/src/components/alumnos/ListaAlumnos.jsx:17-28 | The mounted screen has no rows, an empty search, five rows a page, and the page and expanded row kept from before. |
| ListView.Listing.SetRows | frontend/src/components/alumnos/ListaAlumnos.jsx:49-53 | A fetch replaces the rows and leaves the page, the search and the expanded row. |
| ListView.Listing.Search | frontend/src/components/alumnos/ListaAlumnos.jsx:160 | Typing a search sets the term and goes back to page 0, keeping the rest. |
| ListView.Listing.ChangePageSize | frontend/src/components/alumnos/ListaAlumnos.jsx:175 | Choosing a page size sets it and goes back to page 0, keeping the rest. |
| ListView.Listing.Turn | frontend/src/components/common/Pagination.jsx:6-27 | An enabled pager button sets the page to its target and a disabled one does nothing; a page in range stays in range. |
| ListView.Listing.ToggleRow | frontend/src/components/alumnos/ListaAlumnos.jsx:73 | The expanded row becomes the toggle of the old one, and nothing else changes. |
| ListaAlumnos.StudentFilter | frontend/src/components/alumnos/ListaAlumnos.jsx:76-79 | The filter throws exactly when a student has no string name, or has a name without the term and no string CURP; with strings throughout it keeps, in order, exactly the students whose name or CURP contains the term. |
| ListaAlumnos.EmptySearchListsAll | frontend/src/components/alumnos/ListaAlumnos.jsx:76-79 | An empty search lists every student whose name is a string. |
| ListaAlumnos.GroupLabelUnassigned | frontend/src/components/alumnos/ListaAlumnos.jsx:86-87 | "Sin asignar" appears exactly for students without a group; any other label has the dash. |
| ListaAlumnos.ExportOnePerStudent | frontend/src/components/alumnos/ListaAlumnos.jsx:91-110 | One spreadsheet row per listed student in list order, each with eighteen columns: name and CURP first, the list's group label as "Grupo", and the flags as "Sí" exactly when set. |
| ListaAlumnos.HandleDelete | frontend/src/components/alumnos/ListaAlumnos.jsx:56-61 | After a confirmed delete, the refetched array replaces the rows; any rejection leaves the rows as they were. |
| ListaGrupos.IndexOf | frontend/src/components/grupos/ListaGrupos.jsx:80-81 | `indexOf` gives the first position of the value, or -1 exactly when it is absent. |
| ListaGrupos.ProfMapLast | frontend/src/components/grupos/ListaGrupos.jsx:66-67 | A key of the staff map names some member, and holds the name of the last member with that id. |
| ListaGrupos.BuildProfMap | frontend/src/components/grupos/ListaGrupos.jsx:66-67 | The `forEach` loop builds the staff map, and throws exactly when some staff entry is null or undefined. |
| ListaGrupos.FirstKeyIn | frontend/src/components/grupos/ListaGrupos.jsx:69-72 | `find` returns a listed key that the row has, and finds none exactly when the row has none of them. |
| ListaGrupos.Enrich | frontend/src/components/grupos/ListaGrupos.jsx:86-94 | The enriched group has `profesor_nombre` and keeps every other property of the group. |
| ListaGrupos.TeacherShown | frontend/src/components/grupos/ListaGrupos.jsx:86-94 | The teacher shown is the group's own truthy `profesor`; else the name of the last staff member whose id the key column holds, when truthy; else null. |
| ListaGrupos.BackendGroupsNeverMapped | frontend/src/components/grupos/ListaGrupos.jsx:69-72 | The rows the group list endpoint sends carry none of the key columns, so the staff map is never used. |
| ListaGrupos.EnrichedInOrder | frontend/src/components/grupos/ListaGrupos.jsx:86-94 | Enriching a list in grade order keeps it in grade order. |
| ListaGrupos.SortedEnriched | frontend/src/components/grupos/ListaGrupos.jsx:79-94 | Sort then enrich gives one entry per kept group, each enriched once, in grade order. |
| ListaGrupos.LoadedGroups | frontend/src/components/grupos/ListaGrupos.jsx:61-102 | The load fails only when some staff entry is null or undefined, or some group lacks a string `grupo` (or, when that does not match, a string `grado`); otherwise it holds one enriched entry per matching group, every one of them, ordered by grade position and then by name. |
| ListaGrupos.EmptySearchKeepsAll | frontend/src/components/grupos/ListaGrupos.jsx:74-77 | An empty search keeps every group whose name is a string. |
| ListaGrupos.UnlistedGradeFirst | frontend/src/components/grupos/ListaGrupos.jsx:14 | A grade spelled differently from the fixed list, in case for instance, sorts before every listed grade. |
| ListaGrupos.WithoutGroup | frontend/src/components/grupos/ListaGrupos.jsx:110 | The list after a delete keeps, in order, exactly the groups whose `id_grupo` is not the id. |
| ListaGrupos.GroupList.constructor | frontend/src/components/grupos/ListaGrupos.jsx:20-37 | The mounted screen has no groups, an empty search, five rows a page, no cached students, and the page and expanded group kept from before. |
| ListaGrupos.GroupList.FetchAndEnrich | frontend/src/components/grupos/ListaGrupos.jsx:61-102 | When both fetches give arrays and the pipeline does not throw, the groups become the pipeline's result; otherwise they stay and the load alert is shown. |
| ListaGrupos.GroupList.Search | frontend/src/components/grupos/ListaGrupos.jsx:215 | The search as written sets the term and keeps the page index. |
| ListaGrupos.GroupList.SearchFromFirstPage | frontend/src/components/grupos/ListaGrupos.jsx:215 | The search as the other lists have it: it sets the term and goes back to page 0. |
| ListaGrupos.GroupList.ChangePageSize | frontend/src/components/grupos/ListaGrupos.jsx:222 | Choosing a page size sets it and goes back to page 0. |
| ListaGrupos.GroupList.Turn | frontend/src/components/grupos/ListaGrupos.jsx:202-203 | A pager button over the loaded groups sets the page to its target when enabled. |
| ListaGrupos.GroupList.HandleDelete | frontend/src/components/grupos/ListaGrupos.jsx:105-119 | A successful delete removes the group from the list and closes it if it was open; a failure shows the server's message or the fallback and changes nothing. |
| ListaGrupos.GroupList.ToggleAlumnos | frontend/src/components/grupos/ListaGrupos.jsx:122-133 | The students are fetched unless a truthy entry is cached; a failed fetch alerts and changes nothing; otherwise the entry is cached and the expansion toggles. |
| ListaGrupos.DeleteFeedback | frontend/src/components/grupos/ListaGrupos.jsx:107-117 | Against the backend's delete, the screen succeeds, or shows the backend's "has students" message, exactly when the group exists and has a student. |
| ListaGrupos.SearchStrandsPage | frontend/src/components/grupos/ListaGrupos.jsx:215 | As written, narrowing the list from page 3 to one group shows "Página 3 de 1" and no rows. |
| ListaGrupos.FirstPageAfterSearch | frontend/src/components/grupos/ListaGrupos.jsx:202-203 | Searching from page 0, the page shown is in range and shows the first rows of the new list. |
| ListaInstituciones.InstitutionFilter | frontend/src/components/instituciones/ListaInstituciones.jsx:100-104 | With present entries and string or missing columns the filter never throws, and it keeps, in order, exactly the institutions with the term in the name, CCT or director; a missing column counts as empty. |
| ListaInstituciones.InstitutionFilterThrows | frontend/src/components/instituciones/ListaInstituciones.jsx:100-104 | A null or undefined entry makes the search throw. |
| ListaInstituciones.BlankInstitutionOnlyUnfiltered | frontend/src/components/instituciones/ListaInstituciones.jsx:100-104 | An institution with no name, CCT or director is listed only while the search is empty; a null or undefined entry is never listed, because the search throws. |
| ListaInstituciones.ConflictAlert | frontend/src/components/instituciones/ListaInstituciones.jsx:72-80 | The backend's 409 shows the header and the enrolled students one per line, or, when it named none, the backend's own message. |
| ListaInstituciones.OtherFailureAlert | frontend/src/components/instituciones/ListaInstituciones.jsx:79-80 | Any other failure shows the server's `mensaje`, or the fallback. |
| ListaInstituciones.HandleDelete | frontend/src/components/instituciones/ListaInstituciones.jsx:66-83 | A successful delete refetches and replaces the rows; a failed one shows the delete alert and keeps them. |
| ListaInstituciones.ExportOnePerInstitution | frontend/src/components/instituciones/ListaInstituciones.jsx:117-129 | One spreadsheet row per listed institution, in order; a missing or null type becomes an empty cell; `activo` is "Sí" exactly when set. |
| ListaPersonal.NewestFirstOrder | frontend/src/components/personal/ListaPersonal.jsx:57-59 | The sorted staff are the same members, each hired no earlier than those after it. |
| ListaPersonal.StaffFilter | frontend/src/components/personal/ListaPersonal.jsx:105-109 | A member without a string name makes the filter throw; with strings throughout it keeps, in order, exactly the members with the term in the name, position or institution. |
| ListaPersonal.FetchPersonal | frontend/src/components/personal/ListaPersonal.jsx:54-70 | An array answer replaces the rows, newest hire first; anything else keeps them and shows the 403 or the generic alert. |
| ListaPersonal.HandleDelete | frontend/src/components/personal/ListaPersonal.jsx:73-89 | A failed delete shows the "assigned groups" alert for a 500 and the generic one otherwise; a success refetches. |
| ListaPersonal.DeleteFeedback | frontend/src/components/personal/ListaPersonal.jsx:80-87 | Against the backend's delete, the "reassign the groups" alert appears exactly when the member exists and still leads a group. |
| Form.FlagRoundTrip | frontend/src/components/alumnos/FormularioAlumno.jsx:86-87 | The payload's `Number` of a loaded flag is 1 or 0 as the record's value was set, and reads back as the same flag. |
| Form.DatePart | frontend/src/components/alumnos/FormularioAlumno.jsx:77-79 | The loaded date throws exactly for a set non-string; otherwise it is the prefix before the first `T`, or `''` when unset. |
| Form.IsoDateDay | frontend/src/components/alumnos/FormularioAlumno.jsx:77-79 | A timestamp `day + "T" + time` loads as its day. |
| Form.LoadRecordMeaning | frontend/src/components/alumnos/FormularioAlumno.jsx:68-89 | Loading throws exactly for a null or undefined record or a set non-string date; otherwise the form has exactly the listed keys, each holding what its rule (`\|\|`, `??`, flag, date) describes. |
| Form.LoadedIsText | frontend/src/components/alumnos/FormularioAlumno.jsx:68-89 | A form loaded from text columns holds only text. |
| Form.FormState.constructor | frontend/src/components/alumnos/FormularioAlumno.jsx:21-39 | The form starts as the given blank form. |
| Form.FormState.HandleChange | frontend/src/components/alumnos/FormularioAlumno.jsx:94-97 | Only the named field changes, and it holds the typed text; a form of text stays a form of text. |
| Form.FormState.Load | frontend/src/components/alumnos/FormularioAlumno.jsx:69 | The loaded record replaces the form. |
| FormularioAlumno.Submit | frontend/src/components/alumnos/FormularioAlumno.jsx:99-111 | A non-administrator's submit does nothing; otherwise the payload is sent, with PUT exactly when there is a route id and POST to the list path otherwise. |
| FormularioAlumno.LoadedKeys | frontend/src/components/alumnos/FormularioAlumno.jsx:69-89 | The loaded form has exactly the blank form's fields. |
| FormularioAlumno.LoadedIds | frontend/src/components/alumnos/FormularioAlumno.jsx:70-74 | The ids are kept unless null or missing, so a 0 stays 0. |
| FormularioAlumno.LoadedDateAndFlags | frontend/src/components/alumnos/FormularioAlumno.jsx:77-87 | The birth date is cut before `T` and the flags become `'1'`/`'0'`. |
| FormularioAlumno.LoadedAlumno | frontend/src/components/alumnos/FormularioAlumno.jsx:68-89 | Loading throws only for a null record or a set non-string birth date; otherwise ids use `??`, text uses `\|\|`, the date is cut and the flags are `'1'`/`'0'`. |
| FormularioAlumno.PayloadShape | frontend/src/components/alumnos/FormularioAlumno.jsx:102-107 | The payload converts both flags with `Number`, sets `no_promovido` to 0 and keeps every other field. |
| FormularioAlumno.LoadedThenSaved | frontend/src/components/alumnos/FormularioAlumno.jsx:68-107 | Saving a loaded student unchanged sends its fields, `promovido` and `activo` as 1 or 0 as they were set, and `no_promovido` as 0. |
| FormularioAlumno.OptionsOfGroups | frontend/src/components/alumnos/FormularioAlumno.jsx:48-53 | Fed with the answer of `GET /grupos`, ordered by grade and name, there are as many options as stored groups; every group has an option whose value is its key and whose text ends with the dash and its name, and every option shows some group. |
| FormularioGrupo.MergeKeepsUnset | frontend/src/components/grupos/FormularioGrupo.jsx:35-41 | The edit load throws for a null record; otherwise each of the four fields takes the fetched value unless it is null or missing, when the previous value stays. |
| FormularioGrupo.Submit | frontend/src/components/grupos/FormularioGrupo.jsx:51-64 | A non-administrator's submit does nothing; a missing name or grade is refused with the alert; otherwise the form is sent unchanged, by PUT exactly when there is a route id. |
| FormularioGrupo.SameCheckAsServer | frontend/src/components/grupos/FormularioGrupo.jsx:54-56 | The form refuses exactly the bodies the backend's create and update would answer with their 400 "required" message. |
| Form.SubmitActive | frontend/src/components/instituciones/FormularioInstitucion.jsx:54-68 | The submit of the institution form (and of the staff form, FormularioPersonal.jsx:62-76): a non-administrator's submit does nothing and nothing is refused on the client; otherwise the form is sent with `activo` as a number and every other field unchanged, by PUT exactly when there is a route id and by POST to the list path otherwise. |
| FormularioInstitucion.LoadedThenSaved | frontend/src/components/instituciones/FormularioInstitucion.jsx:31-60 | Loading throws only for a null record or a set non-string date; the loaded form has the blank form's fields, text with `\|\|`, the date cut and `activo` as a flag; saving it sends `activo` as 1 or 0 and the rest unchanged. |
| FormularioInstitucion.OnlyNameRequired | frontend/src/components/instituciones/FormularioInstitucion.jsx:102-128 | Of the listed inputs only the name is required; the address is the one textarea; every listed field is a field of the form. |
| FormularioPersonal.LoadedThenSaved | frontend/src/components/personal/FormularioPersonal.jsx:37-68 | Loading throws only for a null record or a set non-string hire date; the loaded form has the blank form's fields, text with `\|\|`, the date cut and `activo` as a flag; saving it sends `activo` as 1 or 0 and the rest unchanged. |
| FormularioPersonal.NameAndPositionRequired | frontend/src/components/personal/FormularioPersonal.jsx:107-124 | Of the listed inputs exactly the full name and the position are required, and every listed field is a field of the form. |

## Left out

- The MySQL database and the mysql2 pool are abstract. `backend/db.js` is not part of this model. `Store.Pool` gives the connection and transaction calls the behaviour the handlers rely on. SQL text, joins on non-key columns, and isolation between concurrent requests are not modelled: each request runs alone.
- The database schema is not part of this model. `Store.Schema` assumes the foreign keys the handlers imply, and the other lemmas take the schema as a parameter.
- A store's auto-increment value is a parameter (`autoId`) of each create.
- Collations and `localeCompare` are modelled as code-point order, and `ORDER BY` as a stable sort.
- `toLowerCase` covers only ASCII and Latin-1 capitals.
- `Number` covers only integer numerals, and there are no fractional numbers.
- `new Date(...)` is an integer-timestamp parameter (`stamp`), and `toLocaleDateString` a string parameter (`localeDate`).
- Rendering is not modelled: JSX, window resizing, `localStorage` writes, and the `window.confirm`/`alert` dialogs. Confirmation is a boolean argument, and an alert is returned text.
- The XLSX, jsPDF and file-saver calls are not modelled. The student and institution spreadsheet rows are. The staff list's Excel and PDF exports and the group list's per-group Excel and PDF exports are not: they only arrange fetched columns for those libraries.
- Authentication is not modelled: the auth controller, the middleware, `AuthContext` and the token interceptor. Whether the user is an administrator is a boolean argument.
- Routing and wiring (`server.js`, the route files, `App.js`) are not modelled.
- The catalogue controllers, `Navbar`, `Login` and `GruposPorProfesor` are not modelled.
- The forms' catalogue loads other than the group options are not modelled. These are the institution, gender, grade and staff options, and each is a plain projection.
- The forms' render-time guards are not modelled: hiding inputs from non-administrators, and the always-required selects.
- A response arriving after the screen has moved on (a stale fetch) is not modelled, and neither is the order in which overlapping fetches settle.
- A record's column order is not modelled: rows and forms are maps. This matters only to the spreadsheet, whose rows are therefore built as explicit column sequences.
- Ids are integers in the backend model, and route ids are strings on the client.
- ListaPersonal.FetchPersonal: sorts a sequence, not the fetched array in place. The array is fresh and nothing else holds it. The group list's in-place `sort` on its filtered array is modelled the same way.
- Form.LoadedIsText: proves only what the load rules give, namely that text and id columns which are already text stay text.
- AlumnosController.CreateAlumno: the 400 failure body carries only `mensaje`. The source also sends `error: err.message`, the database driver's own message text, and the driver is not part of this model.
- AlumnosController.UpdateAlumno: the 400 failure body carries only `mensaje`; the driver's `error` text is not modelled.
- AlumnosController.DeleteAlumno: the 500 failure body carries only `mensaje`; the driver's `error` text is not modelled. The model's rollback always succeeds. In the source, a rejected `conn.rollback()` throws out of the `catch`, and the request is left unanswered.
- AlumnosController.AsignarGrupoAlumno: the 500 failure body carries only `mensaje`; the driver's `error` text is not modelled.
- GruposController.CreateGrupo: the 500 failure body carries only `mensaje`; the driver's `error` text is not modelled.
- GruposController.UpdateGrupo: the 500 failure body carries only `mensaje`; the driver's `error` text is not modelled.
- GruposController.DeleteGrupo: the 500 failure body carries only `mensaje`; the driver's `error` text is not modelled.
- PersonalController.CreatePersonal: the 400 failure body carries only `mensaje`; the driver's `error` text is not modelled.
- PersonalController.UpdatePersonal: the 400 failure body carries only `mensaje`; the driver's `error` text is not modelled.
- PersonalController.DeletePersonal: the 500 failure body carries only `mensaje`; the driver's `error` text is not modelled. The model's rollback always succeeds. In the source, a rejected `conn.rollback()` throws out of the `catch`, and the request is left unanswered.
- ListaPersonal.NewestFirstOrder: a null entry in the fetched staff array makes the comparator throw. The model sorts such an entry as one with no hire date.

## Findings

| source | as written | input that shows it | evidently intended | confidence | as-written member | corrected member |
|---|---|---|---|---|---|---|
| frontend/src/components/grupos/ListaGrupos.jsx:215 | The search box only sets the term and keeps the page index. The other list screens reset the page to 0 on a search. | On page 3 (index 2) with five rows a page, a term that matches a single group: the screen shows "Página 3 de 1" and no rows. | The search goes back to page 0, as at ListaAlumnos.jsx:160. | not executed | ListaGrupos.GroupList.Search, ListaGrupos.SearchStrandsPage | ListaGrupos.GroupList.SearchFromFirstPage, ListaGrupos.FirstPageAfterSearch |
