/**
 * What the list screens share: the search filter as `Array.prototype.filter`
 * with a predicate that may throw, the page count and page slice, the
 * single-row expansion toggle, and the state a list screen keeps (rows, search
 * term, page, page size, expanded row).
 */
module ListView {
  import opened Js
  import opened Pagination

  // ---------------------------------------------------------------- filtering

  /** `xs` is `ys` with some elements dropped, order kept. */
  ghost predicate Subsequence<T>(xs: seq<T>, ys: seq<T>)
    decreases |ys|
  {
    if xs == [] then true
    else if ys == [] then false
    else if xs[0] == ys[0] then Subsequence(xs[1..], ys[1..])
    else Subsequence(xs, ys[1..])
  }

  /**
   * `rows.filter(keep)`: `keep` answers `None` where the predicate throws, and
   * then the whole filter throws (`None`).
   */
  function FilterBy<T>(rows: seq<T>, keep: T -> Option<bool>): Option<seq<T>>
    decreases |rows|
  {
    if rows == [] then Some([])
    else match keep(rows[0])
      case None => None
      case Some(k) =>
        match FilterBy(rows[1..], keep)
        case None => None
        case Some(rest) => Some(if k then [rows[0]] + rest else rest)
  }

  /**
   * The filter throws exactly when the predicate throws on some row; otherwise it
   * keeps, in their order, exactly the rows the predicate accepts.
   */
  lemma {:induction false} FilterByMeaning<T>(rows: seq<T>, keep: T -> Option<bool>)
    ensures FilterBy(rows, keep).Some? <==> forall x :: x in rows ==> keep(x).Some?
    ensures FilterBy(rows, keep).Some? ==>
      var kept := FilterBy(rows, keep).value;
      Subsequence(kept, rows) &&
      (forall x :: x in kept <==> x in rows && keep(x) == Some(true))
    decreases |rows|
  {
    if rows != [] {
      FilterByMeaning(rows[1..], keep);
      assert forall x :: x in rows <==> x == rows[0] || x in rows[1..];
      if FilterBy(rows, keep).Some? {
        var rest := FilterBy(rows[1..], keep).value;
        SubsequenceCons(rows[0], rest, rows[1..], keep(rows[0]) == Some(true));
      }
    }
  }

  lemma {:induction false} SubsequenceCons<T>(x: T, xs: seq<T>, ys: seq<T>, take: bool)
    requires Subsequence(xs, ys)
    ensures Subsequence(if take then [x] + xs else xs, [x] + ys)
    decreases |ys|
  {
    if take {
      assert ([x] + xs)[1..] == xs;
    } else if xs != [] {
      assert ([x] + ys)[1..] == ys;
      if xs[0] == x {
        SubsequenceSkipRepeat(xs, ys, x);
      }
    }
  }

  /** Dropping the head `x` of a subsequence of `ys` leaves a subsequence of `ys`. */
  lemma {:induction false} SubsequenceSkipRepeat<T>(xs: seq<T>, ys: seq<T>, x: T)
    requires xs != [] && xs[0] == x && Subsequence(xs, ys)
    ensures Subsequence(xs[1..], ys)
    decreases |ys|, 0
  {
    if ys[0] == xs[0] {
      SubsequenceDrop(xs[1..], ys[1..], ys[0]);
    } else {
      SubsequenceSkipRepeat(xs, ys[1..], x);
      SubsequenceDrop(xs[1..], ys[1..], ys[0]);
    }
  }

  lemma {:induction false} SubsequenceDrop<T>(xs: seq<T>, ys: seq<T>, y: T)
    requires Subsequence(xs, ys)
    ensures Subsequence(xs, [y] + ys)
    decreases |ys|, 1
  {
    assert ([y] + ys)[1..] == ys;
    if xs != [] && xs[0] == y {
      SubsequenceSkipRepeat(xs, ys, y);
    }
  }

  /** When the predicate accepts every row, the filter returns the list unchanged. */
  lemma {:induction false} FilterKeepsAll<T>(rows: seq<T>, keep: T -> Option<bool>)
    requires forall x :: x in rows ==> keep(x) == Some(true)
    ensures FilterBy(rows, keep) == Some(rows)
    decreases |rows|
  {
    if rows != [] {
      assert rows[0] in rows;
      FilterKeepsAll(rows[1..], keep);
      assert [rows[0]] + rows[1..] == rows;
    }
  }

  /** `(v).toLowerCase().includes(term.toLowerCase())`: throws unless `v` is a string. */
  function Contains(v: Value, term: string): (r: Option<bool>)
    ensures r.Some? <==> v.Str?
    ensures r.Some? ==> (r.value <==> IncludesIgnoringCase(v.s, term))
  {
    if v.Str? then Some(IncludesIgnoringCase(v.s, term)) else None
  }

  /** `a || b` over tests that may throw: `b` runs only when `a` is false. */
  function EitherOf(a: Option<bool>, b: Option<bool>): (r: Option<bool>)
    ensures r == Some(true) <==> a == Some(true) || (a == Some(false) && b == Some(true))
    ensures r.None? <==> a.None? || (a == Some(false) && b.None?)
  {
    match a
    case None => None
    case Some(true) => Some(true)
    case Some(false) => b
  }

  /** Every string contains the empty search term, whatever its case. */
  lemma EmptyTermMatches(s: string)
    ensures Contains(Str(s), "") == Some(true)
  {
    EmptyIncluded(ToLowerCase(s));
  }

  // ---------------------------------------------------------------- cells

  /** One column of an exported row; `json_to_sheet` takes the columns in key order. */
  datatype SheetCell = SheetCell(header: string, value: Value)

  /** `v ? 'Sí' : 'No'` */
  function YesNo(v: Value): (r: string)
    ensures r == "Sí" <==> Truthy(v)
    ensures r == "No" <==> !Truthy(v)
  {
    if Truthy(v) then "Sí" else "No"
  }

  /**
   * `formatDate(iso)`: empty for a falsy value, otherwise the locale rendering of
   * the parsed date, which is left to the `localeDate` parameter.
   */
  function FormatDate(iso: Value, localeDate: Value -> string): string {
    if Truthy(iso) then localeDate(iso) else ""
  }

  /** `${grado} — ${grupo}`, how a group is named in student screens. */
  function GradeAndGroup(grado: Value, grupo: Value): string {
    ToString(grado) + " — " + ToString(grupo)
  }

  // ---------------------------------------------------------------- paging

  /** `Math.max(1, Math.ceil(n / pageSize))` */
  function TotalPages(n: nat, pageSize: int): (r: int)
    requires pageSize > 0
    ensures r >= 1
    ensures n <= r * pageSize
    ensures r == 1 || (r - 1) * pageSize < n
  {
    var pages := (n + pageSize - 1) / pageSize;
    CeilBounds(n, pageSize);
    if pages < 1 then 1 else pages
  }

  lemma CeilBounds(n: nat, d: int)
    requires d > 0
    ensures n <= ((n + d - 1) / d) * d
    ensures ((n + d - 1) / d - 1) * d < n || (n + d - 1) / d <= 0
  {
    var q, m := (n + d - 1) / d, (n + d - 1) % d;
    assert q * d + m == n + d - 1;
    assert (q - 1) * d == q * d - d;
  }

  /** `Array.prototype.slice` index clamping: negative counts from the end. */
  function Clamp(i: int, len: nat): (r: nat)
    ensures r <= len
  {
    if i < 0 then (if len + i < 0 then 0 else len + i) else if i > len then len else i
  }

  /** `s.slice(start, end)` */
  function Slice<T>(s: seq<T>, start: int, end: int): seq<T> {
    var from, to := Clamp(start, |s|), Clamp(end, |s|);
    if from < to then s[from..to] else []
  }

  /** `rows.slice(page * pageSize, (page + 1) * pageSize)` */
  function Paged<T>(rows: seq<T>, page: int, pageSize: int): seq<T> {
    Slice(rows, page * pageSize, (page + 1) * pageSize)
  }

  /**
   * A page holds at most `pageSize` rows, the ones at positions
   * `page * pageSize` onwards, and is full unless it is the one the list ends on.
   */
  lemma PageContents<T>(rows: seq<T>, page: int, pageSize: int)
    requires page >= 0 && pageSize > 0
    ensures |Paged(rows, page, pageSize)| <= pageSize
    ensures forall i :: 0 <= i < |Paged(rows, page, pageSize)| ==>
      Paged(rows, page, pageSize)[i] == rows[page * pageSize + i]
    ensures (page + 1) * pageSize <= |rows| ==> |Paged(rows, page, pageSize)| == pageSize
    ensures Paged(rows, page, pageSize) == [] <==> |rows| <= page * pageSize
  {
    assert (page + 1) * pageSize == page * pageSize + pageSize;
    assert page * pageSize >= 0;
  }

  /**
   * Every row is on exactly one page, and that page is one the pager can reach:
   * row `k` is item `k % pageSize` of page `k / pageSize`.
   */
  lemma RowOnItsPage<T>(rows: seq<T>, k: int, pageSize: int)
    requires 0 <= k < |rows| && pageSize > 0
    ensures k / pageSize < TotalPages(|rows|, pageSize)
    ensures k % pageSize < |Paged(rows, k / pageSize, pageSize)|
    ensures Paged(rows, k / pageSize, pageSize)[k % pageSize] == rows[k]
  {
    var p, i := k / pageSize, k % pageSize;
    assert p * pageSize + i == k;
    assert p >= 0;
    PageContents(rows, p, pageSize);
    var t := TotalPages(|rows|, pageSize);
    MulCancel(p, t, pageSize);
    assert (p + 1) * pageSize == p * pageSize + pageSize;
  }

  lemma MulCancel(a: int, b: int, c: int)
    requires c > 0 && a * c < b * c
    ensures a < b
  {
    assert (b - a) * c > 0;
  }

  lemma MulMonotone(a: int, b: int, c: int)
    requires a <= b && c > 0
    ensures a * c <= b * c
  {
    assert b * c - a * c == (b - a) * c;
  }

  /** A page past the last one shows no rows. */
  lemma PastLastPageEmpty<T>(rows: seq<T>, page: int, pageSize: int)
    requires pageSize > 0 && page >= TotalPages(|rows|, pageSize)
    ensures Paged(rows, page, pageSize) == []
  {
    var t := TotalPages(|rows|, pageSize);
    MulMonotone(t, page, pageSize);
    PageContents(rows, page, pageSize);
  }

  // ---------------------------------------------------------------- expansion

  /** `prev === id ? null : id` */
  function Toggled(expanded: Option<int>, id: int): (r: Option<int>)
    ensures r == Some(id) <==> expanded != Some(id)
    ensures r.None? <==> expanded == Some(id)
  {
    if expanded == Some(id) then None else Some(id)
  }

  /** Toggling the same row twice closes it when it was open before, and closes everything otherwise. */
  lemma ToggleTwice(expanded: Option<int>, id: int)
    ensures Toggled(Toggled(expanded, id), id) == (if expanded == Some(id) then Some(id) else None)
  {
  }

  // ---------------------------------------------------------------- state

  /**
   * A list screen's state: the fetched rows, the search box, the page index and
   * size, and the one expanded row (`null` when none).
   */
  class Listing {
    var rows: seq<Value>
    var searchTerm: string
    var page: int
    var pageSize: int
    var expandedRow: Option<int>

    /** The page index never goes negative and pages are never empty-sized. */
    predicate Valid()
      reads this
    {
      page >= 0 && pageSize > 0
    }

    /** The state on mount: five rows a page, and what `localStorage` kept of the page and the expanded row. */
    constructor(storedPage: nat, storedExpanded: Option<int>)
      ensures Valid()
      ensures rows == [] && searchTerm == "" && pageSize == 5
      ensures page == storedPage && expandedRow == storedExpanded
    {
      rows := [];
      searchTerm := "";
      page := storedPage;
      pageSize := 5;
      expandedRow := storedExpanded;
    }

    /** `setRows(data)` after a fetch; the page is left as it was. */
    method SetRows(data: seq<Value>)
      modifies this
      ensures rows == data
      ensures searchTerm == old(searchTerm) && page == old(page) && pageSize == old(pageSize)
      ensures expandedRow == old(expandedRow)
    {
      rows := data;
    }

    /** Typing in the search box: `setSearchTerm(value); setPage(0)`. */
    method Search(term: string)
      requires Valid()
      modifies this
      ensures Valid()
      ensures searchTerm == term && page == 0
      ensures rows == old(rows) && pageSize == old(pageSize) && expandedRow == old(expandedRow)
    {
      searchTerm := term;
      page := 0;
    }

    /** Choosing a page size: `setPageSize(n); setPage(0)`. */
    method ChangePageSize(n: int)
      requires Valid() && n > 0
      modifies this
      ensures Valid()
      ensures pageSize == n && page == 0
      ensures rows == old(rows) && searchTerm == old(searchTerm) && expandedRow == old(expandedRow)
    {
      pageSize := n;
      page := 0;
    }

    /**
     * A pager button over `shown` rows (the filtered list): an enabled button
     * sets the page to its target, a disabled one does nothing.
     */
    method Turn(b: Button, shown: nat)
      requires Valid()
      modifies this
      ensures Valid()
      ensures var total := TotalPages(shown, pageSize);
        page == if Disabled(b, old(page), total) then old(page) else Target(b, old(page), total)
      ensures old(page) < TotalPages(shown, pageSize) ==> page < TotalPages(shown, pageSize)
      ensures rows == old(rows) && searchTerm == old(searchTerm) && pageSize == old(pageSize)
      ensures expandedRow == old(expandedRow)
    {
      var total := TotalPages(shown, pageSize);
      if !Disabled(b, page, total) {
        page := Target(b, page, total);
      }
    }

    /** `toggleRow(id)`: at most one row is open, and `id` is open afterwards unless it was before. */
    method ToggleRow(id: int)
      modifies this
      ensures expandedRow == Toggled(old(expandedRow), id)
      ensures rows == old(rows) && searchTerm == old(searchTerm)
      ensures page == old(page) && pageSize == old(pageSize)
    {
      expandedRow := Toggled(expandedRow, id);
    }
  }
}
