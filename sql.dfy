/**
 * The read side of the store: the `SELECT ... FROM t LEFT JOIN ... WHERE ... ORDER BY`
 * queries the controllers issue. A query is built from the rows of its first table,
 * each joined table contributes the row its primary key matches (or an all-NULL row),
 * a projection names the result columns, and `ORDER BY` is the stable sort on a key.
 * Every `WHERE` of the modelled handlers tests a column of the first table, so it is
 * applied to that table's rows before the joins, which yields the same rows.
 */
module Sql {
  import opened Js
  import opened Store
  import opened Ordering

  /** A stored value as a query reads it: a missing or undefined column is NULL. */
  function Cell(r: Record, column: string): Value {
    if column in r && !r[column].Undefined? then r[column] else Null
  }

  /** One row of a join: the row each table alias contributed (an unmatched LEFT JOIN contributes the empty row). */
  type Tuple = map<string, Record>

  /** `alias.column` */
  function Column(t: Tuple, alias: string, column: string): Value {
    if alias in t then Cell(t[alias], column) else Null
  }

  /** `FROM rows alias` */
  function Tuples(rows: seq<Record>, alias: string): seq<Tuple> {
    seq(|rows|, i requires 0 <= i < |rows| => map[alias := rows[i]])
  }

  /** `LEFT JOIN table alias ON leftAlias.leftColumn = alias.<primary key of table>` */
  datatype Join = Join(table: Table, alias: string, leftAlias: string, leftColumn: string)

  /** The rows of `rows` whose column `key` equals `v` under SQL equality (NULL equals nothing). */
  function KeyMatches(rows: seq<Record>, key: string, v: Value): seq<Record> {
    match KeyOf(v)
    case Some(k) => Selected(rows, key, k)
    case None => []
  }

  function JoinOne(db: Db, t: Tuple, j: Join): seq<Tuple> {
    var ms := KeyMatches(Rows(db, j.table), PrimaryKey(j.table), Column(t, j.leftAlias, j.leftColumn));
    if ms == [] then [t[j.alias := map[]]]
    else seq(|ms|, i requires 0 <= i < |ms| => t[j.alias := ms[i]])
  }

  function JoinAll(db: Db, ts: seq<Tuple>, j: Join): seq<Tuple> {
    if ts == [] then [] else JoinOne(db, ts[0], j) + JoinAll(db, ts[1..], j)
  }

  /** The joins applied left to right. */
  function Joins(db: Db, ts: seq<Tuple>, js: seq<Join>): seq<Tuple>
    decreases js
  {
    if js == [] then ts else Joins(db, JoinAll(db, ts, js[0]), js[1..])
  }

  /** No two rows share a key value: what a PRIMARY KEY constraint guarantees. */
  predicate KeyUnique(rows: seq<Record>, key: string) {
    forall i, j :: 0 <= i < j < |rows| ==>
      KeyOf(Get(rows[i], key)).None? || KeyOf(Get(rows[i], key)) != KeyOf(Get(rows[j], key))
  }

  predicate KeysUnique(db: Db) {
    forall t :: KeyUnique(Rows(db, t), PrimaryKey(t))
  }

  /** The row `LEFT JOIN table ON v = <primary key>` contributes: the matching row, or the empty row. */
  function Lookup(db: Db, table: Table, v: Value): Record {
    var ms := KeyMatches(Rows(db, table), PrimaryKey(table), v);
    if ms == [] then map[] else ms[0]
  }

  /** Value `v` equals the key `key` of row `r` under SQL equality. */
  predicate Refers(v: Value, r: Record, key: string) {
    KeyOf(v).Some? && Matches(r, key, KeyOf(v).value)
  }

  lemma {:induction false} AtMostOneMatch(rows: seq<Record>, key: string, k: int)
    requires KeyUnique(rows, key)
    ensures |Selected(rows, key, k)| <= 1
  {
    if rows != [] {
      var tail := rows[1..];
      assert KeyUnique(tail, key) by {
        forall i, j | 0 <= i < j < |tail|
          ensures KeyOf(Get(tail[i], key)).None? || KeyOf(Get(tail[i], key)) != KeyOf(Get(tail[j], key))
        {
          assert tail[i] == rows[i + 1] && tail[j] == rows[j + 1];
        }
      }
      AtMostOneMatch(tail, key, k);
      if Matches(rows[0], key, k) {
        forall r | r in tail
          ensures !Matches(r, key, k)
        {
          var j :| 0 <= j < |tail| && tail[j] == r;
          assert rows[j + 1] == r;
        }
        WithoutNothing(tail, key, k);
        WhereSplits(tail, key, k);
      }
    }
  }

  /** Under unique keys a LEFT JOIN turns each row into exactly one row that carries its lookup. */
  lemma JoinOneUnique(db: Db, t: Tuple, j: Join)
    requires KeysUnique(db)
    ensures JoinOne(db, t, j) == [t[j.alias := Lookup(db, j.table, Column(t, j.leftAlias, j.leftColumn))]]
  {
    var v := Column(t, j.leftAlias, j.leftColumn);
    if KeyOf(v).Some? {
      assert KeyUnique(Rows(db, j.table), PrimaryKey(j.table));
      AtMostOneMatch(Rows(db, j.table), PrimaryKey(j.table), KeyOf(v).value);
    }
  }

  /** Under unique keys the lookup is the one row the value refers to, and the empty row when there is none. */
  lemma LookupFinds(db: Db, table: Table, v: Value, r: Record)
    requires KeysUnique(db)
    requires r in Rows(db, table) && Refers(v, r, PrimaryKey(table))
    ensures Lookup(db, table, v) == r
  {
    var rows := Rows(db, table);
    var sel := Selected(rows, PrimaryKey(table), KeyOf(v).value);
    assert KeyUnique(rows, PrimaryKey(table));
    AtMostOneMatch(rows, PrimaryKey(table), KeyOf(v).value);
    WhereMembers(rows, PrimaryKey(table), KeyOf(v).value);
    assert r in sel;
  }

  lemma LookupMisses(db: Db, table: Table, v: Value)
    requires forall r :: r in Rows(db, table) ==> !Refers(v, r, PrimaryKey(table))
    ensures Lookup(db, table, v) == map[]
  {
    if KeyOf(v).Some? {
      var rows := Rows(db, table);
      WithoutNothing(rows, PrimaryKey(table), KeyOf(v).value);
      WhereSplits(rows, PrimaryKey(table), KeyOf(v).value);
    }
  }

  /** Under unique keys a LEFT JOIN neither adds nor drops rows, and row `i` stays row `i`. */
  lemma {:induction false} JoinAllUnique(db: Db, ts: seq<Tuple>, j: Join)
    requires KeysUnique(db)
    ensures |JoinAll(db, ts, j)| == |ts|
    ensures forall i :: 0 <= i < |ts| ==>
      JoinAll(db, ts, j)[i] == ts[i][j.alias := Lookup(db, j.table, Column(ts[i], j.leftAlias, j.leftColumn))]
  {
    if ts != [] {
      JoinOneUnique(db, ts[0], j);
      JoinAllUnique(db, ts[1..], j);
    }
  }

  /** One row's chain of LEFT JOINs under unique keys: each join adds the row its key finds, or the empty row. */
  function Joined(db: Db, t: Tuple, js: seq<Join>): Tuple
    decreases js
  {
    if js == [] then t
    else Joined(db, t[js[0].alias := Lookup(db, js[0].table, Column(t, js[0].leftAlias, js[0].leftColumn))], js[1..])
  }

  /** Under unique keys a chain of LEFT JOINs turns row `i` into exactly that row's own joined row. */
  lemma {:induction false} JoinsEach(db: Db, ts: seq<Tuple>, js: seq<Join>)
    requires KeysUnique(db)
    ensures |Joins(db, ts, js)| == |ts|
    ensures forall i :: 0 <= i < |ts| ==> Joins(db, ts, js)[i] == Joined(db, ts[i], js)
    decreases js
  {
    if js != [] {
      var next := JoinAll(db, ts, js[0]);
      JoinAllUnique(db, ts, js[0]);
      JoinsEach(db, next, js[1..]);
    }
  }

  /** A joined row keeps the first table's row when no join reuses its alias. */
  lemma {:induction false} JoinedKeeps(db: Db, t: Tuple, js: seq<Join>, base: string)
    requires base in t
    requires forall k :: 0 <= k < |js| ==> js[k].alias != base
    ensures base in Joined(db, t, js) && Joined(db, t, js)[base] == t[base]
    decreases js
  {
    if js != [] {
      var next := t[js[0].alias := Lookup(db, js[0].table, Column(t, js[0].leftAlias, js[0].leftColumn))];
      assert next[base] == t[base];
      JoinedKeeps(db, next, js[1..], base);
    }
  }

  /** A LEFT JOIN never drops a row: each row yields at least one. */
  lemma {:induction false} JoinAllKeeps(db: Db, ts: seq<Tuple>, j: Join)
    ensures |JoinAll(db, ts, j)| >= |ts|
  {
    if ts != [] {
      JoinAllKeeps(db, ts[1..], j);
    }
  }

  /** A chain of LEFT JOINs is empty exactly when its first table's rows are. */
  lemma {:induction false} JoinsEmptyIff(db: Db, ts: seq<Tuple>, js: seq<Join>)
    ensures Joins(db, ts, js) == [] <==> ts == []
    decreases js
  {
    if js != [] {
      JoinAllKeeps(db, ts, js[0]);
      JoinsEmptyIff(db, JoinAll(db, ts, js[0]), js[1..]);
    }
  }

  /**
   * Under unique keys a chain of LEFT JOINs keeps one row per row of the first
   * table, in order, and the first table's row is untouched when no join reuses its alias.
   */
  lemma {:induction false} JoinsKeepRows(db: Db, ts: seq<Tuple>, js: seq<Join>, base: string)
    requires KeysUnique(db)
    requires forall k :: 0 <= k < |js| ==> js[k].alias != base
    ensures |Joins(db, ts, js)| == |ts|
    ensures forall i :: 0 <= i < |ts| && base in ts[i] ==>
      base in Joins(db, ts, js)[i] && Joins(db, ts, js)[i][base] == ts[i][base]
    decreases js
  {
    if js != [] {
      JoinAllUnique(db, ts, js[0]);
      JoinsKeepRows(db, JoinAll(db, ts, js[0]), js[1..], base);
    }
  }

  // ---------------------------------------------------------------- projection and order

  /**
   * A selected expression: a column, `IFNULL(first, second)` over a text first
   * argument, or `CONCAT(arg)` of one argument.
   */
  datatype Expr =
    | Col(alias: string, column: string)
    | IfNull(first: Expr, second: Expr)
    | Concat(arg: Expr)

  /** A value as a text column carries it: NULL stays NULL, anything else is its text. */
  function AsText(v: Value): Value {
    if v.Null? then Null else Str(ToString(v))
  }

  /**
   * The value of an expression in a joined row. `IFNULL` takes the type of its
   * arguments together, so with a text first argument a numeric fallback comes
   * back as text; `CONCAT` always yields text.
   */
  function Eval(t: Tuple, e: Expr): Value {
    match e
    case Col(a, c) => Column(t, a, c)
    case IfNull(x, y) => var v := Eval(t, x); if v.Null? then AsText(Eval(t, y)) else v
    case Concat(x) => AsText(Eval(t, x))
  }

  /** The SELECT list: result column name to expression. */
  type Projection = map<string, Expr>

  function Project(t: Tuple, p: Projection): Record {
    map name | name in p :: Eval(t, p[name])
  }

  /** A selected column reads its source column in the same row. */
  lemma ProjectColumn(t: Tuple, p: Projection, name: string, alias: string, column: string)
    requires name in p && p[name] == Col(alias, column)
    ensures name in Project(t, p) && Project(t, p)[name] == Column(t, alias, column)
  {
  }

  /** A selected expression reads its value in the same row. */
  lemma ProjectField(t: Tuple, p: Projection, name: string)
    requires name in p
    ensures name in Project(t, p) && Project(t, p)[name] == Eval(t, p[name])
  {
  }

  function ProjectAll(ts: seq<Tuple>, p: Projection): seq<Record> {
    seq(|ts|, i requires 0 <= i < |ts| => Project(ts[i], p))
  }

  /** The text a column sorts by; NULL sorts as the empty text. */
  function SortText(v: Value): string {
    if v.Null? then "" else ToString(v)
  }

  /** Ascending order of one column, NULLs first. */
  function ColumnKey(r: Record, column: string): Key {
    Key(if Cell(r, column).Null? then 0 else 1, SortText(Cell(r, column)), "")
  }

  /** Ascending order of a column, NULLs first, then of a second column. */
  function TwoColumnKey(r: Record, first: string, second: string): Key {
    Key(if Cell(r, first).Null? then 0 else 1, SortText(Cell(r, first)), SortText(Cell(r, second)))
  }

  /** The rows of a result set as the JSON array `res.json(rows)` sends. */
  function RowsValue(rows: seq<Record>): Value {
    Arr(seq(|rows|, i requires 0 <= i < |rows| => Obj(rows[i])))
  }
}
