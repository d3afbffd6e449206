/**
 * JavaScript values as the application exchanges them (JSON bodies, component state,
 * query rows) and the few built-in operations its code relies on: truthiness, `||`,
 * `??`, `Number(...)`, `String(...)`, `toLowerCase`, `includes`, `split`, `endsWith`
 * and `join`. Numbers are integers; no fractional value reaches the modelled code.
 */
module Js {

  datatype Option<+T> = None | Some(value: T)

  datatype Value =
    | Undefined
    | Null
    | Bool(b: bool)
    | Num(n: int)
    | NaN
    | Str(s: string)
    | Arr(items: seq<Value>)
    | Obj(fields: map<string, Value>)

  /** A plain object: a request body, a row, a form state. */
  type Record = map<string, Value>

  /** `r.key`: a missing property reads as undefined. */
  function Get(r: Record, key: string): Value {
    if key in r then r[key] else Undefined
  }

  /** `v?.key`: reading through anything that is not an object gives undefined. */
  function Field(v: Value, key: string): Value {
    if v.Obj? then Get(v.fields, key) else Undefined
  }

  predicate Truthy(v: Value) {
    match v
    case Undefined => false
    case Null => false
    case NaN => false
    case Bool(b) => b
    case Num(n) => n != 0
    case Str(s) => s != ""
    case Arr(_) => true
    case Obj(_) => true
  }

  predicate Nullish(v: Value) {
    v.Undefined? || v.Null?
  }

  /** `v || fallback` */
  function Or(v: Value, fallback: Value): Value {
    if Truthy(v) then v else fallback
  }

  /** `v ?? fallback` */
  function Coalesce(v: Value, fallback: Value): Value {
    if Nullish(v) then fallback else v
  }

  // ---------------------------------------------------------------- numbers and strings

  function DigitChar(d: nat): char
    requires d < 10
  {
    (d + '0' as int) as char
  }

  predicate IsDigit(c: char) {
    '0' <= c <= '9'
  }

  predicate AllDigits(s: string) {
    forall i :: 0 <= i < |s| ==> IsDigit(s[i])
  }

  /** The decimal numeral of `n`, without leading zeros. */
  function NatToString(n: nat): string
    decreases n
  {
    if n < 10 then [DigitChar(n)] else NatToString(n / 10) + [DigitChar(n % 10)]
  }

  /** `String(n)` for an integer `n`. */
  function IntToString(n: int): string {
    if n < 0 then "-" + NatToString(-n) else NatToString(n)
  }

  /** The value of a numeral. */
  function DigitsValue(s: string): nat
    requires AllDigits(s)
  {
    if s == "" then 0 else DigitsValue(s[..|s| - 1]) * 10 + (s[|s| - 1] as int - '0' as int)
  }

  lemma {:induction false} NatToStringDigits(n: nat)
    ensures |NatToString(n)| > 0 && AllDigits(NatToString(n))
    ensures DigitsValue(NatToString(n)) == n
    decreases n
  {
    if n >= 10 {
      NatToStringDigits(n / 10);
      var s := NatToString(n);
      assert s[..|s| - 1] == NatToString(n / 10);
      assert s[|s| - 1] == DigitChar(n % 10);
    }
  }

  /**
   * `Number(v)`. A string converts when it is empty (0), a numeral, or a minus sign
   * followed by a numeral; any other string is NaN.
   */
  function ToNumber(v: Value): Value {
    match v
    case Undefined => NaN
    case Null => Num(0)
    case Bool(b) => Num(if b then 1 else 0)
    case Num(n) => Num(n)
    case NaN => NaN
    case Str(s) =>
      if s == "" then Num(0)
      else if AllDigits(s) then Num(DigitsValue(s))
      else if s[0] == '-' && |s| > 1 && AllDigits(s[1..]) then Num(0 - DigitsValue(s[1..]) as int)
      else NaN
    case Arr(_) => NaN
    case Obj(_) => NaN
  }

  /** `Number(String(n)) === n`: the numeral of an integer converts back to it. */
  lemma {:induction false} NumberOfString(n: int)
    ensures ToNumber(Str(IntToString(n))) == Num(n)
  {
    if n < 0 {
      NatToStringDigits(-n);
      var s := IntToString(n);
      assert s[1..] == NatToString(-n);
      assert s[0] == '-';
      assert !AllDigits(s) by { assert !IsDigit(s[0]); }
    } else {
      NatToStringDigits(n);
    }
  }

  /** `String(v)`, also what a template literal `${v}` inserts. */
  function ToString(v: Value): string
    decreases v, 1, 0
  {
    match v
    case Undefined => "undefined"
    case Null => "null"
    case Bool(b) => if b then "true" else "false"
    case Num(n) => IntToString(n)
    case NaN => "NaN"
    case Str(s) => s
    case Arr(items) => JoinFrom(v, 0, ",")
    case Obj(_) => "[object Object]"
  }

  /** `items.slice(i).join(sep)` for the array `arr`: null and undefined elements become empty. */
  function JoinFrom(arr: Value, i: nat, sep: string): string
    requires arr.Arr? && i <= |arr.items|
    decreases arr, 0, |arr.items| - i
  {
    if i == |arr.items| then ""
    else
      var item := arr.items[i];
      assert item in arr.items;
      var text := if Nullish(item) then "" else ToString(item);
      if i + 1 == |arr.items| then text else text + sep + JoinFrom(arr, i + 1, sep)
  }

  /** `items.join(sep)` */
  function Join(items: seq<Value>, sep: string): string {
    JoinFrom(Arr(items), 0, sep)
  }

  /** `String.prototype.toLowerCase` on one character: ASCII and Latin-1 capitals. */
  function LowerChar(c: char): char {
    if 'A' <= c <= 'Z' || ('\U{C0}' <= c <= '\U{DE}' && c != '\U{D7}') then (c as int + 32) as char else c
  }

  function ToLowerCase(s: string): (r: string)
    ensures |r| == |s| && forall i :: 0 <= i < |s| ==> r[i] == LowerChar(s[i])
  {
    seq(|s|, i requires 0 <= i < |s| => LowerChar(s[i]))
  }

  /** `t` occurs in `h` starting at index `i`. */
  predicate OccursAt(h: string, t: string, i: int) {
    0 <= i && i + |t| <= |h| && h[i..i + |t|] == t
  }

  /** `h.includes(t)` */
  predicate Includes(h: string, t: string) {
    exists i :: 0 <= i <= |h| && OccursAt(h, t, i)
  }

  /** `h.toLowerCase().includes(t.toLowerCase())` */
  predicate IncludesIgnoringCase(h: string, t: string) {
    Includes(ToLowerCase(h), ToLowerCase(t))
  }

  /** Every string includes the empty string. */
  lemma EmptyIncluded(h: string)
    ensures Includes(h, "")
  {
    assert OccursAt(h, "", 0);
  }

  /** `s.split(sep)[0]`: the part of `s` before the first `sep`. */
  function BeforeFirst(s: string, sep: char): string {
    if s == "" || s[0] == sep then "" else [s[0]] + BeforeFirst(s[1..], sep)
  }

  lemma {:induction false} BeforeFirstIsCut(s: string, sep: char)
    ensures var r := BeforeFirst(s, sep);
      && |r| <= |s| && r == s[..|r|]
      && sep !in r
      && (|r| < |s| ==> s[|r|] == sep)
  {
    if s != "" && s[0] != sep {
      BeforeFirstIsCut(s[1..], sep);
    }
  }

  /** `s.endsWith(suffix)` */
  predicate EndsWith(s: string, suffix: string) {
    |suffix| <= |s| && s[|s| - |suffix|..] == suffix
  }
}
