/**
 * What the four edit forms share: the `form` state record and its change
 * handler, the conversions from a fetched record to form text and back, the
 * outcome of a submit, and the declarative field lists with their
 * "required when the label ends with an asterisk" rule.
 */
module Form {
  import opened Js
  import opened Client

  /** `v || ''`: a falsy value becomes the empty text. */
  function TextOr(v: Value): Value {
    if Truthy(v) then v else Str("")
  }

  /** `v ?? ''`: only null and undefined become the empty text. */
  function IdOr(v: Value): Value {
    Coalesce(v, Str(""))
  }

  /** `v ? '1' : '0'`, the value of a yes/no select. */
  function Flag(v: Value): Value {
    Str(if Truthy(v) then "1" else "0")
  }

  /**
   * The payload's `Number(form.x)` of a flag is 1 or 0 as the loaded value was
   * set or not, and the flag read back from that number is the same flag.
   */
  lemma FlagRoundTrip(v: Value)
    ensures ToNumber(Flag(v)) == Num(if Truthy(v) then 1 else 0)
    ensures Flag(ToNumber(Flag(v))) == Flag(v)
  {
    NumberOfString(if Truthy(v) then 1 else 0);
  }

  /**
   * `v ? v.split('T')[0] : ''`: the day part of an ISO timestamp. A set value
   * that is not a string has no `split`, so the load throws (`None`).
   */
  function DatePart(v: Value): (r: Option<Value>)
    ensures r.None? <==> Truthy(v) && !v.Str?
    ensures r.Some? ==> r.value.Str? && 'T' !in r.value.s
    ensures r.Some? && v.Str? ==> |r.value.s| <= |v.s| && r.value.s == v.s[..|r.value.s|]
  {
    if !Truthy(v) then Some(Str(""))
    else if v.Str? then
      BeforeFirstIsCut(v.s, 'T');
      Some(Str(BeforeFirst(v.s, 'T')))
    else None
  }

  lemma {:induction false} BeforeFirstOfJoin(day: string, rest: string, sep: char)
    requires sep !in day
    ensures BeforeFirst(day + [sep] + rest, sep) == day
  {
    if day != "" {
      assert (day + [sep] + rest)[1..] == day[1..] + [sep] + rest;
      BeforeFirstOfJoin(day[1..], rest, sep);
    }
  }

  /** A timestamp `day + "T" + time` loads as its day: what a date input accepts. */
  lemma IsoDateDay(day: string, time: string)
    requires 'T' !in day
    ensures DatePart(Str(day + "T" + time)) == Some(Str(day))
  {
    BeforeFirstOfJoin(day, time, 'T');
  }

  /** How one column of a fetched record enters the form. */
  datatype Rule =
    | AsText   // `data.x || ''`
    | AsId     // `data.x ?? ''`
    | AsFlag   // `data.x ? '1' : '0'`
    | AsDate   // `data.x ? data.x.split('T')[0] : ''`

  /** One column converted by its rule; `None` when the conversion throws. */
  function Converted(v: Value, rule: Rule): Option<Value> {
    match rule
    case AsText => Some(TextOr(v))
    case AsId => Some(IdOr(v))
    case AsFlag => Some(Flag(v))
    case AsDate => DatePart(v)
  }

  /** The fetched record is an object-like value and no column's conversion throws. */
  predicate Loads(data: Value, keys: seq<string>, rule: string -> Rule) {
    !Nullish(data) && forall k :: k in keys ==> Converted(Field(data, k), rule(k)).Some?
  }

  /** `setForm({ k: <rule>(data.k), ... })` over the form's keys. */
  function LoadRecord(data: Value, keys: seq<string>, rule: string -> Rule): Option<Record> {
    if Loads(data, keys, rule) then Some(map k | k in keys :: Converted(Field(data, k), rule(k)).value)
    else None
  }

  /** What the form holds for a fetched value `v` under `rule`, stated without the conversion. */
  predicate Describes(v: Value, rule: Rule, w: Value) {
    match rule
    case AsText => (Truthy(v) ==> w == v) && (!Truthy(v) ==> w == Str(""))
    case AsId => (Nullish(v) ==> w == Str("")) && (!Nullish(v) ==> w == v)
    case AsFlag => (w == Str("1") <==> Truthy(v)) && (w == Str("0") <==> !Truthy(v))
    case AsDate =>
      && w.Str? && 'T' !in w.s
      && (!Truthy(v) ==> w == Str(""))
      && (v.Str? ==> |w.s| <= |v.s| && w.s == v.s[..|w.s|] && (|w.s| < |v.s| ==> v.s[|w.s|] == 'T'))
  }

  /**
   * Loading throws exactly when the record is null or undefined or a date column
   * holds a set non-string; otherwise the form has exactly the form's keys, each
   * holding what its rule describes.
   */
  lemma LoadRecordMeaning(data: Value, keys: seq<string>, rule: string -> Rule)
    ensures LoadRecord(data, keys, rule).Some? <==>
      !Nullish(data) && forall k :: k in keys && rule(k) == AsDate ==> !(Truthy(Field(data, k)) && !Field(data, k).Str?)
    ensures LoadRecord(data, keys, rule).Some? ==>
      var form := LoadRecord(data, keys, rule).value;
      && form.Keys == set k | k in keys
      && forall k :: k in keys ==> Describes(Field(data, k), rule(k), form[k])
  {
    if LoadRecord(data, keys, rule).Some? {
      var form := LoadRecord(data, keys, rule).value;
      forall k | k in keys
        ensures Describes(Field(data, k), rule(k), form[k])
      {
        var v := Field(data, k);
        if rule(k) == AsDate && v.Str? && Truthy(v) {
          BeforeFirstIsCut(v.s, 'T');
        }
      }
    }
  }

  /** A loaded form holds only text when every text and id column it reads is text or unset. */
  lemma LoadedIsText(data: Value, keys: seq<string>, rule: string -> Rule)
    requires forall k :: k in keys && rule(k) == AsText ==> !Truthy(Field(data, k)) || Field(data, k).Str?
    requires forall k :: k in keys && rule(k) == AsId ==> Nullish(Field(data, k)) || Field(data, k).Str?
    ensures LoadRecord(data, keys, rule).Some? ==> AllText(LoadRecord(data, keys, rule).value)
  {
  }

  /** `Number(form[key])` written over the form's own value. */
  function WithNumber(form: Record, key: string): Record {
    form[key := ToNumber(Get(form, key))]
  }

  /** Every value of the record is text, as every input and select of the form holds. */
  predicate AllText(form: Record) {
    forall k :: k in form ==> form[k].Str?
  }

  /** What pressing "Guardar" does. */
  datatype Submission =
    | Ignored                  // not an administrator: nothing happens
    | Refused(alert: string)   // a client-side check failed
    | Send(request: Request)

  /** `if (!isAdmin) return;` and then the save request with the payload. */
  function Submitted(isAdmin: bool, base: string, id: Option<string>, payload: Record): Submission {
    if !isAdmin then Ignored else Send(SaveRequest(base, id, payload))
  }

  /** `{ ...form, activo: Number(form.activo) }`: the payload of the forms that convert only `activo`. */
  function ActivePayload(form: Record): Record {
    WithNumber(form, "activo")
  }

  /**
   * `handleSubmit` of the institution and staff forms, up to the request it
   * sends: a non-administrator's submit does nothing and nothing is checked on
   * the client; otherwise the form goes out with `activo` as a number and every
   * other field unchanged, by PUT to `base/id` exactly when there is a route id
   * and by POST to `base` otherwise.
   */
  function SubmitActive(isAdmin: bool, base: string, id: Option<string>, form: Record): (s: Submission)
    ensures s.Ignored? <==> !isAdmin
    ensures !s.Refused?
    ensures s.Send? ==> s.request.payload.Keys == form.Keys + {"activo"}
    ensures s.Send? ==> s.request.payload["activo"] == ToNumber(Get(form, "activo"))
    ensures s.Send? ==> forall k :: k in form && k != "activo" ==> s.request.payload[k] == form[k]
    ensures s.Send? ==> (s.request.Put? <==> id.Some? && id.value != "")
    ensures s.Send? && s.request.Post? ==> s.request.path == base
  {
    Submitted(isAdmin, base, id, ActivePayload(form))
  }

  /** One entry of a form's field list: the label shown, the field name and the optional input type. */
  datatype FieldDef = FieldDef(caption: string, name: string, inputType: Option<string>)

  /** `fld.type || 'text'` */
  function InputType(f: FieldDef): string {
    if f.inputType.Some? && f.inputType.value != "" then f.inputType.value else "text"
  }

  /** `fld.label.endsWith('*')` */
  predicate Starred(f: FieldDef) {
    EndsWith(f.caption, "*")
  }

  /** The `form` state of a form component. */
  class FormState {
    var form: Record

    constructor(initial: Record)
      ensures form == initial
    {
      form := initial;
    }

    /**
     * `handleChange`: `setForm(prev => ({ ...prev, [name]: value }))`. Only the
     * named field changes, and it now holds the typed text.
     */
    method HandleChange(name: string, value: string)
      modifies this
      ensures form == old(form)[name := Str(value)]
      ensures Get(form, name) == Str(value)
      ensures forall k :: k != name ==> Get(form, k) == Get(old(form), k)
      ensures AllText(old(form)) ==> AllText(form)
    {
      form := form[name := Str(value)];
    }

    /** `setForm(record)` with a record built from a load. */
    method Load(record: Record)
      modifies this
      ensures form == record
    {
      form := record;
    }
  }
}
