/** What a request handler sends back, and what a handler leaves in the store. */
module Http {
  import opened Js
  import opened Store

  /**
   * A status with a JSON body, or no answer at all: a handler whose awaited call
   * rejects outside its `try` never responds.
   */
  datatype Reply = Answer(status: int, body: Value) | Unanswered

  /** `res.status(status).json({ mensaje: text })` */
  function Message(status: int, text: string): Reply {
    Answer(status, Obj(map["mensaje" := Str(text)]))
  }

  /** The object `res.json(fields)` sends: properties holding `undefined` are not serialised. */
  function Json(fields: Record): Value {
    Obj(map k | k in fields && !fields[k].Undefined? :: fields[k])
  }

  /** A property of the sent object is the one given, unless that was `undefined`. */
  lemma JsonField(fields: Record, k: string)
    ensures Field(Json(fields), k) == Get(fields, k)
  {
  }

  /** The answer a state-changing handler gives and the store it leaves. */
  datatype Handled = Handled(reply: Reply, db: Db)
}
