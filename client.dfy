/**
 * How the React components see the backend: an axios call resolves with the body
 * of a 2xx answer and rejects otherwise, carrying the status and body when the
 * server answered at all. What a component does next is an effect: navigate to a
 * route, show an alert, or nothing.
 */
module Client {
  import opened Js
  import opened Http

  /** The settled state of one axios request. */
  datatype Response =
    | Ok(data: Value)
    | Rejected(status: int, data: Value)   // `err.response` is present
    | NoResponse                           // `err.response` is undefined

  /** What a handler's reply becomes on the client. */
  function Received(reply: Reply): (r: Response)
    ensures reply.Unanswered? <==> r.NoResponse?
    ensures r.Ok? <==> reply.Answer? && 200 <= reply.status < 300
    ensures r.Ok? ==> r.data == reply.body
    ensures r.Rejected? ==> r.status == reply.status && r.data == reply.body
  {
    match reply
    case Unanswered => NoResponse
    case Answer(status, body) => if 200 <= status < 300 then Ok(body) else Rejected(status, body)
  }

  /** `err.response?.data?.mensaje || fallback`, as `alert` shows it. */
  function ServerMessage(r: Response, fallback: string): (text: string)
    ensures !r.Rejected? ==> text == fallback
    ensures r.Rejected? && !Truthy(Field(r.data, "mensaje")) ==> text == fallback
    ensures r.Rejected? && Field(r.data, "mensaje").Str? && Field(r.data, "mensaje").s != "" ==>
      text == Field(r.data, "mensaje").s
  {
    if r.Rejected? then ToString(Or(Field(r.data, "mensaje"), Str(fallback))) else fallback
  }

  /** A handler's `{ mensaje }` answer reaches the user word for word when it is not 2xx. */
  lemma MessageShown(status: int, text: string, fallback: string)
    requires !(200 <= status < 300) && text != ""
    ensures ServerMessage(Received(Message(status, text)), fallback) == text
  {
    JsonField(map["mensaje" := Str(text)], "mensaje");
  }

  datatype Effect = Navigate(to: string) | Alert(text: string)

  /** After a save request: go back to the list, or show the server's message. */
  function Saved(r: Response, list: string, fallback: string): (e: Effect)
    ensures e.Navigate? <==> r.Ok?
    ensures e.Navigate? ==> e.to == list
    ensures e.Alert? ==> e.text == ServerMessage(r, fallback)
  {
    if r.Ok? then Navigate(list) else Alert(ServerMessage(r, fallback))
  }

  /** The request a form sends. */
  datatype Request = Post(path: string, payload: Record) | Put(path: string, payload: Record)

  /** `if (id) put(`${base}/${id}`) else post(base)`: a route id is present when non-empty. */
  function SaveRequest(base: string, id: Option<string>, payload: Record): (q: Request)
    ensures q.payload == payload
    ensures q.Put? <==> id.Some? && id.value != ""
    ensures q.Put? ==> q.path == base + "/" + id.value
    ensures q.Post? ==> q.path == base
  {
    if id.Some? && id.value != "" then Put(base + "/" + id.value, payload) else Post(base, payload)
  }
}
