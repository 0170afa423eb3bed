/** The message envelope of the echo node: the generic Message/Body pair,
    the two payload vocabularies, and the rule that turns a request into
    its correlated reply. Serialization is not modelled: a message here is
    the value that serde decodes from, or encodes to, one JSON object. */
module Messages {

  datatype Option<+T> = None | Some(value: T)

  /** One wire message: sender, intended recipient and body. */
  datatype Message<P> = Message(src: string, dest: string, body: Body<P>)

  /** The body: optional correlation ids and the payload (flattened into the
      same JSON object on the wire). */
  datatype Body<P> = Body(msg_id: Option<nat>, in_reply_to: Option<nat>, payload: P)

  datatype RequestPayload =
    | Echo(echo: string)
    | Init(node_id: string, node_ids: seq<string>)

  datatype ResponsePayload =
    | EchoOk(echo: string)
    | InitOk

  /** The payload-level part of the protocol: what kind of answer each kind
      of request is owed. */
  predicate Answers(response: ResponsePayload, request: RequestPayload)
  {
    match request
    case Echo(s) => response == EchoOk(s)
    case Init(_, _) => response == InitOk
  }

  /** The reply the node builds for `req` when its counter stands at `id`. */
  function Reply(req: Message<RequestPayload>, id: nat): (r: Message<ResponsePayload>)
    // the address swap
    ensures r.src == req.dest && r.dest == req.src
    // the new message id is the counter value
    ensures r.body.msg_id == Some(id)
    // correlation: the request's id is copied verbatim, absence included
    ensures r.body.in_reply_to == req.body.msg_id
    // echo identity and Init -> InitOk
    ensures Answers(r.body.payload, req.body.payload)
  {
    var payload := match req.body.payload
      case Echo(echo) => EchoOk(echo)
      case Init(_, _) => InitOk;
    Message(req.dest, req.src, Body(Some(id), req.body.msg_id, payload))
  }

  /** The reply depends only on the addresses, the request's msg_id and the
      echoed text: in_reply_to of the request, node_id and node_ids are
      ignored. */
  lemma ReplyIgnoresUnusedFields(a: Message<RequestPayload>, b: Message<RequestPayload>, id: nat)
    requires a.src == b.src && a.dest == b.dest && a.body.msg_id == b.body.msg_id
    requires a.body.payload.Echo? <==> b.body.payload.Echo?
    requires a.body.payload.Echo? ==> a.body.payload.echo == b.body.payload.echo
    ensures Reply(a, id) == Reply(b, id)
  {
  }

  /** The init handshake: the request from the Maelstrom client and the
      reply the node sends back to it. */
  lemma InitHandshake()
    ensures Reply(Message("c1", "n1", Body(Some(1), None, Init("n1", ["n1"]))), 0)
         == Message("n1", "c1", Body(Some(0), Some(1), InitOk))
  {
  }
}
