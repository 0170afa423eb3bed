/** The echo node: its counter, the locked standard output it writes to,
    and the step function `Handle`. */
module Node {
  import opened Messages

  /** What one write call puts on standard output: the JSON text of a reply,
      or the trailing newline byte. */
  datatype Chunk = Json(msg: Message<ResponsePayload>) | Newline

  /** How the environment answers the two writes of one reply. */
  datatype WriteFate =
    | Delivered       // both the JSON text and the newline are written
    | JsonWriteFails  // serializing the reply to the stream fails
    | NewlineFails    // the JSON text is written, the newline is not

  /** Why a step, or the whole process, stops. */
  datatype Error =
    | Deserialize      // the input could not be decoded into a request
    | Serialize        // writing the reply's JSON text failed
    | TrailingNewline  // writing the newline after it failed

  datatype Outcome = Pass | Fail(error: Error)

  /** The stream of a sequence of replies, each written in full. */
  function Framed(replies: seq<Message<ResponsePayload>>): (out: seq<Chunk>)
    ensures |out| == 2 * |replies|
  {
    if replies == [] then []
    else Framed(replies[..|replies| - 1]) + [Json(replies[|replies| - 1]), Newline]
  }

  /** Writing one more reply in full appends its JSON text and a newline. */
  lemma FramedSnoc(replies: seq<Message<ResponsePayload>>, reply: Message<ResponsePayload>)
    ensures Framed(replies + [reply]) == Framed(replies) + [Json(reply), Newline]
  {
  }

  /** The newline-terminated lines of the stream: every JSON text that is
      directly followed by a newline. A final JSON text without a newline is
      not a line here, although a reader that returns an unterminated last
      line at end of input would also see it. Meant for the streams the node
      writes, `Framed(rs)` optionally followed by one `Json(m)`: on other
      shapes (two JSON texts with no newline between them, which together
      form one line) it keeps only the last JSON text. */
  function Lines(out: seq<Chunk>): (replies: seq<Message<ResponsePayload>>)
    ensures |replies| <= |out| / 2
  {
    if |out| < 2 then []
    else if out[|out| - 1] == Newline && out[|out| - 2].Json? then
      Lines(out[..|out| - 2]) + [out[|out| - 2].msg]
    else Lines(out[..|out| - 1])
  }

  /** The lines of a framed stream are exactly the replies that were framed. */
  lemma {:induction false} LinesOfFramed(replies: seq<Message<ResponsePayload>>)
    ensures Lines(Framed(replies)) == replies
  {
    if replies != [] {
      var init := replies[..|replies| - 1];
      var out := Framed(replies);
      assert out[..|out| - 2] == Framed(init);
      LinesOfFramed(init);
    }
  }

  /** A reply whose newline was never written is not a terminated line. */
  lemma {:induction false} LinesIgnoreUnterminated(replies: seq<Message<ResponsePayload>>, m: Message<ResponsePayload>)
    ensures Lines(Framed(replies) + [Json(m)]) == replies
  {
    LinesOfFramed(replies);
  }

  /** What one handled request leaves on the stream, by how its writes fare. */
  function Emitted(reply: Message<ResponsePayload>, fate: WriteFate): (out: seq<Chunk>)
    // the writes happen in order: a failing write cuts the frame short
    ensures out <= [Json(reply), Newline]
    // the JSON text is there iff its write succeeded, the newline iff both did
    ensures Json(reply) in out <==> fate != JsonWriteFails
    ensures Newline in out <==> fate == Delivered
  {
    match fate
    case Delivered => [Json(reply), Newline]
    case JsonWriteFails => []
    case NewlineFails => [Json(reply)]
  }

  /** Appended to fully written replies, one more reply becomes a terminated
      line exactly when both of its writes succeed. */
  lemma {:induction false} EmittedLines(replies: seq<Message<ResponsePayload>>, reply: Message<ResponsePayload>, fate: WriteFate)
    ensures Lines(Framed(replies) + Emitted(reply, fate))
         == if fate == Delivered then replies + [reply] else replies
  {
    match fate {
      case Delivered =>
        FramedSnoc(replies, reply);
        LinesOfFramed(replies + [reply]);
      case JsonWriteFails =>
        assert Framed(replies) + Emitted(reply, fate) == Framed(replies);
        LinesOfFramed(replies);
      case NewlineFails =>
        LinesIgnoreUnterminated(replies, reply);
    }
  }

  /** The error `Handle` reports for a failed write. */
  function WriteError(fate: WriteFate): (e: Error)
    requires fate != Delivered
    // the error names the write that failed, and is never a decode error
    ensures e != Deserialize
    ensures e == Serialize <==> fate == JsonWriteFails
  {
    if fate == JsonWriteFails then Serialize else TrailingNewline
  }

  /** The locked standard output: everything written to it so far. */
  class Stdout {
    var chunks: seq<Chunk>

    /** One write call; `accepted` is the environment's answer to it. */
    method Write(c: Chunk, accepted: bool) returns (ok: bool)
      modifies this
      ensures ok == accepted
      ensures chunks == if accepted then old(chunks) + [c] else old(chunks)
    {
      ok := accepted;
      if accepted {
        chunks := chunks + [c];
      }
    }
  }

  class EchoNode {
    /** The message id the next reply carries. */
    var id: nat

    /** The node as `main` creates it. */
    constructor ()
      ensures id == 0
    {
      id := 0;
    }

    /** Answers one request: writes the reply built from it and, only once
        both writes went through, advances the counter. */
    method Handle(input: Message<RequestPayload>, output: Stdout, fate: WriteFate) returns (r: Outcome)
      modifies this, output
      ensures r == if fate == Delivered then Pass else Fail(WriteError(fate))
      ensures id == if fate == Delivered then old(id) + 1 else old(id)
      ensures output.chunks == old(output.chunks) + Emitted(Reply(input, old(id)), fate)
    {
      var reply;
      match input.body.payload {
        case Echo(echo) =>
          reply := Message(input.dest, input.src, Body(Some(id), input.body.msg_id, EchoOk(echo)));
        case Init(_, _) =>
          reply := Message(input.dest, input.src, Body(Some(id), input.body.msg_id, InitOk));
      }
      var ok := output.Write(Json(reply), fate != JsonWriteFails);
      if !ok {
        return Fail(Serialize);
      }
      ok := output.Write(Newline, fate != NewlineFails);
      if !ok {
        return Fail(TrailingNewline);
      }
      id := id + 1;
      r := Pass;
    }
  }
}
