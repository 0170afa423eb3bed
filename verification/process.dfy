/** The process: `main` creates a node with counter 0 and feeds it the
    decoded input stream, one request at a time, stopping at the first
    error. */
module Process {
  import opened Messages
  import opened Node

  /** One item of the input stream, as the streaming deserializer yields it. */
  datatype Input = Parsed(msg: Message<RequestPayload>) | Unparsable

  /** One item whose request is decoded and whose reply is fully written. */
  predicate Completes(input: Input, fate: WriteFate)
  {
    input.Parsed? && fate == Delivered
  }

  /** The replies a node starting at counter 0 sends, in order, for `reqs`. */
  function Replies(reqs: seq<Message<RequestPayload>>): (rs: seq<Message<ResponsePayload>>)
    ensures |rs| == |reqs|
  {
    if reqs == [] then []
    else Replies(reqs[..|reqs| - 1]) + [Reply(reqs[|reqs| - 1], |reqs| - 1)]
  }

  /** Reply k answers request k and carries id k. */
  lemma {:induction false} ReplyAt(reqs: seq<Message<RequestPayload>>, k: nat)
    requires k < |reqs|
    ensures Replies(reqs)[k] == Reply(reqs[k], k)
  {
    if k < |reqs| - 1 {
      ReplyAt(reqs[..|reqs| - 1], k);
    }
  }

  /** The msg_ids of a sequence of replies, in order. */
  function MsgIds(rs: seq<Message<ResponsePayload>>): seq<Option<nat>>
  {
    seq(|rs|, k requires 0 <= k < |rs| => rs[k].body.msg_id)
  }

  /** The ids of a run are exactly 0, 1, ..., N-1, in order. */
  lemma {:induction false} GapFreeIds(reqs: seq<Message<RequestPayload>>)
    ensures MsgIds(Replies(reqs)) == seq(|reqs|, (k: nat) requires k < |reqs| => Some(k))
  {
    var ids := MsgIds(Replies(reqs));
    forall k | 0 <= k < |reqs|
      ensures ids[k] == Some(k)
    {
      ReplyAt(reqs, k);
    }
  }

  /** No id is used twice in a run. */
  lemma {:induction false} IdsNeverRepeat(reqs: seq<Message<RequestPayload>>, i: nat, j: nat)
    requires i < j < |reqs|
    ensures Replies(reqs)[i].body.msg_id != Replies(reqs)[j].body.msg_id
  {
    ReplyAt(reqs, i);
    ReplyAt(reqs, j);
  }

  /** The requests the loop handles to completion before its first failure. */
  function Served(inputs: seq<Input>, fates: seq<WriteFate>): (reqs: seq<Message<RequestPayload>>)
    requires |fates| == |inputs|
    ensures |reqs| <= |inputs|
    ensures forall j :: 0 <= j < |reqs| ==> inputs[j] == Parsed(reqs[j]) && fates[j] == Delivered
    ensures |reqs| < |inputs| ==> !Completes(inputs[|reqs|], fates[|reqs|])
  {
    if inputs == [] || !Completes(inputs[0], fates[0]) then []
    else [inputs[0].msg] + Served(inputs[1..], fates[1..])
  }

  /** What the process leaves on standard output: the framed replies to the
      requests it served, then whatever part of the failing reply was
      written. */
  function ServeOutput(inputs: seq<Input>, fates: seq<WriteFate>): (out: seq<Chunk>)
    requires |fates| == |inputs|
    // every served request's reply is on the stream, framed, before anything else
    ensures Framed(Replies(Served(inputs, fates))) <= out
    // the failing reply adds at most its JSON text, never a newline; the text
    // is there exactly when the request was decoded and only its newline failed
    ensures var n := |Served(inputs, fates)|;
      && |out| <= 2 * n + 1
      && (|out| == 2 * n + 1 <==> n < |inputs| && inputs[n].Parsed? && fates[n] == NewlineFails)
      && (|out| == 2 * n + 1 ==> out[2 * n] == Json(Reply(inputs[n].msg, n)))
  {
    var reqs := Served(inputs, fates);
    var n := |reqs|;
    Framed(Replies(reqs))
      + (if n < |inputs| && inputs[n].Parsed? then Emitted(Reply(inputs[n].msg, n), fates[n]) else [])
  }

  /** How the process ends. */
  function ServeOutcome(inputs: seq<Input>, fates: seq<WriteFate>): (r: Outcome)
    requires |fates| == |inputs|
    ensures r.Pass? <==> forall j :: 0 <= j < |inputs| ==> Completes(inputs[j], fates[j])
    ensures r == Fail(Deserialize) <==> exists j :: 0 <= j < |inputs| && inputs[j].Unparsable?
                                          && forall i :: 0 <= i < j ==> Completes(inputs[i], fates[i])
    // any other failure is the write error of the first decoded request
    // whose reply was not delivered
    ensures r.Fail? && r.error != Deserialize ==>
      var n := |Served(inputs, fates)|;
      n < |inputs| && inputs[n].Parsed? && r == Fail(WriteError(fates[n]))
  {
    var n := |Served(inputs, fates)|;
    if n == |inputs| then Pass
    else if inputs[n].Unparsable? then Fail(Deserialize)
    else Fail(WriteError(fates[n]))
  }

  /** Appending a request appends its reply, with the next id. */
  lemma {:induction false} RepliesSnoc(reqs: seq<Message<RequestPayload>>, q: Message<RequestPayload>)
    ensures Replies(reqs + [q]) == Replies(reqs) + [Reply(q, |reqs|)]
  {
  }

  /** One more completed item extends the served prefix by its request,
      and the output by its framed reply. */
  lemma {:induction false} ServedStep(inputs: seq<Input>, fates: seq<WriteFate>, i: nat, before: seq<Chunk>)
    requires |fates| == |inputs| && i < |inputs|
    requires i <= |Served(inputs, fates)| && Completes(inputs[i], fates[i])
    ensures var served := Served(inputs, fates);
      && i < |served|
      && (before + Framed(Replies(served[..i]))) + Emitted(Reply(inputs[i].msg, i), fates[i])
         == before + Framed(Replies(served[..i + 1]))
  {
    var served := Served(inputs, fates);
    assert i < |served| && served[i] == inputs[i].msg;
    FramedStep(served, i, before);
  }

  /** Handling request i of a run appends its framed reply to the output. */
  lemma {:induction false} FramedStep(reqs: seq<Message<RequestPayload>>, i: nat, before: seq<Chunk>)
    requires i < |reqs|
    ensures (before + Framed(Replies(reqs[..i]))) + [Json(Reply(reqs[i], i)), Newline]
         == before + Framed(Replies(reqs[..i + 1]))
  {
    var reply := Reply(reqs[i], i);
    var framed := Framed(Replies(reqs[..i]));
    assert reqs[..i + 1] == reqs[..i] + [reqs[i]];
    RepliesSnoc(reqs[..i], reqs[i]);
    FramedSnoc(Replies(reqs[..i]), reply);
    assert (before + framed) + [Json(reply), Newline] == before + (framed + [Json(reply), Newline]);
  }

  /** The first item that does not complete ends the run, and fixes both the
      output and the outcome. */
  lemma {:induction false} ServedStop(inputs: seq<Input>, fates: seq<WriteFate>, i: nat, before: seq<Chunk>)
    requires |fates| == |inputs| && i < |inputs|
    requires i <= |Served(inputs, fates)| && !Completes(inputs[i], fates[i])
    ensures var served := Served(inputs, fates);
      && (inputs[i].Parsed? ==>
            (before + Framed(Replies(served[..i]))) + Emitted(Reply(inputs[i].msg, i), fates[i])
            == before + ServeOutput(inputs, fates))
      && (inputs[i].Unparsable? ==>
            before + Framed(Replies(served[..i])) == before + ServeOutput(inputs, fates))
      && ServeOutcome(inputs, fates)
         == if inputs[i].Unparsable? then Fail(Deserialize) else Fail(WriteError(fates[i]))
  {
    var served := Served(inputs, fates);
    assert |served| == i;
    assert served[..i] == served;
    var framed := Framed(Replies(served));
    if inputs[i].Parsed? {
      var tail := Emitted(Reply(inputs[i].msg, i), fates[i]);
      assert ServeOutput(inputs, fates) == framed + tail;
      assert (before + framed) + tail == before + (framed + tail);
    } else {
      assert ServeOutput(inputs, fates) == framed + [];
      assert framed + [] == framed;
    }
  }

  /** When every item completes, the run is a success and every reply is
      framed on the output. */
  lemma {:induction false} ServedAll(inputs: seq<Input>, fates: seq<WriteFate>, before: seq<Chunk>)
    requires |fates| == |inputs| && |Served(inputs, fates)| == |inputs|
    ensures before + Framed(Replies(Served(inputs, fates)[..|inputs|])) == before + ServeOutput(inputs, fates)
    ensures ServeOutcome(inputs, fates) == Pass
  {
    var served := Served(inputs, fates);
    assert served[..|inputs|] == served;
  }

  /** The loop of `main`: handle each decoded request in order, stop at the
      first decode or write failure. `fates[k]` is how the writes of the
      k-th reply fare. */
  method Serve(inputs: seq<Input>, fates: seq<WriteFate>, stdout: Stdout) returns (r: Outcome)
    requires |fates| == |inputs|
    modifies stdout
    ensures stdout.chunks == old(stdout.chunks) + ServeOutput(inputs, fates)
    ensures r == ServeOutcome(inputs, fates)
  {
    var node := new EchoNode();
    ghost var before := stdout.chunks;
    ghost var served := Served(inputs, fates);
    for i := 0 to |inputs|
      invariant node.id == i
      invariant i <= |served|
      invariant stdout.chunks == before + Framed(Replies(served[..i]))
    {
      match inputs[i] {
        case Unparsable =>
          ServedStop(inputs, fates, i, before);
          return Fail(Deserialize);
        case Parsed(msg) =>
          var step := node.Handle(msg, stdout, fates[i]);
          if step.Fail? {
            ServedStop(inputs, fates, i, before);
            return step;
          }
          ServedStep(inputs, fates, i, before);
      }
    }
    ServedAll(inputs, fates, before);
    r := Pass;
  }

  /** End to end: the newline-terminated lines of the output are one reply
      per served request, in order; line k carries id k, answers request k
      with the addresses swapped, and echoes its text. A reply whose newline
      was not written is not among them. */
  lemma {:induction false} ServeLines(inputs: seq<Input>, fates: seq<WriteFate>)
    requires |fates| == |inputs|
    ensures Lines(ServeOutput(inputs, fates)) == Replies(Served(inputs, fates))
    ensures var lines := Lines(ServeOutput(inputs, fates));
      forall k :: 0 <= k < |lines| ==>
        && inputs[k].Parsed?
        && lines[k].body.msg_id == Some(k)
        && lines[k].body.in_reply_to == inputs[k].msg.body.msg_id
        && lines[k].src == inputs[k].msg.dest
        && lines[k].dest == inputs[k].msg.src
        && Answers(lines[k].body.payload, inputs[k].msg.body.payload)
  {
    var reqs := Served(inputs, fates);
    var n := |reqs|;
    var rs := Replies(reqs);
    if n < |inputs| && inputs[n].Parsed? {
      assert ServeOutput(inputs, fates) == Framed(rs) + Emitted(Reply(inputs[n].msg, n), fates[n]);
      EmittedLines(rs, Reply(inputs[n].msg, n), fates[n]);
    } else {
      assert ServeOutput(inputs, fates) == Framed(rs);
      LinesOfFramed(rs);
    }
    forall k | 0 <= k < n
      ensures Replies(reqs)[k] == Reply(inputs[k].msg, k)
    {
      ReplyAt(reqs, k);
    }
  }

  /** Two echo requests with ids 5 and 6: replies with ids 0 and 1 answer
      them in order and echo their texts. */
  lemma TwoEchoes()
    ensures var e5 := Message("c1", "n1", Body(Some(5), None, Echo("a")));
      var e6 := Message("c1", "n1", Body(Some(6), None, Echo("b")));
      ServeOutput([Parsed(e5), Parsed(e6)], [Delivered, Delivered])
        == [ Json(Message("n1", "c1", Body(Some(0), Some(5), EchoOk("a")))), Newline,
             Json(Message("n1", "c1", Body(Some(1), Some(6), EchoOk("b")))), Newline ]
  {
  }

  /** An input that cannot be decoded stops the process with a decode
      error: the requests before it are served, it and everything after it
      are not. */
  lemma {:induction false} MalformedInputHalts(before: seq<Input>, after: seq<Input>, fates: seq<WriteFate>)
    requires |fates| == |before| + 1 + |after|
    requires forall j :: 0 <= j < |before| ==> Completes(before[j], fates[j])
    ensures |Served(before + [Unparsable] + after, fates)| == |before|
    ensures ServeOutcome(before + [Unparsable] + after, fates) == Fail(Deserialize)
  {
    var inputs := before + [Unparsable] + after;
    assert inputs[|before|] == Unparsable;
    assert forall j :: 0 <= j < |before| ==> inputs[j] == before[j];
  }
}
