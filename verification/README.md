# Echo node (vortex) in Dafny

A model of the Maelstrom echo node in `vortex/src/main.rs`. The node reads
request messages (`Message<RequestPayload>`) one at a time and answers each
with exactly one reply (`Message<ResponsePayload>`):

- the reply goes from the request's `dest` back to its `src`;
- its `msg_id` is the node's counter `id`;
- its `in_reply_to` is the request's `msg_id`, copied verbatim (`None` stays `None`);
- `Echo{echo}` is answered by `EchoOk{echo}` and `Init{..}` by `InitOk`.

`handle` writes the reply's JSON text and then a newline to standard output.
Only when both writes succeed does it increment the counter. `main` starts the
counter at 0. It handles the decoded input stream in order and stops at the
first item that cannot be decoded or the first failed write.

Files:

- `messages.dfy` (module `Messages`): the envelope types and the pure reply rule `Reply`.
- `node.dfy` (module `Node`): the output stream as a sequence of write chunks
  (`Json(reply)` or `Newline`), the newline-terminated lines `Lines` of that stream, the
  `Stdout` class and the `EchoNode` class with its `Handle` step.
- `process.dfy` (module `Process`): the loop of `main` as the method `Serve`,
  the functions that specify it (`Served`, `ServeOutput`, `ServeOutcome`,
  `Replies`) and the run-level properties.

The environment is made explicit as parameters:

- the decoded input is a `seq<Input>`, whose items are `Parsed(msg)` or
  `Unparsable`;
- how the two writes of the k-th reply fare is `fates[k]`: `Delivered`,
  `JsonWriteFails` or `NewlineFails`.

A failed newline write leaves the reply's JSON text on the stream, but the
counter is not advanced. `Lines` shows that such a reply never becomes a
newline-terminated line of the output.

Two consequences of the code:

- A request without `msg_id` is still answered; the reply has no
  `in_reply_to` (main.rs:56, 70).
- A failed write of the JSON text (`Serialize`) or of the newline
  (`TrailingNewline`) ends the process (main.rs:60-61, 74-75, 96).

## Model

| member | source | states |
|---|---|---|
| Messages.Reply | vortex/src/main.rs:49-73 | the reply swaps src and dest, carries msg_id = Some(id), copies the request's msg_id into in_reply_to (None included), answers Echo{s} with EchoOk{s} and Init with InitOk |
| Messages.ReplyIgnoresUnusedFields | vortex/src/main.rs:64-71 | node_id, node_ids and the request's in_reply_to do not affect the reply: requests that agree on addresses, msg_id and echoed text get equal replies |
| Messages.InitHandshake | vortex/src/main.rs:64-73 | the init request from c1 to n1 with msg_id 1, handled at counter 0, yields an init_ok from n1 to c1 with msg_id 0 and in_reply_to 1 |
| Node.EmittedLines | vortex/src/main.rs:60-61 | after fully written replies, the newline-terminated lines of the output gain one more reply exactly when both of its writes succeed (JSON text, then newline), and nothing when either fails |
| Node.LinesOfFramed | vortex/src/main.rs:60-61 | the newline-terminated lines of a stream of fully written replies are exactly those replies, in order |
| Node.LinesIgnoreUnterminated | vortex/src/main.rs:61 | a reply whose trailing newline was not written is not a newline-terminated line of the output |
| Node.Emitted | vortex/src/main.rs:60-61 | what one reply leaves on the stream is a prefix of its JSON text followed by a newline: the text is there iff its write succeeded, the newline iff both writes did |
| Node.WriteError | vortex/src/main.rs:60-61 | a failed write is reported as Serialize exactly when the JSON write failed, as TrailingNewline otherwise, and never as a decode error |
| Node.Stdout.Write | vortex/src/main.rs:60-61 | a write appends its chunk when the stream accepts it, leaves the stream unchanged otherwise, and reports which happened |
| Node.EchoNode.constructor | vortex/src/main.rs:90 | a new node's counter is 0 |
| Node.EchoNode.Handle | vortex/src/main.rs:44-80 | on success: one reply built by Reply from the old counter is written with its newline and the counter goes up by exactly 1; on a failed JSON write: nothing written, counter unchanged, Serialize error; on a failed newline: only the JSON text written, counter unchanged, TrailingNewline error |
| Process.Replies | vortex/src/main.rs:90-97 | a run answers N requests with exactly N replies |
| Process.ReplyAt | vortex/src/main.rs:90-97 | in a run from counter 0, reply k is Reply(request k, k): it answers request k and carries id k |
| Process.RepliesSnoc | vortex/src/main.rs:92-96 | handling one more request appends exactly one reply to the run, answering it with the next id |
| Process.GapFreeIds | vortex/src/main.rs:90-97 | the sequence of msg_ids of a run of N replies equals [Some(0), ..., Some(N-1)] |
| Process.IdsNeverRepeat | vortex/src/main.rs:90-97 | no two replies of a run carry the same msg_id |
| Process.Served | vortex/src/main.rs:92-97 | the requests handled to completion are the longest prefix of decoded inputs whose writes all succeeded; the item after them did not complete |
| Process.ServeOutput | vortex/src/main.rs:92-97 | the output starts with the framed replies to the served requests; after them there is at most one more chunk, Json(Reply(request n, n)) for the failing request n, present exactly when that request was decoded and only its newline failed |
| Process.ServeOutcome | vortex/src/main.rs:92-99 | the process ends Ok iff every item was decoded and its reply delivered; it ends with a decode error iff some undecodable item is preceded only by completed ones; any other failure is the write error (Serialize or TrailingNewline) of the first decoded request whose reply was not delivered |
| Process.Serve | vortex/src/main.rs:84-100 | the loop leaves on standard output the framed replies to the served requests, plus the JSON text of a reply whose newline failed, and returns the outcome ServeOutcome states |
| Process.ServeLines | vortex/src/main.rs:90-97 | end to end: the newline-terminated lines of the output are Replies(Served(...)); line k answers input k, carries id k, swaps its addresses, copies its msg_id and matches its payload |
| Process.TwoEchoes | vortex/src/main.rs:90-97 | echo requests with msg_id 5 and 6 and texts "a" and "b" get replies with msg_id 0 and 1, in_reply_to 5 and 6, texts "a" and "b", in that order |
| Process.MalformedInputHalts | vortex/src/main.rs:92-93 | an undecodable item ends the process with a decode error; nothing after it is handled, and the requests served are those before it |

## Left out

- JSON encoding and decoding (serde with its `tag`, `rename_all` and `flatten` attributes). A decoded item is a `Parsed` message, and any decode failure is `Unparsable`. So unknown discriminants and malformed JSON are not told apart.
- Byte-level I/O and the stdin/stdout locks. The output is a sequence of chunks: a reply's JSON text, or the newline.
- A failed `serde_json::to_writer` may leave part of the JSON text on the stream. The model writes nothing in that case.
- The `anyhow` context strings. Errors are the three phases `Deserialize`, `Serialize` and `TrailingNewline`. The echo and init branches are not told apart in the serialize error.
- Node.EchoNode.Handle: does not model the `u64` overflow of `self.id += 1`, because ids are `nat`. Overflow needs 2^64 replies. Request `msg_id`s are also `nat` rather than `u64`.
- A reader that also returns a final line without a terminator at end of input is not modelled: after a failed newline write the process exits, and such a reader would also see the failing reply's JSON text. `Lines` counts only newline-terminated lines.
- How writes fare is given as a parameter (`WriteFate`), since it is decided by the operating system.
