/** The correlation state of `MuxRpc` in index.ts, as values. The state,
    `onRequest` and the three dispatch methods are those of src/index.ts
    (SrcRpcState); `requestAsync` and the reply callback differ: the request
    body is serialised to a byte buffer up front with its byte length in the
    header, and every reply is JSON text, with its string length in the header. */
module TsRpcState {
  import opened Wrappers
  import opened JsRuntime
  import opened Types
  import Utf8Codec
  import SrcCodec
  import TsCodec
  import S = SrcRpcState

  /** `requestAsync` of index.ts. */
  function RequestAsync(json: JsonCodec, s: S.Rpc, name: string, args: seq<Value>, cb: S.CallbackRef): (r: S.Rpc)
    ensures r.nextRequestId == s.nextRequestId + 1
    ensures s.nextRequestId in r.outgoing && r.outgoing[s.nextRequestId].cb == cb
    ensures var req := r.outgoing[s.nextRequestId];
      req.body.Buf? && req.header.length == |req.body.bytes| && req.header.id == s.nextRequestId
    ensures S.Inv(s) ==> S.Inv(r)
  {
    var id := s.nextRequestId;
    var bytes := Utf8Codec.Encode(json.stringify(S.RequestBody(name, args)));
    var header := Header(id, |bytes|, Json, false, false);
    s.(nextRequestId := id + 1,
       outgoing := s.outgoing[id := S.RequestMessage(header, Buf(bytes), cb)],
       source := s.source + [Message(header, Buf(bytes))])
  }

  /** The frame the reply callback `cb(err, data)` builds: a JSON text
      of the error's message or of the data. `JSON.stringify(undefined)` is
      undefined, whose `length` throws a TypeError before anything is queued. */
  function ReplyFrame(json: JsonCodec, request: Message, err: Option<string>, data: Value): (r: Result<Message, Exception>)
    ensures r.Err? <==> err.None? && data.Undefined?
  {
    match Stringify(json, if err.Some? then Str(err.value) else data)
    case None => Err(TypeError)
    case Some(text) =>
      Ok(Message(Header(-request.header.id, Utf8Codec.Utf16Length(text), Json, err.Some?, false), Str(text)))
  }

  /** Calling the reply callback handed to the handler with invocation `k`. */
  function Reply(json: JsonCodec, s: S.Rpc, k: nat, err: Option<string>, data: Value): (r: (S.Rpc, Option<Exception>))
    requires k < |s.invocations|
    ensures r.1.Some? <==> err.None? && data.Undefined?
    ensures r.1.Some? ==> r.0 == s
    ensures r.1.None? ==> |r.0.source| == |s.source| + 1 && r.0.(source := s.source) == s
    ensures S.Inv(s) ==> S.Inv(r.0)
  {
    match ReplyFrame(json, s.invocations[k].request, err, data)
    case Err(e) => (s, Some(e))
    case Ok(frame) => (s.(source := s.source + [frame]), None)
  }

  /** The sink wiring of index.ts, `pull.drain(this.handleIncomingMessage)`:
      the method is passed without its object, so every call reads
      `this.incoming` of undefined and throws before it dispatches. */
  function DrainUnbound(s: S.Rpc, msg: Message): (r: (S.Rpc, Option<Exception>))
    ensures r.0 == s && r.1 == Some(TypeError)
  {
    (s, Some(TypeError))
  }

  // ---------------------------------------------------------------------------
  // Runs

  datatype Op =
    | RequestAsyncOp(name: string, args: seq<Value>, cb: S.CallbackRef)
    | OnRequestOp(handler: S.HandlerRef)
    | IncomingOp(msg: Message)
    | ReplyOp(k: nat, err: Option<string>, data: Value)

  function Step(json: JsonCodec, s: S.Rpc, op: Op): S.Rpc
  {
    match op
    case RequestAsyncOp(name, args, cb) => RequestAsync(json, s, name, args, cb)
    case OnRequestOp(h) => S.OnRequest(s, h)
    case IncomingOp(msg) => S.HandleIncomingMessage(s, msg).0
    case ReplyOp(k, err, data) => if k < |s.invocations| then Reply(json, s, k, err, data).0 else s
  }

  function Run(json: JsonCodec, s: S.Rpc, ops: seq<Op>): S.Rpc
    decreases |ops|
  {
    if ops == [] then s else Run(json, Step(json, s, ops[0]), ops[1..])
  }

  // ---------------------------------------------------------------------------
  // Properties

  /** `requestAsync` takes the counter as the id and bumps it by one, adds
      exactly `outgoing[id]`, whose header declares the byte length of the
      serialised body, and queues exactly that frame; the id is fresh. */
  lemma RequestAsyncAllocates(json: JsonCodec, s: S.Rpc, name: string, args: seq<Value>, cb: S.CallbackRef)
    requires S.Inv(s)
    ensures var id := s.nextRequestId;
      var s' := RequestAsync(json, s, name, args, cb);
      var req := s'.outgoing[id];
      && id >= 1 && id !in s.outgoing
      && (forall i :: 0 <= i < |s.deliveries| ==> s.deliveries[i].id != id)
      && req.body == Buf(Utf8Codec.Encode(json.stringify(S.RequestBody(name, args))))
      && req.header == Header(id, |req.body.bytes|, Json, false, false) && req.cb == cb
      && s' == s.(nextRequestId := id + 1,
                  outgoing := s.outgoing[id := req],
                  source := s.source + [Message(req.header, req.body)])
      && s'.outgoing.Keys == s.outgoing.Keys + {id}
  {
  }

  /** A reply frame answers the request it was handed: negated id, json,
      not a stream, err set exactly when an error is given, and the JSON text
      of the error's message or of the data, declaring that text's length.
      Only a reply with neither error nor data throws, and then queues nothing. */
  lemma ReplyQueuesOneFrame(json: JsonCodec, s: S.Rpc, k: nat, err: Option<string>, data: Value)
    requires k < |s.invocations|
    ensures var (s', thrown) := Reply(json, s, k, err, data);
      var payload := if err.Some? then Str(err.value) else data;
      && (thrown.Some? <==> err.None? && data.Undefined?)
      && (thrown.Some? ==> thrown == Some(TypeError) && s' == s)
      && (thrown.None? ==>
            && s'.source == s.source + [Message(
                 Header(-s.invocations[k].request.header.id, Utf8Codec.Utf16Length(json.stringify(payload)),
                        Json, err.Some?, false),
                 Str(json.stringify(payload)))]
            && s'.(source := s.source) == s)
  {
  }

  lemma {:induction false} RunPreservesInv(json: JsonCodec, s: S.Rpc, ops: seq<Op>)
    requires S.Inv(s)
    ensures S.Inv(Run(json, s, ops))
    decreases |ops|
  {
    if ops != [] {
      RunPreservesInv(json, Step(json, s, ops[0]), ops[1..]);
    }
  }

  /** Single-shot delivery holds for index.ts as for src/index.ts. */
  lemma AtMostOneDeliveryPerRequest(json: JsonCodec, ops: seq<Op>)
    ensures var s := Run(json, S.Init(), ops);
      && (forall i, j :: 0 <= i < j < |s.deliveries| ==> s.deliveries[i].id != s.deliveries[j].id)
      && (forall i :: 0 <= i < |s.deliveries| ==> 1 <= s.deliveries[i].id < s.nextRequestId)
  {
    RunPreservesInv(json, S.Init(), ops);
  }

  /** As wired, no incoming frame ever reaches the dispatcher: whatever
      arrives, the state stays as it was and a TypeError is raised, while the
      bound method would have answered a pending request. */
  lemma UnboundSinkDropsResponses(s: S.Rpc, msg: Message)
    requires msg.header.id !in s.incoming && -msg.header.id in s.outgoing && !msg.header.stream
    ensures DrainUnbound(s, msg) == (s, Some(TypeError))
    ensures S.HandleIncomingMessage(s, msg).0.outgoing == s.outgoing - {-msg.header.id}
  {
  }

  /** A reply reaches the caller framed exactly, with the payload as its
      body, if and only if its JSON text is ASCII; otherwise the declared
      length cuts the body short. */
  lemma ReplyArrivesExactlyIffAscii(json: JsonCodec, request: Message, err: Option<string>, data: Value)
    requires Lawful(json)
    requires IsJsonData(if err.Some? then Str(err.value) else data)
    requires ReplyFrame(json, request, err, data).Ok?
    requires TsCodec.EncodeMessage(ReplyFrame(json, request, err, data).value).Ok?
    ensures var payload := if err.Some? then Str(err.value) else data;
      var r := SrcCodec.DecodeFrame(json, TsCodec.EncodeMessage(ReplyFrame(json, request, err, data).value).value);
      (r.Frame? && r.rest == [] && r.msg.body == payload) <==> Utf8Codec.IsAscii(json.stringify(payload))
  {
    var payload := if err.Some? then Str(err.value) else data;
    var text := json.stringify(payload);
    var frame := ReplyFrame(json, request, err, data).value;
    var wire := TsCodec.EncodeMessage(frame).value;
    var bytes := Utf8Codec.Encode(text);
    TsCodec.FrameDecodes(json, frame, []);
    assert wire + [] == wire;
    Utf8Codec.Utf16LengthVersusBytes(text);
    if Utf8Codec.IsAscii(text) {
      assert bytes[..|bytes|] == bytes && bytes[|bytes|..] + [] == [];
      Utf8Codec.DecodeEncode(text);
    } else {
      var n := Utf8Codec.Utf16Length(text);
      assert |bytes[n..] + []| > 0;
    }
  }
}
