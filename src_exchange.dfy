/** Two `MuxRpc` peers of src/index.ts wired stream to stream, as in
    tests/basic.test.ts: the first sends a request, the second's handler
    replies through its callback, and every frame is encoded and decoded on
    the way by the codec of the same file. */
module SrcExchange {
  import opened Wrappers
  import opened NodeBuffer
  import opened JsRuntime
  import opened Types
  import opened SrcCodec
  import opened SrcRpcState
  import opened SrcMuxRpc
  import Utf8Codec

  /** What the caller's callback receives for that answer. */
  function Expected(err: Option<string>, data: Value): Outcome
  {
    if err.Some? then Outcome.Failed(err.value) else Succeeded(data)
  }

  /** One round trip between two fresh peers: peer 1 calls `requestAsync(name,
      args, cb)`, peer 2's handler is invoked exactly once with that request
      and answers `cb(err, enc, data)`, and peer 1's callback is then called
      exactly once, with the error's message or with the data. The frames must
      be encodable (JSON data, lengths within 32 bits) and a successful
      answer must be of the kind its encoding carries. */
  method Exchange(json: JsonCodec, name: string, args: seq<Value>,
                  err: Option<string>, enc: Encoding, data: Value)
    returns (handled: seq<Invocation>, delivered: seq<Delivery>)
    requires Lawful(json)
    requires forall i :: 0 <= i < |args| ==> IsJsonData(args[i])
    requires EncodeMessage(json, FirstRequest(name, args)).Ok?
    requires EncodeMessage(json, ReplyFrame(FirstRequest(name, args), err, enc, data)).Ok?
    requires err.None? ==> Representable(json, data, enc)
    ensures |handled| == 1 && handled[0].handler == 0
    ensures handled[0].request.header.id == 1 && handled[0].request.body == RequestBody(name, args)
    ensures delivered == [Delivery(1, 0, Expected(err, data))]
  {
    var rpc1 := new MuxRpc();
    var rpc2 := new MuxRpc();
    rpc1.RequestAsync(name, args, 0);
    rpc2.OnRequest(0);

    // peer 1's source into peer 2's sink
    assert rpc1.source[0] == FirstRequest(name, args);
    RequestArrives(json, name, args);
    var received := DecodeFrame(json, EncodeMessage(json, rpc1.source[0]).value).msg;
    var thrown := rpc2.HandleIncomingMessage(received);
    handled := rpc2.invocations;

    // the handler answers through its reply callback
    rpc2.Reply(0, err, enc, data);

    // peer 2's source into peer 1's sink
    assert rpc2.source[0] == ReplyFrame(received, err, enc, data);
    ResponseArrives(json, received, err, enc, data);
    var answer := DecodeFrame(json, EncodeMessage(json, rpc2.source[0]).value).msg;
    ResponseDelivers(rpc1.State(), name, args, answer, err, data);
    thrown := rpc1.HandleIncomingMessage(answer);
    delivered := rpc1.deliveries;
  }

  /** A fresh peer that has sent its first request delivers an answer to
      id 1 to that request's callback, with the error's text or the body. */
  lemma ResponseDelivers(s: Rpc, name: string, args: seq<Value>, answer: Message, err: Option<string>, data: Value)
    requires s == RequestAsync(Init(), name, args, 0)
    requires answer.header.id == -1 && !answer.header.stream && answer.header.err == err.Some?
    requires err.None? ==> answer.body == data
    requires err.Some? ==> ToStringCall(answer.body) == Ok(err.value)
    ensures HandleIncomingMessage(s, answer).0.deliveries == [Delivery(1, 0, Expected(err, data))]
  {
    assert 1 in s.outgoing && s.outgoing[1].cb == 0 && s.incoming == map[];
  }

  /** The frame of the first `requestAsync` of a fresh peer. */
  function FirstRequest(name: string, args: seq<Value>): Message
  {
    Message(Header(1, 0, Json, false, false), RequestBody(name, args))
  }

  /** The request frame reaches the other peer intact. */
  lemma RequestArrives(json: JsonCodec, name: string, args: seq<Value>)
    requires Lawful(json)
    requires forall i :: 0 <= i < |args| ==> IsJsonData(args[i])
    requires EncodeMessage(json, FirstRequest(name, args)).Ok?
    ensures var r := DecodeFrame(json, EncodeMessage(json, FirstRequest(name, args)).value);
      && r.Frame? && r.msg.header.id == 1 && !r.msg.header.stream
      && r.msg.body == RequestBody(name, args)
  {
    var m := FirstRequest(name, args);
    var wire := EncodeMessage(json, m).value;
    RequestBodyIsJson(name, args);
    FrameRoundTrip(json, m, []);
    assert wire + [] == wire;
  }

  /** The frame answering a request with id 1 reaches the caller as the
      response to request 1: with the data itself on success, with a body
      whose `toString()` is the error's message on failure (in any
      encoding). */
  lemma ResponseArrives(json: JsonCodec, request: Message, err: Option<string>, enc: Encoding, data: Value)
    requires Lawful(json)
    requires request.header.id == 1
    requires EncodeMessage(json, ReplyFrame(request, err, enc, data)).Ok?
    requires err.None? ==> Representable(json, data, enc)
    ensures var r := DecodeFrame(json, EncodeMessage(json, ReplyFrame(request, err, enc, data)).value);
      && r.Frame? && r.msg.header.id == -1 && !r.msg.header.stream && r.msg.header.err == err.Some?
      && (err.None? ==> r.msg.body == data)
      && (err.Some? ==> ToStringCall(r.msg.body) == Ok(err.value))
  {
    var m := ReplyFrame(request, err, enc, data);
    var wire := EncodeMessage(json, m).value;
    assert wire + [] == wire;
    if err.None? {
      FrameRoundTrip(json, m, []);
    } else {
      FrameDecodes(json, m, []);
      ErrorTextSurvives(json, err.value, enc);
    }
  }

  lemma RequestBodyIsJson(name: string, args: seq<Value>)
    requires forall i :: 0 <= i < |args| ==> IsJsonData(args[i])
    ensures IsJsonData(RequestBody(name, args))
  {
    var fields := RequestBody(name, args).fields;
    assert fields[0].0 == "name" && fields[1].0 == "type" && fields[2].0 == "args";
    assert "name"[0] != "type"[0] && "name"[0] != "args"[0] && "type"[0] != "args"[0];
  }

  /** Whatever the encoding, `toString()` of the decoded error body gives
      back the message the handler sent (in binary it arrives as its UTF-8
      bytes, which `toString()` decodes). */
  lemma ErrorTextSurvives(json: JsonCodec, message: string, enc: Encoding)
    requires enc == Json ==> Lawful(json)
    ensures EncodeMessageBody(json, Str(message), enc).Ok?
    ensures var bytes := EncodeMessageBody(json, Str(message), enc).value;
      DecodeMessageBody(json, bytes, WireEncoding(enc)).Ok?
      && ToStringCall(DecodeMessageBody(json, bytes, WireEncoding(enc)).value) == Ok(message)
  {
    Utf8Codec.DecodeEncode(message);
    if enc == Json {
      Utf8Codec.DecodeEncode(json.stringify(Str(message)));
    }
  }

  /** tests/basic.test.ts answers with `cb(null, text)`, but the reply
      callback of src/index.ts takes `(err, enc, data)`: the text lands in the
      encoding slot and the data is undefined, and such a frame cannot be
      encoded, whatever the encoding. */
  lemma ReplyWithoutDataCannotBeEncoded(json: JsonCodec, s: Rpc, k: nat, enc: Encoding)
    requires k < |s.invocations|
    ensures var s' := Reply(s, k, None, enc, Undefined);
      EncodeMessage(json, s'.source[|s.source|]) == Err(TypeError)
  {
  }
}
