/** The correlation state of `MuxRpc` in src/index.ts, as values: the id
    counter, the `incoming` and `outgoing` maps, the outbound `source`
    queue, the registered request handler, and two logs that stand for calls
    into user code (the handler's invocations and the callbacks' deliveries).
    Each operation of the class is a transition function here; the class in
    module SrcMuxRpc is proved to perform exactly these transitions. */
module SrcRpcState {
  import opened Wrappers
  import opened JsRuntime
  import opened Types

  /** The identity of a callback passed to `requestAsync`. */
  type CallbackRef = nat

  /** The identity of a handler passed to `onRequest`. */
  type HandlerRef = nat

  /** `RequestMessage`: an outgoing request frame and its callback. */
  datatype RequestMessage = RequestMessage(header: Header, body: Value, cb: CallbackRef)

  /** How a callback was called: `cb(new Error(message), null)` or `cb(undefined, value)`. */
  datatype Outcome = Failed(message: string) | Succeeded(value: Value)

  /** One call of the callback of the outgoing request `id`. */
  datatype Delivery = Delivery(id: int, cb: CallbackRef, outcome: Outcome)

  /** One call of the request handler, with the message it was handed. The
      reply callback passed along with it is `Reply` with this entry's index. */
  datatype Invocation = Invocation(handler: HandlerRef, request: Message)

  datatype Rpc = Rpc(
    nextRequestId: int,
    incoming: map<int, Message>,
    outgoing: map<int, RequestMessage>,
    source: seq<Message>,
    requestHandler: Option<HandlerRef>,
    invocations: seq<Invocation>,
    deliveries: seq<Delivery>)

  /** The state the constructor builds: ids start at 1, nothing is tracked. */
  function Init(): Rpc
  {
    Rpc(1, map[], map[], [], None, [], [])
  }

  /** The call-request body `{ name, type: 'async', args }`. */
  function RequestBody(name: string, args: seq<Value>): Value
  {
    Obj([("name", Str(name)), ("type", Str("async")), ("args", Arr(args))])
  }

  /** `requestAsync`: take the next id, track the request, queue its frame. */
  function RequestAsync(s: Rpc, name: string, args: seq<Value>, cb: CallbackRef): (r: Rpc)
    ensures r.nextRequestId == s.nextRequestId + 1
    ensures s.nextRequestId in r.outgoing && r.outgoing[s.nextRequestId].cb == cb
    ensures r.outgoing[s.nextRequestId].header.id == s.nextRequestId
    ensures Inv(s) ==> Inv(r)
  {
    var id := s.nextRequestId;
    var header := Header(id, 0, Json, false, false);
    var body := RequestBody(name, args);
    s.(nextRequestId := id + 1,
       outgoing := s.outgoing[id := RequestMessage(header, body, cb)],
       source := s.source + [Message(header, body)])
  }

  /** `onRequest`: the last handler registered is the one used. */
  function OnRequest(s: Rpc, handler: HandlerRef): (r: Rpc)
    ensures r.requestHandler == Some(handler) && r.(requestHandler := s.requestHandler) == s
    ensures Inv(s) ==> Inv(r)
  {
    s.(requestHandler := Some(handler))
  }

  /** What `handleAsyncResponse` did: returned false for an unknown id,
      consumed the request, or threw (an error response whose body has no
      callable `toString`) after removing the request. */
  datatype Handled = Missing | Consumed | Threw(error: Exception)

  /** `handleAsyncResponse`: remove `outgoing[-id]`, then call its callback
      with an error made from the body when `err` is set, else with the body. */
  function HandleAsyncResponse(s: Rpc, res: Message): (r: (Rpc, Handled))
    ensures r.1 == Missing <==> -res.header.id !in s.outgoing
    ensures -res.header.id !in r.0.outgoing && r.0.outgoing.Keys <= s.outgoing.Keys
    ensures s.deliveries <= r.0.deliveries && |r.0.deliveries| <= |s.deliveries| + 1
    ensures Inv(s) ==> Inv(r.0)
  {
    var key := -res.header.id;
    if key !in s.outgoing then (s, Missing)
    else
      var req := s.outgoing[key];
      var s' := s.(outgoing := s.outgoing - {key});
      if res.header.err then
        match ToStringCall(res.body)
        case Err(e) => (s', Threw(e))
        case Ok(text) => (s'.(deliveries := s'.deliveries + [Delivery(key, req.cb, Failed(text))]), Consumed)
      else
        (s'.(deliveries := s'.deliveries + [Delivery(key, req.cb, Succeeded(res.body))]), Consumed)
  }

  /** `handleNewRequest`: without a handler nothing happens; otherwise the
      message is recorded under its id and handed to the handler. */
  function HandleNewRequest(s: Rpc, msg: Message): (r: Rpc)
    ensures r.outgoing == s.outgoing && r.deliveries == s.deliveries && r.requestHandler == s.requestHandler
    ensures s.requestHandler.Some? ==>
      msg.header.id in r.incoming && r.incoming[msg.header.id] == msg && |r.invocations| == |s.invocations| + 1
    ensures Inv(s) ==> Inv(r)
  {
    match s.requestHandler
    case None => s
    case Some(h) =>
      s.(incoming := s.incoming[msg.header.id := msg],
         invocations := s.invocations + [Invocation(h, msg)])
  }

  /** `handleIncomingMessage`: a known incoming id is more data for a call
      in progress (ignored); a frame whose negated id is an outgoing request
      is its response (handled only when not a stream frame); anything else is
      a new request. Returns what `handleAsyncResponse` threw, if anything. */
  function HandleIncomingMessage(s: Rpc, msg: Message): (r: (Rpc, Option<Exception>))
    ensures r.0.nextRequestId == s.nextRequestId && r.0.source == s.source
    ensures r.1.Some? ==> r.1 == Some(TypeError) && msg.header.err && -msg.header.id in s.outgoing
    ensures |r.0.deliveries| <= |s.deliveries| + 1
    ensures Inv(s) ==> Inv(r.0)
  {
    var id := msg.header.id;
    if id in s.incoming then (s, None)
    else if -id in s.outgoing then
      if !msg.header.stream then
        var (s', handled) := HandleAsyncResponse(s, msg);
        (s', if handled.Threw? then Some(handled.error) else None)
      else (s, None)
    else (HandleNewRequest(s, msg), None)
  }

  /** The frame the reply callback queues for `request`. */
  function ReplyFrame(request: Message, err: Option<string>, enc: Encoding, data: Value): (r: Message)
    ensures -r.header.id == request.header.id && !r.header.stream && r.header.encoding == enc
    ensures r.header.err <==> err.Some?
    ensures r.body == (if err.Some? then Str(err.value) else data)
  {
    Message(Header(-request.header.id, -1, enc, err.Some?, false),
            if err.Some? then Str(err.value) else data)
  }

  /** Calling the reply callback handed to the handler with invocation `k`,
      as `cb(err, enc, data)`; `err` is the message of the Error, if any. */
  function Reply(s: Rpc, k: nat, err: Option<string>, enc: Encoding, data: Value): (r: Rpc)
    requires k < |s.invocations|
    ensures |r.source| == |s.source| + 1 && r.source[..|s.source|] == s.source
    ensures r.(source := s.source) == s
    ensures Inv(s) ==> Inv(r)
  {
    s.(source := s.source + [ReplyFrame(s.invocations[k].request, err, enc, data)])
  }

  // ---------------------------------------------------------------------------
  // Runs: any sequence of calls into the engine

  datatype Op =
    | RequestAsyncOp(name: string, args: seq<Value>, cb: CallbackRef)
    | OnRequestOp(handler: HandlerRef)
    | IncomingOp(msg: Message)
    | ReplyOp(k: nat, err: Option<string>, enc: Encoding, data: Value)

  /** One call; a reply through a callback that was never handed out is no call at all. */
  function Step(s: Rpc, op: Op): Rpc
  {
    match op
    case RequestAsyncOp(name, args, cb) => RequestAsync(s, name, args, cb)
    case OnRequestOp(h) => OnRequest(s, h)
    case IncomingOp(msg) => HandleIncomingMessage(s, msg).0
    case ReplyOp(k, err, enc, data) => if k < |s.invocations| then Reply(s, k, err, enc, data) else s
  }

  function Run(s: Rpc, ops: seq<Op>): Rpc
    decreases |ops|
  {
    if ops == [] then s else Run(Step(s, ops[0]), ops[1..])
  }

  /** The ids `requestAsync` hands out along a run. */
  function AllocatedIds(s: Rpc, ops: seq<Op>): seq<int>
    decreases |ops|
  {
    if ops == [] then []
    else (if ops[0].RequestAsyncOp? then [s.nextRequestId] else []) + AllocatedIds(Step(s, ops[0]), ops[1..])
  }

  /** The correlation invariant: outstanding ids were handed out by this
      engine and are keyed by their own header id; every delivered id was
      handed out, is no longer outstanding, and was delivered only once. */
  predicate Inv(s: Rpc)
  {
    && s.nextRequestId >= 1
    && (forall id :: id in s.outgoing ==> 1 <= id < s.nextRequestId && s.outgoing[id].header.id == id)
    && (forall i :: 0 <= i < |s.deliveries| ==>
          1 <= s.deliveries[i].id < s.nextRequestId && s.deliveries[i].id !in s.outgoing)
    && (forall i, j :: 0 <= i < j < |s.deliveries| ==> s.deliveries[i].id != s.deliveries[j].id)
  }

  // ---------------------------------------------------------------------------
  // Properties of single calls

  /** `requestAsync` takes the counter as the id, bumps the counter by one,
      adds exactly `outgoing[id]` and queues exactly one frame; the id is
      neither outstanding nor answered before the call. */
  lemma RequestAsyncAllocates(s: Rpc, name: string, args: seq<Value>, cb: CallbackRef)
    requires Inv(s)
    ensures var id := s.nextRequestId;
      var s' := RequestAsync(s, name, args, cb);
      && id >= 1 && id !in s.outgoing
      && (forall i :: 0 <= i < |s.deliveries| ==> s.deliveries[i].id != id)
      && s' == s.(nextRequestId := id + 1,
                  outgoing := s.outgoing[id := RequestMessage(Header(id, 0, Json, false, false), RequestBody(name, args), cb)],
                  source := s.source + [Message(Header(id, 0, Json, false, false), RequestBody(name, args))])
      && s'.outgoing.Keys == s.outgoing.Keys + {id}
  {
  }

  /** An unknown response id: `handleAsyncResponse` returns false and changes nothing. */
  lemma AsyncResponseMiss(s: Rpc, res: Message)
    requires -res.header.id !in s.outgoing
    ensures HandleAsyncResponse(s, res) == (s, Missing)
  {
  }

  /** A response consumes its outgoing entry and calls its callback once:
      with an error carrying the body's text when `err` is set, with the body
      otherwise. Only an error body whose conversion to a string throws
      (null, undefined, an object with its own `toString` key, an array
      holding one) throws instead, after the entry is gone. Nothing else changes. */
  lemma AsyncResponseConsumes(s: Rpc, res: Message)
    requires -res.header.id in s.outgoing
    ensures var key := -res.header.id;
      var (s', handled) := HandleAsyncResponse(s, res);
      && s'.outgoing == s.outgoing - {key}
      && s'.nextRequestId == s.nextRequestId && s'.incoming == s.incoming
      && s'.source == s.source && s'.invocations == s.invocations
      && (if res.header.err && ToStringThrows(res.body) then
            handled == Threw(TypeError) && s'.deliveries == s.deliveries
          else
            && handled == Consumed
            && s'.deliveries == s.deliveries + [Delivery(key, s.outgoing[key].cb,
                 if res.header.err then Failed(StringOf(res.body)) else Succeeded(res.body))])
  {
  }

  /** An error response whose JSON body is an object with its own
      `toString` key, such as `{"toString": 1}`: the entry is removed, the
      call `res.body.toString()` throws a TypeError, and the callback is
      never called. */
  lemma OwnToStringErrorBodyThrows(s: Rpc, res: Message, k: nat)
    requires -res.header.id in s.outgoing && res.header.err
    requires res.body.Obj? && k < |res.body.fields| && res.body.fields[k].0 == "toString"
    ensures HandleAsyncResponse(s, res) == (s.(outgoing := s.outgoing - {-res.header.id}), Threw(TypeError))
  {
  }

  /** Dispatch, first rule: a frame for a known incoming id changes nothing. */
  lemma KnownIncomingIgnored(s: Rpc, msg: Message)
    requires msg.header.id in s.incoming
    ensures HandleIncomingMessage(s, msg) == (s, None)
  {
  }

  /** Dispatch, second rule: a frame whose negated id is outgoing goes to
      `handleAsyncResponse` unless it is a stream frame, which is ignored. */
  lemma ResponseRouted(s: Rpc, msg: Message)
    requires msg.header.id !in s.incoming && -msg.header.id in s.outgoing
    ensures msg.header.stream ==> HandleIncomingMessage(s, msg) == (s, None)
    ensures !msg.header.stream ==>
      HandleIncomingMessage(s, msg).0 == HandleAsyncResponse(s, msg).0
  {
  }

  /** Dispatch, last rule: every other frame is a new request, recorded and
      handed to the handler when one is registered, ignored otherwise. */
  lemma NewRequestRouted(s: Rpc, msg: Message)
    requires msg.header.id !in s.incoming && -msg.header.id !in s.outgoing
    ensures var (s', thrown) := HandleIncomingMessage(s, msg);
      && thrown.None?
      && (s.requestHandler.None? ==> s' == s)
      && (s.requestHandler.Some? ==>
            s' == s.(incoming := s.incoming[msg.header.id := msg],
                     invocations := s.invocations + [Invocation(s.requestHandler.value, msg)]))
  {
  }

  /** The reply callback queues exactly one frame: id negated, stream off,
      err set exactly when an error is given, body the error's message or the data. */
  lemma ReplyQueuesOneFrame(s: Rpc, k: nat, err: Option<string>, enc: Encoding, data: Value)
    requires k < |s.invocations|
    ensures var s' := Reply(s, k, err, enc, data);
      var f := s'.source[|s.source|];
      && |s'.source| == |s.source| + 1 && s'.source[..|s.source|] == s.source
      && f.header.id == -s.invocations[k].request.header.id
      && f.header.encoding == enc && !f.header.stream && f.header.err == err.Some?
      && f.body == (if err.Some? then Str(err.value) else data)
      && s'.(source := s.source) == s
  {
  }

  /** A frame whose negated id is not outgoing never calls a callback: a
      duplicate or stale response cannot deliver twice. */
  lemma UncorrelatedFrameNeverDelivers(s: Rpc, msg: Message)
    requires -msg.header.id !in s.outgoing
    ensures HandleIncomingMessage(s, msg).0.deliveries == s.deliveries
    ensures HandleIncomingMessage(s, msg).0.outgoing == s.outgoing
  {
  }

  /** As written, an uncorrelated response frame (negative id, no outgoing
      entry) is not dropped: with a handler registered it is taken for a new
      request and handed to the handler. */
  lemma UncorrelatedResponseTakenAsRequest(s: Rpc, msg: Message)
    requires msg.header.id < 0 && msg.header.id !in s.incoming && -msg.header.id !in s.outgoing
    requires s.requestHandler.Some?
    ensures HandleIncomingMessage(s, msg).0.invocations == s.invocations + [Invocation(s.requestHandler.value, msg)]
  {
  }

  // ---------------------------------------------------------------------------
  // Properties of runs

  lemma {:induction false} RunPreservesInv(s: Rpc, ops: seq<Op>)
    requires Inv(s)
    ensures Inv(Run(s, ops))
    decreases |ops|
  {
    if ops != [] {
      RunPreservesInv(Step(s, ops[0]), ops[1..]);
    }
  }

  /** Single-shot delivery: over any run of the engine, each outgoing
      request's callback is called at most once, and only for ids it handed out. */
  lemma AtMostOneDeliveryPerRequest(ops: seq<Op>)
    ensures var s := Run(Init(), ops);
      && (forall i, j :: 0 <= i < j < |s.deliveries| ==> s.deliveries[i].id != s.deliveries[j].id)
      && (forall i :: 0 <= i < |s.deliveries| ==> 1 <= s.deliveries[i].id < s.nextRequestId)
  {
    RunPreservesInv(Init(), ops);
  }

  /** Along any run, `requestAsync` hands out consecutive ids starting at
      the counter, and the counter ends one past the last. */
  lemma {:induction false} AllocatedIdsConsecutive(s: Rpc, ops: seq<Op>)
    ensures var ids := AllocatedIds(s, ops);
      && (forall i :: 0 <= i < |ids| ==> ids[i] == s.nextRequestId + i)
      && Run(s, ops).nextRequestId == s.nextRequestId + |ids|
    decreases |ops|
  {
    if ops != [] {
      AllocatedIdsConsecutive(Step(s, ops[0]), ops[1..]);
    }
  }

  /** From a fresh engine the ids are 1, 2, 3, ...: positive and distinct. */
  lemma AllocatedIdsFromOne(ops: seq<Op>)
    ensures var ids := AllocatedIds(Init(), ops);
      && (forall i :: 0 <= i < |ids| ==> ids[i] == i + 1)
      && (forall i, j :: 0 <= i < j < |ids| ==> ids[i] < ids[j])
  {
    AllocatedIdsConsecutive(Init(), ops);
  }
}
