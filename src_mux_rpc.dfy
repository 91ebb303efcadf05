/** The `MuxRpc` class of src/index.ts, with its fields updated in place.
    The outbound `Pushable` queue is the sequence `source`; calls into user
    code (the request handler and the request callbacks) are recorded in
    `invocations` and `deliveries`. Each method performs exactly the
    transition of the same name in SrcRpcState and keeps its invariant. */
module SrcMuxRpc {
  import opened Wrappers
  import opened JsRuntime
  import opened Types
  import opened SrcRpcState

  class MuxRpc {
    var requestHandlerFn: Option<HandlerRef>
    var nextRequestId: int
    var incoming: map<int, Message>
    var outgoing: map<int, RequestMessage>
    var source: seq<Message>
    /** The calls made to the request handler, in order. */
    var invocations: seq<Invocation>
    /** The calls made to request callbacks, in order. */
    var deliveries: seq<Delivery>

    function State(): Rpc
      reads this
    {
      Rpc(nextRequestId, incoming, outgoing, source, requestHandlerFn, invocations, deliveries)
    }

    predicate Valid()
      reads this
    {
      Inv(State())
    }

    constructor ()
      ensures State() == Init()
      ensures Valid()
    {
      requestHandlerFn := None;
      nextRequestId := 1;
      incoming := map[];
      outgoing := map[];
      source := [];
      invocations := [];
      deliveries := [];
    }

    method RequestAsync(name: string, args: seq<Value>, cb: CallbackRef)
      requires Valid()
      modifies this
      ensures Valid()
      ensures State() == SrcRpcState.RequestAsync(old(State()), name, args, cb)
      ensures nextRequestId == old(nextRequestId) + 1
      ensures outgoing == old(outgoing)[old(nextRequestId) :=
        RequestMessage(Header(old(nextRequestId), 0, Json, false, false), RequestBody(name, args), cb)]
    {
      var id := nextRequestId;
      nextRequestId := nextRequestId + 1;
      var body := RequestBody(name, args);
      var header := Header(id, 0, Json, false, false);
      var req := RequestMessage(header, body, cb);
      outgoing := outgoing[id := req];
      source := source + [Message(header, body)];
    }

    method OnRequest(handler: HandlerRef)
      requires Valid()
      modifies this
      ensures Valid()
      ensures State() == SrcRpcState.OnRequest(old(State()), handler)
    {
      requestHandlerFn := Some(handler);
    }

    method HandleIncomingMessage(msg: Message) returns (thrown: Option<Exception>)
      requires Valid()
      modifies this
      ensures Valid()
      ensures (State(), thrown) == SrcRpcState.HandleIncomingMessage(old(State()), msg)
    {
      thrown := None;
      var id := msg.header.id;
      if id in incoming {
        // more data for a request in progress: nothing is done with it
      } else if -id in outgoing {
        if !msg.header.stream {
          var handled := HandleAsyncResponse(msg);
          if handled.Threw? {
            thrown := Some(handled.error);
          }
        }
      } else {
        HandleNewRequest(msg);
      }
    }

    method HandleAsyncResponse(res: Message) returns (handled: Handled)
      requires Valid()
      modifies this
      ensures Valid()
      ensures (State(), handled) == SrcRpcState.HandleAsyncResponse(old(State()), res)
    {
      var key := -res.header.id;
      if key !in outgoing {
        return Missing;
      }
      var req := outgoing[key];
      outgoing := outgoing - {key};
      if res.header.err {
        var text := ToStringCall(res.body);
        if text.Err? {
          handled := Threw(text.error);
        } else {
          deliveries := deliveries + [Delivery(key, req.cb, Failed(text.value))];
          handled := Consumed;
        }
      } else {
        deliveries := deliveries + [Delivery(key, req.cb, Succeeded(res.body))];
        handled := Consumed;
      }
    }

    method HandleNewRequest(msg: Message)
      requires Valid()
      modifies this
      ensures Valid()
      ensures State() == SrcRpcState.HandleNewRequest(old(State()), msg)
    {
      if requestHandlerFn.None? {
        return;
      }
      incoming := incoming[msg.header.id := msg];
      invocations := invocations + [Invocation(requestHandlerFn.value, msg)];
    }

    /** The reply callback handed to the handler with invocation `k`. */
    method Reply(k: nat, err: Option<string>, enc: Encoding, data: Value)
      requires Valid()
      requires k < |invocations|
      modifies this
      ensures Valid()
      ensures State() == SrcRpcState.Reply(old(State()), k, err, enc, data)
    {
      var msg := invocations[k].request;
      var body := if err.Some? then Str(err.value) else data;
      var res := Message(Header(-msg.header.id, -1, enc, err.Some?, false), body);
      source := source + [res];
    }
  }
}
