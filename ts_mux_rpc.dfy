/** The `MuxRpc` class of index.ts, with its fields updated in place, in
    the same representation as SrcMuxRpc. Each method performs exactly the
    transition that TsRpcState (or, where the code is the same, SrcRpcState)
    defines, and keeps the correlation invariant. */
module TsMuxRpc {
  import opened Wrappers
  import opened JsRuntime
  import opened Types
  import opened SrcRpcState
  import TsRpcState
  import Utf8Codec

  class MuxRpc {
    var requestHandlerFn: Option<HandlerRef>
    var nextRequestId: int
    var incoming: map<int, Message>
    var outgoing: map<int, RequestMessage>
    var source: seq<Message>
    /** The calls made to the request handler, in order. */
    var invocations: seq<Invocation>
    /** The calls made to request callbacks, in order. */
    var deliveries: seq<Delivery>

    function State(): Rpc
      reads this
    {
      Rpc(nextRequestId, incoming, outgoing, source, requestHandlerFn, invocations, deliveries)
    }

    predicate Valid()
      reads this
    {
      Inv(State())
    }

    constructor ()
      ensures State() == Init()
      ensures Valid()
    {
      requestHandlerFn := None;
      nextRequestId := 1;
      incoming := map[];
      outgoing := map[];
      source := [];
      invocations := [];
      deliveries := [];
    }

    method RequestAsync(json: JsonCodec, name: string, args: seq<Value>, cb: CallbackRef)
      requires Valid()
      modifies this
      ensures Valid()
      ensures State() == TsRpcState.RequestAsync(json, old(State()), name, args, cb)
    {
      var id := nextRequestId;
      nextRequestId := nextRequestId + 1;
      var body := Utf8Codec.Encode(json.stringify(RequestBody(name, args)));
      var header := Header(id, |body|, Json, false, false);
      var req := RequestMessage(header, Buf(body), cb);
      outgoing := outgoing[id := req];
      source := source + [Message(header, Buf(body))];
    }

    method OnRequest(handler: HandlerRef)
      requires Valid()
      modifies this
      ensures Valid()
      ensures State() == SrcRpcState.OnRequest(old(State()), handler)
    {
      requestHandlerFn := Some(handler);
    }

    method HandleIncomingMessage(msg: Message) returns (thrown: Option<Exception>)
      requires Valid()
      modifies this
      ensures Valid()
      ensures (State(), thrown) == SrcRpcState.HandleIncomingMessage(old(State()), msg)
    {
      thrown := None;
      var id := msg.header.id;
      if id in incoming {
        // more data for a request in progress: nothing is done with it
      } else if -id in outgoing {
        if !msg.header.stream {
          var handled := HandleAsyncResponse(msg);
          if handled.Threw? {
            thrown := Some(handled.error);
          }
        }
      } else {
        HandleNewRequest(msg);
      }
    }

    method HandleAsyncResponse(res: Message) returns (handled: Handled)
      requires Valid()
      modifies this
      ensures Valid()
      ensures (State(), handled) == SrcRpcState.HandleAsyncResponse(old(State()), res)
    {
      var key := -res.header.id;
      if key !in outgoing {
        return Missing;
      }
      var req := outgoing[key];
      outgoing := outgoing - {key};
      if res.header.err {
        var text := ToStringCall(res.body);
        if text.Err? {
          handled := Threw(text.error);
        } else {
          deliveries := deliveries + [Delivery(key, req.cb, Failed(text.value))];
          handled := Consumed;
        }
      } else {
        deliveries := deliveries + [Delivery(key, req.cb, Succeeded(res.body))];
        handled := Consumed;
      }
    }

    method HandleNewRequest(msg: Message)
      requires Valid()
      modifies this
      ensures Valid()
      ensures State() == SrcRpcState.HandleNewRequest(old(State()), msg)
    {
      if requestHandlerFn.None? {
        return;
      }
      incoming := incoming[msg.header.id := msg];
      invocations := invocations + [Invocation(requestHandlerFn.value, msg)];
    }

    /** The reply callback `cb(err, data)` handed to the handler with invocation `k`. */
    method Reply(json: JsonCodec, k: nat, err: Option<string>, data: Value) returns (thrown: Option<Exception>)
      requires Valid()
      requires k < |invocations|
      modifies this
      ensures Valid()
      ensures (State(), thrown) == TsRpcState.Reply(json, old(State()), k, err, data)
    {
      var msg := invocations[k].request;
      var payload := if err.Some? then Str(err.value) else data;
      var body := Stringify(json, payload);
      if body.None? {
        return Some(TypeError);
      }
      var res := Message(Header(-msg.header.id, Utf8Codec.Utf16Length(body.value), Json, err.Some?, false), Str(body.value));
      source := source + [res];
      thrown := None;
    }
  }
}
