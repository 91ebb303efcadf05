/** The `RpcCore` closure of index.js as an object: its `let` bindings are
    fields that `request`, `onRequest` and `readLoop` update in place. Each
    method performs exactly the transition JsRpcState defines and keeps its
    invariant. */
module JsRpcCore {
  import opened Wrappers
  import opened NodeBuffer
  import opened JsRuntime
  import opened Types
  import opened JsRpcState
  import SrcCodec
  import JsCodec

  class RpcCore {
    var requestHandler: Option<HandlerRef>
    var nextRequestId: int
    var incoming: map<int, IncomingRequest>
    var outgoing: map<int, OutgoingRequest>
    /** The calls made to the request handler, in order. */
    var calls: seq<HandlerCall>

    function State(): Core
      reads this
    {
      Core(nextRequestId, incoming, outgoing, requestHandler, calls)
    }

    predicate Valid()
      reads this
    {
      Inv(State())
    }

    constructor ()
      ensures State() == Init()
      ensures Valid()
    {
      requestHandler := None;
      nextRequestId := 1;
      incoming := map[];
      outgoing := map[];
      calls := [];
    }

    /** The argument checks of `request`, in the order the source makes them. */
    method Validate(header: CallHeader, encoding: Value, cb: Option<CallbackRef>) returns (failure: Option<Exception>)
      ensures failure == Check(header, encoding, cb)
    {
      if !Truthy(header.name) {
        return Some(Error(MISSING_NAME));
      }
      if !Truthy(header.kind) {
        return Some(Error(MISSING_TYPE));
      }
      if header.kind == Str("async") && cb.None? {
        return Some(Error(MISSING_CB));
      }
      if header.kind !in TYPES {
        return Some(Error(INVALID_TYPE));
      }
      if encoding != Str("json") && encoding != Str("binary") && encoding != Str("utf8") {
        return Some(Error(INVALID_ENCODING));
      }
      return None;
    }

    method Request(header: CallHeader, encoding: Value, cb: Option<CallbackRef>) returns (r: Result<int, Exception>)
      requires Valid()
      modifies this
      ensures Valid()
      ensures (State(), r) == JsRpcState.Request(old(State()), header, encoding, cb)
    {
      var failure := Validate(header, encoding, cb);
      if failure.Some? {
        return Err(failure.value);
      }
      var h := if Truthy(header.args) then header else header.(args := Arr([]));
      var id := nextRequestId;
      nextRequestId := nextRequestId + 1;
      var req := OutgoingRequest(id, h, encoding, if h.kind == Str("async") then cb else None);
      outgoing := outgoing[id := req];
      r := Ok(id);
      RequestOutcome(old(State()), header, encoding, cb);
    }

    method OnRequest(handler: HandlerRef)
      requires Valid()
      modifies this
      ensures Valid()
      ensures State() == JsRpcState.OnRequest(old(State()), handler)
    {
      requestHandler := Some(handler);
    }

    /** `readLoop` over the complete input: one frame per turn until the
      input runs out or a turn throws. */
    method ReadLoop(json: JsonCodec, input: seq<Byte>) returns (end: LoopEnd)
      requires Valid()
      modifies this
      ensures Valid()
      ensures (State(), end) == ReadAll(json, old(State()), input)
    {
      var rest := input;
      ReadAllPreservesInv(json, State(), input);
      while true
        invariant ReadAll(json, State(), rest) == ReadAll(json, old(State()), input)
        invariant Valid()
        decreases |rest|
      {
        if |rest| < 9 {
          return Drained;
        }
        var header := JsCodec.DecodeHeader(rest[..9]).value;
        if |rest| - 9 < header.length {
          return Drained;
        }
        var body := SrcCodec.DecodeMessageBody(json, rest[9..9 + header.length], header.encoding);
        if body.Err? {
          return Threw(body.error);
        }
        ghost var before := State();
        if header.id > 0 {
          var req := IncomingRequest(header.id, header, body.value);
          incoming := incoming[header.id := req];
          if requestHandler.Some? {
            calls := calls + [HandlerCall(requestHandler.value, req)];
          }
        } else if header.id < 0 {
          // a response: nothing is done with it
        } else {
          return Threw(Error("bad header id"));
        }
        assert ReadTurn(json, before, rest) == Next(State(), rest[9 + header.length..]);
        ReadAllPreservesInv(json, before, rest);
        rest := rest[9 + header.length..];
      }
    }
  }
}
