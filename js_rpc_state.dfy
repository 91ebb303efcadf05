/** The state of the `RpcCore` closure of index.js, as values: the id
    counter, the `incoming` and `outgoing` tables, the registered request
    handler, and a log of the handler's calls. `request` validates its
    arguments and registers an outgoing call; `readLoop` reads frames one
    after another and dispatches each on the sign of its id. */
module JsRpcState {
  import opened Wrappers
  import opened NodeBuffer
  import opened JsRuntime
  import opened Types
  import SrcCodec
  import JsCodec

  type CallbackRef = nat
  type HandlerRef = nat

  /** The `header` argument of `request`: `{ name, type, args }`. */
  datatype CallHeader = CallHeader(name: Value, kind: Value, args: Value)

  /** An entry of `outgoing`: `{ id, header, encoding, cb }`. */
  datatype OutgoingRequest = OutgoingRequest(id: int, header: CallHeader, encoding: Value, cb: Option<CallbackRef>)

  /** An entry of `incoming`: `{ id, rpcHeader, body }`. */
  datatype IncomingRequest = IncomingRequest(id: int, rpcHeader: Header, body: Value)

  /** One call of the request handler. */
  datatype HandlerCall = HandlerCall(handler: HandlerRef, request: IncomingRequest)

  datatype Core = Core(
    nextRequestId: int,
    incoming: map<int, IncomingRequest>,
    outgoing: map<int, OutgoingRequest>,
    requestHandler: Option<HandlerRef>,
    calls: seq<HandlerCall>)

  /** The call types that are enabled: only `'async'`. */
  const TYPES: seq<Value> := [Str("async")]

  /** The messages of the errors `request` throws. */
  const MISSING_NAME: string := "missing header field: name"
  const MISSING_TYPE: string := "missing header field: type"
  const MISSING_CB: string := "missing 3rd parameter: cb"
  const INVALID_TYPE: string := "invalid rpc type, must be one of: source, sink, async, duplex"
  const INVALID_ENCODING: string := "invalid encoding, must be one of: json, binary, utf8"

  function Init(): Core
  {
    Core(1, map[], map[], None, [])
  }

  /** The checks `request` makes, in order, with the message each throws.
      Exactly async calls with a name, a callback and a known encoding pass. */
  function Check(header: CallHeader, encoding: Value, cb: Option<CallbackRef>): (r: Option<Exception>)
    ensures r.None? <==>
      && Truthy(header.name) && header.kind == Str("async") && cb.Some?
      && encoding in [Str("json"), Str("binary"), Str("utf8")]
    ensures !Truthy(header.name) ==> r == Some(Error(MISSING_NAME))
    ensures Truthy(header.name) && !Truthy(header.kind) ==> r == Some(Error(MISSING_TYPE))
    ensures Truthy(header.name) && header.kind == Str("async") && cb.None? ==> r == Some(Error(MISSING_CB))
    ensures Truthy(header.name) && Truthy(header.kind) && header.kind != Str("async") ==> r == Some(Error(INVALID_TYPE))
    ensures (Truthy(header.name) && header.kind == Str("async") && cb.Some?
             && encoding !in [Str("json"), Str("binary"), Str("utf8")]) ==> r == Some(Error(INVALID_ENCODING))
  {
    if !Truthy(header.name) then Some(Error(MISSING_NAME))
    else if !Truthy(header.kind) then Some(Error(MISSING_TYPE))
    else if header.kind == Str("async") && cb.None? then Some(Error(MISSING_CB))
    else if header.kind !in TYPES then Some(Error(INVALID_TYPE))
    else if encoding != Str("json") && encoding != Str("binary") && encoding != Str("utf8") then
      Some(Error(INVALID_ENCODING))
    else None
  }

  /** Missing (falsy) `args` become the empty list. */
  function WithDefaultArgs(header: CallHeader): (r: CallHeader)
    ensures Truthy(r.args)
    ensures r.name == header.name && r.kind == header.kind
    ensures Truthy(header.args) ==> r == header
  {
    if Truthy(header.args) then header else header.(args := Arr([]))
  }

  /** `request(header, encoding, cb)` up to the registration of the call;
      the result is the id taken, or what the checks threw. */
  function Request(s: Core, header: CallHeader, encoding: Value, cb: Option<CallbackRef>): (r: (Core, Result<int, Exception>))
    ensures r.1.Err? <==> Check(header, encoding, cb).Some?
    ensures r.1.Err? ==> r.0 == s
    ensures r.1.Ok? ==>
      r.1.value == s.nextRequestId && r.1.value in r.0.outgoing && r.0.nextRequestId == s.nextRequestId + 1
    ensures Inv(s) ==> Inv(r.0)
  {
    match Check(header, encoding, cb)
    case Some(e) => (s, Err(e))
    case None =>
      var id := s.nextRequestId;
      var h := WithDefaultArgs(header);
      var req := OutgoingRequest(id, h, encoding, if h.kind == Str("async") then cb else None);
      (s.(nextRequestId := id + 1, outgoing := s.outgoing[id := req]), Ok(id))
  }

  function OnRequest(s: Core, handler: HandlerRef): (r: Core)
    ensures r.requestHandler == Some(handler) && r.(requestHandler := s.requestHandler) == s
    ensures Inv(s) ==> Inv(r)
  {
    s.(requestHandler := Some(handler))
  }

  /** How `readLoop` stops: the input ran out, or a turn threw. */
  datatype LoopEnd = Drained | Threw(error: Exception)

  /** One turn of `readLoop`: continue with a new state on the bytes left,
      stop, or throw. */
  datatype Turn = Next(s: Core, rest: seq<Byte>) | Stop | Raise(error: Exception)

  /** The body of `readLoop` on the unread bytes: a short read stops the loop;
      a positive id is recorded and handed to the handler if there is one; a
      negative id is skipped; id 0 throws; a malformed JSON body throws. */
  function ReadTurn(json: JsonCodec, s: Core, input: seq<Byte>): (t: Turn)
    ensures t.Next? ==> |t.rest| <= |input| - 9
    ensures t.Next? ==>
      && s.calls <= t.s.calls && |t.s.calls| <= |s.calls| + 1
      && s.incoming.Keys <= t.s.incoming.Keys
      && t.s.outgoing == s.outgoing && t.s.nextRequestId == s.nextRequestId
  {
    if |input| < 9 then Stop
    else
      var header := JsCodec.DecodeHeader(input[..9]).value;
      if |input| - 9 < header.length then Stop
      else
        match SrcCodec.DecodeMessageBody(json, input[9..9 + header.length], header.encoding)
        case Err(e) => Raise(e)
        case Ok(body) =>
          var rest := input[9 + header.length..];
          if header.id > 0 then
            var req := IncomingRequest(header.id, header, body);
            var s' := s.(incoming := s.incoming[header.id := req]);
            if s.requestHandler.Some? then
              Next(s'.(calls := s.calls + [HandlerCall(s.requestHandler.value, req)]), rest)
            else Next(s', rest)
          else if header.id < 0 then Next(s, rest)
          else Raise(Error("bad header id"))
  }

  /** `readLoop` run to the end of `input`. */
  function ReadAll(json: JsonCodec, s: Core, input: seq<Byte>): (r: (Core, LoopEnd))
    ensures s.calls <= r.0.calls && |r.0.calls| <= |s.calls| + |input| / 9
    ensures s.incoming.Keys <= r.0.incoming.Keys
    decreases |input|
  {
    match ReadTurn(json, s, input)
    case Stop => (s, Drained)
    case Raise(e) => (s, Threw(e))
    case Next(s', rest) => ReadAll(json, s', rest)
  }

  // ---------------------------------------------------------------------------
  // Runs

  datatype Op =
    | RequestOp(header: CallHeader, encoding: Value, cb: Option<CallbackRef>)
    | OnRequestOp(handler: HandlerRef)
    | FeedOp(input: seq<Byte>)

  function Step(json: JsonCodec, s: Core, op: Op): Core
  {
    match op
    case RequestOp(header, encoding, cb) => Request(s, header, encoding, cb).0
    case OnRequestOp(h) => OnRequest(s, h)
    case FeedOp(input) => ReadAll(json, s, input).0
  }

  function Run(json: JsonCodec, s: Core, ops: seq<Op>): Core
    decreases |ops|
  {
    if ops == [] then s else Run(json, Step(json, s, ops[0]), ops[1..])
  }

  /** Outgoing ids were handed out by the counter, are keyed by their own
      id and carry their callback; incoming ids are positive and keyed by
      their own id. */
  predicate Inv(s: Core)
  {
    && s.nextRequestId >= 1
    && (forall id :: id in s.outgoing ==>
          1 <= id < s.nextRequestId && s.outgoing[id].id == id && s.outgoing[id].cb.Some?)
    && (forall id :: id in s.incoming ==> id > 0 && s.incoming[id].id == id)
  }

  // ---------------------------------------------------------------------------
  // Properties

  /** A call that fails a check changes nothing; one that passes takes the
      counter as its id, bumps the counter by one and stores exactly
      `outgoing[id]` with the defaulted header, the encoding and its callback. */
  lemma RequestOutcome(s: Core, header: CallHeader, encoding: Value, cb: Option<CallbackRef>)
    ensures var (s', r) := Request(s, header, encoding, cb);
      && (r.Err? <==> Check(header, encoding, cb).Some?)
      && (r.Err? ==> s' == s && r.error == Check(header, encoding, cb).value)
      && (r.Ok? ==>
            && r.value == s.nextRequestId
            && s'.nextRequestId == s.nextRequestId + 1
            && s'.outgoing == s.outgoing[r.value := OutgoingRequest(r.value, WithDefaultArgs(header), encoding, cb)]
            && cb.Some?
            && s'.incoming == s.incoming && s'.requestHandler == s.requestHandler && s'.calls == s.calls)
  {
  }

  /** `readLoop` never touches the counter, the outgoing table or the handler. */
  lemma {:induction false} ReadAllKeepsRequests(json: JsonCodec, s: Core, input: seq<Byte>)
    ensures var s' := ReadAll(json, s, input).0;
      s'.nextRequestId == s.nextRequestId && s'.outgoing == s.outgoing && s'.requestHandler == s.requestHandler
    decreases |input|
  {
    match ReadTurn(json, s, input)
    case Stop =>
    case Raise(_) =>
    case Next(s', rest) => ReadAllKeepsRequests(json, s', rest);
  }

  /** `readLoop` records only positive ids, each under its own id. */
  lemma {:induction false} ReadAllPreservesInv(json: JsonCodec, s: Core, input: seq<Byte>)
    requires Inv(s)
    ensures Inv(ReadAll(json, s, input).0)
    decreases |input|
  {
    match ReadTurn(json, s, input)
    case Stop =>
    case Raise(_) =>
    case Next(s', rest) =>
      assert Inv(s');
      ReadAllPreservesInv(json, s', rest);
  }

  lemma StepPreservesInv(json: JsonCodec, s: Core, op: Op)
    requires Inv(s)
    ensures Inv(Step(json, s, op))
  {
    match op
    case RequestOp(header, encoding, cb) =>
      RequestOutcome(s, header, encoding, cb);
    case OnRequestOp(h) =>
    case FeedOp(input) =>
      ReadAllPreservesInv(json, s, input);
  }

  lemma {:induction false} RunPreservesInv(json: JsonCodec, s: Core, ops: seq<Op>)
    requires Inv(s)
    ensures Inv(Run(json, s, ops))
    decreases |ops|
  {
    if ops != [] {
      StepPreservesInv(json, s, ops[0]);
      RunPreservesInv(json, Step(json, s, ops[0]), ops[1..]);
    }
  }

  /** From a fresh core, every outstanding id is positive, below the counter
      and stored with its callback, whatever calls and input came first. */
  lemma OutgoingIdsPositive(json: JsonCodec, ops: seq<Op>)
    ensures var s := Run(json, Init(), ops);
      forall id :: id in s.outgoing ==> 1 <= id < s.nextRequestId && s.outgoing[id].cb.Some?
  {
    RunPreservesInv(json, Init(), ops);
  }

  /** As written the `id < 0` branch of `readLoop` cannot be taken: every
      turn that reads a frame sees a non-negative id. */
  lemma NegativeBranchUnreachable(json: JsonCodec, s: Core, input: seq<Byte>)
    requires |input| >= 9
    ensures JsCodec.DecodeHeader(input[..9]).value.id >= 0
    ensures JsCodec.DecodeHeader(input[..9]).value.id == 0 ==> !ReadTurn(json, s, input).Next?
  {
  }

  /** One turn of `readLoop`, case by case: a short header or body stops
      the loop; a JSON body that does not parse throws; otherwise a positive
      id is recorded as an incoming request and handed to the handler, if one
      is registered, a negative one is skipped, and id 0 throws `bad header id`. */
  lemma ReadTurnDispatch(json: JsonCodec, s: Core, input: seq<Byte>)
    ensures |input| < 9 ==> ReadTurn(json, s, input) == Stop
    ensures |input| >= 9 ==>
      var h := JsCodec.DecodeHeader(input[..9]).value;
      && (|input| - 9 < h.length ==> ReadTurn(json, s, input) == Stop)
      && (|input| - 9 >= h.length ==>
            var rest := input[9 + h.length..];
            match SrcCodec.DecodeMessageBody(json, input[9..9 + h.length], h.encoding)
            case Err(e) => ReadTurn(json, s, input) == Raise(e)
            case Ok(body) =>
              var req := IncomingRequest(h.id, h, body);
              && (h.id > 0 ==> ReadTurn(json, s, input) == Next(
                    s.(incoming := s.incoming[h.id := req],
                       calls := s.calls + (if s.requestHandler.Some? then [HandlerCall(s.requestHandler.value, req)] else [])),
                    rest))
              && (h.id < 0 ==> ReadTurn(json, s, input) == Next(s, rest))
              && (h.id == 0 ==> ReadTurn(json, s, input) == Raise(Error("bad header id"))))
  {
  }

  /** The empty binary reply to request 1 as a signed-id peer writes it, id
      bytes FF FF FF FF: index.js records it as a new incoming request with id
      2^32 - 1 and hands it to the handler, instead of skipping it. */
  lemma ResponseTakenAsRequest(json: JsonCodec, s: Core, h: HandlerRef)
    requires s.requestHandler == Some(h)
    ensures var input: seq<Byte> := [0, 0, 0, 0, 0, 0xFF, 0xFF, 0xFF, 0xFF];
      var req := IncomingRequest(TWO_32 - 1, Header(TWO_32 - 1, 0, Binary, false, false), Buf([]));
      ReadAll(json, s, input) ==
        (s.(incoming := s.incoming[TWO_32 - 1 := req], calls := s.calls + [HandlerCall(h, req)]), Drained)
  {
    var input: seq<Byte> := [0, 0, 0, 0, 0, 0xFF, 0xFF, 0xFF, 0xFF];
    assert input[..9] == input;
    assert input[..9][1..5] == [0, 0, 0, 0] && input[..9][5..9] == [0xFF, 0xFF, 0xFF, 0xFF];
    assert input[9..9] == [] && input[9..] == [];
  }
}
