# muxrpc-alt in Dafny

A model of the protocol engine of muxrpc-alt, in its three versions: `src/index.ts` (the current one), `index.ts` (an earlier one) and `index.js` (the earliest). Each version has two parts:

- the **frame codec**: a 9-byte header followed by the body bytes. The header is a flag byte (stream, err, utf8, json), a 32-bit big-endian body length and a 32-bit big-endian request id;
- the **correlation engine**: an id counter, an `incoming` table and an `outgoing` table, and an outbound queue. It matches each response (whose id is the request's id negated) to the request that started it, and hands new requests to a registered handler.

Shared modules:

- `NodeBuffer`: bytes, and Node's 32-bit big-endian reads and writes. Out-of-range values raise RangeError.
- `Utf8Codec`: UTF-8 encoding; decoding that yields U+FFFD for each ill-formed sequence; the UTF-16 length that `string.length` reports.
- `JsRuntime`: the JavaScript values a body can hold, plus `Buffer.from`, `toString()`, `.length` and JSON.
- `Types`: headers and messages.

Per-version modules:

- `src/index.ts`: `SrcCodec`; `SrcRpcState`, the engine's state as a value with one transition function per method; `SrcMuxRpc`, the class, whose methods update fields in place and are proved to perform exactly those transitions; `SrcExchange`, two peers talking to each other.
- `index.ts`: `TsCodec`, `TsRpcState` and `TsMuxRpc`. Code that is identical to `src/index.ts` (the flag byte, `decodeHeader`, the dispatch methods) is reused from the `Src` modules rather than defined twice.
- `index.js`: `JsCodec`, `JsRpcState` and `JsRpcCore`. `JsRpcCore` models the `RpcCore` closure as a class whose fields are the closure's `let` bindings.

Callbacks and handlers are modelled as opaque tokens. Each call into user code is recorded in a log: `deliveries` for request callbacks, `invocations` / `calls` for the request handler. The reply callback handed to the handler is the `Reply` operation, which takes the index of the handler invocation it answers.

JSON is a parameter, `JsonCodec`, standing for `JSON.stringify` and `JSON.parse`. The round-trip lemmas require `Lawful(json)`: parsing what was stringified gives back any JSON data value. JSON data (`IsJsonData`) has no `undefined`, no buffers and no repeated property names, and lists an object's properties in the order a JavaScript object enumerates them: array-index names (canonical decimals below 2^32 - 1) first, in ascending order.

## Model

| member | source | states |
|---|---|---|
| NodeBuffer.ReadWriteUInt32 | src/index.ts:139 | reading back an unsigned 32-bit big-endian write gives the value written |
| NodeBuffer.WriteReadUInt32 | src/index.ts:158 | writing back an unsigned read reproduces the four bytes |
| NodeBuffer.ReadWriteInt32 | src/index.ts:140 | reading back a signed (two's complement) write gives the value written, for the whole signed 32-bit range |
| NodeBuffer.WriteReadInt32 | src/index.ts:159 | writing back a signed read reproduces the four bytes |
| NodeBuffer.ReadUnsignedOfSignedWrite | index.js:160 | an unsigned read of a signed write of a negative n gives n + 2^32, which is at least 2^31 |
| Utf8Codec.DecodeEncode | src/index.ts:196-212 | `Buffer.from(s).toString()` gives back s for every string |
| Utf8Codec.Encode | src/index.ts:208 | `Buffer.from(string)`: between one and four bytes per character |
| Utf8Codec.Decode | src/index.ts:198-200 | `buf.toString()`: never more characters than bytes |
| Utf8Codec.Utf16LengthVersusBytes | index.ts:134 | a string's UTF-16 length never exceeds its UTF-8 byte length, and equals it exactly when the string is ASCII |
| JsRuntime.BufferFrom | src/index.ts:210 | `Buffer.from` succeeds exactly on strings and buffers, and copies a buffer's bytes |
| JsRuntime.ToStringCall | src/index.ts:95 | `toString()` throws a TypeError exactly on null, undefined, an object with its own `toString` key and an array with an element that throws; it returns a string unchanged and gives `[object Object]` for any other object |
| JsRuntime.LengthOf | index.ts:134 | `.length` throws exactly on null and undefined, and is the byte count of a buffer |
| JsRuntime.Stringify | src/index.ts:208 | `JSON.stringify` yields no text exactly for undefined |
| JsRuntime.Parse | src/index.ts:198 | a failing `JSON.parse` throws a SyntaxError |
| JsRuntime.IndexNamesComeFirst | src/index.ts:198 | JSON data lists array-index property names first, as every object `JSON.parse` builds does: `{b:1, "1":2}` in that order is not JSON data, `{"1":2, b:1}` is |
| SrcCodec.Flags | src/index.ts:130-134 | bit 3 is set iff stream, bit 2 iff err, bit 0 iff utf8, bit 1 iff json; bits 0 and 1 are never both set; nothing above bit 3 |
| SrcCodec.EncodeMessageBody | src/index.ts:206-212 | json with an undefined body throws a TypeError; the other encodings are `Buffer.from(data)` |
| SrcCodec.EncodeHeader | src/index.ts:127-143 | succeeds iff the body encodes, its byte length fits 32 bits unsigned and the id fits 32 bits signed; the header is 9 bytes: flags, then the body's byte length, then the id |
| SrcCodec.EncodeMessage | src/index.ts:145-149 | the frame is exactly the header followed by the encoded body, and the length field equals the number of bytes after the header |
| SrcCodec.DecodeHeader | src/index.ts:151-162 | a header decodes iff at least 9 bytes are given |
| SrcCodec.DecodeMessageBody | src/index.ts:196-204 | only json bodies can fail to decode |
| SrcCodec.DecodeFrame | src/index.ts:164-194 | a frame read consumes at least the 9 header bytes |
| SrcCodec.HeaderRoundTrip | src/index.ts:127-162 | decoding an encoded header restores stream, err, encoding and every signed 32-bit id, with the encoded body's byte length |
| SrcCodec.DecodeHeaderFlagBits | src/index.ts:152-157 | the low two flag bits decode 0 to binary, 1 to utf8, 2 or 3 to json; bit 2 is err, bit 3 is stream |
| SrcCodec.DecodeHeaderIgnoresHighBits | src/index.ts:152-157 | flag bits above bit 3 do not change the decoded header |
| SrcCodec.BinaryDecodeIsIdentity | src/index.ts:201-203 | binary decoding returns the bytes unchanged |
| SrcCodec.BodyRoundTrip | src/index.ts:196-212 | decoding an encoded body gives it back, for buffers in binary, strings in utf8 and JSON data in json |
| SrcCodec.FrameDecodes | src/index.ts:145-194 | the decoder splits an encoded frame where the encoder joined it, whatever follows, and decodes exactly the body bytes |
| SrcCodec.FrameRoundTrip | src/index.ts:145-212 | a frame is read back whole, header and body, leaving the bytes that follow untouched |
| SrcRpcState.RequestAsync | src/index.ts:44-64 | takes the counter as the id, bumps it by one, tracks the callback under that id with a header carrying the id, and keeps the correlation invariant |
| SrcRpcState.OnRequest | src/index.ts:66-68 | the handler is the one given, and nothing else changes |
| SrcRpcState.HandleIncomingMessage | src/index.ts:70-82 | never touches the counter or the outbound queue; makes at most one delivery; throws only a TypeError, for an error response to an outstanding request; keeps the invariant |
| SrcRpcState.HandleAsyncResponse | src/index.ts:84-99 | returns false exactly when the id is not outstanding; afterwards the id is no longer outstanding; at most one delivery is appended; keeps the invariant |
| SrcRpcState.HandleNewRequest | src/index.ts:101-108 | never touches the outgoing table or the deliveries; with a handler, records the message under its id and invokes the handler once; keeps the invariant |
| SrcRpcState.ReplyFrame | src/index.ts:108-119 | the reply frame carries the request's id negated, is not a stream, is flagged err exactly when an error is given, and carries the error's message or the data |
| SrcRpcState.Reply | src/index.ts:108-123 | appends exactly one frame to the queue and changes nothing else; keeps the invariant |
| SrcRpcState.RequestAsyncAllocates | src/index.ts:44-63 | the id taken was neither outstanding nor answered before; the new state is the old one with the counter bumped by one, `outgoing[id]` set to the call with its callback, and one json, non-stream frame with the call body queued, and nothing else changed |
| SrcRpcState.KnownIncomingIgnored | src/index.ts:73-76 | a frame for a known incoming id changes nothing |
| SrcRpcState.ResponseRouted | src/index.ts:77-78 | otherwise, a frame whose negated id is outgoing goes to `handleAsyncResponse`, unless it is a stream frame, which changes nothing |
| SrcRpcState.NewRequestRouted | src/index.ts:79-108 | every other frame is a new request: ignored without a handler, otherwise the new state is the old one with the message recorded under its id and one handler invocation appended, and nothing else changed |
| SrcRpcState.AsyncResponseMiss | src/index.ts:87-90 | a response with no outgoing entry returns false and changes nothing |
| SrcRpcState.AsyncResponseConsumes | src/index.ts:84-99 | a matched response removes its entry and calls its callback once: with the body's text as an error iff err is set, else with the body; an error body whose `toString()` throws (null, undefined, an object with its own `toString` key, an array holding one) throws a TypeError after the removal, and the callback is not called |
| SrcRpcState.OwnToStringErrorBodyThrows | src/index.ts:92-95 | an error response with a body such as `{"toString": 1}` removes its entry and throws a TypeError, without calling the callback |
| SrcRpcState.ReplyQueuesOneFrame | src/index.ts:108-123 | the reply callback queues exactly one frame: the request's id negated, stream off, err iff an error is given, body the error's message or the data; nothing else changes |
| SrcRpcState.UncorrelatedFrameNeverDelivers | src/index.ts:70-99 | a frame whose negated id is not outgoing calls no callback and leaves `outgoing` alone, so a duplicate response is never delivered twice |
| SrcRpcState.UncorrelatedResponseTakenAsRequest | src/index.ts:77-81 | a negative-id frame with no outgoing entry is handed to the handler as a new request |
| SrcRpcState.RunPreservesInv | src/index.ts:44-124 | any sequence of operations keeps the correlation invariant: outstanding ids come from the counter and are keyed by their own id; delivered ids are distinct and no longer outstanding |
| SrcRpcState.AtMostOneDeliveryPerRequest | src/index.ts:84-99 | over any run from a fresh engine, each request's callback is called at most once, and only for ids the engine handed out |
| SrcRpcState.AllocatedIdsConsecutive | src/index.ts:45 | along any run, the ids handed out are consecutive from the counter, and the counter ends one past the last |
| SrcRpcState.AllocatedIdsFromOne | src/index.ts:19 | from a fresh engine, the ids are 1, 2, 3, …, so they are positive and distinct |
| SrcMuxRpc.MuxRpc.constructor | src/index.ts:18-23 | the counter starts at 1; no requests, no handler, empty queue |
| SrcMuxRpc.MuxRpc.RequestAsync | src/index.ts:44-64 | performs `SrcRpcState.RequestAsync` in place and keeps the invariant |
| SrcMuxRpc.MuxRpc.OnRequest | src/index.ts:66-68 | registers the handler and keeps the invariant |
| SrcMuxRpc.MuxRpc.HandleIncomingMessage | src/index.ts:70-82 | performs the dispatch of `SrcRpcState.HandleIncomingMessage` in place and keeps the invariant |
| SrcMuxRpc.MuxRpc.HandleAsyncResponse | src/index.ts:84-99 | performs `SrcRpcState.HandleAsyncResponse` in place and keeps the invariant |
| SrcMuxRpc.MuxRpc.HandleNewRequest | src/index.ts:101-108 | performs `SrcRpcState.HandleNewRequest` in place and keeps the invariant |
| SrcMuxRpc.MuxRpc.Reply | src/index.ts:108-123 | queues the reply frame of `SrcRpcState.Reply` and keeps the invariant |
| SrcExchange.Exchange | tests/basic.test.ts:5-26 | between two peers, through the real codec: the server's handler is invoked exactly once with the request, `{name, type: 'async', args}` under id 1; the caller's callback is then called exactly once, with the data, or with the error's message |
| SrcExchange.RequestArrives | src/index.ts:44-63 | the first request's frame is decoded intact by the other peer |
| SrcExchange.ResponseArrives | src/index.ts:108-123 | the `ReplyFrame` answering a request with id 1 arrives as the response to id 1: with the data on success, or on failure with a body whose `toString()` is the error's message |
| SrcExchange.ResponseDelivers | src/index.ts:84-99 | a fresh peer that has sent its first request hands an answer to id 1 to that request's callback once: the error's text when err is set, otherwise the body |
| SrcExchange.ErrorTextSurvives | src/index.ts:94-95 | in any encoding, `toString()` of the decoded error body is the message that was sent |
| SrcExchange.RequestBodyIsJson | src/index.ts:47 | the call body is JSON data when its arguments are |
| SrcExchange.ReplyWithoutDataCannotBeEncoded | tests/basic.test.ts:18 | a reply with neither error nor data cannot be encoded in any encoding (TypeError), so the test's two-argument `cb(null, text)` fails |
| TsCodec.DeclaredLength | index.ts:134 | the length field is a buffer's byte count or a string's UTF-16 length; it throws on null and undefined |
| TsCodec.EncodeHeader | index.ts:124-138 | succeeds iff the declared length fits 32 bits unsigned and the id 32 bits signed; the header is the flags, then the declared length, then the signed id |
| TsCodec.EncodeMessage | index.ts:140-143 | the frame is the header followed by `Buffer.from(body)` |
| TsCodec.HeaderRoundTrip | index.ts:124-156 | `decodeHeader` restores stream, err, encoding and every signed 32-bit id, with the declared length |
| TsCodec.FrameDecodes | index.ts:140-194 | the declared length never exceeds the body bytes; the decoder reads that many as the body and leaves the rest in front of what follows |
| TsCodec.BufferFrameRoundTrip | index.ts:140-194 | a buffer body (every request) is framed exactly |
| TsCodec.StringBodyLength | index.ts:134 | a string body declares its UTF-16 length but is followed by its UTF-8 bytes; the two agree exactly for ASCII |
| TsCodec.MisframedExample | index.ts:124-143 | for the utf8 string "é", one byte is declared and two follow: it decodes as U+FFFD and the byte 0xA9 is left over |
| TsRpcState.RequestAsync | index.ts:40-60 | takes the counter as the id and bumps it; the tracked request has a buffer body whose byte count is the declared length; keeps the invariant |
| TsRpcState.Reply | index.ts:104-120 | throws exactly when there is neither an error nor data, and then changes nothing; otherwise appends one frame and changes nothing else; keeps the invariant |
| TsRpcState.DrainUnbound | index.ts:35 | the sink as wired: every incoming frame throws a TypeError and leaves the state as it was |
| TsRpcState.ReplyFrame | index.ts:104-120 | a reply fails (TypeError) exactly when it has neither error nor data |
| TsRpcState.RequestAsyncAllocates | index.ts:40-60 | `requestAsync` takes the counter as the id, which is fresh; the counter grows by one; exactly `outgoing[id]` is added, holding the serialised body with its byte length declared; exactly that frame is queued |
| TsRpcState.ReplyQueuesOneFrame | index.ts:104-120 | a reply queues one frame: negated id, json, not a stream, err iff an error is given, body the JSON text of the message or the data, declaring that text's length; a reply with neither throws and queues nothing |
| TsRpcState.RunPreservesInv | index.ts:40-121 | any sequence of operations keeps the invariant |
| TsRpcState.AtMostOneDeliveryPerRequest | index.ts:80-95 | over any run, each request's callback is called at most once |
| TsRpcState.ReplyArrivesExactlyIffAscii | index.ts:104-120 | a reply is read back exactly, with its payload, iff its JSON text is ASCII |
| TsRpcState.UnboundSinkDropsResponses | index.ts:35 | with the method passed unbound, every incoming frame throws a TypeError and changes nothing, even a response the bound method would have consumed |
| TsMuxRpc.MuxRpc.constructor | index.ts:18-23 | the counter starts at 1; no requests, no handler, empty queue |
| TsMuxRpc.MuxRpc.RequestAsync | index.ts:40-60 | performs `TsRpcState.RequestAsync` in place and keeps the invariant |
| TsMuxRpc.MuxRpc.OnRequest | index.ts:62-64 | registers the handler and keeps the invariant |
| TsMuxRpc.MuxRpc.HandleIncomingMessage | index.ts:66-78 | performs the dispatch of `SrcRpcState.HandleIncomingMessage` (the same code) in place and keeps the invariant |
| TsMuxRpc.MuxRpc.HandleAsyncResponse | index.ts:80-95 | performs `SrcRpcState.HandleAsyncResponse` in place and keeps the invariant |
| TsMuxRpc.MuxRpc.HandleNewRequest | index.ts:97-104 | performs `SrcRpcState.HandleNewRequest` in place and keeps the invariant |
| TsMuxRpc.MuxRpc.Reply | index.ts:104-120 | performs `TsRpcState.Reply` in place (one JSON frame, or TypeError with nothing queued) and keeps the invariant |
| JsCodec.EncodeHeader | index.js:131-145 | succeeds iff the declared length and the id both fit 32 bits unsigned; the header is the flags, then the declared length, then the id, unsigned |
| JsCodec.EncodeMessage | index.js:147-150 | succeeds iff the header does and the body is a buffer; the frame is the header followed by the body's bytes |
| JsCodec.DecodeHeader | index.js:152-163 | a header decodes iff at least 9 bytes are given, and its id is never negative |
| JsCodec.DecodeFrame | index.js:165-192 | a frame read consumes at least the 9 header bytes |
| JsCodec.HeaderRoundTrip | index.js:131-163 | the header round trip holds exactly for ids 0 to 2^32 - 1, the only ids the encoder accepts |
| JsCodec.FrameRoundTrip | index.js:147-192 | a buffer frame is read back whole, whatever follows it |
| JsCodec.SignedIdReadUnsigned | index.js:160 | a negative id written by a signed-id peer is read as id + 2^32 |
| JsCodec.DemoRoundTrip | index.js:200-224 | the 10-byte binary frame with id 7 encodes to 19 bytes, decodes to the same message, and re-encodes to the same bytes |
| JsRpcState.Check | index.js:85-94 | the five rejections, each with its message: no name, no type, async without callback, a type other than async, an unknown encoding; exactly async calls with a name, a callback and a json/binary/utf8 encoding pass |
| JsRpcState.WithDefaultArgs | index.js:87 | missing args become the empty list, and present args are kept |
| JsRpcState.Request | index.js:84-112 | fails exactly when a check fails, and then changes nothing; otherwise returns the counter as the id, tracks it and bumps the counter; keeps the invariant |
| JsRpcState.OnRequest | index.js:126-128 | the handler is the one given, and nothing else changes; keeps the invariant |
| JsRpcState.ReadTurn | index.js:36-68 | a turn that continues consumes at least the 9 header bytes, only appends to the handler calls (at most one), never forgets a recorded id, and leaves the counter and the outgoing table alone |
| JsRpcState.ReadAll | index.js:35-71 | the loop only appends to the handler calls, at most one per 9 bytes of input, and never forgets a recorded id |
| JsRpcState.ReadTurnDispatch | index.js:36-66 | one turn, case by case: a short header or body stops; a JSON body that does not parse throws; a positive id is recorded as `IncomingRequest(id, header, body)` and handed once to the handler if one is registered; a negative id is skipped; id 0 throws `Error('bad header id')` |
| JsRpcState.RequestOutcome | index.js:84-112 | a rejected call changes nothing; an accepted one takes the counter as its id, bumps the counter by one and stores exactly `outgoing[id]` with the defaulted header, the encoding and its callback |
| JsRpcState.ReadAllKeepsRequests | index.js:35-71 | `readLoop` never touches the counter, the outgoing table or the handler |
| JsRpcState.ReadAllPreservesInv | index.js:35-71 | `readLoop` records only positive ids, each under its own id |
| JsRpcState.StepPreservesInv | index.js:35-128 | every operation keeps the invariant: outgoing ids come from the counter and carry their callback; incoming ids are positive |
| JsRpcState.RunPreservesInv | index.js:35-128 | any sequence of operations keeps the invariant |
| JsRpcState.OutgoingIdsPositive | index.js:96-112 | from a fresh core, every outstanding id is positive, below the counter and stored with its callback |
| JsRpcState.NegativeBranchUnreachable | index.js:48-66 | every frame read has a non-negative id, so the `id < 0` branch is dead; a frame with id 0 never lets the loop continue |
| JsRpcState.ResponseTakenAsRequest | index.js:48-61 | the empty reply to request 1, as a signed peer writes it, is recorded as incoming request 2^32 - 1 and handed to the handler |
| JsRpcCore.RpcCore.constructor | index.js:24-33 | the counter starts at 1; empty tables; no handler |
| JsRpcCore.RpcCore.Validate | index.js:85-94 | makes the checks of `JsRpcState.Check`, in the source's order |
| JsRpcCore.RpcCore.Request | index.js:84-112 | performs `JsRpcState.Request` in place and keeps the invariant |
| JsRpcCore.RpcCore.OnRequest | index.js:126-128 | registers the handler and keeps the invariant |
| JsRpcCore.RpcCore.ReadLoop | index.js:35-71 | reads frame after frame in place, with exactly the effect and the ending of `JsRpcState.ReadAll`, and keeps the invariant |

## Left out

- The pull-stream plumbing is left out: `getStream`, `encodeThrough`, `pull.drain`, the `pull(...)` wiring, the `Pushable` queue's internals and the suspension of `Reader.read`. The outbound queue is the sequence `source`, which pushes append to. The decoding streams are modelled as one read on a complete byte sequence (`DecodeFrame`, `ReadTurn`). The loop that drives them is `JsRpcCore.RpcCore.ReadLoop` for index.js.
- `console.log` calls are left out.
- JSON text is not implemented: `JSON.stringify` and `JSON.parse` are the `JsonCodec` parameter. The round-trip lemmas require `Lawful(json)` rather than proving JSON itself.
- JavaScript numbers are integers. Strings are sequences of Unicode scalar values, so lone UTF-16 surrogates are not represented.
- `Buffer.from` of an array or of an object is modelled as a TypeError. Node would copy an array of octets.
- `.length` returns nothing for objects and numbers; a user-defined `length` property is not looked at.
- Conversions to a string treat every own `toString` or `valueOf` key as not callable, which is all that JSON can carry; a buffer's `toString` is UTF-8 decoding.
- The runs of `SrcRpcState` and `TsRpcState` (`Step`, `Run`) carry on with the state left behind when `handleIncomingMessage` throws. In the source the exception escapes `pull.drain`'s callback and ends the stream. The run lemmas therefore cover more behaviour than the source allows.
- The runs of `TsRpcState` feed incoming frames to the bound dispatch, as src/index.ts:35 wires it, not through the unbound index.ts:35 wiring (`TsRpcState.DrainUnbound`), under which no frame is ever dispatched.
- An error passed to a reply callback is represented by its message (`Option<string>`). Its truthiness is whether it is present.
- The request handler's own behaviour is outside the model: each call of it is logged, and its reply is a separate `Reply` operation.
- In index.js, the code after `outgoing[id] = req` (index.js:114-121) is left out. It calls `encodeRequest`, which index.js does not define, and returns placeholder fields (`pushable`, `sink`, `duplex`). `JsRpcState.Request` returns the id that was taken.
- JsRpcState.WithDefaultArgs: the defaulting of `header.args` is applied to the stored request only. In the source it mutates the caller's object, even when a later check throws.
- JsCodec.DecodeFrame: index.js's `decodeThrough` ignores the error of a short body read. The model reports such a read as `Truncated`.
- In index.js, `readLoop` rescheduling itself with `process.nextTick` is modelled as a loop over the complete input. Running out of input ends it, as the source's `if (err) return` does.
- Source, sink and duplex calls, streaming fan-in and backpressure are left out. None of them is implemented in the code.
- A response with no outstanding request would be expected to be dropped. All three versions hand it to the handler instead: the TypeScript versions as a new request; index.js by reading its id as a large positive one. The model follows the code (`SrcRpcState.UncorrelatedResponseTakenAsRequest`, `JsRpcState.ResponseTakenAsRequest`).
- tests/basic.test.ts answers with `cb(null, text)`, but the reply callback of src/index.ts takes `(err, enc, data)`. `SrcExchange.ReplyWithoutDataCannotBeEncoded` shows that such a reply cannot be encoded. `SrcExchange.Exchange` uses the three-argument form that src/index.ts defines.

## Findings

| source | as written | input that shows it | evidently intended | confidence | as-written member | corrected member |
|---|---|---|---|---|---|---|
| index.ts:134 | the length field is `req.body.length`, which for a string body (every reply) counts UTF-16 units, not bytes | a utf8 frame with body "é": length 1 is declared, bytes C3 A9 follow; the body decodes as U+FFFD and 0xA9 starts the next frame | the byte length of the encoded body, as src/index.ts:136 computes it | not executed | TsCodec.MisframedExample | SrcCodec.FrameRoundTrip |
| index.js:160 | the id is read with `readUInt32BE`, so it is never negative and the `id < 0` branch at index.js:61 is dead | id bytes FF FF FF FF (id -1 written signed) are read as 4294967295 and recorded as a new incoming request | a signed read, as src/index.ts:159 does | not executed | JsRpcState.ResponseTakenAsRequest | SrcCodec.HeaderRoundTrip |
| index.ts:35 | `this.handleIncomingMessage` is passed to `pull.drain` without binding `this` | any incoming frame: `this.incoming` is read on undefined and a TypeError is thrown before dispatch | the bound method, as src/index.ts:35 passes it | not executed | TsRpcState.UnboundSinkDropsResponses | SrcMuxRpc.MuxRpc.HandleIncomingMessage |
