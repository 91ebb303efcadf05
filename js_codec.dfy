/** The frame codec of index.js. The flag byte is that of the later
    versions (SrcCodec.Flags) and the length field is the body's own
    `length` (TsCodec.DeclaredLength), but the id is written and read as an
    UNSIGNED 32-bit big-endian integer, and the body must already be a byte
    buffer. */
module JsCodec {
  import opened Wrappers
  import opened NodeBuffer
  import opened JsRuntime
  import opened Types
  import SrcCodec
  import TsCodec

  /** `encodeHeader` of index.js. */
  function EncodeHeader(req: Message): (r: Result<seq<Byte>, Exception>)
    ensures r.Ok? <==>
      && TsCodec.DeclaredLength(req.body).Ok?
      && IsUInt32(TsCodec.DeclaredLength(req.body).value)
      && IsUInt32(req.header.id)
    ensures r.Ok? ==>
      && |r.value| == 9
      && r.value[0] == SrcCodec.Flags(req.header)
      && ReadUInt32BE(r.value[1..5]) == TsCodec.DeclaredLength(req.body).value
      && ReadUInt32BE(r.value[5..9]) == req.header.id
  {
    var length :- TsCodec.DeclaredLength(req.body);
    if !IsUInt32(length) || !IsUInt32(req.header.id) then Err(RangeError)
    else
      var r := [SrcCodec.Flags(req.header)] + WriteUInt32BE(length) + WriteUInt32BE(req.header.id);
      assert r[1..5] == WriteUInt32BE(length) && r[5..9] == WriteUInt32BE(req.header.id);
      ReadWriteUInt32(length);
      ReadWriteUInt32(req.header.id);
      Ok(r)
  }

  /** `encodeMessage` of index.js: `Buffer.concat` accepts only buffers. */
  function EncodeMessage(req: Message): (r: Result<seq<Byte>, Exception>)
    ensures r.Ok? <==> EncodeHeader(req).Ok? && req.body.Buf?
    ensures r.Ok? ==> r.value == EncodeHeader(req).value + req.body.bytes
  {
    var header :- EncodeHeader(req);
    if !req.body.Buf? then Err(TypeError) else Ok(header + req.body.bytes)
  }

  /** `decodeHeader` of index.js: the id is read unsigned, so it is never negative. */
  function DecodeHeader(buf: seq<Byte>): (r: Result<Header, Exception>)
    ensures r.Ok? <==> |buf| >= 9
    ensures r.Ok? ==> IsUInt32(r.value.id)
  {
    if |buf| < 9 then Err(RangeError)
    else
      var f := buf[0];
      Ok(Header(
        id := ReadUInt32BE(buf[5..9]),
        length := ReadUInt32BE(buf[1..5]),
        encoding := SrcCodec.EncodingOfBits(f),
        err := f / 4 % 2 == 1,
        stream := f / 8 % 2 == 1))
  }

  /** One pull of `decodeThrough` of index.js on the bytes `input`. */
  function DecodeFrame(json: JsonCodec, input: seq<Byte>): (r: SrcCodec.Read)
    ensures r.Frame? ==> |r.rest| <= |input| - 9
  {
    if |input| == 0 then SrcCodec.Ended
    else if |input| < 9 then SrcCodec.Truncated
    else
      var header := DecodeHeader(input[..9]).value;
      if |input| - 9 < header.length then SrcCodec.Truncated
      else
        var data := input[9..9 + header.length];
        match SrcCodec.DecodeMessageBody(json, data, header.encoding)
        case Err(e) => SrcCodec.Failed(e)
        case Ok(body) => SrcCodec.Frame(Message(header, body), input[9 + header.length..])
  }

  // ---------------------------------------------------------------------------
  // Properties

  /** The header round trip holds for ids 0 .. 2^32-1, the only ids the
      encoder accepts. */
  lemma HeaderRoundTrip(m: Message)
    requires EncodeHeader(m).Ok?
    ensures 0 <= m.header.id < TWO_32
    ensures DecodeHeader(EncodeHeader(m).value) == Ok(Header(
      m.header.id, TsCodec.DeclaredLength(m.body).value, WireEncoding(m.header.encoding),
      m.header.err, m.header.stream))
  {
    var bytes := EncodeHeader(m).value;
    var f := SrcCodec.Flags(m.header);
    assert bytes[0] == f && bytes[..9][1..5] == bytes[1..5] && bytes[..9][5..9] == bytes[5..9];
    assert SrcCodec.EncodingOfBits(f) == WireEncoding(m.header.encoding) by {
      assert f % 4 == f % 2 + 2 * (f / 2 % 2);
    }
  }

  /** A byte-buffer frame is read back whole, whatever bytes follow it. */
  lemma FrameRoundTrip(json: JsonCodec, m: Message, rest: seq<Byte>)
    requires EncodeMessage(m).Ok?
    ensures DecodeFrame(json, EncodeMessage(m).value + rest) ==
      match SrcCodec.DecodeMessageBody(json, m.body.bytes, WireEncoding(m.header.encoding))
      case Err(e) => SrcCodec.Failed(e)
      case Ok(v) => SrcCodec.Frame(Message(Header(m.header.id, |m.body.bytes|, WireEncoding(m.header.encoding),
                                                   m.header.err, m.header.stream), v), rest)
  {
    var frame := EncodeMessage(m).value;
    var n := |m.body.bytes|;
    var input := frame + rest;
    HeaderRoundTrip(m);
    assert input[..9] == frame[..9] == EncodeHeader(m).value;
    assert input[9..9 + n] == m.body.bytes;
    assert input[9 + n..] == rest;
  }

  /** A frame that a signed-id peer (src/index.ts, index.ts) writes for a
      negative id is read here as the positive id `id + 2^32`. */
  lemma SignedIdReadUnsigned(json: JsonCodec, m: Message)
    requires SrcCodec.EncodeHeader(json, m).Ok? && m.header.id < 0
    ensures DecodeHeader(SrcCodec.EncodeHeader(json, m).value).value.id == m.header.id + TWO_32
    ensures DecodeHeader(SrcCodec.EncodeHeader(json, m).value).value.id >= TWO_31
  {
    var bytes := SrcCodec.EncodeHeader(json, m).value;
    assert bytes[5..9] == WriteInt32BE(m.header.id) by {
      WriteReadInt32(bytes[5..9]);
    }
    assert bytes[..9][5..9] == bytes[5..9];
    ReadUnsignedOfSignedWrite(m.header.id);
  }

  /** The frame of the demonstration at the end of index.js: ten zero bytes,
      binary, id 7. */
  function DemoMessage(): Message
  {
    Message(Header(7, 10, Binary, false, false), Buf(seq(10, _ => 0)))
  }

  /** Encoding the demonstration frame, decoding it, encoding the result and
      decoding again reproduces the frame and the message each time. */
  lemma DemoRoundTrip(json: JsonCodec)
    ensures EncodeMessage(DemoMessage()).Ok?
    ensures var wire := EncodeMessage(DemoMessage()).value;
      && |wire| == 19
      && DecodeFrame(json, wire) == SrcCodec.Frame(DemoMessage(), [])
      && EncodeMessage(DecodeFrame(json, wire).msg) == Ok(wire)
  {
    var m := DemoMessage();
    var wire := EncodeMessage(m).value;
    FrameRoundTrip(json, m, []);
    assert wire + [] == wire;
  }
}
