/** The frame codec of src/index.ts: a 9-byte header (flag byte, unsigned
    32-bit big-endian body length, signed 32-bit big-endian id) followed by
    the body bytes, whose form the header's encoding selects. */
module SrcCodec {
  import opened Wrappers
  import opened NodeBuffer
  import opened JsRuntime
  import opened Types
  import Utf8Codec

  /** The flag byte: bit 3 stream, bit 2 err, bit 0 utf8, bit 1 json (the
      source sets them with `|=`; the bits are distinct, so this is a sum). */
  function Flags(h: Header): (f: Byte)
    ensures f < 16
    ensures (f / 8 % 2 == 1) == h.stream
    ensures (f / 4 % 2 == 1) == h.err
    ensures (f % 2 == 1) == (h.encoding == Utf8)
    ensures (f / 2 % 2 == 1) == (h.encoding == Json)
    ensures !(f % 2 == 1 && f / 2 % 2 == 1)
  {
    (if h.stream then 8 else 0) + (if h.err then 4 else 0)
      + (if h.encoding == Utf8 then 1 else if h.encoding == Json then 2 else 0)
  }

  /** `encodeMessageBody`: JSON text for json, `Buffer.from(data)` otherwise. */
  function EncodeMessageBody(json: JsonCodec, data: Value, encoding: Encoding): (r: Result<seq<Byte>, Exception>)
    ensures encoding == Json && data.Undefined? ==> r == Err(TypeError)
    ensures encoding != Json ==> r == BufferFrom(data)
  {
    if encoding == Json then
      match Stringify(json, data)
      case None => Err(TypeError)
      case Some(text) => Ok(Utf8Codec.Encode(text))
    else
      BufferFrom(data)
  }

  /** `encodeHeader`. Node's integer writes raise a RangeError for an id
      outside the signed 32-bit range or a body longer than 2^32 - 1. */
  function EncodeHeader(json: JsonCodec, req: Message): (r: Result<seq<Byte>, Exception>)
    ensures r.Ok? <==>
      && EncodeMessageBody(json, req.body, req.header.encoding).Ok?
      && IsUInt32(|EncodeMessageBody(json, req.body, req.header.encoding).value|)
      && IsInt32(req.header.id)
    ensures r.Ok? ==>
      && |r.value| == 9
      && r.value[0] == Flags(req.header)
      && ReadUInt32BE(r.value[1..5]) == |EncodeMessageBody(json, req.body, req.header.encoding).value|
      && ReadInt32BE(r.value[5..9]) == req.header.id
  {
    var body :- EncodeMessageBody(json, req.body, req.header.encoding);
    if !IsUInt32(|body|) || !IsInt32(req.header.id) then Err(RangeError)
    else
      var r := [Flags(req.header)] + WriteUInt32BE(|body|) + WriteInt32BE(req.header.id);
      assert r[1..5] == WriteUInt32BE(|body|) && r[5..9] == WriteInt32BE(req.header.id);
      ReadWriteUInt32(|body|);
      ReadWriteInt32(req.header.id);
      Ok(r)
  }

  /** `encodeMessage`: the header, then the encoded body it describes. */
  function EncodeMessage(json: JsonCodec, req: Message): (r: Result<seq<Byte>, Exception>)
    ensures r.Ok? <==> EncodeHeader(json, req).Ok?
    ensures r.Ok? ==>
      && |r.value| >= 9
      && r.value[..9] == EncodeHeader(json, req).value
      && r.value[9..] == EncodeMessageBody(json, req.body, req.header.encoding).value
      && ReadUInt32BE(r.value[1..5]) == |r.value| - 9
  {
    var header :- EncodeHeader(json, req);
    var body := EncodeMessageBody(json, req.body, req.header.encoding).value;
    assert (header + body)[1..5] == header[1..5];
    Ok(header + body)
  }

  function EncodingOfBits(f: Byte): Encoding
  {
    var e := f % 4;
    if e == 0 then Binary else if e == 1 then Utf8 else Json
  }

  /** `decodeHeader`; a buffer shorter than 9 bytes makes Node's reads raise
      a RangeError. */
  function DecodeHeader(buf: seq<Byte>): (r: Result<Header, Exception>)
    ensures r.Ok? <==> |buf| >= 9
  {
    if |buf| < 9 then Err(RangeError)
    else
      var f := buf[0];
      Ok(Header(
        id := ReadInt32BE(buf[5..9]),
        length := ReadUInt32BE(buf[1..5]),
        encoding := EncodingOfBits(f),
        err := f / 4 % 2 == 1,
        stream := f / 8 % 2 == 1))
  }

  /** `decodeMessageBody`: JSON is parsed (a SyntaxError if malformed), utf8
      becomes a string, anything else is the bytes themselves. */
  function DecodeMessageBody(json: JsonCodec, data: seq<Byte>, encoding: Encoding): (r: Result<Value, Exception>)
    ensures encoding != Json ==> r.Ok?
  {
    if encoding == Json then Parse(json, Utf8Codec.Decode(data))
    else if encoding == Utf8 then Ok(Str(Utf8Codec.Decode(data)))
    else Ok(Buf(data))
  }

  /** What one read of the decoding stream yields on a complete input. */
  datatype Read =
    | Frame(msg: Message, rest: seq<Byte>)
    | Ended
    | Truncated
    | Failed(error: Exception)

  /** One pull of `decodeThrough` over the bytes `input`: read 9 header
      bytes, then `length` body bytes, then decode the body. Running out of
      input ends the stream (cleanly only between frames); a body that does
      not decode fails this read. */
  function DecodeFrame(json: JsonCodec, input: seq<Byte>): (r: Read)
    ensures r.Frame? ==> |r.rest| <= |input| - 9
  {
    if |input| == 0 then Ended
    else if |input| < 9 then Truncated
    else
      var header := DecodeHeader(input[..9]).value;
      if |input| - 9 < header.length then Truncated
      else
        var data := input[9..9 + header.length];
        match DecodeMessageBody(json, data, header.encoding)
        case Err(e) => Failed(e)
        case Ok(body) => Frame(Message(header, body), input[9 + header.length..])
  }

  // ---------------------------------------------------------------------------
  // Properties

  /** Decoding an encoded header gives back stream, err, encoding and id,
      with the length of the encoded body. */
  lemma HeaderRoundTrip(json: JsonCodec, m: Message)
    requires EncodeHeader(json, m).Ok?
    ensures DecodeHeader(EncodeHeader(json, m).value) == Ok(Header(
      m.header.id,
      |EncodeMessageBody(json, m.body, m.header.encoding).value|,
      WireEncoding(m.header.encoding),
      m.header.err,
      m.header.stream))
  {
    var bytes := EncodeHeader(json, m).value;
    var f := Flags(m.header);
    assert bytes[0] == f && bytes[..9][1..5] == bytes[1..5] && bytes[..9][5..9] == bytes[5..9];
    assert EncodingOfBits(f) == WireEncoding(m.header.encoding) by {
      assert f % 4 == f % 2 + 2 * (f / 2 % 2);
    }
  }

  /** The decoder reads encoding from the two low flag bits (bit 1 means
      json, whatever bit 0 says), err from bit 2, stream from bit 3. */
  lemma DecodeHeaderFlagBits(buf: seq<Byte>)
    requires |buf| >= 9
    ensures DecodeHeader(buf).value.encoding == Json <==> buf[0] / 2 % 2 == 1
    ensures DecodeHeader(buf).value.encoding == Utf8 <==> buf[0] % 4 == 1
    ensures DecodeHeader(buf).value.encoding == Binary <==> buf[0] % 4 == 0
    ensures DecodeHeader(buf).value.err <==> buf[0] / 4 % 2 == 1
    ensures DecodeHeader(buf).value.stream <==> buf[0] / 8 % 2 == 1
  {
  }

  /** Flag bits above bit 3 do not change what is decoded. */
  lemma DecodeHeaderIgnoresHighBits(buf: seq<Byte>, buf': seq<Byte>)
    requires |buf| >= 9 && |buf'| >= 9
    requires buf[0] % 16 == buf'[0] % 16 && buf[1..9] == buf'[1..9]
    ensures DecodeHeader(buf) == DecodeHeader(buf')
  {
    LowNibble(buf[0]);
    LowNibble(buf'[0]);
    assert buf[5..9] == buf[1..9][4..8] && buf'[5..9] == buf'[1..9][4..8];
    assert buf[1..5] == buf[1..9][..4] && buf'[1..5] == buf'[1..9][..4];
  }

  lemma LowNibble(f: Byte)
    ensures f % 4 == f % 16 % 4 && f / 4 % 2 == f % 16 / 4 % 2 && f / 8 % 2 == f % 16 / 8 % 2
  {
    var q, r := f / 16, f % 16;
    assert f == 16 * q + r;
    assert f / 4 == 4 * q + r / 4;
    assert f / 8 == 2 * q + r / 8;
  }

  /** Binary decoding hands back the bytes unchanged. */
  lemma BinaryDecodeIsIdentity(json: JsonCodec, data: seq<Byte>)
    ensures DecodeMessageBody(json, data, Binary) == Ok(Buf(data))
  {
  }

  /** The bodies each encoding carries exactly: byte buffers in binary,
      strings in utf8, JSON data in json (given a lawful JSON). */
  ghost predicate Representable(json: JsonCodec, v: Value, encoding: Encoding)
  {
    match encoding
    case Binary => v.Buf?
    case Utf8 => v.Str?
    case Json => IsJsonData(v) && Lawful(json)
    case Other(_) => false
  }

  /** Decoding an encoded body gives back the value. */
  lemma BodyRoundTrip(json: JsonCodec, v: Value, encoding: Encoding)
    requires Representable(json, v, encoding)
    ensures EncodeMessageBody(json, v, encoding).Ok?
    ensures DecodeMessageBody(json, EncodeMessageBody(json, v, encoding).value, encoding) == Ok(v)
  {
    match encoding
    case Binary =>
    case Utf8 =>
      Utf8Codec.DecodeEncode(v.s);
    case Json =>
      Utf8Codec.DecodeEncode(json.stringify(v));
  }

  /** The decoder splits an encoded frame exactly where the encoder joined
      it, whatever bytes follow: it recovers the header and decodes exactly
      the encoded body bytes, in the encoding the flags carry. */
  lemma FrameDecodes(json: JsonCodec, m: Message, rest: seq<Byte>)
    requires EncodeMessage(json, m).Ok?
    ensures var body := EncodeMessageBody(json, m.body, m.header.encoding).value;
      var header := Header(m.header.id, |body|, WireEncoding(m.header.encoding), m.header.err, m.header.stream);
      DecodeFrame(json, EncodeMessage(json, m).value + rest) ==
        match DecodeMessageBody(json, body, header.encoding)
        case Err(e) => Failed(e)
        case Ok(v) => Frame(Message(header, v), rest)
  {
    var frame := EncodeMessage(json, m).value;
    var body := EncodeMessageBody(json, m.body, m.header.encoding).value;
    var input := frame + rest;
    HeaderRoundTrip(json, m);
    assert input[..9] == frame[..9];
    assert input[9..9 + |body|] == body;
    assert input[9 + |body|..] == rest;
  }

  /** A frame that the encoder writes is read back whole by the decoder,
      whatever bytes follow it. */
  lemma FrameRoundTrip(json: JsonCodec, m: Message, rest: seq<Byte>)
    requires EncodeMessage(json, m).Ok?
    requires Representable(json, m.body, m.header.encoding)
    ensures DecodeFrame(json, EncodeMessage(json, m).value + rest) == Frame(Message(
      Header(m.header.id, |EncodeMessageBody(json, m.body, m.header.encoding).value|,
             m.header.encoding, m.header.err, m.header.stream),
      m.body), rest)
  {
    FrameDecodes(json, m, rest);
    BodyRoundTrip(json, m.body, m.header.encoding);
  }
}
