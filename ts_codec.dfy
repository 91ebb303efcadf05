/** The frame encoder of index.ts. Its flag byte and its header decoder are
    those of src/index.ts (SrcCodec.Flags, SrcCodec.DecodeHeader), and so is
    the body decoding inside its `decodeThrough` (SrcCodec.DecodeFrame). What
    differs is the length field: it is the body's own `length` (UTF-16 units
    for a string) rather than the byte length of the encoded body, and the
    body is written with `Buffer.from` as it is. */
module TsCodec {
  import opened Wrappers
  import opened NodeBuffer
  import opened JsRuntime
  import opened Types
  import Utf8Codec
  import SrcCodec

  /** `req.body.length` as `writeUInt32BE` receives it: a body without a
      numeric `length` gives NaN, which Node writes as 0. */
  function DeclaredLength(body: Value): (r: Result<nat, Exception>)
    ensures r.Err? <==> body.Undefined? || body.Null?
    ensures body.Buf? ==> r == Ok(|body.bytes|)
    ensures body.Str? ==> r == Ok(Utf8Codec.Utf16Length(body.s))
  {
    match LengthOf(body)
    case Err(e) => Err(e)
    case Ok(None) => Ok(0)
    case Ok(Some(n)) => Ok(n)
  }

  /** `encodeHeader` of index.ts: the flags, the declared length, the signed id. */
  function EncodeHeader(req: Message): (r: Result<seq<Byte>, Exception>)
    ensures r.Ok? <==>
      && DeclaredLength(req.body).Ok?
      && IsUInt32(DeclaredLength(req.body).value)
      && IsInt32(req.header.id)
    ensures r.Ok? ==>
      && |r.value| == 9
      && r.value[0] == SrcCodec.Flags(req.header)
      && ReadUInt32BE(r.value[1..5]) == DeclaredLength(req.body).value
      && ReadInt32BE(r.value[5..9]) == req.header.id
  {
    var length :- DeclaredLength(req.body);
    if !IsUInt32(length) || !IsInt32(req.header.id) then Err(RangeError)
    else
      var r := [SrcCodec.Flags(req.header)] + WriteUInt32BE(length) + WriteInt32BE(req.header.id);
      assert r[1..5] == WriteUInt32BE(length) && r[5..9] == WriteInt32BE(req.header.id);
      ReadWriteUInt32(length);
      ReadWriteInt32(req.header.id);
      Ok(r)
  }

  /** `encodeMessage` of index.ts: the header, then `Buffer.from(req.body)`. */
  function EncodeMessage(req: Message): (r: Result<seq<Byte>, Exception>)
    ensures r.Ok? <==> EncodeHeader(req).Ok? && BufferFrom(req.body).Ok?
    ensures r.Ok? ==>
      && |r.value| >= 9
      && r.value[..9] == EncodeHeader(req).value
      && r.value[9..] == BufferFrom(req.body).value
  {
    var header :- EncodeHeader(req);
    var body :- BufferFrom(req.body);
    Ok(header + body)
  }

  // ---------------------------------------------------------------------------
  // Properties

  /** index.ts's `decodeHeader` reads back stream, err, encoding and id of
      what its `encodeHeader` wrote, with the declared length. */
  lemma HeaderRoundTrip(m: Message)
    requires EncodeHeader(m).Ok?
    ensures SrcCodec.DecodeHeader(EncodeHeader(m).value) == Ok(Header(
      m.header.id, DeclaredLength(m.body).value, WireEncoding(m.header.encoding),
      m.header.err, m.header.stream))
  {
    var bytes := EncodeHeader(m).value;
    var f := SrcCodec.Flags(m.header);
    assert bytes[0] == f && bytes[..9][1..5] == bytes[1..5] && bytes[..9][5..9] == bytes[5..9];
    assert SrcCodec.EncodingOfBits(f) == WireEncoding(m.header.encoding) by {
      assert f % 4 == f % 2 + 2 * (f / 2 % 2);
    }
  }

  /** The declared length never exceeds the bytes written after the header:
      the decoder reads the first `length` of them as the body and leaves the
      others in front of whatever follows. */
  lemma FrameDecodes(json: JsonCodec, m: Message, rest: seq<Byte>)
    requires EncodeMessage(m).Ok?
    ensures var bytes := BufferFrom(m.body).value;
      var n := DeclaredLength(m.body).value;
      && n <= |bytes|
      && SrcCodec.DecodeFrame(json, EncodeMessage(m).value + rest) ==
        match SrcCodec.DecodeMessageBody(json, bytes[..n], WireEncoding(m.header.encoding))
        case Err(e) => SrcCodec.Failed(e)
        case Ok(v) => SrcCodec.Frame(Message(Header(m.header.id, n, WireEncoding(m.header.encoding),
                                                     m.header.err, m.header.stream), v),
                                     bytes[n..] + rest)
  {
    var frame := EncodeMessage(m).value;
    var bytes := BufferFrom(m.body).value;
    var n := DeclaredLength(m.body).value;
    if m.body.Str? {
      Utf8Codec.Utf16LengthVersusBytes(m.body.s);
    }
    var input := frame + rest;
    HeaderRoundTrip(m);
    assert input[..9] == frame[..9];
    assert input[9..9 + n] == bytes[..n];
    assert input[9 + n..] == bytes[n..] + rest;
  }

  /** A byte-buffer body (every request of index.ts) is framed exactly: the
      decoder reads the whole body and nothing more. */
  lemma BufferFrameRoundTrip(json: JsonCodec, m: Message, rest: seq<Byte>)
    requires EncodeMessage(m).Ok? && m.body.Buf?
    ensures SrcCodec.DecodeFrame(json, EncodeMessage(m).value + rest) ==
      match SrcCodec.DecodeMessageBody(json, m.body.bytes, WireEncoding(m.header.encoding))
      case Err(e) => SrcCodec.Failed(e)
      case Ok(v) => SrcCodec.Frame(Message(Header(m.header.id, |m.body.bytes|, WireEncoding(m.header.encoding),
                                                   m.header.err, m.header.stream), v), rest)
  {
    FrameDecodes(json, m, rest);
    assert m.body.bytes[..|m.body.bytes|] == m.body.bytes;
    assert m.body.bytes[|m.body.bytes|..] + rest == rest;
  }

  /** As written, a string body declares its UTF-16 length but is followed
      by its UTF-8 bytes: the two agree exactly when the string is ASCII. */
  lemma StringBodyLength(m: Message)
    requires EncodeMessage(m).Ok? && m.body.Str?
    ensures var frame := EncodeMessage(m).value;
      && ReadUInt32BE(frame[1..5]) == Utf8Codec.Utf16Length(m.body.s)
      && |frame| - 9 == |Utf8Codec.Encode(m.body.s)|
      && (ReadUInt32BE(frame[1..5]) == |frame| - 9 <==> Utf8Codec.IsAscii(m.body.s))
  {
    var frame := EncodeMessage(m).value;
    assert frame[1..5] == frame[..9][1..5];
    Utf8Codec.Utf16LengthVersusBytes(m.body.s);
  }

  /** The string "é" in a utf8 frame: the header declares one body byte, two
      follow, so the decoder yields U+FFFD and leaves the byte 0xA9 to be read
      as the start of the next frame. */
  lemma MisframedExample(json: JsonCodec)
    ensures EncodeMessage(Message(Header(1, 0, Utf8, false, false), Str("é")))
      == Ok([1, 0, 0, 0, 1, 0, 0, 0, 1, 0xC3, 0xA9])
    ensures SrcCodec.DecodeFrame(json, [1, 0, 0, 0, 1, 0, 0, 0, 1, 0xC3, 0xA9])
      == SrcCodec.Frame(Message(Header(1, 1, Utf8, false, false), Str([Utf8Codec.REPLACEMENT])), [0xA9])
  {
    var wire: seq<Byte> := [1, 0, 0, 0, 1, 0, 0, 0, 1, 0xC3, 0xA9];
    var m := Message(Header(1, 0, Utf8, false, false), Str("é"));
    assert SrcCodec.Flags(m.header) == 1;
    assert WriteUInt32BE(1) == [0, 0, 0, 1] && WriteInt32BE(1) == [0, 0, 0, 1];
    assert Utf8Codec.Encode("é") == [0xC3, 0xA9] by {
      assert "é"[1..] == "";
    }
    assert Utf8Codec.Utf16Length("é") == 1 by {
      assert "é"[1..] == "";
    }
    assert LengthOf(m.body) == Ok(Some(1));
    assert DeclaredLength(m.body) == Ok(1);
    assert [SrcCodec.Flags(m.header)] + WriteUInt32BE(1) + WriteInt32BE(1) == [1, 0, 0, 0, 1, 0, 0, 0, 1];
    assert EncodeHeader(m) == Ok([1, 0, 0, 0, 1, 0, 0, 0, 1]);
    assert BufferFrom(m.body) == Ok([0xC3, 0xA9]);
    assert EncodeHeader(m).value + BufferFrom(m.body).value == wire;
    assert EncodeMessage(m) == Ok(wire);
    assert wire[..9] == [1, 0, 0, 0, 1, 0, 0, 0, 1];
    assert wire[..9][1..5] == [0, 0, 0, 1] && wire[..9][5..9] == [0, 0, 0, 1];
    assert wire[9..10] == [0xC3];
    assert Utf8Codec.Decode([0xC3]) == [Utf8Codec.REPLACEMENT] by {
      var b: seq<Byte> := [0xC3];
      assert Utf8Codec.MatchedUpTo(b, 2, 1) == 1;
      assert b[1..] == [];
    }
  }
}
