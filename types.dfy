/** The message shapes shared by all versions of the engine: a frame is a
    header and a body; the header holds the correlation id, the body length,
    the body encoding and the `err` and `stream` flags. */
module Types {
  import opened JsRuntime

  /** How a body is turned into bytes. `Other` stands for any encoding name
      besides the three the protocol knows; the encoders treat it as binary. */
  datatype Encoding = Binary | Utf8 | Json | Other(name: string)

  /** `MessageHeader`; `err` is the truthiness of the source's `err` field. */
  datatype Header = Header(id: int, length: int, encoding: Encoding, err: bool, stream: bool)

  /** `Message`: a header and a body value. */
  datatype Message = Message(header: Header, body: Value)

  /** The encoding a decoder reports for a header written with `e`. */
  function WireEncoding(e: Encoding): Encoding
  {
    if e.Other? then Binary else e
  }
}
