/** The JavaScript values and built-ins that the three versions of the
    engine touch: message bodies (strings, byte buffers and parsed JSON),
    truthiness, `Buffer.from`, `value.toString()`, `value.length`, and JSON.
    Numbers are integers here. JSON text is not implemented: a `JsonCodec`
    value stands for `JSON.stringify` / `JSON.parse` and is passed to every
    operation that uses them; `Lawful` states the round trip a correct JSON
    implementation provides. */
module JsRuntime {
  import opened Wrappers
  import opened NodeBuffer
  import Utf8Codec

  /** A JavaScript value as it can appear in a message body, a header field
      or a call's arguments. `Obj` lists its properties in the order
      JavaScript enumerates them; for an object JavaScript builds, array-index
      names come first in ascending order and the other names follow in
      insertion order (see `IsJsonData`). */
  datatype Value =
    | Undefined
    | Null
    | Bool(b: bool)
    | Num(n: int)
    | Str(s: string)
    | Buf(bytes: seq<Byte>)
    | Arr(items: seq<Value>)
    | Obj(fields: seq<(string, Value)>)

  /** The exceptions the modelled code can raise. */
  datatype Exception =
    | TypeError
    | RangeError
    | SyntaxError
    | Error(message: string)

  /** JavaScript truthiness: what `if (v)` and `!v` test. */
  predicate Truthy(v: Value)
  {
    match v
    case Undefined => false
    case Null => false
    case Bool(b) => b
    case Num(n) => n != 0
    case Str(s) => s != ""
    case _ => true
  }

  /** `Buffer.from(v)`: the bytes of a buffer are copied, a string is
      encoded as UTF-8, and any other value is refused with a TypeError. */
  function BufferFrom(v: Value): (r: Result<seq<Byte>, Exception>)
    ensures r.Ok? <==> v.Buf? || v.Str?
    ensures v.Buf? ==> r == Ok(v.bytes)
  {
    match v
    case Buf(b) => Ok(b)
    case Str(s) => Ok(Utf8Codec.Encode(s))
    case _ => Err(TypeError)
  }

  function DigitChar(d: int): char
    requires 0 <= d < 10
  {
    "0123456789"[d]
  }

  /** The decimal text of a natural number. */
  function NatToString(n: nat): (r: string)
    ensures |r| >= 1
  {
    if n < 10 then [DigitChar(n)] else NatToString(n / 10) + [DigitChar(n % 10)]
  }

  /** The decimal text of an integer, as `String(n)` gives it. */
  function IntToString(n: int): string
  {
    if n < 0 then "-" + NatToString(-n) else NatToString(n)
  }

  /** The strings of an array's elements joined with ",", as `Array.prototype.join` does. */
  function Join(parts: seq<string>): string
  {
    if parts == [] then "" else if |parts| == 1 then parts[0] else Join(parts[..|parts| - 1]) + "," + parts[|parts| - 1]
  }

  /** `String(v)`: the string conversion of any value. An array joins its
      elements, writing nothing for null and undefined ones; a buffer is
      decoded as UTF-8. */
  function StringOf(v: Value): string
  {
    match v
    case Undefined => "undefined"
    case Null => "null"
    case Bool(b) => if b then "true" else "false"
    case Num(n) => IntToString(n)
    case Str(s) => s
    case Buf(b) => Utf8Codec.Decode(b)
    case Arr(items) =>
      Join(seq(|items|, i requires 0 <= i < |items| =>
        if items[i].Undefined? || items[i].Null? then "" else StringOf(items[i])))
    case Obj(_) => "[object Object]"
  }

  /** Whether converting `v` to a string throws a TypeError. Null and
      undefined have no `toString`. A JSON object with its own `toString`
      key hides `Object.prototype.toString` behind a value that cannot be
      called. An array's `join` converts every element that is neither null
      nor undefined, so it throws when one of those conversions throws (an
      object element with its own `toString` then has no callable method
      that yields a primitive either). */
  predicate ToStringThrows(v: Value)
  {
    match v
    case Undefined => true
    case Null => true
    case Obj(fields) => exists i :: 0 <= i < |fields| && fields[i].0 == "toString"
    case Arr(items) =>
      exists i :: 0 <= i < |items| && !items[i].Undefined? && !items[i].Null? && ToStringThrows(items[i])
    case _ => false
  }

  /** `v.toString()`: a TypeError exactly where the conversion throws,
      `String(v)` otherwise. */
  function ToStringCall(v: Value): (r: Result<string, Exception>)
    ensures r.Err? <==> ToStringThrows(v)
    ensures r.Err? ==> r.error == TypeError
    ensures v.Str? ==> r == Ok(v.s)
    ensures v.Obj? && r.Ok? ==> r.value == "[object Object]"
  {
    if ToStringThrows(v) then Err(TypeError) else Ok(StringOf(v))
  }

  /** `v.length`: the UTF-16 length of a string, the byte count of a buffer,
      the element count of an array; `None` where the property is absent;
      a TypeError on null and undefined. */
  function LengthOf(v: Value): (r: Result<Option<nat>, Exception>)
    ensures r.Err? <==> v.Undefined? || v.Null?
    ensures v.Buf? ==> r == Ok(Some(|v.bytes|))
  {
    match v
    case Undefined => Err(TypeError)
    case Null => Err(TypeError)
    case Str(s) => Ok(Some(Utf8Codec.Utf16Length(s)))
    case Buf(b) => Ok(Some(|b|))
    case Arr(items) => Ok(Some(|items|))
    case _ => Ok(None)
  }

  /** The JSON implementation the engine runs against: `stringify` is
      `JSON.stringify` on every value but `undefined`, `parse` is
      `JSON.parse`, with `None` for the SyntaxError it throws. */
  datatype JsonCodec = JsonCodec(stringify: Value -> string, parse: string -> Option<Value>)

  /** `JSON.stringify(v)`: `undefined` for `undefined`, a JSON text otherwise. */
  function Stringify(json: JsonCodec, v: Value): (r: Option<string>)
    ensures r.None? <==> v.Undefined?
  {
    if v.Undefined? then None else Some(json.stringify(v))
  }

  /** `JSON.parse(text)`, throwing a SyntaxError on malformed text. */
  function Parse(json: JsonCodec, text: string): (r: Result<Value, Exception>)
    ensures r.Err? ==> r.error == SyntaxError
  {
    match json.parse(text)
    case None => Err(SyntaxError)
    case Some(v) => Ok(v)
  }

  /** The value of a string of decimal digits. */
  function DecimalValue(digits: string): nat
  {
    if |digits| == 0 then 0
    else
      var d := digits[|digits| - 1] as int - '0' as int;
      DecimalValue(digits[..|digits| - 1]) * 10 + (if 0 <= d <= 9 then d else 0)
  }

  /** A property name that JavaScript treats as an array index: the
      canonical decimal form (no sign, no leading zero) of an integer below
      2^32 - 1. */
  predicate IsArrayIndex(name: string)
  {
    && |name| > 0
    && (forall i :: 0 <= i < |name| ==> '0' <= name[i] <= '9')
    && (name[0] == '0' ==> |name| == 1)
    && DecimalValue(name) < 0xFFFF_FFFF
  }

  /** Values that JSON represents exactly: no `undefined`, no byte buffers,
      no repeated property names, and every object in the property order a
      JavaScript object has (array-index names first, in ascending numeric
      order), since `JSON.parse` can only build objects in that order. */
  predicate IsJsonData(v: Value)
  {
    match v
    case Undefined => false
    case Buf(_) => false
    case Arr(items) => forall i :: 0 <= i < |items| ==> IsJsonData(items[i])
    case Obj(fields) =>
      && (forall i :: 0 <= i < |fields| ==> IsJsonData(fields[i].1))
      && (forall i, j :: 0 <= i < j < |fields| ==> fields[i].0 != fields[j].0)
      && (forall i, j :: 0 <= i < j < |fields| && IsArrayIndex(fields[j].0) ==>
            IsArrayIndex(fields[i].0) && DecimalValue(fields[i].0) < DecimalValue(fields[j].0))
    case _ => true
  }

  /** An object whose index-like name follows another name cannot come out
      of `JSON.parse`, so it is not JSON data; in the order JavaScript gives
      it, it is. */
  lemma IndexNamesComeFirst()
    ensures !IsJsonData(Obj([("b", Num(1)), ("1", Num(2))]))
    ensures IsJsonData(Obj([("1", Num(2)), ("b", Num(1))]))
  {
    assert IsArrayIndex("1") by { assert DecimalValue("1") == 1; }
    assert !IsArrayIndex("b") by { assert "b"[0] == 'b'; }
    assert "b"[0] != "1"[0];
    var misordered := [("b", Num(1)), ("1", Num(2))];
    assert misordered[1].0 == "1" && misordered[0].0 == "b";
    assert !(IsArrayIndex(misordered[1].0) ==> IsArrayIndex(misordered[0].0));
  }

  /** A JSON implementation that parses back what it writes. */
  ghost predicate Lawful(json: JsonCodec)
  {
    forall v :: IsJsonData(v) ==> json.parse(json.stringify(v)) == Some(v)
  }
}
