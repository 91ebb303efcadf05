/** UTF-8 as Node applies it: `Buffer.from(s)` encodes a string, and
    `buf.toString()` decodes bytes, replacing each maximal ill-formed
    subsequence with U+FFFD (the WHATWG "UTF-8 decode" algorithm). Strings are
    sequences of Unicode scalar values; the UTF-16 code-unit count that a
    JavaScript `string.length` reports is `Utf16Length`. */
module Utf8Codec {
  import opened NodeBuffer

  const REPLACEMENT: char := '�'

  /** A Unicode scalar value: what a `char` may hold. */
  predicate IsScalar(n: int) { 0 <= n < 0xD800 || 0xE000 <= n < 0x11_0000 }

  /** The UTF-8 bytes of one scalar value. */
  function EncodeChar(c: char): (r: seq<Byte>)
    ensures 1 <= |r| <= 4
  {
    var n := c as int;
    if n < 0x80 then [n]
    else if n < 0x800 then [0xC0 + n / 64, 0x80 + n % 64]
    else if n < 0x1_0000 then [0xE0 + n / 4096, 0x80 + n / 64 % 64, 0x80 + n % 64]
    else [0xF0 + n / 0x4_0000, 0x80 + n / 4096 % 64, 0x80 + n / 64 % 64, 0x80 + n % 64]
  }

  /** `Buffer.from(s)` for a string `s`. */
  function Encode(s: string): (r: seq<Byte>)
    ensures |s| <= |r| <= 4 * |s|
  {
    if s == [] then [] else EncodeChar(s[0]) + Encode(s[1..])
  }

  /** Total length of a well-formed sequence that starts with `lead`, or 0
      when `lead` cannot start one. */
  function SequenceLength(lead: Byte): nat
  {
    if lead < 0x80 then 1
    else if 0xC2 <= lead <= 0xDF then 2
    else if 0xE0 <= lead <= 0xEF then 3
    else if 0xF0 <= lead <= 0xF4 then 4
    else 0
  }

  /** Bounds on the byte after `lead` (they exclude overlong forms, the
      surrogate range and values above U+10FFFF); later continuation bytes
      lie in 0x80..0xBF. */
  function ContinuationOk(lead: Byte, i: nat, x: Byte): bool
  {
    var lo := if i == 1 && lead == 0xE0 then 0xA0 else if i == 1 && lead == 0xF0 then 0x90 else 0x80;
    var hi := if i == 1 && lead == 0xED then 0x9F else if i == 1 && lead == 0xF4 then 0x8F else 0xBF;
    lo <= x <= hi
  }

  /** The end of the longest run of acceptable continuation bytes from
      position `i`, stopping at `len` or at the end of `b`. */
  function MatchedUpTo(b: seq<Byte>, len: nat, i: nat): (j: nat)
    requires 1 <= i <= len && i <= |b|
    ensures i <= j <= len && j <= |b|
    ensures forall k :: i <= k < j ==> k < |b| && ContinuationOk(b[0], k, b[k])
    ensures j < len ==> j >= |b| || !ContinuationOk(b[0], j, b[j])
    decreases len - i
  {
    if i == len || i >= |b| || !ContinuationOk(b[0], i, b[i]) then i
    else MatchedUpTo(b, len, i + 1)
  }

  function CodePoint2(b0: Byte, b1: Byte): int { (b0 - 0xC0) * 64 + (b1 - 0x80) }

  function CodePoint3(b0: Byte, b1: Byte, b2: Byte): int
  {
    (b0 - 0xE0) * 4096 + (b1 - 0x80) * 64 + (b2 - 0x80)
  }

  function CodePoint4(b0: Byte, b1: Byte, b2: Byte, b3: Byte): int
  {
    (b0 - 0xF0) * 0x4_0000 + (b1 - 0x80) * 4096 + (b2 - 0x80) * 64 + (b3 - 0x80)
  }

  /** One step of the decoder: the next character of the output and the
      number of bytes it consumes (at least one). */
  function DecodeOne(b: seq<Byte>): (r: (char, nat))
    requires |b| > 0
    ensures 1 <= r.1 <= |b|
  {
    var len := SequenceLength(b[0]);
    if len == 0 then (REPLACEMENT, 1)
    else if len == 1 then (b[0] as char, 1)
    else
      var j := MatchedUpTo(b, len, 1);
      if j < len then (REPLACEMENT, j)
      else if len == 2 then
        (CodePoint2(b[0], b[1]) as char, 2)
      else if len == 3 then
        var n := CodePoint3(b[0], b[1], b[2]);
        assert ContinuationOk(b[0], 1, b[1]);
        assert IsScalar(n) by { CodePoint3Scalar(b[0], b[1], b[2]); }
        (n as char, 3)
      else
        var n := CodePoint4(b[0], b[1], b[2], b[3]);
        assert ContinuationOk(b[0], 1, b[1]);
        (n as char, 4)
  }

  lemma CodePoint3Scalar(b0: Byte, b1: Byte, b2: Byte)
    requires 0xE0 <= b0 <= 0xEF && ContinuationOk(b0, 1, b1) && 0x80 <= b2 <= 0xBF
    ensures IsScalar(CodePoint3(b0, b1, b2))
  {
    if b0 == 0xED {
      assert (b1 - 0x80) * 64 <= 0x1F * 64;
    } else if b0 < 0xED {
      assert (b0 - 0xE0) * 4096 <= 12 * 4096;
    } else {
      assert (b0 - 0xE0) * 4096 >= 14 * 4096;
    }
  }

  /** `buf.toString()`: the decoded string. */
  function Decode(b: seq<Byte>): (s: string)
    ensures |s| <= |b|
    decreases |b|
  {
    if b == [] then ""
    else
      var (c, k) := DecodeOne(b);
      [c] + Decode(b[k..])
  }

  /** The UTF-16 code units of a string: what `string.length` counts. */
  function Utf16Length(s: string): nat
  {
    if s == [] then 0 else (if s[0] as int >= 0x1_0000 then 2 else 1) + Utf16Length(s[1..])
  }

  predicate IsAscii(s: string) { forall i :: 0 <= i < |s| ==> s[i] as int < 0x80 }

  /** Decoding the encoding of one character, whatever follows it. */
  lemma DecodeOneEncoded(c: char, rest: seq<Byte>)
    ensures DecodeOne(EncodeChar(c) + rest) == (c, |EncodeChar(c)|)
  {
    var n := c as int;
    if n < 0x80 {
    } else if n < 0x800 {
      DecodeTwoBytes(c, rest);
    } else if n < 0x1_0000 {
      DecodeThreeBytes(c, rest);
    } else {
      DecodeFourBytes(c, rest);
    }
  }

  lemma DecodeTwoBytes(c: char, rest: seq<Byte>)
    requires 0x80 <= c as int < 0x800
    ensures DecodeOne(EncodeChar(c) + rest) == (c, 2)
  {
    var n := c as int;
    var b := EncodeChar(c) + rest;
    assert b[0] == 0xC0 + n / 64 && b[1] == 0x80 + n % 64;
    assert SequenceLength(b[0]) == 2;
    assert MatchedUpTo(b, 2, 1) == 2;
    assert CodePoint2(b[0], b[1]) == n;
  }

  lemma DecodeThreeBytes(c: char, rest: seq<Byte>)
    requires 0x800 <= c as int < 0x1_0000
    ensures DecodeOne(EncodeChar(c) + rest) == (c, 3)
  {
    var n := c as int;
    var b := EncodeChar(c) + rest;
    var b0, b1, b2 := 0xE0 + n / 4096, 0x80 + n / 64 % 64, 0x80 + n % 64;
    assert b[0] == b0 && b[1] == b1 && b[2] == b2;
    assert SequenceLength(b0) == 3;
    assert ContinuationOk(b0, 1, b1) by {
      if b0 == 0xE0 { assert n / 64 >= 32; }
      if b0 == 0xED { assert n < 0xD800; assert n / 64 % 64 < 32; }
    }
    assert MatchedUpTo(b, 3, 2) == 3;
    assert CodePoint3(b0, b1, b2) == n by {
      assert n / 64 == (n / 4096) * 64 + n / 64 % 64;
      assert n == (n / 64) * 64 + n % 64;
    }
  }

  lemma DecodeFourBytes(c: char, rest: seq<Byte>)
    requires 0x1_0000 <= c as int
    ensures DecodeOne(EncodeChar(c) + rest) == (c, 4)
  {
    var n := c as int;
    var b := EncodeChar(c) + rest;
    var b0, b1, b2, b3 := 0xF0 + n / 0x4_0000, 0x80 + n / 4096 % 64, 0x80 + n / 64 % 64, 0x80 + n % 64;
    assert b[0] == b0 && b[1] == b1 && b[2] == b2 && b[3] == b3;
    assert SequenceLength(b0) == 4;
    assert ContinuationOk(b0, 1, b1) by {
      if b0 == 0xF0 { assert n / 4096 >= 16; }
      if b0 == 0xF4 { assert n / 4096 % 64 < 16; }
    }
    assert MatchedUpTo(b, 4, 3) == 4;
    assert MatchedUpTo(b, 4, 2) == 4;
    assert CodePoint4(b0, b1, b2, b3) == n by {
      assert n / 4096 == (n / 0x4_0000) * 64 + n / 4096 % 64;
      assert n / 64 == (n / 4096) * 64 + n / 64 % 64;
      assert n == (n / 64) * 64 + n % 64;
    }
  }

  /** `Buffer.from(s).toString()` gives back `s`. */
  lemma {:induction false} DecodeEncode(s: string)
    ensures Decode(Encode(s)) == s
  {
    if s != [] {
      var e := EncodeChar(s[0]);
      var b := Encode(s);
      assert b == e + Encode(s[1..]);
      DecodeOneEncoded(s[0], Encode(s[1..]));
      assert b[|e|..] == Encode(s[1..]);
      DecodeEncode(s[1..]);
    }
  }

  /** A string's UTF-16 length equals its UTF-8 byte length exactly when
      the string is ASCII; otherwise the byte length is larger. */
  lemma {:induction false} Utf16LengthVersusBytes(s: string)
    ensures Utf16Length(s) <= |Encode(s)|
    ensures Utf16Length(s) == |Encode(s)| <==> IsAscii(s)
  {
    if s != [] {
      Utf16LengthVersusBytes(s[1..]);
      assert IsAscii(s) <==> s[0] as int < 0x80 && IsAscii(s[1..]) by {
        if IsAscii(s) {
          forall i | 0 <= i < |s[1..]| ensures s[1..][i] as int < 0x80 { assert s[1..][i] == s[i + 1]; }
        }
        if s[0] as int < 0x80 && IsAscii(s[1..]) {
          forall i | 0 <= i < |s| ensures s[i] as int < 0x80 {
            if i > 0 { assert s[i] == s[1..][i - 1]; }
          }
        }
      }
    }
  }
}
