/** The part of Node's `Buffer` that the frame codecs use: bytes, and the
    big-endian 32-bit integer reads and writes (`writeUInt32BE`,
    `writeInt32BE`, `readUInt32BE`, `readInt32BE`). Node refuses to write a
    value outside the field's range with a RangeError; the codecs check the
    range with `IsUInt32` / `IsInt32` before writing. */
module NodeBuffer {

  /** One octet of a Node `Buffer`. */
  type Byte = b: int | 0 <= b < 256

  const TWO_8: int := 0x100
  const TWO_16: int := 0x1_0000
  const TWO_24: int := 0x100_0000
  const TWO_31: int := 0x8000_0000
  const TWO_32: int := 0x1_0000_0000

  predicate IsUInt32(n: int) { 0 <= n < TWO_32 }

  predicate IsInt32(n: int) { -TWO_31 <= n < TWO_31 }

  /** `buf.writeUInt32BE(n, off)`: the four bytes written, most significant first. */
  function WriteUInt32BE(n: int): (r: seq<Byte>)
    requires IsUInt32(n)
    ensures |r| == 4
  {
    [n / TWO_24, n / TWO_16 % TWO_8, n / TWO_8 % TWO_8, n % TWO_8]
  }

  /** `buf.readUInt32BE(off)` on the four bytes at `off`. */
  function ReadUInt32BE(b: seq<Byte>): (n: int)
    requires |b| == 4
    ensures IsUInt32(n)
  {
    b[0] * TWO_24 + b[1] * TWO_16 + b[2] * TWO_8 + b[3]
  }

  /** Two's-complement view of a signed 32-bit value as an unsigned one. */
  function ToUnsigned32(n: int): (u: int)
    requires IsInt32(n)
    ensures IsUInt32(u)
    ensures u % TWO_32 == n % TWO_32
  {
    if n < 0 then n + TWO_32 else n
  }

  /** Inverse of `ToUnsigned32`. */
  function ToSigned32(u: int): (n: int)
    requires IsUInt32(u)
    ensures IsInt32(n)
    ensures n % TWO_32 == u % TWO_32
  {
    if u >= TWO_31 then u - TWO_32 else u
  }

  /** `buf.writeInt32BE(n, off)`: the two's-complement bytes of `n`. */
  function WriteInt32BE(n: int): (r: seq<Byte>)
    requires IsInt32(n)
    ensures |r| == 4
  {
    WriteUInt32BE(ToUnsigned32(n))
  }

  /** `buf.readInt32BE(off)` on the four bytes at `off`. */
  function ReadInt32BE(b: seq<Byte>): (n: int)
    requires |b| == 4
    ensures IsInt32(n)
  {
    ToSigned32(ReadUInt32BE(b))
  }

  /** Reading back an unsigned write yields the value written. */
  lemma ReadWriteUInt32(n: int)
    requires IsUInt32(n)
    ensures ReadUInt32BE(WriteUInt32BE(n)) == n
  {
    var q1, q2, q3 := n / TWO_8, n / TWO_16, n / TWO_24;
    assert n == q1 * TWO_8 + n % TWO_8;
    assert q1 / TWO_8 == q2 && q1 % TWO_8 == n / TWO_8 % TWO_8;
    assert q2 / TWO_8 == q3;
    assert q1 == q2 * TWO_8 + q1 % TWO_8;
    assert q2 == q3 * TWO_8 + q2 % TWO_8;
  }

  /** Writing back an unsigned read reproduces the four bytes. */
  lemma WriteReadUInt32(b: seq<Byte>)
    requires |b| == 4
    ensures WriteUInt32BE(ReadUInt32BE(b)) == b
  {
    var n := ReadUInt32BE(b);
    var q1 := b[0] * TWO_16 + b[1] * TWO_8 + b[2];
    var q2 := b[0] * TWO_8 + b[1];
    assert n == q1 * TWO_8 + b[3];
    assert n % TWO_8 == b[3] && n / TWO_8 == q1;
    assert q1 == q2 * TWO_8 + b[2];
    assert q1 % TWO_8 == b[2];
    assert n == q2 * TWO_16 + (b[2] * TWO_8 + b[3]);
    assert n / TWO_16 == q2;
    assert q2 % TWO_8 == b[1];
    assert n == b[0] * TWO_24 + (b[1] * TWO_16 + b[2] * TWO_8 + b[3]);
    assert n / TWO_24 == b[0];
  }

  /** Reading back a signed write yields the value written. */
  lemma ReadWriteInt32(n: int)
    requires IsInt32(n)
    ensures ReadInt32BE(WriteInt32BE(n)) == n
  {
    ReadWriteUInt32(ToUnsigned32(n));
  }

  /** Writing back a signed read reproduces the four bytes. */
  lemma WriteReadInt32(b: seq<Byte>)
    requires |b| == 4
    ensures WriteInt32BE(ReadInt32BE(b)) == b
  {
    WriteReadUInt32(b);
  }

  /** What an unsigned read makes of a signed write: negative values come
      back shifted by 2^32, so they read as values of at least 2^31. */
  lemma ReadUnsignedOfSignedWrite(n: int)
    requires IsInt32(n)
    ensures ReadUInt32BE(WriteInt32BE(n)) == (if n < 0 then n + TWO_32 else n)
    ensures n < 0 ==> ReadUInt32BE(WriteInt32BE(n)) >= TWO_31
  {
    ReadWriteUInt32(ToUnsigned32(n));
  }
}
