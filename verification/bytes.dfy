/**
  Byte buffers and the big-endian 32-bit accessors of snag/background.js
  (`writeUint32`, `readUint32`, `readString`), with the JavaScript number
  semantics written out: `>>>` works on the value taken modulo 2^32, `<<` and
  `|` produce a signed 32-bit result, and an index past the end of a typed
  array reads as `undefined`, which the bit operators treat as 0.
*/
module Bytes {

  /** One element of a `Uint8Array`. */
  type byte = x: int | 0 <= x < 256

  const Two31: int := 0x8000_0000
  const Two32: int := 0x1_0000_0000

  /** The byte at index `j`, or 0 where the typed array holds no element. */
  function ByteAt(buf: seq<byte>, j: int): byte
  {
    if 0 <= j < |buf| then buf[j] else 0
  }

  /** Reference meaning of four bytes read most significant first. */
  function Be32Value(a: byte, b: byte, c: byte, d: byte): nat
  {
    ((a * 256 + b) * 256 + c) * 256 + d
  }

  /** The number JavaScript's `ToInt32` yields for a value already in [0, 2^32). */
  function ToInt32(u: int): (r: int)
    requires 0 <= u < Two32
    ensures -Two31 <= r < Two31
    ensures r == u || r == u - Two32
    ensures r >= 0 <==> u < Two31
  {
    if u < Two31 then u else u - Two32
  }

  /**
    `readUint32(buf, offset)`: the four bytes at `o` combined with `<<` and
    `|`. The shifted bytes occupy disjoint bits, so the `|` is a sum; the
    `<< 24` of a byte of 128 or more lands in the sign bit, so despite its
    name the function returns a signed 32-bit number.
  */
  function ReadUint32(buf: seq<byte>, o: nat): int
  {
    ToInt32(ByteAt(buf, o) * 0x100_0000 + ByteAt(buf, o + 1) * 0x1_0000 + ByteAt(buf, o + 2) * 0x100 + ByteAt(buf, o + 3))
  }

  /** What `readUint32` yields: the four bytes read most significant first, as a signed 32-bit number whose sign is the top bit of the first byte. */
  lemma ReadUint32Signed(buf: seq<byte>, o: nat)
    ensures var r := ReadUint32(buf, o);
      var u := Be32Value(ByteAt(buf, o), ByteAt(buf, o + 1), ByteAt(buf, o + 2), ByteAt(buf, o + 3));
      && -Two31 <= r < Two31
      && r == ToInt32(u)
      && (r >= 0 <==> ByteAt(buf, o) < 128)
  {
  }

  /** Byte `k` (0 = most significant) of `val >>> 0`, as `(val >>> (24 - 8k)) & 0xff`. */
  function Be32Byte(val: int, k: nat): byte
    requires k < 4
  {
    var u := val % Two32;
    if k == 0 then u / 0x100_0000 % 256
    else if k == 1 then u / 0x1_0000 % 256
    else if k == 2 then u / 0x100 % 256
    else u % 256
  }

  lemma Be32BytesValue(val: int)
    ensures Be32Value(Be32Byte(val, 0), Be32Byte(val, 1), Be32Byte(val, 2), Be32Byte(val, 3)) == val % Two32
  {
    var u := val % Two32;
    var q1 := u / 256;
    var q2 := q1 / 256;
    var q3 := q2 / 256;
    assert u == q1 * 256 + u % 256;
    assert q1 == q2 * 256 + q1 % 256;
    assert q2 == q3 * 256 + q2 % 256;
    assert u / 0x1_0000 == q2;
    assert u / 0x100_0000 == q3;
    assert q3 < 256;
  }

  /** The four bytes `writeUint32` stores for `val`, most significant first. */
  function Be32Bytes(val: int): (r: seq<byte>)
    ensures |r| == 4
    ensures Be32Value(r[0], r[1], r[2], r[3]) == val % Two32
  {
    Be32BytesValue(val);
    [Be32Byte(val, 0), Be32Byte(val, 1), Be32Byte(val, 2), Be32Byte(val, 3)]
  }

  /**
    `writeUint32(buf, offset, val)` on a `Uint8Array`: the four bytes of
    `val` modulo 2^32, most significant first, stored at `o`..`o+3`. A typed
    array ignores stores outside its bounds, so nothing else changes and the
    length is kept even when the write runs past the end.
  */
  function WriteUint32(buf: seq<byte>, o: nat, val: int): (r: seq<byte>)
    ensures |r| == |buf|
    ensures o + 4 <= |buf| ==> r == buf[..o] + Be32Bytes(val) + buf[o + 4..]
    ensures o + 4 <= |buf| ==> Be32Value(r[o], r[o + 1], r[o + 2], r[o + 3]) == val % Two32
    ensures o + 4 > |buf| ==> r[..Min(o, |buf|)] == buf[..Min(o, |buf|)]
  {
    if o + 4 <= |buf| then
      var r := buf[..o] + Be32Bytes(val) + buf[o + 4..];
      assert r[o..o + 4] == Be32Bytes(val);
      r
    else
      var r := seq(|buf|, j requires 0 <= j < |buf| => PartialByte(buf, o, val, j));
      assert r[..Min(o, |buf|)] == buf[..Min(o, |buf|)];
      r
  }

  /** Byte `j` after a write at `o` that runs past the end of the buffer. */
  function PartialByte(buf: seq<byte>, o: nat, val: int, j: nat): byte
    requires j < |buf| && |buf| < o + 4
  {
    if o <= j then Be32Byte(val, j - o) else buf[j]
  }

  /** `readUint32` returns the unsigned value whenever that value fits in 31 bits. */
  lemma ReadUint32Exact(buf: seq<byte>, o: nat)
    requires o + 4 <= |buf|
    requires Be32Value(buf[o], buf[o + 1], buf[o + 2], buf[o + 3]) < Two31
    ensures ReadUint32(buf, o) == Be32Value(buf[o], buf[o + 1], buf[o + 2], buf[o + 3])
  {
  }

  /** Within the buffer `readUint32` sees the four bytes themselves. */
  lemma ReadUint32Inside(buf: seq<byte>, o: nat)
    requires o + 4 <= |buf|
    ensures ReadUint32(buf, o) == ToInt32(Be32Value(buf[o], buf[o + 1], buf[o + 2], buf[o + 3]))
  {
  }

  /** Reading back what was written gives the value as a signed 32-bit number. */
  lemma ReadAfterWrite(buf: seq<byte>, o: nat, val: int)
    requires o + 4 <= |buf|
    ensures ReadUint32(WriteUint32(buf, o, val), o) == ToInt32(val % Two32)
    ensures 0 <= val < Two31 ==> ReadUint32(WriteUint32(buf, o, val), o) == val
  {
    var r := WriteUint32(buf, o, val);
    ReadUint32Inside(r, o);
    if 0 <= val < Two31 {
      ModSmall(val);
    }
  }

  /** `TypedArray.prototype.set(src, o)`; the source array must fit. */
  function SetBytes(buf: seq<byte>, o: nat, src: seq<byte>): (r: seq<byte>)
    requires o + |src| <= |buf|
    ensures |r| == |buf|
    ensures r[o..o + |src|] == src
    ensures r[..o] == buf[..o] && r[o + |src|..] == buf[o + |src|..]
  {
    buf[..o] + src + buf[o + |src|..]
  }

  /** `String.fromCharCode` applied to each byte: one character per byte, same code. */
  function Latin1(bytes: seq<byte>): (s: string)
    ensures |s| == |bytes|
    ensures forall j :: 0 <= j < |bytes| ==> s[j] as int == bytes[j]
  {
    seq(|bytes|, j requires 0 <= j < |bytes| => bytes[j] as char)
  }

  /** The byte codes of a string whose characters all lie below 256. */
  function Latin1Codes(s: string): (bytes: seq<byte>)
    requires forall j :: 0 <= j < |s| ==> s[j] as int < 256
    ensures |bytes| == |s|
  {
    seq(|s|, j requires 0 <= j < |s| => s[j] as int)
  }

  lemma Latin1RoundTrip(bytes: seq<byte>)
    ensures Latin1Codes(Latin1(bytes)) == bytes
  {
  }

  /** `Latin1` distributes over concatenation, so converting slice by slice converts the whole. */
  lemma Latin1Append(a: seq<byte>, b: seq<byte>)
    ensures Latin1(a + b) == Latin1(a) + Latin1(b)
  {
  }

  /** A `bv32` read as a number lies in [0, 2^32) and is its own remainder. */
  lemma Bv32AsInt(x: bv32)
    ensures 0 <= x as int < Two32
    ensures (x as int) % Two32 == x as int
  {
    var u := x as int;
    assert 0 <= u < Two32;
    ModSmall(u);
  }

  lemma ModSmall(u: int)
    requires 0 <= u < Two32
    ensures u % Two32 == u
  {
  }

  function Min(a: int, b: int): int
  {
    if a < b then a else b
  }

  /**
    `readString(buf, offset, len)`: the characters of `buf.slice(o, o + n)`;
    `slice` clamps both ends to the buffer.
  */
  function ReadString(buf: seq<byte>, o: nat, n: nat): (s: string)
    ensures o + n <= |buf| ==> s == Latin1(buf[o..o + n])
    ensures |s| == Min(o + n, |buf|) - Min(o, |buf|)
  {
    var lo := Min(o, |buf|);
    var hi := Min(o + n, |buf|);
    Latin1(buf[lo..hi])
  }
}
