/**
  The CRC-32 of `crc32` and `crcTable` in snag/background.js: the reflected,
  table-driven form with polynomial 0xEDB88320, register preset to all ones
  and complemented at the end, as section 5.5 of the PNG specification
  (ISO/IEC 15948) prescribes for chunk checksums. The register is a `bv32`,
  which matches the source exactly: its `-1`, `>>>` and `^` operate on the
  same 32 bits.
*/
module Crc32 {
  import opened Bytes

  /** The reflected CRC-32 polynomial. */
  const Polynomial: bv32 := 0xEDB8_8320

  /** One bit of polynomial division: `(c & 1) ? (0xEDB88320 ^ (c >>> 1)) : (c >>> 1)`. */
  function ShiftRound(c: bv32): bv32
  {
    if c & 1 == 1 then Polynomial ^ (c >> 1) else c >> 1
  }

  /** `k` rounds of `ShiftRound`. */
  function ShiftRounds(c: bv32, k: nat): bv32
    decreases k
  {
    if k == 0 then c else ShiftRounds(ShiftRound(c), k - 1)
  }

  /** The table entry for byte value `n`: `n` shifted through eight rounds. */
  function TableEntry(n: bv8): bv32
  {
    ShiftRounds(n as bv32, 8)
  }

  /**
    The initializer of `crcTable`: for each `n` below 256, eight rounds of
    the inner loop on `c = n`.
  */
  method BuildCrcTable() returns (t: seq<bv32>)
    ensures |t| == 256
    ensures forall n :: 0 <= n < 256 ==> t[n] == TableEntry(n as bv8)
  {
    t := [];
    var n := 0;
    while n < 256
      invariant 0 <= n <= 256
      invariant |t| == n
      invariant forall j :: 0 <= j < n ==> t[j] == TableEntry(j as bv8)
    {
      var c: bv32 := (n as bv8) as bv32;
      var k := 0;
      while k < 8
        invariant 0 <= k <= 8
        invariant ShiftRounds(c, 8 - k) == TableEntry(n as bv8)
      {
        c := ShiftRound(c);
        k := k + 1;
      }
      t := t + [c];
      n := n + 1;
    }
  }

  /**
    Table-driven register update for one byte: `(c >>> 8) ^ crcTable[(c ^ b) & 0xff]`.
    The index is the low byte of the register xor the input byte.
  */
  function TableUpdate(c: bv32, b: byte): bv32
  {
    (c >> 8) ^ TableEntry(((c & 0xFF) as bv8) ^ (b as bv8))
  }

  /** The register after folding `TableUpdate` over `bytes`, first byte first. */
  function Register(c: bv32, bytes: seq<byte>): bv32
    decreases |bytes|
  {
    if |bytes| == 0 then c else TableUpdate(Register(c, bytes[..|bytes| - 1]), bytes[|bytes| - 1])
  }

  /** `crc32(buf)`: preset to all ones, fold, complement. */
  function Crc(bytes: seq<byte>): bv32
  {
    Register(0xFFFF_FFFF, bytes) ^ 0xFFFF_FFFF
  }

  lemma RegisterSnoc(c: bv32, bytes: seq<byte>, b: byte)
    ensures Register(c, bytes + [b]) == TableUpdate(Register(c, bytes), b)
  {
    assert (bytes + [b])[..|bytes|] == bytes;
  }

  /** Folding over a concatenation folds over the parts in turn: the CRC is streamable. */
  lemma {:induction false} RegisterAppend(c: bv32, a: seq<byte>, b: seq<byte>)
    ensures Register(c, a + b) == Register(Register(c, a), b)
    decreases |b|
  {
    if |b| == 0 {
      assert a + b == a;
    } else {
      var init := b[..|b| - 1];
      var last := b[|b| - 1];
      assert a + b == (a + init) + [last];
      assert b == init + [last];
      RegisterSnoc(c, a + init, last);
      RegisterSnoc(Register(c, a), init, last);
      RegisterAppend(c, a, init);
    }
  }

  /**
    The loop of `crc32(buf)`: `c` starts at -1, that is all ones, takes one
    table step per byte, and is complemented at the end; `>>> 0` only
    reinterprets the 32 bits as unsigned.
  */
  method ComputeCrc(buf: seq<byte>) returns (r: bv32)
    ensures r == Crc(buf)
  {
    var c: bv32 := 0xFFFF_FFFF;
    var i := 0;
    while i < |buf|
      invariant 0 <= i <= |buf|
      invariant c == Register(0xFFFF_FFFF, buf[..i])
    {
      RegisterSnoc(0xFFFF_FFFF, buf[..i], buf[i]);
      assert buf[..i + 1] == buf[..i] + [buf[i]];
      c := TableUpdate(c, buf[i]);
      i := i + 1;
    }
    assert buf[..i] == buf;
    r := c ^ 0xFFFF_FFFF;
  }

  /** The register after four bytes is four table steps. */
  lemma RegisterFour(c: bv32, s: seq<byte>)
    requires |s| == 4
    ensures Register(c, s) == TableUpdate(TableUpdate(TableUpdate(TableUpdate(c, s[0]), s[1]), s[2]), s[3])
  {
    assert s[..1] == s[..0] + [s[0]] && s[..0] == [];
    assert s[..2] == s[..1] + [s[1]];
    assert s[..3] == s[..2] + [s[2]];
    assert s == s[..3] + [s[3]];
    RegisterSnoc(c, s[..0], s[0]);
    RegisterSnoc(c, s[..1], s[1]);
    RegisterSnoc(c, s[..2], s[2]);
    RegisterSnoc(c, s[..3], s[3]);
  }

  lemma IendSteps()
    ensures TableUpdate(0xFFFF_FFFF, 0x49) == 0x22FD_E946
    ensures TableUpdate(0x22FD_E946, 0x45) == 0x992B_AC53
    ensures TableUpdate(0x992B_AC53, 0x4E) == 0x639F_4775
    ensures TableUpdate(0x639F_4775, 0x44) == 0x51BD_9F7D
  {
    assert TableEntry(0xB6) == 0x2202_16B9;
    assert TableEntry(0x03) == 0x9909_51BA;
    assert TableEntry(0x1D) == 0x6306_6CD9;
    assert TableEntry(0x31) == 0x51DE_003A;
  }

  /** The checksum of `IEND`, the chunk type that closes every PNG file, is the familiar 0xAE426082. */
  lemma IendCrc(s: seq<byte>)
    requires s == [0x49, 0x45, 0x4E, 0x44]
    ensures Crc(s) == 0xAE42_6082
  {
    RegisterFour(0xFFFF_FFFF, s);
    IendSteps();
  }

  /** Standard values: the empty input, and the table's first, middle and last entries. */
  lemma KnownValues()
    ensures Crc([]) == 0
    ensures TableEntry(0) == 0
    ensures TableEntry(1) == 0x7707_3096
    ensures TableEntry(128) == 0xEDB8_8320
    ensures TableEntry(255) == 0x2D02_EF8D
  {
  }
}
