/**
  The transport encoding of snag/background.js: `uint8ToBase64` turns the
  byte buffer into a "binary string" one slice of 0x8000 bytes at a time and
  hands it to `btoa`, which emits the base64 of RFC 4648 section 4 (standard
  alphabet, `=` padding, no line breaks).
*/
module Base64 {
  import opened Bytes
  import opened Results

  /** Character for a sextet, as in table 1 of RFC 4648 section 4. */
  function Char(i: int): char
    requires 0 <= i < 64
  {
    if i < 26 then ('A' as int + i) as char
    else if i < 52 then ('a' as int + (i - 26)) as char
    else if i < 62 then ('0' as int + (i - 52)) as char
    else if i == 62 then '+'
    else '/'
  }

  /** Sextet of an alphabet character, or -1 for any other character (including `=`). */
  function Index(c: char): (i: int)
    ensures -1 <= i < 64
    ensures i >= 0 ==> Char(i) == c
  {
    if 'A' <= c <= 'Z' then c as int - 'A' as int
    else if 'a' <= c <= 'z' then c as int - 'a' as int + 26
    else if '0' <= c <= '9' then c as int - '0' as int + 52
    else if c == '+' then 62
    else if c == '/' then 63
    else -1
  }

  lemma IndexOfChar(i: int)
    requires 0 <= i < 64
    ensures Index(Char(i)) == i
  {
  }

  // The four sextets of a group of three bytes `a`, `b`, `c`, and back.

  function Sextet0(a: byte): (i: int)
    ensures 0 <= i < 64
  {
    a / 4
  }

  function Sextet1(a: byte, b: byte): (i: int)
    ensures 0 <= i < 64
  {
    (a % 4) * 16 + b / 16
  }

  function Sextet2(b: byte, c: byte): (i: int)
    ensures 0 <= i < 64
  {
    (b % 16) * 4 + c / 64
  }

  function Sextet3(c: byte): (i: int)
    ensures 0 <= i < 64
  {
    c % 64
  }

  function Byte0(i0: int, i1: int): (a: byte)
    requires 0 <= i0 < 64 && 0 <= i1 < 64
  {
    i0 * 4 + i1 / 16
  }

  function Byte1(i1: int, i2: int): (b: byte)
    requires 0 <= i1 < 64 && 0 <= i2 < 64
  {
    (i1 % 16) * 16 + i2 / 4
  }

  function Byte2(i2: int, i3: int): (c: byte)
    requires 0 <= i2 < 64 && 0 <= i3 < 64
  {
    (i2 % 4) * 64 + i3
  }

  lemma SextetsRoundTrip(a: byte, b: byte, c: byte)
    ensures Byte0(Sextet0(a), Sextet1(a, b)) == a
    ensures Byte1(Sextet1(a, b), Sextet2(b, c)) == b
    ensures Byte2(Sextet2(b, c), Sextet3(c)) == c
  {
  }

  lemma BytesRoundTrip(i0: int, i1: int, i2: int, i3: int)
    requires 0 <= i0 < 64 && 0 <= i1 < 64 && 0 <= i2 < 64 && 0 <= i3 < 64
    ensures Sextet0(Byte0(i0, i1)) == i0
    ensures Sextet1(Byte0(i0, i1), Byte1(i1, i2)) == i1
    ensures Sextet2(Byte1(i1, i2), Byte2(i2, i3)) == i2
    ensures Sextet3(Byte2(i2, i3)) == i3
  {
  }

  /** Three bytes as four characters. */
  function EncodeGroup(a: byte, b: byte, c: byte): string
  {
    [Char(Sextet0(a)), Char(Sextet1(a, b)), Char(Sextet2(b, c)), Char(Sextet3(c))]
  }

  /** Base64 of `bytes`; a final group of one or two bytes is padded with `=`. */
  function Encode(bytes: seq<byte>): (s: string)
    decreases |bytes|
  {
    if |bytes| == 0 then []
    else if |bytes| == 1 then
      [Char(Sextet0(bytes[0])), Char(Sextet1(bytes[0], 0)), '=', '=']
    else if |bytes| == 2 then
      [Char(Sextet0(bytes[0])), Char(Sextet1(bytes[0], bytes[1])), Char(Sextet2(bytes[1], 0)), '=']
    else
      EncodeGroup(bytes[0], bytes[1], bytes[2]) + Encode(bytes[3..])
  }

  // ----- Decoding, the inverse used to state what `Encode` preserves -----

  /** Four alphabet characters as three bytes. */
  function DecodeGroup(s: string): Option<seq<byte>>
    requires |s| == 4
  {
    var i0, i1, i2, i3 := Index(s[0]), Index(s[1]), Index(s[2]), Index(s[3]);
    if i0 < 0 || i1 < 0 || i2 < 0 || i3 < 0 then None
    else Some([Byte0(i0, i1), Byte1(i1, i2), Byte2(i2, i3)])
  }

  /**
    The last quartet: a full group, or one or two bytes followed by `=`
    padding. The bits the padding leaves unused must be zero, so that every
    byte string has exactly one encoding.
  */
  function DecodeFinal(s: string): Option<seq<byte>>
    requires |s| == 4
  {
    var i0, i1, i2 := Index(s[0]), Index(s[1]), Index(s[2]);
    if s[2] == '=' && s[3] == '=' then
      if i0 < 0 || i1 < 0 || i1 % 16 != 0 then None else Some([Byte0(i0, i1)])
    else if s[3] == '=' then
      if i0 < 0 || i1 < 0 || i2 < 0 || i2 % 4 != 0 then None
      else Some([Byte0(i0, i1), Byte1(i1, i2)])
    else DecodeGroup(s)
  }

  /** Strict base64 decoding; `None` for anything `Encode` cannot produce. */
  function Decode(s: string): Option<seq<byte>>
    decreases |s|
  {
    if |s| == 0 then Some([])
    else if |s| < 4 then None
    else if |s| == 4 then DecodeFinal(s)
    else
      match DecodeGroup(s[..4])
      case None => None
      case Some(g) =>
        match Decode(s[4..])
        case None => None
        case Some(rest) => Some(g + rest)
  }

  lemma GroupRoundTrip(a: byte, b: byte, c: byte)
    ensures DecodeGroup(EncodeGroup(a, b, c)) == Some([a, b, c])
  {
    IndexOfChar(Sextet0(a));
    IndexOfChar(Sextet1(a, b));
    IndexOfChar(Sextet2(b, c));
    IndexOfChar(Sextet3(c));
    SextetsRoundTrip(a, b, c);
  }

  /** A lone final byte survives its `==`-padded quartet. */
  lemma OneRoundTrip(a: byte)
    ensures Decode(Encode([a])) == Some([a])
  {
    var s := Encode([a]);
    var i0, i1 := Sextet0(a), Sextet1(a, 0);
    assert s == [Char(i0), Char(i1), '=', '='];
    IndexOfChar(i0);
    IndexOfChar(i1);
    OneLowBits(a);
    assert Index(s[0]) == i0 && Index(s[1]) == i1;
    assert s[2] == '=' && s[3] == '=';
    assert DecodeFinal(s) == Some([Byte0(i0, i1)]);
    SextetsRoundTrip(a, 0, 0);
  }

  lemma OneLowBits(a: byte)
    ensures Sextet1(a, 0) % 16 == 0
  {
  }

  /** Two final bytes survive their `=`-padded quartet. */
  lemma TwoRoundTrip(a: byte, b: byte)
    ensures Decode(Encode([a, b])) == Some([a, b])
  {
    var s := Encode([a, b]);
    assert s == [Char(Sextet0(a)), Char(Sextet1(a, b)), Char(Sextet2(b, 0)), '='];
    IndexOfChar(Sextet0(a));
    IndexOfChar(Sextet1(a, b));
    IndexOfChar(Sextet2(b, 0));
    SextetsRoundTrip(a, b, 0);
    assert Sextet2(b, 0) % 4 == 0;
    assert s[2] != '=';
  }

  lemma EncodeOne(a: byte)
    ensures Encode([a]) == [Char(Sextet0(a)), Char(Sextet1(a, 0)), '=', '=']
  {
  }

  lemma EncodeTwo(a: byte, b: byte)
    ensures Encode([a, b]) == [Char(Sextet0(a)), Char(Sextet1(a, b)), Char(Sextet2(b, 0)), '=']
  {
  }

  lemma EncodeNonEmpty(bytes: seq<byte>)
    requires |bytes| > 0
    ensures |Encode(bytes)| >= 4
  {
  }

  /** A full quartet in front of a decodable string decodes to its three bytes in front. */
  lemma DecodeConcat(g: string, t: string)
    requires |g| == 4 && DecodeGroup(g).Some?
    requires |t| >= 4 && Decode(t).Some?
    ensures Decode(g + t) == Some(DecodeGroup(g).value + Decode(t).value)
  {
    assert (g + t)[..4] == g && (g + t)[4..] == t;
  }

  /** Decoding an encoding gives back the bytes. */
  lemma {:induction false} DecodeEncode(bytes: seq<byte>)
    ensures Decode(Encode(bytes)) == Some(bytes)
    decreases |bytes|
  {
    if |bytes| == 1 {
      OneRoundTrip(bytes[0]);
      assert bytes == [bytes[0]];
    } else if |bytes| == 2 {
      TwoRoundTrip(bytes[0], bytes[1]);
      assert bytes == [bytes[0], bytes[1]];
    } else if |bytes| == 3 {
      GroupRoundTrip(bytes[0], bytes[1], bytes[2]);
      assert Encode(bytes) == EncodeGroup(bytes[0], bytes[1], bytes[2]);
      assert bytes == [bytes[0], bytes[1], bytes[2]];
    } else if |bytes| > 3 {
      DecodeEncode(bytes[3..]);
      GroupThenRest(bytes);
    }
  }

  /** The inductive step: a leading group decodes in front of the decoded rest. */
  lemma GroupThenRest(bytes: seq<byte>)
    requires |bytes| > 3 && Decode(Encode(bytes[3..])) == Some(bytes[3..])
    ensures Decode(Encode(bytes)) == Some(bytes)
  {
    var rest := bytes[3..];
    var g := EncodeGroup(bytes[0], bytes[1], bytes[2]);
    assert Encode(bytes) == g + Encode(rest);
    EncodeNonEmpty(rest);
    GroupRoundTrip(bytes[0], bytes[1], bytes[2]);
    DecodeInFront(bytes, g, Encode(rest));
  }

  lemma DecodeInFront(bytes: seq<byte>, g: string, t: string)
    requires |bytes| > 3 && |g| == 4 && |t| >= 4
    requires Decode(t) == Some(bytes[3..])
    requires DecodeGroup(g) == Some([bytes[0], bytes[1], bytes[2]])
    ensures Decode(g + t) == Some(bytes)
  {
    DecodeConcat(g, t);
    assert bytes == [bytes[0], bytes[1], bytes[2]] + bytes[3..];
  }

  lemma GroupOfDecode(s: string)
    requires |s| == 4 && DecodeGroup(s).Some?
    ensures |DecodeGroup(s).value| == 3
    ensures EncodeGroup(DecodeGroup(s).value[0], DecodeGroup(s).value[1], DecodeGroup(s).value[2]) == s
  {
    var i0, i1, i2, i3 := Index(s[0]), Index(s[1]), Index(s[2]), Index(s[3]);
    BytesRoundTrip(i0, i1, i2, i3);
    var g := EncodeGroup(Byte0(i0, i1), Byte1(i1, i2), Byte2(i2, i3));
    assert g == [Char(i0), Char(i1), Char(i2), Char(i3)];
    assert g == s;
  }

  lemma PadOneBits(i0: int, i1: int)
    requires 0 <= i0 < 64 && 0 <= i1 < 64 && i1 % 16 == 0
    ensures Sextet0(Byte0(i0, i1)) == i0 && Sextet1(Byte0(i0, i1), 0) == i1
  {
  }

  lemma PadTwoBits(i1: int, i2: int)
    requires 0 <= i1 < 64 && 0 <= i2 < 64 && i2 % 4 == 0
    ensures Sextet2(Byte1(i1, i2), 0) == i2
  {
  }

  lemma FinalOneOfDecode(s: string)
    requires |s| == 4 && s[2] == '=' && s[3] == '='
    requires Index(s[0]) >= 0 && Index(s[1]) >= 0 && Index(s[1]) % 16 == 0
    ensures Encode([Byte0(Index(s[0]), Index(s[1]))]) == s
  {
    var i0, i1 := Index(s[0]), Index(s[1]);
    PadOneBits(i0, i1);
    EncodeOne(Byte0(i0, i1));
    assert Char(i0) == s[0] && Char(i1) == s[1];
    assert [Char(i0), Char(i1), '=', '='] == s;
  }

  lemma FinalTwoOfDecode(s: string)
    requires |s| == 4 && s[3] == '='
    requires Index(s[0]) >= 0 && Index(s[1]) >= 0 && Index(s[2]) >= 0 && Index(s[2]) % 4 == 0
    ensures Encode([Byte0(Index(s[0]), Index(s[1])), Byte1(Index(s[1]), Index(s[2]))]) == s
  {
    var i0, i1, i2 := Index(s[0]), Index(s[1]), Index(s[2]);
    BytesRoundTrip(i0, i1, i2, 0);
    PadTwoBits(i1, i2);
    var a, b := Byte0(i0, i1), Byte1(i1, i2);
    assert Sextet0(a) == i0 && Sextet1(a, b) == i1 && Sextet2(b, 0) == i2;
    EncodeTwo(a, b);
    assert Char(i0) == s[0] && Char(i1) == s[1] && Char(i2) == s[2];
    assert [Char(i0), Char(i1), Char(i2), '='] == s;
  }

  lemma FinalOfDecode(s: string)
    requires |s| == 4 && DecodeFinal(s).Some?
    ensures 1 <= |DecodeFinal(s).value| <= 3
    ensures Encode(DecodeFinal(s).value) == s
  {
    if s[2] == '=' && s[3] == '=' {
      FinalOneOfDecode(s);
    } else if s[3] == '=' {
      FinalTwoOfDecode(s);
    } else {
      GroupOfDecode(s);
      var b := DecodeFinal(s).value;
      assert Encode(b) == EncodeGroup(b[0], b[1], b[2]) + Encode(b[3..]);
    }
  }

  /** Every string `Decode` accepts is the encoding of what it decodes to. */
  lemma {:induction false} EncodeDecode(s: string)
    requires Decode(s).Some?
    ensures Encode(Decode(s).value) == s
    decreases |s|
  {
    if |s| == 4 {
      FinalOfDecode(s);
    } else if |s| > 4 {
      GroupOfDecode(s[..4]);
      EncodeDecode(s[4..]);
      var g := DecodeGroup(s[..4]).value;
      var rest := Decode(s[4..]).value;
      assert Decode(s).value == g + rest;
      assert |rest| > 0;
      assert (g + rest)[3..] == rest;
      assert s == s[..4] + s[4..];
    }
  }

  // ----- `btoa` and the slice loop of `uint8ToBase64` -----

  /** `btoa` throws `InvalidCharacterError`, which names no position. */
  datatype EncodeError = InvalidCharacter

  /**
    `btoa`: a string of code units below 256 is taken as bytes and encoded;
    anything else throws. What it returns decodes to those bytes.
  */
  function Btoa(s: string): (r: Result<string, EncodeError>)
    ensures r.Ok? <==> forall j :: 0 <= j < |s| ==> s[j] as int < 256
    ensures r.Ok? ==> Decode(r.value) == Some(Latin1Codes(s))
  {
    if forall j :: 0 <= j < |s| ==> s[j] as int < 256 then
      DecodeEncode(Latin1Codes(s));
      Ok(Encode(Latin1Codes(s)))
    else
      Err(InvalidCharacter)
  }

  /** The slice size `uint8ToBase64` uses. */
  const SliceSize: nat := 0x8000

  /**
    The loop of `uint8ToBase64` with the slice size as a parameter: append
    `String.fromCharCode` of each `subarray(i, i + sliceSize)`, then `btoa`.
    Whatever the slice size, the result is the base64 of the whole buffer.
  */
  method EncodeInSlices(bytes: seq<byte>, sliceSize: nat) returns (r: Result<string, EncodeError>)
    requires sliceSize >= 1
    ensures r == Ok(Encode(bytes))
  {
    var bin: string := [];
    var i := 0;
    while i < |bytes|
      invariant 0 <= i
      invariant bin == Latin1(bytes[..Min(i, |bytes|)])
      decreases |bytes| - i
    {
      var hi := Min(i + sliceSize, |bytes|);
      Latin1Append(bytes[..i], bytes[i..hi]);
      assert bytes[..i] + bytes[i..hi] == bytes[..hi];
      bin := bin + Latin1(bytes[i..hi]);
      i := i + sliceSize;
    }
    assert bytes[..Min(i, |bytes|)] == bytes;
    Latin1RoundTrip(bytes);
    r := Btoa(bin);
  }

  /** `uint8ToBase64(uint8arr)`. */
  method Uint8ToBase64(bytes: seq<byte>) returns (r: string)
    ensures r == Encode(bytes)
    ensures Decode(r) == Some(bytes)
  {
    var res := EncodeInSlices(bytes, SliceSize);
    r := res.value;
    DecodeEncode(bytes);
  }
}
