/**
  `insertPNGTextChunk` and `buildTextChunk` of snag/background.js: walk the
  chunks of a PNG stream (an 8-byte signature, then chunks laid out as
  length, type, data and CRC, sections 5.2 and 5.3 of the PNG specification)
  and splice one `tEXt` chunk (section 11.3.4.3) per metadata entry straight
  after every `IHDR` chunk, copying everything else verbatim.

  The walk is modelled on the source's own arithmetic: the declared length
  is read with the signed `readUint32`, the next chunk starts at
  `i + 8 + len + 4`, and a chunk that runs past the end of the buffer is cut
  short by `slice`, which also ends the walk. The one departure: a length
  whose top bit is set reads as negative, which makes the source step
  backwards or not at all; the model reports it as `NegativeLength`.
*/
module PngText {
  import opened Bytes
  import opened Results
  import opened Crc32
  import opened Base64

  /** The bytes of one chunk as the walk copies them. */
  type Chunk = seq<byte>

  datatype FormatError = NegativeLength(at: nat)

  /** The length of the PNG signature the walk skips. */
  const SignatureLength: nat := 8

  /** The chunk type `tEXt`. */
  const TextType: seq<byte> := [0x74, 0x45, 0x58, 0x74]

  /** A chunk whose type field reads `IHDR`. */
  predicate IsIhdr(c: Chunk)
  {
    ReadString(c, 4, 4) == "IHDR"
  }

  /**
    A chunk as long as its length field declares: 12 bytes of framing plus
    the data, with a length below 2^31 as section 5.3 of the PNG
    specification requires.
  */
  predicate Complete(c: Chunk)
  {
    |c| >= 12 && |c| - 12 < Two31 && Be32Value(c[0], c[1], c[2], c[3]) == |c| - 12
  }

  /** The walk reads the length of a complete chunk as its data length. */
  lemma CompleteLength(c: Chunk)
    requires Complete(c)
    ensures ReadUint32(c, 0) == |c| - 12
  {
    ReadUint32Exact(c, 0);
  }

  /** The chunks laid end to end. */
  function Flatten(cs: seq<Chunk>): seq<byte>
    decreases |cs|
  {
    if |cs| == 0 then [] else cs[0] + Flatten(cs[1..])
  }

  lemma {:induction false} FlattenAppend(a: seq<Chunk>, b: seq<Chunk>)
    ensures Flatten(a + b) == Flatten(a) + Flatten(b)
    decreases |a|
  {
    if |a| == 0 {
      assert a + b == b;
    } else {
      assert (a + b)[0] == a[0] && (a + b)[1..] == a[1..] + b;
      FlattenAppend(a[1..], b);
    }
  }

  /**
    The chunks of `png` from offset `i` on, as the `while` loop of
    `insertPNGTextChunk` delimits them: the signed length at `i`, the next
    chunk at `i + 12 + len`, and a last chunk that `slice` cuts off at the
    end of the buffer. A negative length is an error.
  */
  function ParseChunks(png: seq<byte>, i: nat): (r: Result<seq<Chunk>, FormatError>)
    decreases |png| - i
  {
    if i >= |png| then Ok([])
    else
      var len := ReadUint32(png, i);
      if len < 0 then Err(NegativeLength(i))
      else
        var end := i + 12 + len;
        if end >= |png| then Ok([png[i..]])
        else
          match ParseChunks(png, end)
          case Err(e) => Err(e)
          case Ok(rest) => Ok([png[i..end]] + rest)
  }

  /** The walk fails only at a chunk whose length field has its top bit set. */
  lemma {:induction false} ParseErrorAt(png: seq<byte>, i: nat)
    requires ParseChunks(png, i).Err?
    ensures var at := ParseChunks(png, i).error.at;
      i <= at < |png| && png[at] >= 128
    decreases |png| - i
  {
    ReadUint32Signed(png, i);
    var end := i + 12 + ReadUint32(png, i);
    if ReadUint32(png, i) >= 0 {
      ParseErrorAt(png, end);
    }
  }

  /** The walk at a chunk that reaches the end of the buffer: that chunk, cut short, is the last. */
  lemma ParseLast(png: seq<byte>, i: nat)
    requires i < |png| && ReadUint32(png, i) >= 0 && i + 12 + ReadUint32(png, i) >= |png|
    ensures ParseChunks(png, i) == Ok([png[i..]])
    ensures ParseChunks(png, i + 12 + ReadUint32(png, i)) == Ok([])
  {
  }

  /** The walk at a chunk that ends inside the buffer: that chunk, then the walk from its end. */
  lemma ParseNext(png: seq<byte>, i: nat)
    requires i < |png| && ReadUint32(png, i) >= 0 && i + 12 + ReadUint32(png, i) < |png|
    ensures var end := i + 12 + ReadUint32(png, i);
      ParseChunks(png, i) == Prepend([png[i..end]], ParseChunks(png, end))
  {
  }

  /** The chunks cover the rest of the buffer exactly: the walk copies every byte, in order. */
  lemma {:induction false} ParseCovers(png: seq<byte>, i: nat)
    requires ParseChunks(png, i).Ok?
    ensures Flatten(ParseChunks(png, i).value) == png[Min(i, |png|)..]
    decreases |png| - i
  {
    if i < |png| {
      var end := i + 12 + ReadUint32(png, i);
      if end >= |png| {
        ParseLast(png, i);
        assert Flatten([png[i..]]) == png[i..] + [];
      } else {
        ParseNext(png, i);
        ParseCovers(png, end);
        var rest := ParseChunks(png, end).value;
        assert ParseChunks(png, i).value == [png[i..end]] + rest;
        assert ([png[i..end]] + rest)[1..] == rest;
        assert png[i..] == png[i..end] + png[end..];
      }
    }
  }

  /** Every chunk but the last is complete: only the last can be cut short by the end of the buffer. */
  lemma {:induction false} ParseComplete(png: seq<byte>, i: nat)
    requires ParseChunks(png, i).Ok?
    ensures var cs := ParseChunks(png, i).value;
      forall k :: 0 <= k < |cs| - 1 ==> Complete(cs[k])
    decreases |png| - i
  {
    if i < |png| {
      var end := i + 12 + ReadUint32(png, i);
      if end < |png| {
        ParseNext(png, i);
        ParseComplete(png, end);
        SliceComplete(png, i, end);
        var rest := ParseChunks(png, end).value;
        var cs := [png[i..end]] + rest;
        assert forall k :: 1 <= k < |cs| ==> cs[k] == rest[k - 1];
      }
    }
  }

  /**
    The walk copies a chunk that reaches the end of the buffer as it is. That
    last chunk is complete exactly when its declared end is the buffer's end;
    a declared end past it means the input was truncated.
  */
  lemma LastChunkComplete(png: seq<byte>, i: nat)
    requires i < |png| && ReadUint32(png, i) >= 0 && i + 12 + ReadUint32(png, i) >= |png|
    ensures ParseChunks(png, i) == Ok([png[i..]])
    ensures Complete(png[i..]) <==> i + 12 + ReadUint32(png, i) == |png|
  {
    ParseLast(png, i);
    if i + 12 + ReadUint32(png, i) == |png| {
      SliceComplete(png, i, |png|);
    }
    if Complete(png[i..]) {
      CompleteLength(png[i..]);
      ReadUint32Prefix(png, i, |png|);
    }
  }

  /** A slice whose length field, read by the walk, matches its length is a complete chunk. */
  lemma SliceComplete(png: seq<byte>, i: nat, end: nat)
    requires i + 12 <= end <= |png| && ReadUint32(png, i) == end - i - 12
    ensures Complete(png[i..end])
  {
    var c := png[i..end];
    assert ByteAt(png, i) == c[0] && ByteAt(png, i + 1) == c[1];
    assert ByteAt(png, i + 2) == c[2] && ByteAt(png, i + 3) == c[3];
  }

  /** `readUint32` at the start of a slice sees the same four bytes as in the whole buffer. */
  lemma ReadUint32Prefix(png: seq<byte>, i: nat, end: nat)
    requires i + 4 <= end <= |png|
    ensures ReadUint32(png[i..end], 0) == ReadUint32(png, i)
  {
    var c := png[i..end];
    assert ByteAt(c, 0) == ByteAt(png, i) && ByteAt(c, 1) == ByteAt(png, i + 1);
    assert ByteAt(c, 2) == ByteAt(png, i + 2) && ByteAt(c, 3) == ByteAt(png, i + 3);
  }

  /** The type string of a copied chunk is the one the loop reads from the whole buffer. */
  lemma ChunkType(png: seq<byte>, i: nat, hi: nat)
    requires i <= hi <= |png|
    requires hi == |png| || i + 8 <= hi
    ensures ReadString(png[i..hi], 4, 4) == ReadString(png, i + 4, 4)
  {
    var c := png[i..hi];
    var lo, up := Min(4, |c|), Min(8, |c|);
    assert Min(i + 4, |png|) == i + lo && Min(i + 8, |png|) == i + up;
    forall k | 0 <= k < up - lo ensures c[lo..up][k] == png[i + lo..i + up][k] {
      assert c[lo + k] == png[i + lo + k];
    }
    assert c[lo..up] == png[i + lo..i + up];
  }

  // ----- Splicing the text chunks in, and taking them out again -----

  /** After every `IHDR` chunk, the text chunks `tcs`, in order; every chunk of `cs` kept in order. */
  function Splice(cs: seq<Chunk>, tcs: seq<Chunk>): seq<Chunk>
    decreases |cs|
  {
    if |cs| == 0 then []
    else [cs[0]] + (if IsIhdr(cs[0]) then tcs else []) + Splice(cs[1..], tcs)
  }

  /** Deletes the `n` chunks that follow each `IHDR` chunk: the inverse of `Splice` with `n` text chunks. */
  function Strip(cs: seq<Chunk>, n: nat): seq<Chunk>
    decreases |cs|
  {
    if |cs| == 0 then []
    else if IsIhdr(cs[0]) && n < |cs| then [cs[0]] + Strip(cs[1 + n..], n)
    else [cs[0]] + Strip(cs[1..], n)
  }

  /** Deleting the injected chunks gives back exactly the original chunks, in order. */
  lemma {:induction false} StripSplice(cs: seq<Chunk>, tcs: seq<Chunk>)
    ensures Strip(Splice(cs, tcs), |tcs|) == cs
    decreases |cs|
  {
    if |cs| > 0 {
      var s := Splice(cs, tcs);
      StripSplice(cs[1..], tcs);
      if IsIhdr(cs[0]) {
        assert s == [cs[0]] + tcs + Splice(cs[1..], tcs);
        assert s[1 + |tcs|..] == Splice(cs[1..], tcs);
      } else {
        assert s == [cs[0]] + Splice(cs[1..], tcs);
        assert s[1..] == Splice(cs[1..], tcs);
      }
      assert cs == [cs[0]] + cs[1..];
    }
  }

  lemma {:induction false} SpliceAppend(a: seq<Chunk>, b: seq<Chunk>, tcs: seq<Chunk>)
    ensures Splice(a + b, tcs) == Splice(a, tcs) + Splice(b, tcs)
    decreases |a|
  {
    if |a| == 0 {
      assert a + b == b;
    } else {
      assert (a + b)[0] == a[0] && (a + b)[1..] == a[1..] + b;
      SpliceAppend(a[1..], b, tcs);
    }
  }

  /** Without an `IHDR` chunk nothing is inserted. */
  lemma {:induction false} SpliceWithoutHeader(cs: seq<Chunk>, tcs: seq<Chunk>)
    requires forall k :: 0 <= k < |cs| ==> !IsIhdr(cs[k])
    ensures Splice(cs, tcs) == cs
    decreases |cs|
  {
    if |cs| > 0 {
      SpliceWithoutHeader(cs[1..], tcs);
      assert cs == [cs[0]] + cs[1..];
    }
  }

  /** The text chunks sit immediately after an `IHDR` chunk, all of them and in entry order. */
  lemma SpliceAtHeader(cs: seq<Chunk>, h: nat, tcs: seq<Chunk>)
    requires h < |cs| && IsIhdr(cs[h])
    ensures Splice(cs, tcs) == Splice(cs[..h], tcs) + [cs[h]] + tcs + Splice(cs[h + 1..], tcs)
  {
    assert cs == cs[..h] + ([cs[h]] + cs[h + 1..]);
    SpliceAppend(cs[..h], [cs[h]] + cs[h + 1..], tcs);
    assert ([cs[h]] + cs[h + 1..])[1..] == cs[h + 1..];
  }

  /** The usual case of a single `IHDR`: the text chunks go right after it and nothing else moves. */
  lemma SpliceSingleHeader(cs: seq<Chunk>, h: nat, tcs: seq<Chunk>)
    requires h < |cs| && IsIhdr(cs[h])
    requires forall k :: 0 <= k < |cs| && k != h ==> !IsIhdr(cs[k])
    ensures Splice(cs, tcs) == cs[..h + 1] + tcs + cs[h + 1..]
  {
    SpliceAtHeader(cs, h, tcs);
    SpliceWithoutHeader(cs[..h], tcs);
    SpliceWithoutHeader(cs[h + 1..], tcs);
    assert cs[..h + 1] == cs[..h] + [cs[h]];
  }

  // ----- `buildTextChunk` -----

  /**
    One metadata entry. The source passes strings through `TextEncoder`;
    the model takes the UTF-8 bytes of key and value as given. Since UTF-8
    encodes a concatenation piecewise, the bytes of `${k}\0${v}` are the
    key's bytes, a zero byte and the value's bytes.
  */
  datatype Entry = Entry(key: seq<byte>, value: seq<byte>)

  /** The `tEXt` data: keyword, null separator, text. */
  function TextPayload(e: Entry): seq<byte>
  {
    e.key + [0] + e.value
  }

  function Zeros(n: nat): (r: seq<byte>)
    ensures |r| == n
  {
    seq(n, _ => 0)
  }

  /**
    `buildTextChunk(k, v)`: a zeroed buffer of `12 + len` bytes; the length
    written at 0, `tEXt` at 4, the payload at 8, then the CRC of bytes 4 to
    `8 + len` written after the payload. The result is laid out as length,
    type, data and the CRC-32 of type and data.
  */
  function BuildTextChunk(e: Entry): (c: Chunk)
    ensures var p := TextPayload(e);
      c == Be32Bytes(|p|) + TextType + p + Be32Bytes(Crc(TextType + p) as int)
  {
    var payload := TextPayload(e);
    var len := |payload|;
    var z := Zeros(8 + len + 4);
    var out0 := WriteUint32(z, 0, len);
    var out1 := SetBytes(out0, 4, TextType);
    assert out1 == Be32Bytes(len) + TextType + z[8..];
    var out2 := SetBytes(out1, 8, payload);
    assert out2 == Be32Bytes(len) + TextType + payload + z[8 + len..];
    assert out2[4..8 + len] == TextType + payload;
    var crc := Crc(out2[4..8 + len]);
    assert out2[..8 + len] == Be32Bytes(len) + TextType + payload;
    WriteUint32(out2, 8 + len, crc as int)
  }

  /** Slicing a laid-out chunk back into its fields. */
  lemma ChunkFields(c: seq<byte>, a: seq<byte>, t: seq<byte>, p: seq<byte>, z: seq<byte>)
    requires c == a + t + p + z && |a| == 4 && |t| == 4 && |z| == 4
    ensures c[0] == a[0] && c[1] == a[1] && c[2] == a[2] && c[3] == a[3]
    ensures c[4..8] == t && c[8..8 + |p|] == p && c[4..8 + |p|] == t + p
    ensures var n := 8 + |p|; c[n] == z[0] && c[n + 1] == z[1] && c[n + 2] == z[2] && c[n + 3] == z[3]
  {
    assert c[4..8] == t;
  }

  /**
    The fields of a built chunk: its length is 12 plus the payload's, the
    length field holds the payload length, the type is `tEXt`, the data is
    the payload, and the trailing field is the CRC-32 of type and data.
  */
  lemma BuiltChunkFields(e: Entry)
    ensures var c, p := BuildTextChunk(e), TextPayload(e);
      && |c| == 12 + |p|
      && Be32Value(c[0], c[1], c[2], c[3]) == |p| % Two32
      && c[4..8] == TextType
      && c[8..8 + |p|] == p
      && var n := 8 + |p|;
         Be32Value(c[n], c[n + 1], c[n + 2], c[n + 3]) == Crc(TextType + p) as int
  {
    var c, p := BuildTextChunk(e), TextPayload(e);
    var crc := Crc(TextType + p);
    ChunkFields(c, Be32Bytes(|p|), TextType, p, Be32Bytes(crc as int));
    Bv32AsInt(crc);
  }

  /** A built chunk declares its own length correctly as long as the payload stays below 2^31 bytes. */
  lemma BuiltChunkComplete(e: Entry)
    requires |TextPayload(e)| < Two31
    ensures Complete(BuildTextChunk(e))
  {
    var c := BuildTextChunk(e);
    BuiltChunkFields(e);
    ModSmall(|TextPayload(e)|);
  }

  /** Position of the first zero byte. */
  function FirstNul(p: seq<byte>): (j: nat)
    ensures j <= |p|
    ensures j < |p| ==> p[j] == 0
    ensures forall k :: 0 <= k < j ==> p[k] != 0
    decreases |p|
  {
    if |p| == 0 || p[0] == 0 then 0 else 1 + FirstNul(p[1..])
  }

  /** How a reader of section 11.3.4.3 splits `tEXt` data: keyword up to the first null, then the text. */
  function SplitText(p: seq<byte>): Option<Entry>
  {
    var j := FirstNul(p);
    if j == |p| then None else Some(Entry(p[..j], p[j + 1..]))
  }

  /** A reader of `tEXt` chunks: length, type and CRC checked, then the data split at the null. */
  function ReadTextChunk(c: Chunk): Option<Entry>
  {
    if !Complete(c) || c[4..8] != TextType then None
    else
      var n := |c| - 4;
      if Be32Value(c[n], c[n + 1], c[n + 2], c[n + 3]) != Crc(c[4..n]) as int then None
      else SplitText(c[8..n])
  }

  /** The data of a built chunk splits back into key and value when the key holds no zero byte. */
  lemma SplitPayload(e: Entry)
    requires forall k :: 0 <= k < |e.key| ==> e.key[k] != 0
    ensures SplitText(TextPayload(e)) == Some(e)
  {
    var p := TextPayload(e);
    assert FirstNul(p) == |e.key| by {
      assert p[|e.key|] == 0;
      forall k | 0 <= k < |e.key| ensures p[k] != 0 {
        assert p[k] == e.key[k];
      }
    }
    assert p[..|e.key|] == e.key && p[|e.key| + 1..] == e.value;
  }

  /** The bytes a reader checksums, and the data it splits, in a built chunk. */
  lemma BuiltChunkBody(e: Entry)
    ensures var c, p := BuildTextChunk(e), TextPayload(e);
      c[4..|c| - 4] == TextType + p && c[8..|c| - 4] == p
  {
    var c, p := BuildTextChunk(e), TextPayload(e);
    ChunkFields(c, Be32Bytes(|p|), TextType, p, Be32Bytes(Crc(TextType + p) as int));
  }

  /**
    A built chunk reads back as the entry it was built from, when the key
    holds no zero byte and the payload fits the signed length field.
  */
  lemma TextChunkRoundTrip(e: Entry)
    requires forall k :: 0 <= k < |e.key| ==> e.key[k] != 0
    requires |TextPayload(e)| < Two31
    ensures ReadTextChunk(BuildTextChunk(e)) == Some(e)
  {
    BuiltChunkFields(e);
    BuiltChunkComplete(e);
    BuiltChunkBody(e);
    SplitPayload(e);
  }

  /** The chunks for `entries`, one per entry, in entry order. */
  function TextChunks(entries: seq<Entry>): (tcs: seq<Chunk>)
    ensures |tcs| == |entries|
    ensures forall k :: 0 <= k < |entries| ==> tcs[k] == BuildTextChunk(entries[k])
  {
    seq(|entries|, k requires 0 <= k < |entries| => BuildTextChunk(entries[k]))
  }

  // ----- The metadata Snag writes -----

  /** The byte string of an ASCII string. */
  function Ascii(s: string): (b: seq<byte>)
    requires forall k :: 0 <= k < |s| ==> s[k] as int < 128
    ensures |b| == |s|
    ensures forall k :: 0 <= k < |s| ==> b[k] == s[k] as int
  {
    seq(|s|, k requires 0 <= k < |s| => s[k] as int)
  }

  /**
    The four entries `captureFullPage` writes, given the UTF-8 bytes of the
    page URL, the page title, the timestamp and the JSON manifest.
  */
  function SnagEntries(url: seq<byte>, title: seq<byte>, timestamp: seq<byte>, manifest: seq<byte>): (es: seq<Entry>)
    ensures |es| == 4
    ensures es[0].key == Ascii("CapturedURL") && es[0].value == url
    ensures es[1].key == Ascii("PageTitle") && es[1].value == title
    ensures es[2].key == Ascii("Timestamp") && es[2].value == timestamp
    ensures es[3].key == Ascii("SnagManifest") && es[3].value == manifest
  {
    [Entry(Ascii("CapturedURL"), url),
     Entry(Ascii("PageTitle"), title),
     Entry(Ascii("Timestamp"), timestamp),
     Entry(Ascii("SnagManifest"), manifest)]
  }

  /** Snag's keys hold no null byte, so every entry it writes reads back from its chunk. */
  lemma SnagEntriesReadBack(url: seq<byte>, title: seq<byte>, timestamp: seq<byte>, manifest: seq<byte>, k: nat)
    requires k < 4
    requires |url| < 0x1000_0000 && |title| < 0x1000_0000 && |timestamp| < 0x1000_0000 && |manifest| < 0x1000_0000
    ensures ReadTextChunk(TextChunks(SnagEntries(url, title, timestamp, manifest))[k])
         == Some(SnagEntries(url, title, timestamp, manifest)[k])
  {
    var es := SnagEntries(url, title, timestamp, manifest);
    TextChunkRoundTrip(es[k]);
  }

  // ----- `insertPNGTextChunk` -----

  /**
    The bytes `insertPNGTextChunk` hands to `uint8ToBase64`: the signature
    (or as much of it as there is), then every chunk with the chunks `tcs`
    spliced in after each `IHDR`.
  */
  function EmbedChunks(png: seq<byte>, tcs: seq<Chunk>): Result<seq<byte>, FormatError>
  {
    match ParseChunks(png, SignatureLength)
    case Err(e) => Err(e)
    case Ok(cs) => Ok(png[..Min(SignatureLength, |png|)] + Flatten(Splice(cs, tcs)))
  }

  /** The same, with one built text chunk per metadata entry. */
  function Embed(png: seq<byte>, entries: seq<Entry>): Result<seq<byte>, FormatError>
  {
    EmbedChunks(png, TextChunks(entries))
  }

  /**
    The output starts with the input's signature, and deleting the injected
    chunks gives back the input byte for byte.
  */
  lemma EmbedKeepsInput(png: seq<byte>, entries: seq<Entry>)
    requires ParseChunks(png, SignatureLength).Ok?
    ensures Embed(png, entries).Ok?
    ensures var m := Min(SignatureLength, |png|);
      Embed(png, entries).value[..m] == png[..m]
    ensures var cs := ParseChunks(png, SignatureLength).value;
      png == png[..Min(SignatureLength, |png|)] + Flatten(Strip(Splice(cs, TextChunks(entries)), |entries|))
  {
    var cs := ParseChunks(png, SignatureLength).value;
    ParseCovers(png, SignatureLength);
    StripSplice(cs, TextChunks(entries));
    var m := Min(SignatureLength, |png|);
    assert png == png[..m] + png[m..];
  }

  /** A stream without an `IHDR` chunk comes out unchanged. */
  lemma EmbedWithoutHeader(png: seq<byte>, entries: seq<Entry>)
    requires ParseChunks(png, SignatureLength).Ok?
    requires var cs := ParseChunks(png, SignatureLength).value;
      forall k :: 0 <= k < |cs| ==> !IsIhdr(cs[k])
    ensures Embed(png, entries) == Ok(png)
  {
    var cs := ParseChunks(png, SignatureLength).value;
    ParseCovers(png, SignatureLength);
    SpliceWithoutHeader(cs, TextChunks(entries));
    var m := Min(SignatureLength, |png|);
    assert png == png[..m] + png[m..];
  }

  /** The walk over a complete chunk at `i` takes exactly that chunk and goes on after it. */
  lemma ParseOne(png: seq<byte>, i: nat, c: Chunk)
    requires Complete(c) && i + |c| <= |png| && png[i..i + |c|] == c
    ensures ParseChunks(png, i) == Prepend([c], ParseChunks(png, i + |c|))
  {
    ReadUint32Prefix(png, i, i + |c|);
    CompleteLength(c);
    var end := i + |c|;
    if end >= |png| {
      assert png[i..] == c;
      assert ParseChunks(png, end) == Ok([]);
      assert [c] + [] == [c];
    }
  }

  /** Where the rest of a buffer is a list of chunks laid end to end, the first of them comes first. */
  lemma FlattenFront(png: seq<byte>, i: nat, cs: seq<Chunk>)
    requires i <= |png| && png[i..] == Flatten(cs) && |cs| > 0
    ensures i + |cs[0]| <= |png|
    ensures png[i..i + |cs[0]|] == cs[0]
    ensures png[i + |cs[0]|..] == Flatten(cs[1..])
  {
    var c := cs[0];
    assert png[i..] == c + Flatten(cs[1..]);
    assert png[i..][..|c|] == c;
    assert png[i..][|c|..] == Flatten(cs[1..]);
  }

  /** The walk over a complete first chunk followed by a walk that reads the rest. */
  lemma ParseOneThen(png: seq<byte>, i: nat, cs: seq<Chunk>)
    requires |cs| > 0 && Complete(cs[0]) && i + |cs[0]| <= |png| && png[i..i + |cs[0]|] == cs[0]
    requires ParseChunks(png, i + |cs[0]|) == Ok(cs[1..])
    ensures ParseChunks(png, i) == Ok(cs)
  {
    ParseOne(png, i, cs[0]);
    assert cs == [cs[0]] + cs[1..];
  }

  /** Complete chunks laid end to end are read back one for one. */
  lemma {:induction false} ParseFlatten(png: seq<byte>, i: nat, cs: seq<Chunk>)
    requires forall k :: 0 <= k < |cs| ==> Complete(cs[k])
    requires i <= |png| && png[i..] == Flatten(cs)
    ensures ParseChunks(png, i) == Ok(cs)
    decreases |cs|
  {
    if |cs| == 0 {
      assert |png[i..]| == 0;
    } else {
      FlattenFront(png, i, cs);
      ParseFlatten(png, i + |cs[0]|, cs[1..]);
      ParseOneThen(png, i, cs);
    }
  }

  /** Every chunk of the spliced list is a chunk of the input or an injected one. */
  lemma {:induction false} SpliceFrom(cs: seq<Chunk>, tcs: seq<Chunk>, k: nat)
    requires k < |Splice(cs, tcs)|
    ensures Splice(cs, tcs)[k] in cs || Splice(cs, tcs)[k] in tcs
    decreases |cs|
  {
    var s := Splice(cs, tcs);
    var head := [cs[0]] + (if IsIhdr(cs[0]) then tcs else []);
    assert s == head + Splice(cs[1..], tcs);
    if k >= |head| {
      SpliceFrom(cs[1..], tcs, k - |head|);
      assert s[k] == Splice(cs[1..], tcs)[k - |head|];
    }
  }

  /**
    When the input's chunks are all complete and every payload fits the
    length field, the output is again a chunk stream, and it reads back as
    the input's chunks with the text chunks spliced in.
  */
  lemma EmbedReparses(png: seq<byte>, entries: seq<Entry>)
    requires |png| >= SignatureLength
    requires ParseChunks(png, SignatureLength).Ok?
    requires var cs := ParseChunks(png, SignatureLength).value;
      forall k :: 0 <= k < |cs| ==> Complete(cs[k])
    requires forall k :: 0 <= k < |entries| ==> |TextPayload(entries[k])| < Two31
    ensures Embed(png, entries).Ok?
    ensures var cs := ParseChunks(png, SignatureLength).value;
      ParseChunks(Embed(png, entries).value, SignatureLength) == Ok(Splice(cs, TextChunks(entries)))
  {
    var cs := ParseChunks(png, SignatureLength).value;
    var tcs := TextChunks(entries);
    var s := Splice(cs, tcs);
    forall k | 0 <= k < |s| ensures Complete(s[k]) {
      SpliceFrom(cs, tcs, k);
      if s[k] in tcs {
        var j :| 0 <= j < |tcs| && tcs[j] == s[k];
        BuiltChunkComplete(entries[j]);
      }
    }
    var out := png[..SignatureLength] + Flatten(s);
    assert out[SignatureLength..] == Flatten(s);
    ParseFlatten(out, SignatureLength, s);
  }

  // ----- The loop of `insertPNGTextChunk` -----

  /** `done` in front of the chunks of a successful walk; an error passes through. */
  function Prepend(done: seq<Chunk>, r: Result<seq<Chunk>, FormatError>): Result<seq<Chunk>, FormatError>
  {
    match r
    case Err(e) => Err(e)
    case Ok(cs) => Ok(done + cs)
  }

  /** One step of the walk at a chunk with a non-negative length: that chunk, cut at the end of the buffer, joins `done`. */
  lemma ParseStep(png: seq<byte>, i: nat, end: nat, chunk: Chunk, done: seq<Chunk>)
    requires i < |png| && ReadUint32(png, i) >= 0 && end == i + 12 + ReadUint32(png, i)
    requires chunk == png[i..Min(end, |png|)]
    ensures Prepend(done, ParseChunks(png, i)) == Prepend(done + [chunk], ParseChunks(png, end))
  {
    if end >= |png| {
      ParseLast(png, i);
      assert chunk == png[i..];
      assert done + [chunk] + [] == done + [chunk];
    } else {
      ParseNext(png, i);
      match ParseChunks(png, end)
      case Err(e) =>
      case Ok(rest) =>
        assert done + ([chunk] + rest) == (done + [chunk]) + rest;
    }
  }

  /** Walking one more chunk appends that chunk, and after an `IHDR` the text chunks, to the spliced bytes. */
  lemma SpliceSnoc(done: seq<Chunk>, chunk: Chunk, tcs: seq<Chunk>)
    ensures Flatten(Splice(done + [chunk], tcs))
         == Flatten(Splice(done, tcs)) + chunk + (if IsIhdr(chunk) then Flatten(tcs) else [])
  {
    SpliceAppend(done, [chunk], tcs);
    FlattenAppend(Splice(done, tcs), Splice([chunk], tcs));
    if IsIhdr(chunk) {
      assert Splice([chunk], tcs) == [chunk] + tcs;
      FlattenAppend([chunk], tcs);
    } else {
      assert Splice([chunk], tcs) == [chunk];
    }
  }

  lemma FlattenSnoc(cs: seq<Chunk>, k: nat)
    requires k < |cs|
    ensures Flatten(cs[..k + 1]) == Flatten(cs[..k]) + cs[k]
  {
    FlattenAppend(cs[..k], [cs[k]]);
    assert cs[..k + 1] == cs[..k] + [cs[k]];
    assert Flatten([cs[k]]) == cs[k] + [];
  }

  /** The copy after one more chunk, and after an `IHDR` the text chunks. */
  lemma CopyStep(prefix: seq<byte>, out: seq<byte>, done: seq<Chunk>, chunk: Chunk, tcs: seq<Chunk>)
    requires out == prefix + Flatten(Splice(done, tcs))
    ensures out + chunk + (if IsIhdr(chunk) then Flatten(tcs) else []) == prefix + Flatten(Splice(done + [chunk], tcs))
  {
    SpliceSnoc(done, chunk, tcs);
  }

  /** The inner `for` loop: every chunk of `cs` pushed, in order. */
  method PushChunks(out: seq<byte>, cs: seq<Chunk>) returns (r: seq<byte>)
    ensures r == out + Flatten(cs)
  {
    r := out;
    var k := 0;
    while k < |cs|
      invariant 0 <= k <= |cs|
      invariant r == out + Flatten(cs[..k])
    {
      FlattenSnoc(cs, k);
      r := r + cs[k];
      k := k + 1;
    }
    assert cs[..k] == cs;
  }

  /**
    The `while` loop of `insertPNGTextChunk`: copy the signature, then chunk
    by chunk copy `slice(i, end)` and, after an `IHDR`, push the text chunks
    `tcs`. The walk stops with an error at a negative length.
  */
  method CopyChunks(png: seq<byte>, tcs: seq<Chunk>) returns (r: Result<seq<byte>, FormatError>)
    ensures r == EmbedChunks(png, tcs)
  {
    ghost var whole := ParseChunks(png, SignatureLength);
    var out := png[..Min(SignatureLength, |png|)];
    ghost var prefix := out;
    var i: nat := SignatureLength;
    ghost var done: seq<Chunk> := [];
    assert Prepend(done, ParseChunks(png, i)) == whole by {
      match ParseChunks(png, i)
      case Err(e) =>
      case Ok(cs) => assert [] + cs == cs;
    }
    while i < |png|
      invariant Prepend(done, ParseChunks(png, i)) == whole
      invariant out == prefix + Flatten(Splice(done, tcs))
      decreases |png| - i
    {
      var len := ReadUint32(png, i);
      if len < 0 {
        assert whole == Err(NegativeLength(i));
        return Err(NegativeLength(i));
      }
      var ty := ReadString(png, i + 4, 4);
      var end := i + 12 + len;
      var chunk := png[i..Min(end, |png|)];
      ParseStep(png, i, end, chunk, done);
      ChunkType(png, i, Min(end, |png|));
      CopyStep(prefix, out, done, chunk, tcs);
      out := out + chunk;
      if ty == "IHDR" {
        out := PushChunks(out, tcs);
      }
      done := done + [chunk];
      i := end;
    }
    assert whole == Ok(done + []);
    assert done + [] == done;
    r := Ok(out);
  }

  /**
    `insertPNGTextChunk(pngBytes, entries)`: the walk with one built text
    chunk per entry after each `IHDR`, then base64. The source rebuilds the
    chunks at every `IHDR`; `buildTextChunk` depends on the entry alone, so
    building them once gives the same bytes. Whenever the walk succeeds the
    result decodes to `Embed`'s bytes.
  */
  method InsertPngTextChunk(png: seq<byte>, entries: seq<Entry>) returns (r: Result<string, FormatError>)
    ensures Embed(png, entries).Err? ==> r == Err(Embed(png, entries).error)
    ensures Embed(png, entries).Ok? ==> r.Ok? && Decode(r.value) == Some(Embed(png, entries).value)
  {
    var tcs := TextChunks(entries);
    var bytes := CopyChunks(png, tcs);
    if bytes.Err? {
      return Err(bytes.error);
    }
    var encoded := Uint8ToBase64(bytes.value);
    r := Ok(encoded);
  }
}
