# Snag: full-page capture geometry and PNG `tEXt` metadata injection

Snag is a browser extension that captures a whole web page as one PNG. It
scrolls the page one viewport at a time and captures each viewport. It
stitches the captures top to bottom onto one canvas. It then embeds
metadata (URL, title, timestamp, a JSON manifest) as PNG `tEXt` chunks and
hands the result on as base64.

This project models the pure core of `snag/background.js` in Dafny and
proves properties of it:

- `bytes.dfy` (module `Bytes`): `readUint32`, `writeUint32` and
  `readString`, with JavaScript's semantics written out. `<<`/`|` give a
  signed 32-bit result. `>>>` takes the value modulo 2^32. Typed arrays
  drop writes past their end and read `undefined` (which bit operators
  treat as 0) there.
- `crc32.dfy` (module `Crc32`): `crcTable` and `crc32`, the table-driven
  reflected CRC-32 with polynomial 0xEDB88320 that section 5.5 of the PNG
  specification (ISO/IEC 15948) prescribes. The register is a `bv32`.
- `base64.dfy` (module `Base64`): `uint8ToBase64`. This is the slice loop
  over `String.fromCharCode` followed by `btoa`, whose output is the base64
  of section 4 of RFC 4648. A strict decoder serves as the encoder's
  inverse.
- `png_text.dfy` (module `PngText`): `buildTextChunk` and
  `insertPNGTextChunk`. The chunk walk is modelled as the function
  `ParseChunks`, using the source's own arithmetic. The splice of the text
  chunks after each `IHDR` chunk is `Splice`. A reader of `tEXt` chunks is
  the partner of `buildTextChunk`.
- `full_page.dfy` (module `FullPage`): the segment count
  `Math.ceil(totalHeight / viewportHeight)` and the scroll offsets
  `i * viewportHeight`. The stitch step covers the canvas size and the
  `drawImage` offsets.
- `results.dfy` (module `Results`): `Option` and `Result`.

## Model

| member | source | states |
|---|---|---|
| Bytes.ToInt32 | snag/background.js:164-169 | The 32-bit result of the shifts and bitwise or lies in [-2^31, 2^31). It equals the unsigned value or that value minus 2^32. It is non-negative exactly when the value is below 2^31. |
| Bytes.ReadUint32Signed | snag/background.js:164-169 | `readUint32` reads the four bytes at the offset most significant first and returns them as a signed 32-bit number. It is negative exactly when the first byte is 128 or more. Bytes past the end count as 0. |
| Bytes.ReadUint32Exact | snag/background.js:164-169 | When the four bytes encode a value below 2^31, `readUint32` returns exactly that value. |
| Bytes.ReadUint32Inside | snag/background.js:164-169 | Inside the buffer, `readUint32` is the signed reading of the four stored bytes. |
| Bytes.Be32Bytes | snag/background.js:157-162 | The four bytes `writeUint32` stores are the big-endian digits of the value modulo 2^32. |
| Bytes.WriteUint32 | snag/background.js:157-162 | The buffer keeps its length. When the write fits, the result is the old prefix, then the four value bytes, then the old suffix. When it runs past the end, every byte before the offset is unchanged. |
| Bytes.ReadAfterWrite | snag/background.js:157-169 | Reading back a written value gives the value modulo 2^32 as a signed 32-bit number. Any value in [0, 2^31) comes back exactly. |
| Bytes.SetBytes | snag/background.js:150-151 | `out.set(src, o)` puts `src` at `o` and leaves the bytes before and after it unchanged. |
| Bytes.ReadString | snag/background.js:171-173 | `readString` is one character per byte of the clamped slice. Its length is the clamped slice's length. Within bounds it is exactly the bytes at `o`..`o+n`. |
| Bytes.Latin1RoundTrip | snag/background.js:171-173 | `String.fromCharCode` on bytes loses nothing: taking the character codes back gives the bytes. |
| Bytes.Latin1Append | snag/background.js:177-179 | Converting slice by slice and concatenating equals converting the whole buffer. |
| Crc32.BuildCrcTable | snag/background.js:191-201 | The table has 256 entries. Entry `n` is `n` run through eight rounds of the shift-and-xor step. |
| Crc32.ComputeCrc | snag/background.js:183-189 | The loop of `crc32` computes the fold of the table step over the buffer, from all ones, complemented. |
| Crc32.RegisterAppend | snag/background.js:183-189 | The register over a concatenation is the register over the second part, started from the register over the first. |
| Crc32.IendCrc | snag/background.js:183-201 | The checksum of the chunk type `IEND` is 0xAE426082, the value found in every PNG file. |
| Crc32.KnownValues | snag/background.js:183-201 | The empty input has checksum 0. Table entries 0, 1, 128 and 255 have their standard values. |
| Base64.Btoa | snag/background.js:180 | `btoa` succeeds exactly when every code unit is below 256. On success its output decodes to those code units as bytes. |
| Base64.DecodeEncode | snag/background.js:180 | Decoding the base64 of any byte string gives back that byte string. |
| Base64.EncodeDecode | snag/background.js:180 | Every string the strict decoder accepts is the base64 of what it decodes to, so the encoding is a bijection. |
| Base64.EncodeInSlices | snag/background.js:175-181 | For any slice size of at least 1, the slice loop succeeds and gives the base64 of the whole buffer. |
| Base64.Uint8ToBase64 | snag/background.js:175-181 | With slices of 0x8000, `uint8ToBase64` returns base64 text that decodes to its input. |
| PngText.ParseErrorAt | snag/background.js:129-134 | The walk fails only at an offset inside the buffer whose byte has its top bit set, so the length read there is negative. |
| PngText.ParseCovers | snag/background.js:129-134 | The chunks the walk delimits cover the rest of the buffer exactly, in order, with no byte lost or repeated. |
| PngText.ParseComplete | snag/background.js:129-134 | Every chunk except the last is as long as its length field declares. |
| PngText.LastChunkComplete | snag/background.js:131-133 | A chunk whose declared end reaches the end of the buffer is copied whole as the last chunk. It is complete exactly when its declared end is the buffer's end, so a truncated input is recognisable from the walk. |
| PngText.ChunkType | snag/background.js:131-133 | The type read at `i + 4` is the type field of the chunk the loop copies. |
| PngText.ParseFlatten | snag/background.js:129-134 | Chunks that declare their lengths correctly, laid end to end, are walked back as exactly those chunks. |
| PngText.StripSplice | snag/background.js:135-139 | Deleting the chunks inserted after each `IHDR` gives back the original chunks. |
| PngText.SpliceWithoutHeader | snag/background.js:135-139 | Without an `IHDR` chunk nothing is inserted. |
| PngText.SpliceAtHeader | snag/background.js:135-139 | At each `IHDR` chunk, all text chunks follow it immediately, in entry order. |
| PngText.SpliceSingleHeader | snag/background.js:135-139 | With a single `IHDR`, the text chunks sit right after it and every other chunk keeps its order. |
| PngText.BuildTextChunk | snag/background.js:144-155 | The built chunk is the length, then `tEXt`, then key, NUL and value, then the CRC-32 of type and data, each field big-endian. |
| PngText.BuiltChunkFields | snag/background.js:144-155 | A built chunk is 12 bytes longer than its data. Its length field holds the data length modulo 2^32, its type is `tEXt`, and its last field is the CRC of type and data. |
| PngText.BuiltChunkComplete | snag/background.js:144-155 | A built chunk with data below 2^31 bytes declares its own length correctly. |
| PngText.TextChunkRoundTrip | snag/background.js:144-155 | A `tEXt` reader that checks length, type and CRC reads a built chunk back as its entry, provided the key holds no NUL. |
| PngText.SnagEntries | snag/background.js:89-94 | Snag writes four entries, in this order: `CapturedURL` with the URL, `PageTitle` with the title, `Timestamp` with the timestamp and `SnagManifest` with the manifest. |
| PngText.SnagEntriesReadBack | snag/background.js:89-94 | Each of the four chunks Snag writes reads back as its entry. |
| PngText.EmbedKeepsInput | snag/background.js:125-142 | The output starts with the input's signature. Deleting the inserted chunks gives back the input byte for byte. |
| PngText.EmbedWithoutHeader | snag/background.js:125-142 | An input without an `IHDR` chunk comes out unchanged. |
| PngText.EmbedReparses | snag/background.js:125-142 | When the input's chunks are well formed, the output walks as the input's chunks with the text chunks spliced in. |
| PngText.PushChunks | snag/background.js:136-138 | The inner loop appends the chunks in order and nothing else. |
| PngText.CopyChunks | snag/background.js:126-140 | The `while` loop produces the signature followed by the walked chunks with the text chunks spliced in. Where the walk fails, it fails at the same offset. |
| PngText.InsertPngTextChunk | snag/background.js:125-142 | A successful walk yields base64 that decodes to the spliced bytes. A failed walk yields the walk's error. |
| FullPage.SegmentCount | snag/background.js:37 | For a positive viewport, the count times the viewport reaches the page height and one fewer does not. The count is 0 exactly for an empty page. A zero viewport under a non-empty page gives no finite bound. |
| FullPage.SegmentCountLeast | snag/background.js:37 | No smaller count of viewports covers the page. |
| FullPage.ScrollPositions | snag/background.js:42-43 | The first capture scrolls to 0. Each later one scrolls exactly one viewport below the previous one. |
| FullPage.PositionsIncreasing | snag/background.js:42-43 | With a positive viewport, scroll targets strictly increase. |
| FullPage.PositionsInside | snag/background.js:37-43 | Every scroll target lies inside the page. |
| FullPage.PositionsCover | snag/background.js:37-43 | Every row of the page lies in the viewport of exactly one capture, capture number `y / viewport`. |
| FullPage.ExampleSegments | snag/background.js:37-43 | A 2500-pixel page in a 1000-pixel viewport takes three captures, at 0, 1000 and 2000. |
| FullPage.Stitch | snag/background.js:64-76 | Fails exactly when there are no captures. Otherwise the canvas has the first capture's width and the sum of the heights, and capture `k` is drawn at x 0 and y equal to the sum of the heights before it. |
| FullPage.OffsetsStep | snag/background.js:72-76 | Each capture is drawn where the previous one ends. |
| FullPage.OffsetsDisjoint | snag/background.js:72-76 | Captures drawn earlier end before later ones start, so no two overlap on the canvas. |
| FullPage.OffsetsFill | snag/background.js:67-76 | The last capture ends exactly at the canvas's bottom edge. |
| FullPage.UniformHeights | snag/background.js:67 | Captures of one viewport height each stitch to a canvas of count times viewport pixels. |

## Left out

- Browser I/O is not modelled, because it has no pure meaning to prove. This covers the Chrome APIs (`executeScript`, `captureVisibleTab`, downloads), `fetch` and blobs, `createImageBitmap`, `OffscreenCanvas` drawing and `convertToBlob`. It also covers the clipboard, console logging, the listeners (lines 1-12), the 400 ms settle delay and the scroll restore in `finally`.
- Image pixels are not modelled. A capture is its width and height, and stitching is the canvas size and the offsets it draws at.
- The file name and timestamp formatting (lines 15-17) and `JSON.stringify` of the manifest are left out. The manifest's bytes are a parameter of `PngText.SnagEntries`.
- `TextEncoder` is not modelled. An entry's key and value are given as their UTF-8 bytes. UTF-8 encodes a concatenation piecewise, so the bytes of `${k}\0${v}` are the key bytes, a zero byte and the value bytes.
- The spread-argument limit of `chunks.push(...slice)` on very large slices is not modelled, because it depends on the JavaScript engine.
- package-extension.js is not part of this model.
- FullPage.SegmentCount: computes the ceiling of the exact quotient, not of the floating-point quotient `Math.ceil` sees. The two agree for page and viewport heights of realistic size.
- PngText.CopyChunks: the source keeps going after a length with its top bit set. It steps backwards, stalls, or steps forward by fewer than 12 bytes. The model stops there with `NegativeLength` instead, so its result for such inputs is weaker than a full description of the source's behaviour.
- PngText.InsertPngTextChunk: builds the text chunks once rather than again at every `IHDR`. `buildTextChunk` depends only on the entry, so the bytes are the same. Inputs with a negative length field report `NegativeLength`, as in `PngText.CopyChunks`.
- PngText.TextChunkRoundTrip: requires a key without NUL bytes and data below 2^31 bytes. The source checks neither. The keyword rules of section 11.3.4.3 of the PNG specification (1 to 79 Latin-1 characters) are not checked by the source and are not modelled.
- PngText.SnagEntriesReadBack: assumes URL, title, timestamp and manifest each stay below 2^28 bytes, so that every payload fits the length field.
- PngText.BuiltChunkComplete: a payload of 2^31 bytes or more makes the length field unreadable by the signed `readUint32`. That case is excluded instead of modelled.
- Truncated input is copied as the source copies it, not rejected. When the last length field points past the end of the buffer, the walk takes the remaining bytes as the last chunk (`PngText.LastChunkComplete` says when that chunk is cut short), and no format error is raised.
- FullPage.Stitch: image widths are not compared, as in the source. The canvas takes the first capture's width.
