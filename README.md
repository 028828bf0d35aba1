# Verified model of the paper-texture PNG encoder

`generate_texture.js` writes a 100 by 100 RGBA texture as a PNG file with a
hand-written encoder. This project models that encoder's byte-level core in
Dafny and proves properties of it:

- **Big-endian fields** (`Bytes`): the four-byte big-endian encoding used for chunk lengths, CRCs and the IHDR width and height. Also the in-place write of such a field into a buffer.
- **CRC-32** (`Crc32`): the reflected CRC-32 with polynomial 0xEDB88320, preset and final XOR 0xFFFFFFFF, as PNG uses it (section 3.4 of RFC 2083).
  - The encoder's routine is modelled as methods: a nested loop builds the 256-entry table, then a loop folds the bytes. These methods are proved equal to a functional specification.
  - That specification is in turn proved equal to an independent bit-at-a-time reference definition that uses no table.
- **Chunks** (`Chunks`): the chunk serialiser, which writes a length, a type, the data and a CRC over type and data (section 3.2 of RFC 2083).
  - A small chunk parser is the serialiser's partner. Round trips are proved in both directions.
- **Raw image data** (`Raster`): the scanline buffer the encoder fills in place. Each row is filter type None followed by four bytes per pixel.
  - The fill is a method over an array, proved to produce the specified layout.
  - Layout lemmas show that every row start holds the filter byte, that every pixel channel is in bounds at its offset, that no two channels share an offset, and that every byte is written.
  - The channel clamp and the range of the texture's colours are modelled on integers.
- **Stream** (`Png`): the 13-byte IHDR payload, written in place; the signature; and the IHDR, IDAT and IEND chunks in that order.
  - A stream parser is the partner. Round trips are proved in both directions.
  - Known answers: the default 100 by 100 header, and the fixed IEND chunk.
  - `Generate` runs the encoder end to end. The pixel colours and the DEFLATE compressor are parameters.

## Model

| member | source | states |
|---|---|---|
| Bytes.BeU32 | generate_texture.js:28 | The big-endian encoding of a value below 2^32 is four bytes that read back as that value. |
| Bytes.BeU32OfRead | generate_texture.js:28 | Every four bytes are the encoding of the value they read as, so the encoding is a bijection onto four-byte sequences. |
| Bytes.ReadBeU32Injective | generate_texture.js:31 | Two four-byte fields with the same big-endian value are the same bytes. |
| Bytes.WriteBeU32 | generate_texture.js:37-38 | Writing a 32-bit field at an offset puts its big-endian bytes there and leaves every other byte of the buffer unchanged. |
| Crc32.BuildTable | generate_texture.js:16-21 | The table has 256 entries, and entry i is i put through eight steps of shift right, XOR-ing in 0xEDB88320 when the low bit was set. |
| Crc32.Step | generate_texture.js:22 | One loop iteration reads the table slot for the low byte of register XOR input byte, and computes the specified byte update. |
| Crc32.Compute | generate_texture.js:14-24 | The encoder's CRC routine returns the fold of the byte updates from 0xFFFFFFFF over the buffer, complemented. |
| Crc32.Checksum | generate_texture.js:15-23 | The CRC of the empty buffer is 0. |
| Crc32.FoldAppend | generate_texture.js:22 | Folding over a concatenation is folding over the second part from the register the first part left. |
| Crc32.BitStepsLinear | generate_texture.js:19 | The bit steps distribute over XOR. The register is linear over GF(2). |
| Crc32.UpdateIsBitwise | generate_texture.js:19-22 | The table-driven update by one byte equals XOR-ing the byte into the register and taking eight bit steps. |
| Crc32.ChecksumIsReference | generate_texture.js:14-24 | The table-driven checksum equals the bit-at-a-time CRC-32 for every buffer. |
| Chunks.MakeChunk | generate_texture.js:26-33 | The chunk has 4 + type + data + 4 bytes: the big-endian data length, then the type, then the data, then the big-endian CRC of type and data. |
| Chunks.ParseMakeChunk | generate_texture.js:26-33 | A chunk with a four-byte type parses back to its type and data, passes the CRC check, and leaves exactly the bytes that follow it. |
| Chunks.MakeParsedChunk | generate_texture.js:26-33 | Whatever parses as a chunk is exactly the serialisation of the parsed type and data, followed by the rest. |
| Chunks.MakeChunkInjective | generate_texture.js:26-33 | Distinct four-byte types or data give distinct chunk bytes. |
| Chunks.EmitChunk | generate_texture.js:26-33 | The serialiser as the encoder runs it, with the table-driven CRC routine, produces the specified chunk. |
| Raster.Fill | generate_texture.js:46-64 | The filled buffer is exactly the specified scanlines of `height` rows: each row's filter byte, then its pixels left to right, rows top to bottom. |
| Raster.FillRow | generate_texture.js:48-63 | One pass of the row loop writes that row's filter byte and pixels after the rows already written, leaves those rows as they were, and leaves every byte after the row unchanged. |
| Raster.WritePixel | generate_texture.js:59-62 | The four channel writes put R, G, B, A at the offset and leave every other byte of the buffer unchanged. |
| Raster.ScanlinesLength | generate_texture.js:46 | The data of `rows` scanlines is rows × (1 + 4 × width) bytes long. |
| Raster.FilterByteAt | generate_texture.js:48-49 | The byte at every row start y × (1 + 4 × width) is filter type 0. |
| Raster.PixelByteAt | generate_texture.js:51-62 | Channel k of pixel (x, y) is inside the buffer at row start + 1 + 4x + k and holds that channel's value. |
| Raster.OffsetInjective | generate_texture.js:48-51 | Distinct (row, column, channel) triples are written at distinct offsets, and no channel offset is a row start. |
| Raster.OffsetCovers | generate_texture.js:46-51 | Every position of the buffer is a row start or the offset of some channel of some pixel, so no byte is left unwritten. |
| Raster.Clamp | generate_texture.js:55-57 | The clamp lies in [0, 255]. It is the identity on that range, 0 below it and 255 above it. |
| Raster.PaperPixel | generate_texture.js:53-58 | Red lies in [241, 255] and is 255 exactly when its jitter is 6 or 7. Green is 244 + jitter and blue is 232 + jitter, within range and never clamped. Alpha is the drawn value. |
| Png.IhdrPayload | generate_texture.js:36 | The IHDR payload is 13 bytes. |
| Png.WriteIhdr | generate_texture.js:36-43 | Filling the zeroed 13-byte buffer field by field gives width and height big-endian, then bit depth 8, colour type 6 and methods 0, 0, 0. |
| Png.ParseIhdrPayload | generate_texture.js:36-43 | The IHDR payload reads back to its width and height and the fixed fields. |
| Png.IhdrOfParsed | generate_texture.js:36-43 | An IHDR payload whose one-byte fields are the encoder's is exactly the payload the encoder writes for its width and height. |
| Png.TextureHeader | generate_texture.js:36-43 | The default run's header reads as 100 by 100, bit depth 8, colour type 6, methods 0. |
| Png.EncodePng | generate_texture.js:67-71 | The stream is 8 + 25 + (12 + compressed) + 12 bytes and starts with 137 80 78 71 13 10 26 10. |
| Png.ParseEncodePng | generate_texture.js:67-71 | The stream parses as signature, IHDR, IDAT and IEND, with nothing after them, and gives back the header and the compressed data. |
| Png.EncodeParsedPng | generate_texture.js:67-71 | Every stream the parser accepts is exactly the encoder's output for the header and data it parses to. |
| Png.IendCrc | generate_texture.js:14-24 | The CRC of the type "IEND" is 0xAE426082. |
| Png.IendChunkBytes | generate_texture.js:69 | The IEND chunk is the twelve bytes 0 0 0 0 73 69 78 68 0xAE 0x42 0x60 0x82. |
| Png.Generate | generate_texture.js:36-71 | Filling the scanlines, compressing them, building the IDAT, IHDR and IEND chunks and concatenating them after the signature gives exactly the specified stream. |

## Left out

- DEFLATE (`zlib.deflateSync`, generate_texture.js:66) is a library call. `Png.Generate` takes the compressor as a function parameter, and the IDAT payload is an arbitrary byte sequence.
- The random sample and the floating-point channel formulas (generate_texture.js:53-58) are not modelled. `Raster.Fill` and `Png.Generate` take the pixel colours as a function of (x, y).
- Raster.PaperPixel: takes the integer jitters of red, green and blue and the alpha value as independent inputs within their ranges. It does not model that all four derive from one shared random sample, nor the floor of the floating-point products that produces them.
- File-system and console output (generate_texture.js:73-77) is not modelled.
- The fixed size 100 by 100 (generate_texture.js:9) is a parameter of `Raster.Fill`, `Png.WriteIhdr` and `Png.Generate`. `Png.TextureHeader` states the default.
- Buffer allocation and concatenation are modelled by their byte-sequence meaning. `Buffer.concat` is sequence concatenation, and `Buffer.alloc` is an array initialised to zeros.
- The range error the big-endian write raises for values of 2^32 or more is a precondition (`v < U32Limit`), as is the width, height and compressed length that reach it.
- The encoder does not check that the width and height are positive or that the raw data has the expected length. The model does not check either, and a zero width or height gives the stream the code would write.
- JavaScript keeps the CRC table entries and the running register as signed 32-bit integers, and only the final unsigned shift makes the result unsigned. The model uses `bv32` throughout, which has the same bit patterns, and returns the unsigned value.
