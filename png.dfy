/**
 * The PNG stream the texture generator writes: the eight-byte signature
 * (section 3.1 of RFC 2083), then an IHDR chunk (section 4.1.1), one IDAT
 * chunk holding the compressed scanlines, and an empty IEND chunk.
 * `ParsePng` reads such a stream back; the round trips against `EncodePng`
 * are proved in both directions.
 */
module Png {
  import opened Bytes
  import opened Crc32
  import opened Chunks
  import opened Raster

  const Signature: seq<byte> := [137, 80, 78, 71, 13, 10, 26, 10]

  /** The chunk types "IHDR", "IDAT" and "IEND" in ASCII. */
  const IhdrType: seq<byte> := [73, 72, 68, 82]
  const IdatType: seq<byte> := [73, 68, 65, 84]
  const IendType: seq<byte> := [73, 69, 78, 68]

  /** The size of the texture the generator writes. */
  const TextureWidth: nat := 100
  const TextureHeight: nat := 100

  /** IHDR fields after width and height: 8 bits per channel, RGBA, deflate, adaptive filtering, no interlace. */
  const BitDepth: byte := 8
  const ColorTypeRgba: byte := 6
  const CompressionDeflate: byte := 0
  const FilterMethodAdaptive: byte := 0
  const InterlaceNone: byte := 0

  const IhdrLength: nat := 13

  datatype Header = Header(
    width: nat, height: nat,
    bitDepth: byte, colorType: byte, compression: byte, filterMethod: byte, interlace: byte)

  datatype PngError =
    | BadSignature
    | BadChunk(error: ChunkError)
    | UnexpectedChunk(kind: seq<byte>)
    | BadHeaderLength
    | UnsupportedHeader
    | TrailingBytes

  /** The 13-byte IHDR payload: width and height big-endian, then the five one-byte fields. */
  function IhdrPayload(width: nat, height: nat): (r: seq<byte>)
    requires width < U32Limit && height < U32Limit
    ensures |r| == IhdrLength
  {
    BeU32(width) + BeU32(height) + [BitDepth, ColorTypeRgba, CompressionDeflate, FilterMethodAdaptive, InterlaceNone]
  }

  /** Reads an IHDR payload field by field. */
  function ParseIhdr(payload: seq<byte>): (r: Result<Header, PngError>)
    ensures r.Ok? <==> |payload| == IhdrLength
  {
    if |payload| != IhdrLength then Err(BadHeaderLength)
    else Ok(Header(ReadBeU32(payload[..4]), ReadBeU32(payload[4..8]),
                   payload[8], payload[9], payload[10], payload[11], payload[12]))
  }

  /** The header this encoder writes for a `width` by `height` image. */
  function EncoderHeader(width: nat, height: nat): Header {
    Header(width, height, BitDepth, ColorTypeRgba, CompressionDeflate, FilterMethodAdaptive, InterlaceNone)
  }

  /** The IHDR payload parses back to the width, height and fixed fields it was written with. */
  lemma ParseIhdrPayload(width: nat, height: nat)
    requires width < U32Limit && height < U32Limit
    ensures ParseIhdr(IhdrPayload(width, height)) == Ok(EncoderHeader(width, height))
  {
    var p := IhdrPayload(width, height);
    assert p[..4] == BeU32(width);
    assert p[4..8] == BeU32(height);
  }

  /** An IHDR payload whose one-byte fields are the encoder's is the payload the encoder writes. */
  lemma IhdrOfParsed(payload: seq<byte>)
    requires ParseIhdr(payload).Ok?
    requires var h := ParseIhdr(payload).value; h == EncoderHeader(h.width, h.height)
    ensures var h := ParseIhdr(payload).value; payload == IhdrPayload(h.width, h.height)
  {
    BeU32OfRead(payload[..4]);
    BeU32OfRead(payload[4..8]);
    assert payload == payload[..4] + payload[4..8] + payload[8..];
  }

  /** The default run's IHDR reads back as 100 by 100, bit depth 8, colour type 6, methods 0. */
  lemma TextureHeader()
    ensures ParseIhdr(IhdrPayload(TextureWidth, TextureHeight)) == Ok(Header(100, 100, 8, 6, 0, 0, 0))
  {
    ParseIhdrPayload(TextureWidth, TextureHeight);
  }

  /** Fills the IHDR buffer as the generator does: a zeroed 13-byte buffer written field by field. */
  method WriteIhdr(width: nat, height: nat) returns (ihdr: array<byte>)
    requires width < U32Limit && height < U32Limit
    ensures fresh(ihdr)
    ensures ihdr[..] == IhdrPayload(width, height)
  {
    ihdr := new byte[IhdrLength](_ => 0);
    WriteBeU32(ihdr, width, 0);
    WriteBeU32(ihdr, height, 4);
    ihdr[8] := BitDepth;
    ihdr[9] := ColorTypeRgba;
    ihdr[10] := CompressionDeflate;
    ihdr[11] := FilterMethodAdaptive;
    ihdr[12] := InterlaceNone;
    assert ihdr[..] == ihdr[..4] + ihdr[4..8] + ihdr[8..];
  }

  /** The whole stream: signature, IHDR, IDAT with the compressed data, empty IEND. */
  function EncodePng(width: nat, height: nat, compressed: seq<byte>): (r: seq<byte>)
    requires width < U32Limit && height < U32Limit && |compressed| < U32Limit
    ensures |r| == 8 + 25 + (12 + |compressed|) + 12
    ensures r[..8] == Signature
  {
    Signature + MakeChunk(IhdrType, IhdrPayload(width, height))
      + MakeChunk(IdatType, compressed) + MakeChunk(IendType, [])
  }

  /**
   * Reads a stream of the shape this encoder writes: the signature, an IHDR
   * chunk with the encoder's fixed fields, an IDAT chunk and an empty IEND
   * chunk, and nothing after it. Returns the header and the IDAT payload.
   */
  function ParsePng(bytes: seq<byte>): (r: Result<(Header, seq<byte>), PngError>)
    ensures r.Ok? ==> r.value.0 == EncoderHeader(r.value.0.width, r.value.0.height)
  {
    if |bytes| < 8 || bytes[..8] != Signature then Err(BadSignature)
    else ParseHeaderChunk(bytes[8..])
  }

  /** The IHDR chunk after the signature, then the chunks after it. */
  function ParseHeaderChunk(bytes: seq<byte>): (r: Result<(Header, seq<byte>), PngError>)
    ensures r.Ok? ==> r.value.0 == EncoderHeader(r.value.0.width, r.value.0.height)
  {
    match ParseChunk(bytes)
    case Err(e) => Err(BadChunk(e))
    case Ok((ihdr, rest)) =>
      if ihdr.kind != IhdrType then Err(UnexpectedChunk(ihdr.kind))
      else match ParseIhdr(ihdr.data)
        case Err(e) => Err(e)
        case Ok(header) =>
          if header != EncoderHeader(header.width, header.height) then Err(UnsupportedHeader)
          else ParseDataChunk(header, rest)
  }

  /** The IDAT chunk after the header, then the end of the stream. */
  function ParseDataChunk(header: Header, bytes: seq<byte>): (r: Result<(Header, seq<byte>), PngError>)
    ensures r.Ok? ==> r.value.0 == header
  {
    match ParseChunk(bytes)
    case Err(e) => Err(BadChunk(e))
    case Ok((idat, rest)) =>
      if idat.kind != IdatType then Err(UnexpectedChunk(idat.kind))
      else ParseEnd(header, idat.data, rest)
  }

  /** The empty IEND chunk, which must be the last bytes of the stream. */
  function ParseEnd(header: Header, compressed: seq<byte>, bytes: seq<byte>): (r: Result<(Header, seq<byte>), PngError>)
    ensures r.Ok? ==> r.value == (header, compressed)
  {
    match ParseChunk(bytes)
    case Err(e) => Err(BadChunk(e))
    case Ok((iend, rest)) =>
      if iend.kind != IendType || iend.data != [] then Err(UnexpectedChunk(iend.kind))
      else if rest != [] then Err(TrailingBytes)
      else Ok((header, compressed))
  }

  lemma ParseEndOfChunk(header: Header, compressed: seq<byte>)
    ensures ParseEnd(header, compressed, MakeChunk(IendType, [])) == Ok((header, compressed))
  {
    ParseMakeChunk(IendType, [], []);
    assert MakeChunk(IendType, []) + [] == MakeChunk(IendType, []);
  }

  lemma ParseDataOfChunks(header: Header, compressed: seq<byte>)
    requires |compressed| < U32Limit
    ensures ParseDataChunk(header, MakeChunk(IdatType, compressed) + MakeChunk(IendType, []))
      == Ok((header, compressed))
  {
    ParseMakeChunk(IdatType, compressed, MakeChunk(IendType, []));
    ParseEndOfChunk(header, compressed);
  }

  lemma ParseHeaderOfChunks(width: nat, height: nat, compressed: seq<byte>)
    requires width < U32Limit && height < U32Limit && |compressed| < U32Limit
    ensures ParseHeaderChunk(MakeChunk(IhdrType, IhdrPayload(width, height))
      + (MakeChunk(IdatType, compressed) + MakeChunk(IendType, [])))
      == Ok((EncoderHeader(width, height), compressed))
  {
    var tail := MakeChunk(IdatType, compressed) + MakeChunk(IendType, []);
    ParseMakeChunk(IhdrType, IhdrPayload(width, height), tail);
    ParseIhdrPayload(width, height);
    ParseDataOfChunks(EncoderHeader(width, height), compressed);
  }

  /** The stream regrouped as the signature followed by the three chunks. */
  lemma EncodePngSplit(width: nat, height: nat, compressed: seq<byte>)
    requires width < U32Limit && height < U32Limit && |compressed| < U32Limit
    ensures EncodePng(width, height, compressed) == Signature
      + (MakeChunk(IhdrType, IhdrPayload(width, height)) + (MakeChunk(IdatType, compressed) + MakeChunk(IendType, [])))
  {
  }

  /** Past a correct signature, the stream parses as its chunks do. */
  lemma ParseAfterSignature(rest: seq<byte>)
    ensures ParsePng(Signature + rest) == ParseHeaderChunk(rest)
  {
    assert (Signature + rest)[..8] == Signature;
    assert (Signature + rest)[8..] == rest;
  }

  /** An encoded stream parses back to its header and its IDAT payload. */
  lemma ParseEncodePng(width: nat, height: nat, compressed: seq<byte>)
    requires width < U32Limit && height < U32Limit && |compressed| < U32Limit
    ensures ParsePng(EncodePng(width, height, compressed)) == Ok((EncoderHeader(width, height), compressed))
  {
    var ihdr := MakeChunk(IhdrType, IhdrPayload(width, height));
    var tail := MakeChunk(IdatType, compressed) + MakeChunk(IendType, []);
    EncodePngSplit(width, height, compressed);
    ParseAfterSignature(ihdr + tail);
    ParseHeaderOfChunks(width, height, compressed);
  }

  lemma EndOfParsed(header: Header, compressed: seq<byte>, bytes: seq<byte>)
    requires ParseEnd(header, compressed, bytes).Ok?
    ensures bytes == MakeChunk(IendType, [])
  {
    MakeParsedChunk(bytes);
    var (iend, rest) := ParseChunk(bytes).value;
    assert rest == [];
    assert iend == Chunk(IendType, []);
    assert MakeChunk(IendType, []) + [] == MakeChunk(IendType, []);
  }

  lemma DataOfParsed(header: Header, bytes: seq<byte>)
    requires ParseDataChunk(header, bytes).Ok?
    ensures var compressed := ParseDataChunk(header, bytes).value.1;
      |compressed| < U32Limit && bytes == MakeChunk(IdatType, compressed) + MakeChunk(IendType, [])
  {
    MakeParsedChunk(bytes);
    var (idat, rest) := ParseChunk(bytes).value;
    EndOfParsed(header, idat.data, rest);
  }

  lemma HeaderOfParsed(bytes: seq<byte>)
    requires ParseHeaderChunk(bytes).Ok?
    ensures var (header, compressed) := ParseHeaderChunk(bytes).value;
      header.width < U32Limit && header.height < U32Limit && |compressed| < U32Limit
      && bytes == MakeChunk(IhdrType, IhdrPayload(header.width, header.height))
        + (MakeChunk(IdatType, compressed) + MakeChunk(IendType, []))
  {
    MakeParsedChunk(bytes);
    var (ihdr, rest) := ParseChunk(bytes).value;
    var header := ParseIhdr(ihdr.data).value;
    IhdrOfParsed(ihdr.data);
    DataOfParsed(header, rest);
  }

  /** Whatever parses as a stream is exactly the encoding of what it parses to. */
  lemma EncodeParsedPng(bytes: seq<byte>)
    requires ParsePng(bytes).Ok?
    ensures var (header, compressed) := ParsePng(bytes).value;
      header.width < U32Limit && header.height < U32Limit && |compressed| < U32Limit
      && bytes == EncodePng(header.width, header.height, compressed)
  {
    var rest := bytes[8..];
    assert bytes == Signature + rest;
    ParseAfterSignature(rest);
    HeaderOfParsed(rest);
    var (header, compressed) := ParseHeaderChunk(rest).value;
    EncodePngSplit(header.width, header.height, compressed);
  }

  /** The IEND chunk is the fixed twelve bytes every PNG ends with. */
  lemma IendChunkBytes()
    ensures MakeChunk(IendType, []) == [0, 0, 0, 0, 73, 69, 78, 68, 0xAE, 0x42, 0x60, 0x82]
  {
    IendCrc();
    assert IendType + [] == IendType;
    assert ChunkCrc(IendType, []) == 0xAE42_6082;
    assert BeU32(0) == [0, 0, 0, 0];
    assert BeU32(0xAE42_6082) == [0xAE, 0x42, 0x60, 0x82];
  }

  /** CRC-32 of "IEND": the register after each byte, from the table slot that step reads and the entry there. */
  lemma IendCrc()
    ensures Checksum(IendType) == 0xAE42_6082
  {
    var s := IendType;
    UpdateByEntry(0xFFFF_FFFF, 73, 182, 0x2202_16B9);
    UpdateByEntry(0x22FD_E946, 69, 3, 0x9909_51BA);
    UpdateByEntry(0x992B_AC53, 78, 29, 0x6306_6CD9);
    UpdateByEntry(0x639F_4775, 68, 49, 0x51DE_003A);
    assert s[..0] == [];
    FoldSnoc(Preset, s, 0);
    FoldSnoc(Preset, s, 1);
    FoldSnoc(Preset, s, 2);
    FoldSnoc(Preset, s, 3);
    assert s[..4] == s;
  }

  /**
   * The generator end to end, with the pixel colours and the deflate
   * compressor as parameters: fill the scanlines, compress them, build the
   * IDAT, IHDR and IEND chunks and concatenate them after the signature.
   */
  method Generate(pixel: (nat, nat) -> Rgba, width: nat, height: nat, deflate: seq<byte> -> seq<byte>)
    returns (png: seq<byte>)
    requires width < U32Limit && height < U32Limit
    requires |deflate(Scanlines(pixel, width, height))| < U32Limit
    ensures png == EncodePng(width, height, deflate(Scanlines(pixel, width, height)))
  {
    var raw := Fill(pixel, width, height);
    var compressed := deflate(raw[..]);
    var idatChunk := EmitChunk(IdatType, compressed);
    var ihdrData := WriteIhdr(width, height);
    var ihdrChunk := EmitChunk(IhdrType, ihdrData[..]);
    var iendChunk := EmitChunk(IendType, []);
    png := Signature + ihdrChunk + idatChunk + iendChunk;
  }
}
