/**
 * PNG chunk framing (section 3.2 of RFC 2083): a big-endian length of the
 * data, a four-byte chunk type, the data, and a big-endian CRC-32 over the
 * type and the data. `MakeChunk` is the encoder's serialiser; `ParseChunk`
 * reads one chunk back and is the partner its round trips are proved against.
 */
module Chunks {
  import opened Bytes
  import opened Crc32

  /** Length field, four-byte type and CRC: the bytes a chunk adds around its data. */
  const Overhead: nat := 12

  datatype Chunk = Chunk(kind: seq<byte>, data: seq<byte>)

  datatype ChunkError = Truncated | CrcMismatch

  /** The CRC of a chunk as an unsigned 32-bit number, as the encoder writes it. */
  function ChunkCrc(kind: seq<byte>, data: seq<byte>): (v: nat)
    ensures v < U32Limit
  {
    Checksum(kind + data) as nat
  }

  /** A chunk as the encoder serialises it: length, type, data, CRC over type ++ data. */
  function MakeChunk(kind: seq<byte>, data: seq<byte>): (r: seq<byte>)
    requires |data| < U32Limit
    ensures |r| == 4 + |kind| + |data| + 4
    ensures ReadBeU32(r[..4]) == |data|
    ensures r[4..4 + |kind|] == kind
    ensures r[4 + |kind|..4 + |kind| + |data|] == data
    ensures ReadBeU32(r[|r| - 4..]) == ChunkCrc(kind, data)
  {
    var len, crc := BeU32(|data|), BeU32(ChunkCrc(kind, data));
    var chunk := len + kind + data + crc;
    assert chunk[..4] == len;
    assert chunk[|chunk| - 4..] == crc;
    chunk
  }

  /**
   * Reads one chunk with a four-byte type from the front of `bytes` and
   * returns it with the bytes that follow it. Fails when the input ends
   * before the chunk does, or when the stored CRC is not the CRC of the
   * type and data.
   */
  function ParseChunk(bytes: seq<byte>): (r: Result<(Chunk, seq<byte>), ChunkError>)
    ensures r.Ok? ==> |r.value.0.kind| == 4 && |r.value.0.data| < U32Limit
    ensures r.Ok? ==> |bytes| == |r.value.0.data| + Overhead + |r.value.1|
  {
    if |bytes| < 8 then Err(Truncated)
    else
      var len := ReadBeU32(bytes[..4]);
      if |bytes| < len + Overhead then Err(Truncated)
      else
        var kind := bytes[4..8];
        var data := bytes[8..8 + len];
        if ReadBeU32(bytes[8 + len..len + Overhead]) != ChunkCrc(kind, data) then Err(CrcMismatch)
        else Ok((Chunk(kind, data), bytes[len + Overhead..]))
  }

  /** A chunk made with a four-byte type parses back to its type and data, leaving what follows it. */
  lemma ParseMakeChunk(kind: seq<byte>, data: seq<byte>, rest: seq<byte>)
    requires |kind| == 4 && |data| < U32Limit
    ensures ParseChunk(MakeChunk(kind, data) + rest) == Ok((Chunk(kind, data), rest))
  {
    var c := MakeChunk(kind, data);
    var bytes := c + rest;
    var len := |data|;
    assert bytes[..4] == c[..4];
    assert bytes[4..8] == c[4..8];
    assert bytes[8..8 + len] == c[8..8 + len];
    assert bytes[8 + len..len + Overhead] == c[|c| - 4..];
    assert bytes[len + Overhead..] == rest;
  }

  /** Whatever parses as a chunk is exactly that chunk's encoding followed by the rest. */
  lemma MakeParsedChunk(bytes: seq<byte>)
    requires ParseChunk(bytes).Ok?
    ensures var (c, rest) := ParseChunk(bytes).value;
      bytes == MakeChunk(c.kind, c.data) + rest
  {
    var len := ReadBeU32(bytes[..4]);
    var lenField, kind, data := bytes[..4], bytes[4..8], bytes[8..8 + len];
    var crcField, rest := bytes[8 + len..len + Overhead], bytes[len + Overhead..];
    assert ParseChunk(bytes).value == (Chunk(kind, data), rest);
    BeU32OfRead(lenField);
    BeU32OfRead(crcField);
    assert MakeChunk(kind, data) == lenField + kind + data + crcField;
    assert bytes == lenField + kind + data + crcField + rest;
  }

  /** Two chunks with four-byte types have the same encoding only if they have the same type and data. */
  lemma MakeChunkInjective(k1: seq<byte>, d1: seq<byte>, k2: seq<byte>, d2: seq<byte>)
    requires |k1| == 4 && |d1| < U32Limit && |k2| == 4 && |d2| < U32Limit
    requires MakeChunk(k1, d1) == MakeChunk(k2, d2)
    ensures k1 == k2 && d1 == d2
  {
    ParseMakeChunk(k1, d1, []);
    ParseMakeChunk(k2, d2, []);
    assert MakeChunk(k1, d1) + [] == MakeChunk(k2, d2) + [];
  }

  /**
   * The chunk serialiser as the encoder runs it: the CRC comes from the table-driven
   * crc32 over type ++ data, the length and CRC are written big-endian.
   */
  method EmitChunk(kind: seq<byte>, data: seq<byte>) returns (chunk: seq<byte>)
    requires |data| < U32Limit
    ensures chunk == MakeChunk(kind, data)
  {
    var typeAndData := kind + data;
    var crc := Compute(typeAndData);
    var crcValue: nat := crc as nat;
    assert crcValue == ChunkCrc(kind, data);
    chunk := BeU32(|data|) + typeAndData + BeU32(crcValue);
  }
}
