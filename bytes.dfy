/**
 * Bytes and the big-endian unsigned 32-bit fields that PNG uses for chunk
 * lengths, CRCs and the IHDR width and height (Node's Buffer.writeUInt32BE).
 */
module Bytes {

  newtype byte = x: int | 0 <= x < 0x100

  /** 2^32: values at or above it make writeUInt32BE throw a RangeError. */
  const U32Limit: nat := 0x1_0000_0000

  datatype Result<+T, +E> = Ok(value: T) | Err(error: E)

  /** The value of four bytes read most significant first. */
  function ReadBeU32(b: seq<byte>): (v: nat)
    requires |b| == 4
    ensures v < U32Limit
  {
    ((b[0] as nat * 0x100 + b[1] as nat) * 0x100 + b[2] as nat) * 0x100 + b[3] as nat
  }

  /** The four bytes of `v`, most significant first. */
  function BeU32(v: nat): (r: seq<byte>)
    requires v < U32Limit
    ensures |r| == 4
    ensures ReadBeU32(r) == v
  {
    var q1 := v / 0x100;
    var q2 := q1 / 0x100;
    var b0, b1, b2, b3 := q2 / 0x100, q2 % 0x100, q1 % 0x100, v % 0x100;
    assert v == q1 * 0x100 + b3 && q1 == q2 * 0x100 + b2 && q2 == b0 * 0x100 + b1;
    assert q1 < 0x100_0000 && q2 < 0x1_0000 && b0 < 0x100;
    [b0 as byte, b1 as byte, b2 as byte, b3 as byte]
  }

  /** Decoding then encoding four bytes gives them back: the encoding is onto. */
  lemma BeU32OfRead(b: seq<byte>)
    requires |b| == 4
    ensures BeU32(ReadBeU32(b)) == b
  {
    ReadBeU32Injective(BeU32(ReadBeU32(b)), b);
  }

  /** Four bytes are determined by their big-endian value. */
  lemma ReadBeU32Injective(r: seq<byte>, b: seq<byte>)
    requires |r| == 4 && |b| == 4
    requires ReadBeU32(r) == ReadBeU32(b)
    ensures r == b
  {
    var r2, b2 := r[0] as nat * 0x100 + r[1] as nat, b[0] as nat * 0x100 + b[1] as nat;
    var r1, b1 := r2 * 0x100 + r[2] as nat, b2 * 0x100 + b[2] as nat;
    Digit(r1, r[3] as nat, b1, b[3] as nat);
    Digit(r2, r[2] as nat, b2, b[2] as nat);
    Digit(r[0] as nat, r[1] as nat, b[0] as nat, b[1] as nat);
  }

  /** The last base-256 digit and the rest of a number are unique. */
  lemma Digit(x: nat, d: nat, y: nat, e: nat)
    requires d < 0x100 && e < 0x100
    requires x * 0x100 + d == y * 0x100 + e
    ensures x == y && d == e
  {
  }

  /**
   * The buffer's big-endian 32-bit write at `offset`: overwrites the four bytes at `offset`
   * with the big-endian encoding of `v` and leaves the rest of the buffer alone.
   */
  method WriteBeU32(buf: array<byte>, v: nat, offset: nat)
    requires v < U32Limit
    requires offset + 4 <= buf.Length
    modifies buf
    ensures buf[..] == old(buf[..offset]) + BeU32(v) + old(buf[offset + 4..])
  {
    var enc := BeU32(v);
    buf[offset] := enc[0];
    buf[offset + 1] := enc[1];
    buf[offset + 2] := enc[2];
    buf[offset + 3] := enc[3];
  }
}
