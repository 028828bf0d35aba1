/**
 * The raw image data the encoder compresses into IDAT: one scanline per row,
 * each a filter-type byte (0, filter type None, section 6 of RFC 2083)
 * followed by four bytes (R, G, B, A) for every pixel of the row. The pixel
 * colours are an input here; `PaperPixel` describes the colours the texture
 * generator derives from its random samples.
 */
module Raster {
  import opened Bytes

  datatype Rgba = Rgba(r: byte, g: byte, b: byte, a: byte)

  /** Filter type None. */
  const FilterNone: byte := 0

  /** Bytes in one scanline: the filter-type byte and four per pixel. */
  function Stride(width: nat): nat {
    1 + width * 4
  }

  /** Where scanline `y` starts: the position of its filter byte. */
  function RowStart(width: nat, y: nat): nat {
    y * Stride(width)
  }

  /** Where the buffer fill writes channel `k` of the pixel in column `x`, row `y`. */
  function Offset(width: nat, y: nat, x: nat, k: nat): nat {
    RowStart(width, y) + 1 + x * 4 + k
  }

  function PixelBytes(p: Rgba): (r: seq<byte>)
    ensures |r| == 4
  {
    [p.r, p.g, p.b, p.a]
  }

  /** The pixel bytes of the first `count` columns of row `y`. */
  function RowPixels(pixel: (nat, nat) -> Rgba, y: nat, count: nat): (r: seq<byte>)
    ensures |r| == count * 4
  {
    if count == 0 then [] else RowPixels(pixel, y, count - 1) + PixelBytes(pixel(count - 1, y))
  }

  /** The filter byte and the first `count` pixels of row `y`: what the fill has written of the row so far. */
  function RowPrefix(pixel: (nat, nat) -> Rgba, y: nat, count: nat): seq<byte> {
    [FilterNone] + RowPixels(pixel, y, count)
  }

  /** Scanline `y`: filter byte, then every pixel of the row left to right. */
  function Row(pixel: (nat, nat) -> Rgba, width: nat, y: nat): (r: seq<byte>)
    ensures |r| == Stride(width)
  {
    RowPrefix(pixel, y, width)
  }

  /** The raw data of the first `rows` scanlines, top to bottom. */
  function Scanlines(pixel: (nat, nat) -> Rgba, width: nat, rows: nat): seq<byte> {
    if rows == 0 then [] else Scanlines(pixel, width, rows - 1) + Row(pixel, width, rows - 1)
  }

  // ---- Arithmetic of the buffer layout ----

  lemma NextRow(y: nat, s: nat)
    ensures (y + 1) * s == y * s + s
  {
  }

  lemma RowFits(y: nat, rows: nat, s: nat)
    requires y < rows
    ensures y * s + s <= rows * s
  {
    NextRow(y, s);
    assert (y + 1) * s <= rows * s by {
      MulLe(y + 1, rows, s);
    }
  }

  lemma MulLe(a: nat, b: nat, s: nat)
    requires a <= b
    ensures a * s <= b * s
  {
  }

  /** A position is split uniquely into a row and a place within the row. */
  lemma RowPlaceUnique(y: nat, j: nat, y': nat, j': nat, s: nat)
    requires j < s && j' < s
    requires y * s + j == y' * s + j'
    ensures y == y' && j == j'
  {
    if y < y' {
      RowFits(y, y', s);
    } else if y' < y {
      RowFits(y', y, s);
    }
  }

  /** Every position below `rows * s` lies in one of the first `rows` rows. */
  lemma RowOfPosition(i: nat, rows: nat, s: nat) returns (y: nat, j: nat)
    requires i < rows * s
    ensures y < rows && j < s && i == y * s + j
  {
    if s == 0 {
      assert false;
    } else {
      y, j := i / s, i % s;
      if y >= rows {
        MulLe(rows, y, s);
      }
    }
  }

  // ---- Properties of the specified layout ----

  lemma {:induction false} ScanlinesLength(pixel: (nat, nat) -> Rgba, width: nat, rows: nat)
    ensures |Scanlines(pixel, width, rows)| == rows * Stride(width)
  {
    if rows > 0 {
      ScanlinesLength(pixel, width, rows - 1);
      NextRow(rows - 1, Stride(width));
    }
  }

  /** Earlier rows are a prefix of the data of more rows. */
  lemma {:induction false} ScanlinesPrefix(pixel: (nat, nat) -> Rgba, width: nat, rows: nat, y: nat)
    requires y <= rows
    ensures y * Stride(width) <= |Scanlines(pixel, width, rows)|
    ensures Scanlines(pixel, width, rows)[..y * Stride(width)] == Scanlines(pixel, width, y)
  {
    ScanlinesLength(pixel, width, y);
    ScanlinesLength(pixel, width, rows);
    if y < rows {
      ScanlinesPrefix(pixel, width, rows - 1, y);
      ScanlinesLength(pixel, width, rows - 1);
      MulLe(y, rows - 1, Stride(width));
    }
  }

  /** Row `y` of the data sits at `y * Stride(width)`. */
  lemma RowAt(pixel: (nat, nat) -> Rgba, width: nat, rows: nat, y: nat)
    requires y < rows
    ensures y * Stride(width) + Stride(width) <= |Scanlines(pixel, width, rows)|
    ensures Scanlines(pixel, width, rows)[y * Stride(width)..y * Stride(width) + Stride(width)] == Row(pixel, width, y)
  {
    var s := Stride(width);
    ScanlinesPrefix(pixel, width, rows, y + 1);
    ScanlinesLength(pixel, width, y);
    NextRow(y, s);
    var all := Scanlines(pixel, width, rows);
    assert all[y * s..y * s + s] == all[..(y + 1) * s][y * s..];
  }

  lemma {:induction false} RowPixelsAt(pixel: (nat, nat) -> Rgba, y: nat, count: nat, x: nat, k: nat)
    requires x < count && k < 4
    ensures RowPixels(pixel, y, count)[x * 4 + k] == PixelBytes(pixel(x, y))[k]
  {
    if x < count - 1 {
      RowPixelsAt(pixel, y, count - 1, x, k);
    }
  }

  /** Every scanline starts with filter type None. */
  lemma FilterByteAt(pixel: (nat, nat) -> Rgba, width: nat, rows: nat, y: nat)
    requires y < rows
    ensures y * Stride(width) < |Scanlines(pixel, width, rows)|
    ensures Scanlines(pixel, width, rows)[y * Stride(width)] == FilterNone
  {
    RowAt(pixel, width, rows, y);
    assert Scanlines(pixel, width, rows)[y * Stride(width)] == Row(pixel, width, y)[0];
  }

  /** Channel `k` of pixel (x, y) is at `Offset(width, y, x, k)`, inside the buffer. */
  lemma PixelByteAt(pixel: (nat, nat) -> Rgba, width: nat, rows: nat, y: nat, x: nat, k: nat)
    requires y < rows && x < width && k < 4
    ensures Offset(width, y, x, k) < |Scanlines(pixel, width, rows)|
    ensures Scanlines(pixel, width, rows)[Offset(width, y, x, k)] == PixelBytes(pixel(x, y))[k]
  {
    RowAt(pixel, width, rows, y);
    RowPixelsAt(pixel, y, width, x, k);
    var s := Stride(width);
    assert Scanlines(pixel, width, rows)[Offset(width, y, x, k)] == Row(pixel, width, y)[1 + x * 4 + k];
  }

  /** Distinct (row, column, channel) triples are written at distinct offsets, none of them a row start. */
  lemma OffsetInjective(width: nat, y: nat, x: nat, k: nat, y': nat, x': nat, k': nat)
    requires x < width && k < 4 && x' < width && k' < 4
    ensures Offset(width, y, x, k) == Offset(width, y', x', k') ==> y == y' && x == x' && k == k'
    ensures Offset(width, y, x, k) != y' * Stride(width)
  {
    var s := Stride(width);
    if Offset(width, y, x, k) == Offset(width, y', x', k') {
      RowPlaceUnique(y, 1 + x * 4 + k, y', 1 + x' * 4 + k', s);
    }
    if Offset(width, y, x, k) == y' * s {
      RowPlaceUnique(y, 1 + x * 4 + k, y', 0, s);
    }
  }

  /**
   * Every byte of a buffer of `rows` scanlines is either a row's filter byte
   * or one pixel channel: the fill leaves no byte unwritten.
   */
  lemma OffsetCovers(width: nat, rows: nat, i: nat)
    requires i < rows * Stride(width)
    ensures (exists y: nat :: y < rows && i == RowStart(width, y))
      || (exists y: nat, x: nat, k: nat :: y < rows && x < width && k < 4 && i == Offset(width, y, x, k))
  {
    var y, j := RowOfPosition(i, rows, Stride(width));
    if j == 0 {
      assert i == RowStart(width, y);
    } else {
      var x, k := (j - 1) / 4, (j - 1) % 4;
      assert i == Offset(width, y, x, k);
    }
  }

  // ---- The fill loop ----

  /**
   * Allocates the zeroed buffer of `height` scanlines and writes, row by
   * row, the filter byte and then the four channels of every pixel.
   */
  method Fill(pixel: (nat, nat) -> Rgba, width: nat, height: nat) returns (raw: array<byte>)
    ensures fresh(raw)
    ensures raw[..] == Scanlines(pixel, width, height)
  {
    var stride := 1 + width * 4;
    raw := new byte[height * stride](_ => 0);
    for y := 0 to height
      invariant y * stride <= raw.Length
      invariant raw[..y * stride] == Scanlines(pixel, width, y)
    {
      RowFits(y, height, stride);
      FillRow(raw, pixel, width, y, y * stride);
      NextRow(y, stride);
    }
    assert raw[..] == raw[..height * stride];
  }

  /** The body of the row loop: the filter byte at `offset`, then the pixels of row `y` left to right. */
  method FillRow(raw: array<byte>, pixel: (nat, nat) -> Rgba, width: nat, y: nat, offset: nat)
    requires offset + Stride(width) <= raw.Length
    modifies raw
    ensures raw[..offset + Stride(width)] == old(raw[..offset]) + Row(pixel, width, y)
    ensures raw[offset + Stride(width)..] == old(raw[offset + Stride(width)..])
  {
    ghost var done := raw[..offset];
    raw[offset] := FilterNone;
    assert raw[..offset + 1] == done + RowPrefix(pixel, y, 0);
    for x := 0 to width
      invariant raw[..offset + 1 + x * 4] == done + RowPrefix(pixel, y, x)
      invariant raw[offset + Stride(width)..] == old(raw[offset + Stride(width)..])
    {
      WritePixel(raw, offset + 1 + x * 4, pixel(x, y));
      RowPrefixNext(done, pixel, y, x);
    }
  }

  lemma RowPrefixNext(done: seq<byte>, pixel: (nat, nat) -> Rgba, y: nat, x: nat)
    ensures done + RowPrefix(pixel, y, x) + PixelBytes(pixel(x, y)) == done + RowPrefix(pixel, y, x + 1)
  {
    assert RowPrefix(pixel, y, x + 1) == RowPrefix(pixel, y, x) + PixelBytes(pixel(x, y));
  }

  /** Writes the four channels of `p` at `offset`, leaving the bytes before them alone. */
  method WritePixel(raw: array<byte>, offset: nat, p: Rgba)
    requires offset + 4 <= raw.Length
    modifies raw
    ensures raw[..offset + 4] == old(raw[..offset]) + PixelBytes(p)
    ensures raw[offset + 4..] == old(raw[offset + 4..])
  {
    raw[offset] := p.r;
    raw[offset + 1] := p.g;
    raw[offset + 2] := p.b;
    raw[offset + 3] := p.a;
  }

  // ---- Channel values ----

  /** The channel clamp: `v` limited to the range 0 to 255, on an integer. */
  function Clamp(v: int): (r: int)
    ensures 0 <= r <= 255
    ensures 0 <= v <= 255 ==> r == v
    ensures v < 0 ==> r == 0
    ensures v > 255 ==> r == 255
  {
    var atLeastZero := if v > 0 then v else 0;
    if atLeastZero < 255 then atLeastZero else 255
  }

  /** Base paper colour #F9F4E8. */
  const BaseRed: int := 249
  const BaseGreen: int := 244
  const BaseBlue: int := 232

  /**
   * The colour of one pixel of the texture, from the integer parts of the
   * jitters it draws: a red jitter in [-8, 7], green in [-7, 6], blue in
   * [-6, 5] (the floor of a sample in [-0.5, 0.5) times 16, 14 and 12) and
   * an alpha in [5, 29] (the floor of 25 times a sample in [0, 1), plus 5).
   */
  function PaperPixel(jr: int, jg: int, jb: int, alpha: int): (p: Rgba)
    requires -8 <= jr <= 7 && -7 <= jg <= 6 && -6 <= jb <= 5 && 5 <= alpha <= 29
    ensures 241 <= p.r as int <= 255 && (p.r as int == 255 <==> jr >= 6)
    ensures p.g as int == BaseGreen + jg && 237 <= p.g as int <= 250
    ensures p.b as int == BaseBlue + jb && 226 <= p.b as int <= 237
    ensures p.a as int == alpha
  {
    Rgba(Clamp(BaseRed + jr) as byte, Clamp(BaseGreen + jg) as byte, Clamp(BaseBlue + jb) as byte, alpha as byte)
  }
}
