/** RGBA pixel buffers as the canvas API hands them out: a width, a height and
    a flat row-major byte sequence with four channels (R, G, B, A) per pixel. */
module Pixels {
  import opened JsValues

  /** One element of a Uint8ClampedArray. */
  type Byte = x: int | 0 <= x < 256

  datatype Image = Image(width: nat, height: nat, data: seq<Byte>)

  /** The buffer holds exactly four bytes per pixel. A canvas may be 0x0. */
  predicate WellFormed(img: Image) {
    |img.data| == 4 * img.width * img.height
  }

  /** An ImageData object: well formed and never empty (its constructor rejects
      a zero width or height). */
  predicate IsImageData(img: Image) {
    WellFormed(img) && img.width >= 1 && img.height >= 1
  }

  /** Byte offset of channel `c` of pixel `(x, y)`: `(y * width + x) * 4 + c`. */
  function Offset(width: int, x: int, y: int, c: int): int {
    (y * width + x) * 4 + c
  }

  /** Reading a typed-array element: outside the buffer the read yields
      `undefined`, and storing that into a Uint8ClampedArray stores 0. */
  function ByteAt(data: seq<Byte>, i: int): Byte {
    if 0 <= i < |data| then data[i] else 0
  }

  /** Channel `c` of pixel `(x, y)`; transparent black outside the bitmap. */
  function PixelByte(img: Image, x: int, y: int, c: int): Byte {
    if 0 <= x < img.width && 0 <= y < img.height then ByteAt(img.data, Offset(img.width, x, y, c))
    else 0
  }

  /** The channel, column and row that byte `o` of a `width`-wide buffer
      belongs to. */
  function ChannelOf(o: int): int { o % 4 }

  function ColumnOf(width: int, o: int): int
    requires width > 0
  {
    (o / 4) % width
  }

  function RowOf(width: int, o: int): int
    requires width > 0
  {
    (o / 4) / width
  }

  /** Offsets decode back to the pixel and channel they were built from. */
  lemma DecodeOffset(width: int, x: int, y: int, c: int)
    requires 0 <= x < width && 0 <= y && 0 <= c < 4
    ensures var o := Offset(width, x, y, c);
            ChannelOf(o) == c && ColumnOf(width, o) == x && RowOf(width, o) == y
  {
    var o := Offset(width, x, y, c);
    DivModUnique(o, 4, y * width + x, c);
    DivModUnique(y * width + x, width, y, x);
  }

  /** Every byte offset below `4 * width * height` is built from a pixel inside
      the buffer. */
  lemma EncodeOffset(width: int, height: int, o: int)
    requires width > 0 && height >= 0 && 0 <= o < 4 * width * height
    ensures var x, y, c := ColumnOf(width, o), RowOf(width, o), ChannelOf(o);
            && 0 <= x < width && 0 <= y < height && 0 <= c < 4
            && o == Offset(width, x, y, c)
  {
    var p := o / 4;
    assert o == p * 4 + o % 4;
    assert p < width * height;
    var y := p / width;
    assert p == y * width + p % width;
    assert y < height;
  }

  /** The byte lies inside the buffer when the pixel does. */
  lemma OffsetInBounds(width: int, height: int, x: int, y: int, c: int)
    requires 0 <= x < width && 0 <= y < height && 0 <= c < 4
    ensures 0 <= Offset(width, x, y, c) < 4 * width * height
  {
    var k := y * width + x;
    assert (y + 1) * width == y * width + width;
    var rest := height - (y + 1);
    assert rest >= 0 && rest * width >= 0;
    assert height * width == rest * width + (y + 1) * width;
    assert k + 1 <= height * width;
    assert 4 * width * height == 4 * (height * width);
    assert Offset(width, x, y, c) == 4 * k + c;
  }

  /** `toGrayscale`: the Rec. 601 luma `0.299 R + 0.587 G + 0.114 B`. */
  function Luma(r: real, g: real, b: real): real {
    0.299 * r + 0.587 * g + 0.114 * b
  }

  /** The luma of bytes is a byte-range value, and a grey pixel's luma is its
      grey level (the weights add up to one). */
  lemma LumaBounds(r: Byte, g: Byte, b: Byte)
    ensures 0.0 <= Luma(r as real, g as real, b as real) <= 255.0
    ensures r == g == b ==> Luma(r as real, g as real, b as real) == r as real
  {
  }

  /** `ctx.getImageData(sx, sy, sw, sh).data`: an `sw x sh` block copied from
      the bitmap, pixels outside it reading as transparent black. Channel `c`
      of block pixel `(x, y)` is channel `c` of bitmap pixel `(sx + x, sy + y)`. */
  function GetImageData(img: Image, sx: int, sy: int, sw: nat, sh: nat): (block: seq<Byte>)
    ensures |block| == 4 * sw * sh
    ensures forall x, y, c :: 0 <= x < sw && 0 <= y < sh && 0 <= c < 4 ==>
              && 0 <= Offset(sw, x, y, c) < |block|
              && block[Offset(sw, x, y, c)] == PixelByte(img, sx + x, sy + y, c)
  {
    var block := seq(4 * sw * sh, o requires 0 <= o < 4 * sw * sh =>
      if sw == 0 then 0 else PixelByte(img, sx + ColumnOf(sw, o), sy + RowOf(sw, o), ChannelOf(o)));
    assert forall x, y, c :: 0 <= x < sw && 0 <= y < sh && 0 <= c < 4 ==>
             && 0 <= Offset(sw, x, y, c) < |block|
             && block[Offset(sw, x, y, c)] == PixelByte(img, sx + x, sy + y, c) by {
      forall x, y, c | 0 <= x < sw && 0 <= y < sh && 0 <= c < 4
        ensures 0 <= Offset(sw, x, y, c) < |block| && block[Offset(sw, x, y, c)] == PixelByte(img, sx + x, sy + y, c)
      {
        DecodeOffset(sw, x, y, c);
        OffsetInBounds(sw, sh, x, y, c);
      }
    }
    block
  }
}
