/**
  Flat RGBA byte rasters as used by the segmentation mask (`segImage`) and
  the output image (`image`): row-major, four bytes per pixel, pixel `p`
  occupying bytes `4*p .. 4*p+3` with the alpha byte last.
 */
module Pixels {

  /** An unsigned 8-bit channel value. */
  type Byte = x: int | 0 <= x < 256

  /** The three colour channels of one pixel; colours are compared exactly. */
  datatype Rgb = Rgb(r: Byte, g: Byte, b: Byte)

  /** A flat raster buffer. */
  type Buffer = seq<Byte>

  /** Bytes per pixel (the mask loader always stores RGBA). */
  const Channels: nat := 4

  /** Byte offset of pixel column `x`, row `y` in a raster `width` pixels wide. */
  function PixelIndex(x: int, y: int, width: int): int
  {
    y * width * Channels + x * Channels
  }

  /** Byte offset of the pixel at position `x`, `y` is the pixel number times four,
      so every channel byte of an in-range pixel lies inside a width*height*4 buffer. */
  lemma PixelIndexBound(x: int, y: int, width: int, height: int, k: int)
    requires 0 <= x < width && 0 <= y < height && 0 <= k < Channels
    ensures PixelIndex(x, y, width) == (y * width + x) * Channels
    ensures 0 <= PixelIndex(x, y, width) + k < width * height * Channels
  {
    assert y * width + x < width * height by {
      assert y * width <= (height - 1) * width;
    }
  }

  /** Holds when pixel `p` has all four bytes inside `buf`. */
  predicate HasPixel(buf: Buffer, p: int)
  {
    0 <= p && 4 * p + 4 <= |buf|
  }

  /** The colour channels of pixel `p`. */
  function RgbAt(buf: Buffer, p: int): Rgb
    requires HasPixel(buf, p)
  {
    Rgb(buf[4 * p], buf[4 * p + 1], buf[4 * p + 2])
  }

  /** The alpha byte of pixel `p`. */
  function AlphaAt(buf: Buffer, p: int): Byte
    requires HasPixel(buf, p)
  {
    buf[4 * p + 3]
  }

  /** Overwrites the colour channels of pixel `p`, leaving its alpha and every
      other pixel as they were. */
  function SetRgb(buf: Buffer, p: int, c: Rgb): (r: Buffer)
    requires HasPixel(buf, p)
    ensures |r| == |buf|
    ensures RgbAt(r, p) == c && AlphaAt(r, p) == AlphaAt(buf, p)
    ensures forall q | HasPixel(buf, q) && q != p :: RgbAt(r, q) == RgbAt(buf, q) && AlphaAt(r, q) == AlphaAt(buf, q)
  {
    buf[4 * p := c.r][4 * p + 1 := c.g][4 * p + 2 := c.b]
  }

  /** Overwrites the alpha byte of pixel `p` and nothing else. */
  function SetAlpha(buf: Buffer, p: int, a: Byte): (r: Buffer)
    requires HasPixel(buf, p)
    ensures |r| == |buf|
    ensures AlphaAt(r, p) == a && RgbAt(r, p) == RgbAt(buf, p)
    ensures forall q | HasPixel(buf, q) && q != p :: RgbAt(r, q) == RgbAt(buf, q) && AlphaAt(r, q) == AlphaAt(buf, q)
  {
    buf[4 * p + 3 := a]
  }

  /** Two buffers of the same length that agree on the colour and alpha of
      every pixel are the same buffer. */
  lemma {:induction false} PixelwiseEqual(a: Buffer, b: Buffer)
    requires |a| == |b| && |a| % 4 == 0
    requires forall p | 0 <= p < |a| / 4 :: RgbAt(a, p) == RgbAt(b, p) && AlphaAt(a, p) == AlphaAt(b, p)
    ensures a == b
  {
    forall k | 0 <= k < |a|
      ensures a[k] == b[k]
    {
      var p := k / 4;
      assert HasPixel(a, p);
      assert RgbAt(a, p) == RgbAt(b, p) && AlphaAt(a, p) == AlphaAt(b, p);
      assert k == 4 * p || k == 4 * p + 1 || k == 4 * p + 2 || k == 4 * p + 3;
    }
  }
}
