/**
  Packed pixels and the raster that holds them (java.awt.image.BufferedImage as the
  image kit uses it).

  A pixel is the 32-bit pattern 0xAARRGGBB, taken as an unsigned number. The Java code
  extracts a channel with `(p >> s) & 0xff`, which for every bit pattern is `p / 2^s % 256`
  of the unsigned value; it packs with `|` over disjoint bit fields, which is `+`.
 */
module Raster {

  /** One 8-bit channel value. */
  type Channel = c: int | 0 <= c < 0x100

  /** A packed 0xAARRGGBB pixel as an unsigned 32-bit value. */
  type Argb = p: int | 0 <= p < 0x1_0000_0000

  function Alpha(p: Argb): Channel { p / 0x100_0000 }
  function Red(p: Argb): Channel { p / 0x1_0000 % 0x100 }
  function Green(p: Argb): Channel { p / 0x100 % 0x100 }
  function Blue(p: Argb): Channel { p % 0x100 }

  /** `(a << 24) | (r << 16) | (g << 8) | b`. */
  function PackArgb(a: Channel, r: Channel, g: Channel, b: Channel): Argb
  {
    a * 0x100_0000 + r * 0x1_0000 + g * 0x100 + b
  }

  /** A nonzero multiple of d is at least d away from 0. */
  lemma {:induction false} NonZeroMultiple(k: int, d: int)
    requires 0 < d
    ensures 1 <= k ==> d <= k * d
    ensures k <= -1 ==> k * d <= -d
  {
    if 1 <= k {
      assert k * d == (k - 1) * d + d;
    } else if k <= -1 {
      assert k * d == (k + 1) * d - d;
    }
  }

  /** Division with remainder has one answer: n = q * d + m with 0 <= m < d fixes n / d and n % d. */
  lemma {:induction false} DivModOf(n: int, d: int, q: int, m: int)
    requires 0 < d && 0 <= m < d && n == q * d + m
    ensures n / d == q && n % d == m
  {
    var q', m' := n / d, n % d;
    assert (q - q') * d == m' - m;
    NonZeroMultiple(q - q', d);
  }

  /** Unpacking a packed pixel gives back every channel unchanged. */
  lemma {:induction false} PackThenUnpack(a: Channel, r: Channel, g: Channel, b: Channel)
    ensures var p := PackArgb(a, r, g, b); Alpha(p) == a && Red(p) == r && Green(p) == g && Blue(p) == b
  {
    var p := PackArgb(a, r, g, b);
    DivModOf(p, 0x100, a * 0x1_0000 + r * 0x100 + g, b);
    DivModOf(p / 0x100, 0x100, a * 0x100 + r, g);
    DivModOf(p, 0x1_0000, a * 0x100 + r, g * 0x100 + b);
    DivModOf(p / 0x1_0000, 0x100, a, r);
    DivModOf(p, 0x100_0000, a, r * 0x1_0000 + g * 0x100 + b);
  }

  /** The other half of the round trip: repacking the four channels gives the pixel back. */
  lemma {:induction false} UnpackRepack(p: Argb)
    ensures PackArgb(Alpha(p), Red(p), Green(p), Blue(p)) == p
  {
    var hi, lo := p / 0x1_0000, p % 0x1_0000;
    assert p == hi * 0x1_0000 + lo;
    DivModOf(hi, 0x100, hi / 0x100, hi % 0x100);
    DivModOf(p, 0x100_0000, hi / 0x100, hi % 0x100 * 0x1_0000 + lo);
    DivModOf(lo, 0x100, lo / 0x100, lo % 0x100);
    DivModOf(p, 0x100, hi * 0x100 + lo / 0x100, lo % 0x100);
    DivModOf(p / 0x100, 0x100, hi, lo / 0x100);
  }

  /** What a TYPE_INT_RGB raster makes of a pixel: the colour is kept and alpha reads as 0xFF. */
  function Opaque(p: Argb): (q: Argb)
    ensures Alpha(q) == 0xFF && Red(q) == Red(p) && Green(q) == Green(p) && Blue(q) == Blue(p)
  {
    PackThenUnpack(0xFF, Red(p), Green(p), Blue(p));
    PackArgb(0xFF, Red(p), Green(p), Blue(p))
  }

  /** A pixel that is already opaque is left as it is, so applying Opaque twice is applying it once. */
  lemma OpaqueKeepsOpaque(p: Argb)
    ensures Alpha(p) == 0xFF ==> Opaque(p) == p
    ensures Opaque(Opaque(p)) == Opaque(p)
  {
    UnpackRepack(p);
    UnpackRepack(Opaque(p));
  }

  /** The two BufferedImage layouts the model needs. */
  datatype ImageType =
    | TypeIntRgb   // BufferedImage.TYPE_INT_RGB: no alpha channel, reads report alpha 0xFF
    | TypeIntArgb  // any decoded image that keeps its own alpha

  /**
    A BufferedImage: a fixed-size grid of packed pixels, indexed [x, y], whose contents
    setRGB changes in place. Its width and height never change.
   */
  class Image {
    const imageType: ImageType
    const pixels: array2<Argb>

    function Width(): nat { pixels.Length0 }
    function Height(): nat { pixels.Length1 }

    predicate InBounds(x: int, y: int) {
      0 <= x < Width() && 0 <= y < Height()
    }

    /** `new BufferedImage(width, height, imageType)`: every pixel starts out as 0. */
    constructor (width: nat, height: nat, imageType: ImageType)
      ensures this.imageType == imageType
      ensures Width() == width && Height() == height
      ensures fresh(pixels)
      ensures forall x, y :: 0 <= x < width && 0 <= y < height ==> pixels[x, y] == 0
    {
      this.imageType := imageType;
      pixels := new Argb[width, height]((x, y) => 0);
    }

    /** `getRGB(x, y)`: the stored pixel, with alpha forced to 0xFF in a TYPE_INT_RGB raster. */
    function GetRGB(x: int, y: int): (p: Argb)
      requires InBounds(x, y)
      reads pixels
      ensures Red(p) == Red(pixels[x, y]) && Green(p) == Green(pixels[x, y]) && Blue(p) == Blue(pixels[x, y])
      ensures imageType == TypeIntRgb ==> Alpha(p) == 0xFF
      ensures imageType == TypeIntArgb ==> p == pixels[x, y]
    {
      if imageType == TypeIntRgb then Opaque(pixels[x, y]) else pixels[x, y]
    }

    /** `setRGB(x, y, p)`: one pixel changes, every other pixel stays as it was. */
    method SetRGB(x: int, y: int, p: Argb)
      requires InBounds(x, y)
      modifies pixels
      ensures pixels[x, y] == p
      ensures forall i, j :: InBounds(i, j) && (i != x || j != y) ==> pixels[i, j] == old(pixels[i, j])
    {
      pixels[x, y] := p;
    }
  }
}
