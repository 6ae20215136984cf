/** Pixels of an RGB raster and the crop operation. An image is an
    `array2<Pixel>` indexed `[x, y]`: first the column (0 ..
    Length0 - 1, the image width), then the row (the image height), as
    Pillow addresses pixels. */
module Image {

  /** One 8-bit colour channel. */
  newtype Channel = c: int | 0 <= c < 256

  /** The `(r, g, b)` triple that `getpixel` returns for an RGB image. */
  datatype Pixel = Pixel(r: Channel, g: Channel, b: Channel)

  function ChannelSum(p: Pixel): (s: int)
    ensures 0 <= s <= 765
  {
    p.r as int + p.g as int + p.b as int
  }

  /** `sum([r, g, b]) / 3`, Python's true division, with exact real
      division standing for the float one: 0 is black, 255 white. */
  function Brightness(p: Pixel): (b: real)
    ensures 0.0 <= b <= 255.0
    ensures b * 3.0 == ChannelSum(p) as real
  {
    ChannelSum(p) as real / 3.0
  }

  /** A sampled pixel is dark when its brightness is below 10. */
  predicate IsDark(p: Pixel)
    ensures IsDark(p) ==> p.r < 30 && p.g < 30 && p.b < 30
  {
    Brightness(p) < 10.0
  }

  /** With integer channels, "brightness below 10" is exactly "channel sum
      below 30", so no fractional arithmetic is needed to decide darkness. */
  lemma DarkIffSumBelowThirty(p: Pixel)
    ensures IsDark(p) <==> ChannelSum(p) < 30
  {
  }

  /** `image.crop((x, y, x + w, y + h))` for a box inside the image: a new
      w-by-h image whose pixel (i, j) is the source pixel (x + i, y + j).
      The source image is only read. */
  method Crop(img: array2<Pixel>, x: nat, y: nat, w: nat, h: nat) returns (c: array2<Pixel>)
    requires x + w <= img.Length0 && y + h <= img.Length1
    ensures fresh(c)
    ensures c.Length0 == w && c.Length1 == h
    ensures forall i, j :: 0 <= i < w && 0 <= j < h ==> c[i, j] == img[x + i, y + j]
  {
    c := new Pixel[w, h]((i: nat, j: nat) reads img
                           requires i < w && j < h => img[x + i, y + j]);
  }
}
