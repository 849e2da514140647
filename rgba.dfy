/** RGBA pixels as the glyph script sees them after normalising an image to RGBA:
    a flat, row-major sequence of 4-tuples whose channels are 8-bit unsigned values. */
module Rgba {

  /** One 8-bit colour or alpha channel. */
  type Channel = x: int | 0 <= x < 256

  /** One pixel: red, green, blue and alpha. */
  datatype Pixel = Pixel(r: Channel, g: Channel, b: Channel, a: Channel)

  /** The reference colour a pixel is compared against. The script accepts any
      integer triple here, so the channels are not restricted to 0..255. */
  datatype Background = Background(r: int, g: int, b: int)

  /** The values the script uses when no background or tolerance is given. */
  const DefaultBackground: Background := Background(255, 255, 255)
  const DefaultTolerance: int := 12

  /** The two pixels a silhouette is made of. */
  const TransparentWhite: Pixel := Pixel(255, 255, 255, 0)
  const OpaqueWhite: Pixel := Pixel(255, 255, 255, 255)

  /** Absolute value of an integer, as Python's abs. */
  function Abs(x: int): (r: nat)
    ensures r == x || r == -x
  {
    if x < 0 then -x else x
  }

  /** Two pixels agree on red, green and blue (alpha may differ). */
  predicate SameColour(p: Pixel, q: Pixel) {
    p.r == q.r && p.g == q.g && p.b == q.b
  }
}
