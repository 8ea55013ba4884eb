/**
 * Shared value types of the GUI generation of pngsquish: pixels, points,
 * quadrilaterals and the byte-to-pixel reinterpretation (inc/defs.hpp).
 * Floating-point coordinates are modelled as `real`.
 */
module Defs {

  /** An unsigned 8-bit value (`unsigned char`, `stbi_uc`). */
  type Byte = b: int | 0 <= b < 256

  /** A packed RGB triple: exactly three bytes, no padding. */
  datatype Rgb = Rgb(r: Byte, g: Byte, b: Byte)

  /** Number of entries of every palette in the program. */
  const PaletteSize: nat := 16

  /** A palette: exactly 16 colours, entry 0 being the background. */
  type Palette = p: seq<Rgb> | |p| == PaletteSize witness seq(16, _ => Rgb(0, 0, 0))

  /** `operator==` on `rgb`: componentwise comparison. */
  function RgbEq(left: Rgb, right: Rgb): (e: bool)
    ensures e <==> left == right
  {
    left.r == right.r && left.g == right.g && left.b == right.b
  }

  /** The bytes a pixel array occupies, in memory order r, g, b, r, g, b, ... */
  function RgbToBytes(pixels: seq<Rgb>): (bytes: seq<Byte>)
    ensures |bytes| == 3 * |pixels|
    ensures forall i :: 0 <= i < |pixels| ==>
      bytes[3 * i] == pixels[i].r && bytes[3 * i + 1] == pixels[i].g && bytes[3 * i + 2] == pixels[i].b
  {
    if pixels == [] then []
    else [pixels[0].r, pixels[0].g, pixels[0].b] + RgbToBytes(pixels[1..])
  }

  /**
   * `bytes_to_rgb(bytes, count)`: views the first `3 * count` bytes as
   * `count` pixels. The source does this with a self-`memmove` and
   * `std::launder`, so no byte changes; the model reads the pixels out.
   */
  function BytesToRgb(bytes: seq<Byte>, count: nat): (pixels: seq<Rgb>)
    requires 3 * count <= |bytes|
    ensures |pixels| == count
    ensures forall i :: 0 <= i < count ==>
      pixels[i] == Rgb(bytes[3 * i], bytes[3 * i + 1], bytes[3 * i + 2])
  {
    seq(count, i requires 0 <= i < count => Rgb(bytes[3 * i], bytes[3 * i + 1], bytes[3 * i + 2]))
  }

  /** Reinterpreting bytes as pixels loses nothing: the bytes come back unchanged. */
  lemma BytesToRgbRoundTrip(bytes: seq<Byte>, count: nat)
    requires |bytes| == 3 * count
    ensures RgbToBytes(BytesToRgb(bytes, count)) == bytes
  {
    var pixels := BytesToRgb(bytes, count);
    var back := RgbToBytes(pixels);
    forall k | 0 <= k < |bytes|
      ensures back[k] == bytes[k]
    {
      var i := k / 3;
      assert 0 <= i < count;
      assert pixels[i] == Rgb(bytes[3 * i], bytes[3 * i + 1], bytes[3 * i + 2]);
      assert k == 3 * i || k == 3 * i + 1 || k == 3 * i + 2;
    }
  }

  /** Appending a pixel appends its three bytes. */
  lemma {:induction false} RgbToBytesAppend(pixels: seq<Rgb>, c: Rgb)
    ensures RgbToBytes(pixels + [c]) == RgbToBytes(pixels) + [c.r, c.g, c.b]
  {
    if pixels != [] {
      assert (pixels + [c])[1..] == pixels[1..] + [c];
      RgbToBytesAppend(pixels[1..], c);
    }
  }

  /** ... and viewing the bytes of a pixel array gives the same pixels back. */
  lemma RgbToBytesRoundTrip(pixels: seq<Rgb>)
    ensures BytesToRgb(RgbToBytes(pixels), |pixels|) == pixels
  {
  }

  /** A point in normalised coordinates (`struct point`, floats as reals). */
  datatype Point = Point(x: real, y: real)

  /** `operator==` on `point`: componentwise comparison. */
  function PointEq(left: Point, right: Point): (e: bool)
    ensures e <==> left == right
  {
    left.x == right.x && left.y == right.y
  }

  /** `FLT_MAX`, the largest finite single-precision value, (2 - 2^-23) * 2^127. */
  const FltMax: real := 340282346638528859811704183484516925440.0

  /** The sentinel marking an unset first vertex: `(-FLT_MAX, 0)`. */
  const InvalidPoint: Point := Point(-FltMax, 0.0)

  /** A point of the unit square [0,1]^2, where the preview's clicks land. */
  predicate InUnitSquare(p: Point) {
    0.0 <= p.x <= 1.0 && 0.0 <= p.y <= 1.0
  }

  /** No point of the unit square can be mistaken for the sentinel. */
  lemma InvalidPointIsOutside(p: Point)
    requires InUnitSquare(p)
    ensures !PointEq(p, InvalidPoint)
  {
  }

  /** `struct quad`: exactly four points. */
  type Quad = q: seq<Point> | |q| == 4 witness [Point(0.0, 0.0), Point(0.0, 0.0), Point(0.0, 0.0), Point(0.0, 0.0)]
}
