/**
 * The record types of the command-line generation (src/head.hpp): the
 * packed pixel `rgb_t` (here `Defs.Rgb`, compared with `Defs.RgbEq`) and
 * the decoded image `img_t` with its 16-entry palette.
 */
module Head {
  import opened Defs

  /** `operator!=` on `rgb_t`: some component differs. */
  function RgbNe(left: Rgb, right: Rgb): (ne: bool)
    ensures ne <==> !RgbEq(left, right)
  {
    left.r != right.r || left.g != right.g || left.b != right.b
  }

  /**
   * `struct img_t`: `width * height` packed RGB pixels in `data`, row by
   * row, and the palette chosen for them.
   */
  datatype Img = Img(data: seq<Byte>, width: int, height: int, palette: Palette)

  /** `INT_MAX`: `width` and `height` are C `int`s. */
  const IntMax: int := 0x7fff_ffff

  /** The dimensions are non-negative `int`s and `data` holds every pixel. */
  predicate WellFormed(img: Img) {
    && 0 <= img.width <= IntMax
    && 0 <= img.height <= IntMax
    && 3 * (img.width * img.height) <= |img.data|
  }
}
