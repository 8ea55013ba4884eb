/**
 * Configuration records shared by the image pipeline and the GUI
 * (inc/head.hpp): HSV triples, background threshold rules and the
 * processing configuration. Only the fields the core reads are kept.
 */
module Config {
  import opened Defs

  /** `struct hsv`: hue in degrees, saturation and value in [0,1]. */
  datatype Hsv = Hsv(h: real, s: real, v: real)

  /**
   * `struct threshold`: a background-removal rule. `mode` is false for
   * range mode (`PNGSQ_VAL_MODE_RANGE`) and true for compare mode.
   */
  datatype Threshold = Threshold(selected: bool, diff: Hsv, mode: bool, enabled: bool)

  /** What a click does once four vertices are placed (`PNGSQ_VERT_*`). */
  datatype ClickBehaviour = MoveNearest | MoveOldest | ClearAll

  /**
   * `struct config`, restricted to the fields the modelled core reads:
   * sample count, Lloyd iteration limit, dark mode, the two background
   * overrides with their colours, and the click behaviour.
   */
  datatype Configuration = Configuration(
    sampled: int,
    iters: int,
    dark: bool,
    ovrBgBefore: bool,
    ovrBgAfter: bool,
    ovrBgBeforeCol: Rgb,
    ovrBgAfterCol: Rgb,
    clickBehaviour: ClickBehaviour)
}
