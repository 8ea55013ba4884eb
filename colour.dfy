/**
 * Colour arithmetic of the background masking and the palette search
 * (src/image.cpp): the RGB to HSV conversion, the HSV difference with
 * its circular hue, the squared RGB distance, and the test of one
 * background threshold rule. Single-precision floats are modelled as
 * `real`; squared distances of bytes are exact integers.
 */
module Colour {
  import opened Defs
  import opened Config

  function Max3(a: real, b: real, c: real): (m: real)
    ensures m >= a && m >= b && m >= c && (m == a || m == b || m == c)
  {
    if a >= b && a >= c then a else if b >= c then b else c
  }

  function Min3(a: real, b: real, c: real): (m: real)
    ensures m <= a && m <= b && m <= c && (m == a || m == b || m == c)
  {
    if a <= b && a <= c then a else if b <= c then b else c
  }

  /** `x / 255`: a channel as a fraction of full intensity. */
  function Unit(x: Byte): (u: real)
    ensures 0.0 <= u <= 1.0
  {
    x as real / 255.0
  }

  /**
   * `to_hsv`: value is the largest channel, saturation the spread over
   * the value (0 for black), and the hue is taken from the sector of the
   * largest channel (red, then green, then blue on ties), shifted into
   * [0, 6) and scaled by 60 degrees. A grey pixel has hue 0.
   */
  function ToHsv(r: Byte, g: Byte, b: Byte): (c: Hsv)
  {
    var rr, gg, bb := Unit(r), Unit(g), Unit(b);
    var v := Max3(rr, gg, bb);
    var d := v - Min3(rr, gg, bb);
    var s := if v != 0.0 then d / v else 0.0;
    if d <= 0.0 then Hsv(0.0, s, v)
    else
      var h :=
        if v == rr then (gg - bb) / d + 0.0
        else if v == gg then (bb - rr) / d + 2.0
        else if v == bb then (rr - gg) / d + 4.0
        else 0.0;
      var h' := if h < 0.0 then h + 6.0 else h;
      Hsv(h' * 60.0, s, v)
  }

  /** The HSV of a pixel. */
  function PixelHsv(c: Rgb): Hsv {
    ToHsv(c.r, c.g, c.b)
  }

  /** A quotient of numbers no larger than the divisor in size lies in [-1, 1]. */
  lemma QuotientInUnit(a: real, d: real)
    requires d > 0.0 && -d <= a <= d
    ensures -1.0 <= a / d <= 1.0
  {
  }

  /**
   * The conversion lands in the HSV cube: hue in [0, 360), saturation
   * and value in [0, 1]; the value is the largest channel over 255, and
   * the saturation and the hue are 0 exactly for greys.
   */
  lemma ToHsvRange(r: Byte, g: Byte, b: Byte)
    ensures var c := ToHsv(r, g, b);
      && 0.0 <= c.h < 360.0 && 0.0 <= c.s <= 1.0 && 0.0 <= c.v <= 1.0
      && c.v == Max3(Unit(r), Unit(g), Unit(b))
      && (r == g == b <==> c.s == 0.0)
      && (r == g == b ==> c.h == 0.0)
  {
    var rr, gg, bb := Unit(r), Unit(g), Unit(b);
    var v := Max3(rr, gg, bb);
    var d := v - Min3(rr, gg, bb);
    if v != 0.0 {
      QuotientInUnit(d, v);
      if d > 0.0 {
        assert d / v > 0.0;
      }
    }
    if d > 0.0 {
      if v == rr {
        QuotientInUnit(gg - bb, d);
      } else if v == gg {
        QuotientInUnit(bb - rr, d);
      } else {
        QuotientInUnit(rr - gg, d);
      }
    }
  }

  /** Pure red, green and blue sit at hues 0, 120 and 240, fully saturated. */
  lemma PrimaryHues()
    ensures ToHsv(255, 0, 0) == Hsv(0.0, 1.0, 1.0)
    ensures ToHsv(0, 255, 0) == Hsv(120.0, 1.0, 1.0)
    ensures ToHsv(0, 0, 255) == Hsv(240.0, 1.0, 1.0)
  {
  }

  /** The smaller of two reals. */
  function MinReal(a: real, b: real): real {
    if a <= b then a else b
  }

  function Abs(x: real): (y: real)
    ensures y >= 0.0 && (y == x || y == -x)
  {
    if x < 0.0 then -x else x
  }

  /**
   * `hsv_diff`: componentwise distance, the hue measured the short way
   * round the colour circle.
   */
  function HsvDiff(x: Hsv, y: Hsv): Hsv {
    var h := Abs(x.h - y.h);
    Hsv(MinReal(h, 360.0 - h), Abs(x.s - y.s), Abs(x.v - y.v))
  }

  /** A hue in [0, 360). */
  predicate HueInRange(c: Hsv) {
    0.0 <= c.h < 360.0
  }

  /**
   * The difference is symmetric and zero on equal colours; for hues in
   * [0, 360) the hue difference is the circular one, within [0, 180].
   */
  lemma HsvDiffProperties(x: Hsv, y: Hsv)
    ensures HsvDiff(x, y) == HsvDiff(y, x)
    ensures HsvDiff(x, x) == Hsv(0.0, 0.0, 0.0)
    ensures HsvDiff(x, y).s >= 0.0 && HsvDiff(x, y).v >= 0.0
    ensures HueInRange(x) && HueInRange(y) ==> 0.0 <= HsvDiff(x, y).h <= 180.0
    ensures HueInRange(x) && HueInRange(y) ==>
      HsvDiff(x, y).h == MinReal(Abs(x.h - y.h), 360.0 - Abs(x.h - y.h))
  {
    assert Abs(x.h - y.h) == Abs(y.h - x.h);
    assert Abs(x.s - y.s) == Abs(y.s - x.s);
    assert Abs(x.v - y.v) == Abs(y.v - x.v);
  }

  /** `dist2`: squared Euclidean distance of two colours in RGB space. */
  function Dist2(left: Rgb, right: Rgb): int {
    var dr, dg, db := left.r - right.r, left.g - right.g, left.b - right.b;
    dr * dr + dg * dg + db * db
  }

  /** The largest possible squared distance, black to white. */
  const MaxDist2: int := 3 * 255 * 255

  /** `dist2` is a symmetric, non-negative distance that is 0 only on equal colours. */
  lemma Dist2Properties(a: Rgb, b: Rgb)
    ensures 0 <= Dist2(a, b) <= MaxDist2
    ensures Dist2(a, b) == Dist2(b, a)
    ensures Dist2(a, b) == 0 <==> a == b
  {
    var dr, dg, db := a.r - b.r, a.g - b.g, a.b - b.b;
    SquareFacts(dr);
    SquareFacts(dg);
    SquareFacts(db);
    assert Dist2(b, a) == (-dr) * (-dr) + (-dg) * (-dg) + (-db) * (-db);
    assert (-dr) * (-dr) == dr * dr && (-dg) * (-dg) == dg * dg && (-db) * (-db) == db * db;
  }

  /** The square of a byte difference lies in [0, 255^2] and vanishes only at 0. */
  lemma SquareFacts(x: int)
    requires -255 <= x <= 255
    ensures 0 <= x * x <= 255 * 255
    ensures x * x == 0 ==> x == 0
  {
    var y := if x < 0 then -x else x;
    assert x * x == y * y;
    MulLe(y, 255, y);
    MulLe(y, 255, 255);
    if y > 0 {
      MulLe(1, y, y);
    }
  }

  lemma MulLe(a: int, b: int, c: int)
    requires 0 <= a <= b && 0 <= c
    ensures 0 <= a * c <= b * c
  {
  }

  /**
   * One threshold rule tried on a pixel (src/image.cpp:72-77): the
   * rule is skipped when the hue or saturation difference is too large,
   * in range mode when the value difference is too large, and in
   * compare mode when the pixel is darker (light backgrounds) or
   * lighter (dark mode) than the background by more than the tolerance.
   */
  predicate Matches(pixel: Hsv, background: Hsv, thr: Threshold, dark: bool) {
    var diff := HsvDiff(pixel, background);
    if diff.h > thr.diff.h || diff.s > thr.diff.s || (!thr.mode && diff.v > thr.diff.v) then false
    else if thr.mode && !dark && pixel.v < background.v - thr.diff.v then false
    else if thr.mode && dark && pixel.v > background.v + thr.diff.v then false
    else true
  }

  /**
   * Widening a rule's tolerances never stops it matching: a pixel a
   * rule paints is still painted after any of its sliders is raised.
   */
  lemma WiderMatches(pixel: Hsv, background: Hsv, thr: Threshold, wider: Threshold, dark: bool)
    requires wider.mode == thr.mode
    requires thr.diff.h <= wider.diff.h && thr.diff.s <= wider.diff.s && thr.diff.v <= wider.diff.v
    requires Matches(pixel, background, thr, dark)
    ensures Matches(pixel, background, wider, dark)
  {
  }

  /**
   * Range mode is the stricter of the two: a pixel whose value lies
   * within the tolerance on both sides of the background's also passes
   * the one-sided compare test, in light and in dark mode.
   */
  lemma RangeMatchIsCompareMatch(pixel: Hsv, background: Hsv, thr: Threshold, dark: bool)
    requires Matches(pixel, background, thr.(mode := false), dark)
    ensures Matches(pixel, background, thr.(mode := true), dark)
  {
  }
}
