/**
 * The background of `make_background` (src/image.cpp:37-93): the most
 * frequent colour, found by counting pixels in a map keyed by the packed
 * colour, and the threshold rules that decide which pixels are painted
 * over with the background.
 */
module Background {
  import opened Defs
  import opened Config
  import opened Colour
  import opened Util

  const Black: Rgb := Rgb(0, 0, 0)

  /** Occurrences of `c` in `s`. */
  function Count(s: seq<Rgb>, c: Rgb): nat {
    if s == [] then 0
    else Count(s[..|s| - 1], c) + (if s[|s| - 1] == c then 1 else 0)
  }

  /** `(b << 16) | (g << 8) | r`: the map key of a colour. */
  function Key(c: Rgb): int {
    c.b * 0x1_0000 + c.g * 0x100 + c.r
  }

  /** Distinct colours have distinct keys, so the map counts colours. */
  lemma KeyInjective(a: Rgb, b: Rgb)
    ensures Key(a) == Key(b) ==> a == b
  {
    KeyParts(a);
    KeyParts(b);
  }

  /** The key is the three bytes as base-256 digits, and they can be read back. */
  lemma KeyParts(c: Rgb)
    ensures Key(c) % 0x100 == c.r && Key(c) / 0x100 % 0x100 == c.g && Key(c) / 0x100 / 0x100 == c.b
  {
    var high := c.b * 0x100 + c.g;
    assert Key(c) == high * 0x100 + c.r;
    ModUnique(Key(c), 0x100, high, c.r);
    ModUnique(high, 0x100, c.b, c.g);
  }

  /** `counts[key]`, where `operator[]` inserts a zero for a missing key. */
  function Lookup(counts: map<int, nat>, key: int): nat {
    if key in counts then counts[key] else 0
  }

  /**
   * The scan of the counting loop: the largest count so far and the
   * colour that holds it. A colour takes the lead only when its count
   * strictly exceeds the previous maximum.
   */
  function Tally(pixels: seq<Rgb>): (result: (nat, Rgb)) {
    if pixels == [] then (0, Black)
    else
      var previous := Tally(pixels[..|pixels| - 1]);
      var last := pixels[|pixels| - 1];
      var count := Count(pixels, last);
      if count > previous.0 then (count, last) else previous
  }

  /** Within the prefix `pre`, `bg` has already reached count `m` and no other colour has. */
  ghost predicate ReachedFirst(pre: seq<Rgb>, bg: Rgb, m: nat) {
    Count(pre, bg) == m && forall c :: c != bg ==> Count(pre, c) < m
  }

  /**
   * `bg` is a background of `pixels`: no colour is more frequent, and
   * among the most frequent ones it is the first to reach that count in
   * scan order; black for an image with no pixels.
   */
  ghost predicate IsBackground(pixels: seq<Rgb>, bg: Rgb) {
    && (forall c :: Count(pixels, c) <= Count(pixels, bg))
    && (pixels == [] ==> bg == Black)
    && (pixels != [] ==> exists p :: 0 < p <= |pixels| && ReachedFirst(pixels[..p], bg, Count(pixels, bg)))
  }

  lemma {:induction false} CountPrefixMono(s: seq<Rgb>, i: nat, j: nat, c: Rgb)
    requires i <= j <= |s|
    ensures Count(s[..i], c) <= Count(s[..j], c)
    decreases j - i
  {
    if i < j {
      CountPrefixMono(s, i, j - 1, c);
      assert s[..j][..j - 1] == s[..j - 1];
    }
  }

  /** The scan's leader is a background, and its count is the maximum. */
  lemma {:induction false} TallyIsBackground(pixels: seq<Rgb>)
    ensures Tally(pixels).0 == Count(pixels, Tally(pixels).1)
    ensures IsBackground(pixels, Tally(pixels).1)
  {
    if pixels != [] {
      var init := pixels[..|pixels| - 1];
      var last := pixels[|pixels| - 1];
      assert pixels[..|pixels| - 1] == init;
      TallyIsBackground(init);
      var (m, b) := Tally(init);
      var count := Count(pixels, last);
      assert count == Count(init, last) + 1;
      if count > m {
        assert pixels[..|pixels|] == pixels;
        forall c | c != last
          ensures Count(pixels, c) < count
        {
          assert Count(pixels, c) == Count(init, c);
        }
        assert ReachedFirst(pixels[..|pixels|], last, count);
      } else {
        assert init != [];
        assert b != last;
        assert Count(pixels, b) == m;
        forall c
          ensures Count(pixels, c) <= m
        {
          assert Count(pixels, c) == Count(init, c) + (if c == last then 1 else 0);
        }
        var p :| 0 < p <= |init| && ReachedFirst(init[..p], b, m);
        assert pixels[..p] == init[..p];
        assert ReachedFirst(pixels[..p], b, m);
      }
    }
  }

  /** At most one colour is a background: the definition leaves no choice. */
  lemma BackgroundUnique(pixels: seq<Rgb>, a: Rgb, b: Rgb)
    requires IsBackground(pixels, a) && IsBackground(pixels, b)
    ensures a == b
  {
    if pixels != [] {
      var m := Count(pixels, a);
      assert Count(pixels, b) == m;
      var pa :| 0 < pa <= |pixels| && ReachedFirst(pixels[..pa], a, m);
      var pb :| 0 < pb <= |pixels| && ReachedFirst(pixels[..pb], b, m);
      if pa <= pb {
        CountPrefixMono(pixels, pa, pb, a);
      } else {
        CountPrefixMono(pixels, pb, pa, b);
      }
    }
  }

  /**
   * The colour the masking compares against: the "before" override when
   * it is on, otherwise the background of the pixels.
   */
  function ChosenBackground(pixels: seq<Rgb>, cfg: Configuration): Rgb {
    if cfg.ovrBgBefore then cfg.ovrBgBeforeCol else Tally(pixels).1
  }

  /**
   * The counting loop of `make_background`: every pixel increments its
   * colour's counter, and a counter that exceeds the running maximum
   * makes its colour the background.
   */
  method ScanBackground(pixels: seq<Rgb>) returns (bg: Rgb)
    ensures IsBackground(pixels, bg)
    ensures bg == Tally(pixels).1
  {
    var counts: map<int, nat> := map[];
    var max: nat := 0;
    bg := Black;
    var i := 0;
    while i < |pixels|
      invariant 0 <= i <= |pixels|
      invariant (max, bg) == Tally(pixels[..i])
      invariant forall c :: Lookup(counts, Key(c)) == Count(pixels[..i], c)
    {
      var x := pixels[i];
      var count := Lookup(counts, Key(x)) + 1;
      assert pixels[..i + 1][..i] == pixels[..i];
      forall c
        ensures Lookup(counts[Key(x) := count], Key(c)) == Count(pixels[..i + 1], c)
      {
        KeyInjective(c, x);
      }
      counts := counts[Key(x) := count];
      if count > max {
        max := count;
        bg := x;
      }
      i := i + 1;
    }
    assert pixels[..i] == pixels;
    TallyIsBackground(pixels);
  }

  /** Some rule of the list matches the pixel. */
  predicate AnyMatch(pixel: Hsv, background: Hsv, thrs: seq<Threshold>, dark: bool) {
    exists k :: 0 <= k < |thrs| && Matches(pixel, background, thrs[k], dark)
  }

  /**
   * The rule loop for one pixel: rules are tried in list order and the
   * first that matches ends the loop. Every matching rule recolours the
   * same way, so what counts is whether one matches.
   */
  method FirstMatch(pixel: Hsv, background: Hsv, thrs: seq<Threshold>, dark: bool) returns (found: bool)
    ensures found <==> AnyMatch(pixel, background, thrs, dark)
  {
    found := false;
    var k := 0;
    while k < |thrs|
      invariant 0 <= k <= |thrs|
      invariant forall j :: 0 <= j < k ==> !Matches(pixel, background, thrs[j], dark)
    {
      if Matches(pixel, background, thrs[k], dark) {
        found := true;
        return;
      }
      k := k + 1;
    }
  }

  /** What a matched pixel is painted with: the "after" override colour, or the background. */
  function Paint(bg: Rgb, cfg: Configuration): Rgb {
    if cfg.ovrBgAfter then cfg.ovrBgAfterCol else bg
  }

  /** One output pixel: painted when a rule matches it, otherwise its dewarped colour. */
  function MaskPixel(px: Rgb, bg: Rgb, thrs: seq<Threshold>, cfg: Configuration): Rgb {
    if AnyMatch(PixelHsv(px), PixelHsv(bg), thrs, cfg.dark) then Paint(bg, cfg) else px
  }

  /** The masked image: every pixel passed through `MaskPixel`. */
  function Masked(pixels: seq<Rgb>, bg: Rgb, thrs: seq<Threshold>, cfg: Configuration): (out: seq<Rgb>)
    ensures |out| == |pixels|
  {
    seq(|pixels|, i requires 0 <= i < |pixels| => MaskPixel(pixels[i], bg, thrs, cfg))
  }

  /** A rule whose three tolerances are non-negative, so a zero difference is within them. */
  predicate Tolerant(thr: Threshold) {
    thr.diff.h >= 0.0 && thr.diff.s >= 0.0 && thr.diff.v >= 0.0
  }

  /**
   * Masking only ever paints: every output pixel is either its input or
   * the paint colour, and with no rules the image is unchanged. A pixel
   * equal to the background is painted as soon as some rule is
   * tolerant, whatever the mode.
   */
  lemma MaskedPaintsOnly(pixels: seq<Rgb>, bg: Rgb, thrs: seq<Threshold>, cfg: Configuration)
    ensures forall i :: 0 <= i < |pixels| ==>
      Masked(pixels, bg, thrs, cfg)[i] == pixels[i] || Masked(pixels, bg, thrs, cfg)[i] == Paint(bg, cfg)
    ensures thrs == [] ==> Masked(pixels, bg, thrs, cfg) == pixels
    ensures (exists k :: 0 <= k < |thrs| && Tolerant(thrs[k])) ==>
      forall i :: 0 <= i < |pixels| && pixels[i] == bg ==> Masked(pixels, bg, thrs, cfg)[i] == Paint(bg, cfg)
  {
    if k :| 0 <= k < |thrs| && Tolerant(thrs[k]) {
      BackgroundMatches(bg, thrs[k], cfg.dark);
    }
  }

  /** Two rule lists that differ at most in their `enabled` flags. */
  predicate SameButEnabled(thrs: seq<Threshold>, others: seq<Threshold>) {
    |thrs| == |others| && forall k :: 0 <= k < |thrs| ==> others[k] == thrs[k].(enabled := others[k].enabled)
  }

  /**
   * `make_background` never reads a rule's `enabled` flag: rule lists
   * that differ only there mask every image alike.
   */
  lemma MaskedIgnoresEnabled(pixels: seq<Rgb>, bg: Rgb, thrs: seq<Threshold>, others: seq<Threshold>, cfg: Configuration)
    requires SameButEnabled(thrs, others)
    ensures Masked(pixels, bg, thrs, cfg) == Masked(pixels, bg, others, cfg)
  {
    forall i | 0 <= i < |pixels|
      ensures MaskPixel(pixels[i], bg, thrs, cfg) == MaskPixel(pixels[i], bg, others, cfg)
    {
      assert forall k :: 0 <= k < |thrs| ==>
        Matches(PixelHsv(pixels[i]), PixelHsv(bg), thrs[k], cfg.dark) == Matches(PixelHsv(pixels[i]), PixelHsv(bg), others[k], cfg.dark);
    }
  }

  /** A background pixel matches every tolerant rule. */
  lemma BackgroundMatches(bg: Rgb, thr: Threshold, dark: bool)
    requires Tolerant(thr)
    ensures Matches(PixelHsv(bg), PixelHsv(bg), thr, dark)
  {
    HsvDiffProperties(PixelHsv(bg), PixelHsv(bg));
  }
}
