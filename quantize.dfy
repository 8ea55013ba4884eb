/**
 * The palette search of src/image.cpp: the nearest palette entry of a
 * colour, the remapping of foreground pixels to it, the rounded channel
 * means of the k-means update, and the weights of the k-means++ seeding.
 */
module Quantize {
  import opened Defs
  import opened Colour
  import opened Background

  /**
   * After the scan has looked at entries `lo..entry-1`, `c` is the one
   * nearest to `px` among them, the lowest one on ties: the scans keep a
   * candidate only when an entry is strictly closer.
   */
  ghost predicate Leads(palette: Palette, px: Rgb, lo: nat, entry: nat, c: nat) {
    && lo <= c < entry <= PaletteSize
    && (forall e :: lo <= e < entry ==> Dist2(px, palette[c]) <= Dist2(px, palette[e]))
    && (forall e :: lo <= e < c ==> Dist2(px, palette[e]) > Dist2(px, palette[c]))
  }

  /** `c` is the entry among `lo..15` nearest to `px`, the lowest one on ties. */
  ghost predicate IsNearest(palette: Palette, px: Rgb, lo: nat, c: nat) {
    Leads(palette, px, lo, PaletteSize, c)
  }

  /** The nearest entry is determined: two candidates that both qualify are the same. */
  lemma NearestUnique(palette: Palette, px: Rgb, lo: nat, c: nat, d: nat)
    requires IsNearest(palette, px, lo, c) && IsNearest(palette, px, lo, d)
    ensures c == d
  {
    assert Dist2(px, palette[c]) <= Dist2(px, palette[d]);
    assert Dist2(px, palette[d]) <= Dist2(px, palette[c]);
  }

  /**
   * One step of the scan: the candidate is replaced by the next entry
   * exactly when that entry is strictly closer, and it still leads.
   */
  lemma LeadsStep(palette: Palette, px: Rgb, lo: nat, entry: nat, c: nat)
    requires Leads(palette, px, lo, entry, c) && entry < PaletteSize
    ensures Dist2(px, palette[c]) > Dist2(px, palette[entry]) ==> Leads(palette, px, lo, entry + 1, entry)
    ensures Dist2(px, palette[c]) <= Dist2(px, palette[entry]) ==> Leads(palette, px, lo, entry + 1, c)
  {
  }

  /** The position in `cands` of the colour nearest to `px`, the first one on ties. */
  function Closest(cands: seq<Rgb>, px: Rgb): (k: nat)
    requires |cands| > 0
    ensures k < |cands|
    decreases |cands|
  {
    if |cands| == 1 then 0
    else
      var rest := 1 + Closest(cands[1..], px);
      if Dist2(px, cands[0]) <= Dist2(px, cands[rest]) then 0 else rest
  }

  /** No colour of `cands` is nearer than the closest, and every one before it is strictly farther. */
  lemma {:induction false} ClosestIsNearest(cands: seq<Rgb>, px: Rgb)
    requires |cands| > 0
    ensures forall e :: 0 <= e < |cands| ==> Dist2(px, cands[Closest(cands, px)]) <= Dist2(px, cands[e])
    ensures forall e :: 0 <= e < Closest(cands, px) ==> Dist2(px, cands[e]) > Dist2(px, cands[Closest(cands, px)])
    decreases |cands|
  {
    if |cands| > 1 {
      var tail := cands[1..];
      ClosestIsNearest(tail, px);
      var r := Closest(tail, px);
      assert cands[1 + r] == tail[r];
      forall e | 1 <= e < |cands|
        ensures Dist2(px, cands[1 + r]) <= Dist2(px, cands[e])
      {
        assert cands[e] == tail[e - 1];
      }
      forall e | 1 <= e < 1 + r
        ensures Dist2(px, cands[e]) > Dist2(px, cands[1 + r])
      {
        assert cands[e] == tail[e - 1];
      }
    }
  }

  /** The nearest entry among `lo..15`, lowest on ties. */
  function Nearest(palette: Palette, px: Rgb, lo: nat): (c: nat)
    requires lo < PaletteSize
    ensures lo <= c < PaletteSize
  {
    lo + Closest(palette[lo..], px)
  }

  /**
   * `Nearest` is what its name says: no entry of `lo..15` is closer, and
   * every entry before it is strictly farther.
   */
  lemma NearestIsNearest(palette: Palette, px: Rgb, lo: nat)
    requires lo < PaletteSize
    ensures IsNearest(palette, px, lo, Nearest(palette, px, lo))
  {
    var cands := palette[lo..];
    ClosestIsNearest(cands, px);
    var k := Closest(cands, px);
    assert palette[lo + k] == cands[k];
    forall e | lo <= e < PaletteSize
      ensures Dist2(px, palette[lo + k]) <= Dist2(px, palette[e])
    {
      assert palette[e] == cands[e - lo];
    }
    forall e | lo <= e < lo + k
      ensures Dist2(px, palette[e]) > Dist2(px, palette[lo + k])
    {
      assert palette[e] == cands[e - lo];
    }
  }

  /**
   * The entry loop of `make_palette` and `use_palette` (from entry
   * `lo` = 0) and of the k-means assignment (from 1): `best` starts at
   * `FLT_MAX` and an entry replaces the candidate only when strictly
   * closer.
   */
  method FindNearest(palette: Palette, px: Rgb, lo: nat) returns (c: nat)
    requires lo < PaletteSize
    ensures c == Nearest(palette, px, lo)
  {
    var best: real := FltMax;
    c := 0;
    var entry := lo;
    while entry < PaletteSize
      invariant lo <= entry <= PaletteSize
      invariant entry == lo ==> best == FltMax
      invariant entry > lo ==> Leads(palette, px, lo, entry, c) && best == Dist2(px, palette[c]) as real
    {
      Dist2Properties(px, palette[entry]);
      var dist := Dist2(px, palette[entry]) as real;
      if entry > lo {
        LeadsStep(palette, px, lo, entry, c);
      }
      if best > dist {
        best := dist;
        c := entry;
      }
      entry := entry + 1;
    }
    NearestIsNearest(palette, px, lo);
    NearestUnique(palette, px, lo, c, Nearest(palette, px, lo));
  }

  /**
   * The colour a pixel is remapped to: pixels equal to `palette[0]` are
   * not foreground and stay; any other takes the nearest of all 16
   * entries.
   */
  function Remap(palette: Palette, px: Rgb): Rgb {
    if px == palette[0] then px else palette[Nearest(palette, px, 0)]
  }

  /**
   * After remapping, every pixel is a palette colour; a foreground pixel
   * gets the palette colour closest to it.
   */
  lemma RemapInPalette(palette: Palette, px: Rgb)
    ensures Remap(palette, px) in palette
    ensures px != palette[0] ==> forall e :: 0 <= e < PaletteSize ==> Dist2(px, Remap(palette, px)) <= Dist2(px, palette[e])
  {
    NearestIsNearest(palette, px, 0);
  }

  /** Remapping twice is remapping once: a palette colour maps to itself. */
  lemma RemapIdempotent(palette: Palette, px: Rgb)
    ensures Remap(palette, Remap(palette, px)) == Remap(palette, px)
  {
    var q := Remap(palette, px);
    if q != palette[0] {
      var c := Nearest(palette, px, 0);
      assert q == palette[c];
      var d := Nearest(palette, q, 0);
      NearestIsNearest(palette, q, 0);
      Dist2Properties(q, palette[c]);
      Dist2Properties(q, palette[d]);
      assert Dist2(q, palette[d]) <= Dist2(q, palette[c]) == 0;
    }
  }

  /** A whole pixel sequence remapped. */
  function RemapAll(palette: Palette, pixels: seq<Rgb>): (out: seq<Rgb>)
    ensures |out| == |pixels|
  {
    if pixels == [] then []
    else RemapAll(palette, pixels[..|pixels| - 1]) + [Remap(palette, pixels[|pixels| - 1])]
  }

  /** Position `i` of the remapped image is the remapped pixel `i`. */
  lemma {:induction false} RemapAllAt(palette: Palette, pixels: seq<Rgb>, i: nat)
    requires i < |pixels|
    ensures RemapAll(palette, pixels)[i] == Remap(palette, pixels[i])
    decreases |pixels|
  {
    var k := |pixels| - 1;
    if i < k {
      RemapAllAt(palette, pixels[..k], i);
    }
  }

  /** Remapping an image twice is remapping it once: `use_palette` is idempotent. */
  lemma RemapAllIdempotent(palette: Palette, pixels: seq<Rgb>)
    ensures RemapAll(palette, RemapAll(palette, pixels)) == RemapAll(palette, pixels)
  {
    var once := RemapAll(palette, pixels);
    forall i | 0 <= i < |pixels|
      ensures RemapAll(palette, once)[i] == once[i]
    {
      RemapAllAt(palette, pixels, i);
      RemapAllAt(palette, once, i);
      RemapIdempotent(palette, pixels[i]);
    }
  }

  /**
   * The positions of the pixels that differ from `bg`, in increasing
   * order: the foreground of the remapping and of the sample.
   */
  function Foreground(pixels: seq<Rgb>, bg: Rgb): (fg: seq<nat>)
    ensures |fg| == |pixels| - Count(pixels, bg)
    ensures forall j :: 0 <= j < |fg| ==> fg[j] < |pixels|
  {
    if pixels == [] then []
    else
      var k := |pixels| - 1;
      var init := Foreground(pixels[..k], bg);
      if pixels[k] != bg then init + [k] else init
  }

  /**
   * The foreground lists exactly the non-background positions, each once
   * and in increasing order.
   */
  lemma {:induction false} ForegroundExact(pixels: seq<Rgb>, bg: Rgb)
    ensures forall j :: 0 <= j < |Foreground(pixels, bg)| ==> pixels[Foreground(pixels, bg)[j]] != bg
    ensures forall j, k :: 0 <= j < k < |Foreground(pixels, bg)| ==> Foreground(pixels, bg)[j] < Foreground(pixels, bg)[k]
    ensures forall i :: 0 <= i < |pixels| && pixels[i] != bg ==> i in Foreground(pixels, bg)
  {
    if pixels != [] {
      var k := |pixels| - 1;
      var init := pixels[..k];
      ForegroundExact(init, bg);
      var fg := Foreground(pixels, bg);
      var fi := Foreground(init, bg);
      assert forall j :: 0 <= j < |fi| ==> pixels[fi[j]] == init[fi[j]];
      if pixels[k] != bg {
        assert fg == fi + [k];
      } else {
        assert fg == fi;
      }
    }
  }

  /** The foreground-collection loop of `make_palette` and `use_palette`. */
  method CollectForeground(pixels: seq<Rgb>, bg: Rgb) returns (fg: seq<nat>)
    ensures fg == Foreground(pixels, bg)
  {
    fg := [];
    var i := 0;
    while i < |pixels|
      invariant 0 <= i <= |pixels|
      invariant fg == Foreground(pixels[..i], bg)
    {
      assert pixels[..i + 1][..i] == pixels[..i];
      if pixels[i] != bg {
        fg := fg + [i];
      }
      i := i + 1;
    }
    assert pixels[..i] == pixels;
  }

  /**
   * `(int)std::min(size, (size_t)cfg.sampled)`: a negative setting
   * converts to a huge unsigned value and so does not limit the sample.
   */
  function SampleCount(size: nat, sampled: int): (n: nat)
    ensures n <= size
    ensures sampled >= 0 ==> n <= sampled
    ensures n == size || n == sampled
  {
    if sampled < 0 || size <= sampled then size else sampled
  }

  /**
   * `std::roundf(sum / count)` for a non-negative sum: the nearest
   * integer, halves rounded up. A mean of bytes is again a byte.
   */
  function RoundedMean(sum: nat, count: nat): (m: nat)
    requires count > 0
    ensures 2 * (m * count) <= 2 * sum + count < 2 * (m * count) + 2 * count
    ensures sum <= 255 * count ==> m <= 255
  {
    DivisionBounds(sum, count);
    (2 * sum + count) / (2 * count)
  }

  lemma DivisionBounds(sum: nat, count: nat)
    requires count > 0
    ensures var q := (2 * sum + count) / (2 * count);
      && 2 * (q * count) <= 2 * sum + count < 2 * (q * count) + 2 * count
      && (sum <= 255 * count ==> q <= 255)
  {
    var x, d := 2 * sum + count, 2 * count;
    var q := x / d;
    assert q * d <= x < q * d + d;
    assert 2 * (q * count) == q * d;
    if sum <= 255 * count && q > 255 {
      Colour.MulLe(256, q, d);
    }
  }

  /** Channel `ch` (0 red, 1 green, 2 blue) of a colour. */
  function Channel(c: Rgb, ch: nat): Byte {
    if ch == 0 then c.r else if ch == 1 then c.g else c.b
  }

  /** Samples assigned to `entry`. */
  function CountWhere(means: seq<int>, entry: int): nat {
    if means == [] then 0
    else CountWhere(means[..|means| - 1], entry) + (if means[|means| - 1] == entry then 1 else 0)
  }

  /** Sum of channel `ch` over the samples assigned to `entry`. */
  function SumWhere(samples: seq<Rgb>, means: seq<int>, entry: int, ch: nat): (sum: nat)
    requires |means| == |samples|
    ensures sum <= 255 * CountWhere(means, entry)
  {
    if means == [] then 0
    else
      var k := |means| - 1;
      SumWhere(samples[..k], means[..k], entry, ch) + (if means[k] == entry then Channel(samples[k], ch) else 0)
  }

  /**
   * The centroid update of one entry: an entry no sample is assigned to
   * keeps its colour, any other becomes the rounded mean of its samples,
   * channel by channel.
   */
  function Centroid(samples: seq<Rgb>, means: seq<int>, entry: int, current: Rgb): Rgb
    requires |means| == |samples|
  {
    var count := CountWhere(means, entry);
    if count == 0 then current
    else Rgb(RoundedMean(SumWhere(samples, means, entry, 0), count),
             RoundedMean(SumWhere(samples, means, entry, 1), count),
             RoundedMean(SumWhere(samples, means, entry, 2), count))
  }

  /**
   * A centroid lies inside the bounding box of the samples assigned to
   * its entry: if every such sample has a channel between `lo` and `hi`,
   * so has the centroid; a sample set of one colour has that colour as
   * its centroid.
   */
  lemma CentroidWithin(samples: seq<Rgb>, means: seq<int>, entry: int, current: Rgb, ch: nat, lo: nat, hi: nat)
    requires |means| == |samples| && CountWhere(means, entry) > 0 && ch <= 2
    requires forall k :: 0 <= k < |samples| && means[k] == entry ==> lo <= Channel(samples[k], ch) <= hi
    ensures lo <= Channel(Centroid(samples, means, entry, current), ch) <= hi
  {
    var count := CountWhere(means, entry);
    var sum := SumWhere(samples, means, entry, ch);
    SumWhereBetween(samples, means, entry, ch, lo, hi);
    var m := RoundedMean(sum, count);
    assert Channel(Centroid(samples, means, entry, current), ch) == m;
    ScaledLe(m, hi, count);
    ScaledLt(lo, m, count);
  }

  /** `2ac <= 2bc + c` with `c > 0` forces `a <= b`. */
  lemma ScaledLe(a: int, b: int, c: int)
    requires c > 0 && 2 * (a * c) <= 2 * (b * c) + c
    ensures a <= b
  {
    assert a * c - b * c == (a - b) * c;
    MulSign(a - b, c);
  }

  /** `ac < bc + c` with `c > 0` forces `a <= b`. */
  lemma ScaledLt(a: int, b: int, c: int)
    requires c > 0 && a * c < b * c + c
    ensures a <= b
  {
    assert a * c - b * c == (a - b) * c;
    MulSign(a - b, c);
  }

  /** A product with a non-negative factor `c` is at least `c` when `d >= 1` and at most 0 when `d <= 0`. */
  lemma MulSign(d: int, c: int)
    requires c >= 0
    ensures d >= 1 ==> d * c >= c
    ensures d <= 0 ==> d * c <= 0
  {
    if d >= 1 {
      Colour.MulLe(1, d, c);
    } else {
      Colour.MulLe(0, -d, c);
      assert d * c == -((-d) * c);
    }
  }

  lemma {:induction false} SumWhereBetween(samples: seq<Rgb>, means: seq<int>, entry: int, ch: nat, lo: nat, hi: nat)
    requires |means| == |samples|
    requires forall k :: 0 <= k < |samples| && means[k] == entry ==> lo <= Channel(samples[k], ch) <= hi
    ensures lo * CountWhere(means, entry) <= SumWhere(samples, means, entry, ch) <= hi * CountWhere(means, entry)
  {
    if means != [] {
      var k := |means| - 1;
      SumWhereBetween(samples[..k], means[..k], entry, ch, lo, hi);
      var c0 := CountWhere(means[..k], entry);
      var s0 := SumWhere(samples[..k], means[..k], entry, ch);
      if means[k] == entry {
        assert CountWhere(means, entry) == c0 + 1;
        assert SumWhere(samples, means, entry, ch) == s0 + Channel(samples[k], ch);
        MulSucc(lo, c0);
        MulSucc(hi, c0);
      } else {
        assert CountWhere(means, entry) == c0;
        assert SumWhere(samples, means, entry, ch) == s0;
      }
    }
  }

  lemma MulSucc(a: int, n: int)
    ensures a * (n + 1) == a * n + a
  {
  }

  /**
   * The summing loop of one centroid update: count and channel sums of
   * the samples assigned to `entry`.
   */
  method SumAssigned(samples: seq<Rgb>, means: seq<int>, entry: int) returns (count: nat, r: nat, g: nat, b: nat)
    requires |means| == |samples|
    ensures count == CountWhere(means, entry)
    ensures r == SumWhere(samples, means, entry, 0)
    ensures g == SumWhere(samples, means, entry, 1)
    ensures b == SumWhere(samples, means, entry, 2)
  {
    count, r, g, b := 0, 0, 0, 0;
    var i := 0;
    while i < |samples|
      invariant 0 <= i <= |samples|
      invariant count == CountWhere(means[..i], entry)
      invariant r == SumWhere(samples[..i], means[..i], entry, 0)
      invariant g == SumWhere(samples[..i], means[..i], entry, 1)
      invariant b == SumWhere(samples[..i], means[..i], entry, 2)
    {
      assert samples[..i + 1][..i] == samples[..i];
      assert means[..i + 1][..i] == means[..i];
      if means[i] == entry {
        r := r + samples[i].r;
        g := g + samples[i].g;
        b := b + samples[i].b;
        count := count + 1;
      }
      i := i + 1;
    }
    assert samples[..i] == samples && means[..i] == means;
  }

  /**
   * The k-means++ weight of a sample once the centres `chosen` (entries
   * 1, 2, ...) are placed: 0 for a sample equal to a centre (its
   * distance became 0 when that centre was placed and is never
   * recomputed), otherwise its squared distance to the latest centre
   * only.
   */
  function Weight(s: Rgb, chosen: seq<Rgb>): int
    requires chosen != []
  {
    if s in chosen then 0 else Dist2(s, chosen[|chosen| - 1])
  }

  /**
   * A weight is positive exactly for the samples that are not yet a
   * centre, and never exceeds the largest squared colour distance.
   */
  lemma WeightPositive(s: Rgb, chosen: seq<Rgb>)
    requires chosen != []
    ensures 0 <= Weight(s, chosen) <= MaxDist2
    ensures Weight(s, chosen) > 0 <==> s !in chosen
  {
    Dist2Properties(s, chosen[|chosen| - 1]);
  }
}
