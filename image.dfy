/**
 * The image pipeline of src/image.cpp on `struct image`: background
 * masking of the dewarped pixels into the output buffer, k-means++
 * seeding and Lloyd iterations over a sample of the foreground, and the
 * remapping of the foreground onto the 16-entry palette. The pixel
 * buffers are arrays of `Rgb` (`bytes_to_rgb` is a lossless view, see
 * `Defs.BytesToRgbRoundTrip`); the random draws of the seeding are
 * inputs.
 */
module Processing {
  import opened Defs
  import opened Config
  import opened Colour
  import opened Background
  import opened Quantize
  import opened Random

  /** A running improvement of the assignment scan: strictly closer than every entry before it in 1..15. */
  ghost predicate Record(palette: Palette, px: Rgb, e: int) {
    && 1 <= e < PaletteSize
    && forall d :: 1 <= d < e ==> Dist2(px, palette[e]) < Dist2(px, palette[d])
  }

  /**
   * The k-means assignment of one sample (src/image.cpp:181-191):
   * `means[i]` ends as the lowest nearest entry among 1..15. `changed`
   * is raised as soon as an improvement differs from what `means[i]`
   * holds at that moment, which is exactly when some improvement
   * differs from the assignment the sample came in with.
   */
  method AssignOne(palette: Palette, px: Rgb, current: int) returns (m: int, changed: bool)
    ensures m == Nearest(palette, px, 1)
    ensures changed <==> exists e :: Record(palette, px, e) && e != current
    ensures !changed ==> m == current
  {
    m := current;
    changed := false;
    var best: real := FltMax;
    var entry := 1;
    while entry < PaletteSize
      invariant 1 <= entry <= PaletteSize
      invariant entry == 1 ==> best == FltMax && m == current && !changed
      invariant entry > 1 ==> m >= 0 && Leads(palette, px, 1, entry, m) && best == Dist2(px, palette[m]) as real
      invariant entry > 1 ==> Record(palette, px, 1) && Record(palette, px, m)
      invariant changed <==> exists e :: e < entry && Record(palette, px, e) && e != current
      invariant !changed ==> m == current
    {
      Dist2Properties(px, palette[entry]);
      var dist := Dist2(px, palette[entry]) as real;
      if entry > 1 {
        LeadsStep(palette, px, 1, entry, m);
        RecordIff(palette, px, entry, m);
      }
      if best > dist {
        best := dist;
        if m != entry {
          changed := true;
          m := entry;
        }
      }
      entry := entry + 1;
    }
    NearestIsNearest(palette, px, 1);
    NearestUnique(palette, px, 1, m, Nearest(palette, px, 1));
  }

  /** An entry improves on the running candidate exactly when it is a running improvement. */
  lemma RecordIff(palette: Palette, px: Rgb, entry: nat, c: nat)
    requires 1 < entry < PaletteSize && Leads(palette, px, 1, entry, c)
    ensures Record(palette, px, entry) <==> Dist2(px, palette[entry]) < Dist2(px, palette[c])
  {
  }

  /**
   * The `changed` flag does not mean "the assignment changed": a sample
   * already assigned to its nearest entry raises it all the same unless
   * that entry is 1, because entry 1 always improves on `FLT_MAX` first.
   */
  lemma ChangedWithoutChange(palette: Palette, px: Rgb)
    requires Nearest(palette, px, 1) != 1
    ensures exists e :: Record(palette, px, e) && e != Nearest(palette, px, 1)
  {
    assert Record(palette, px, 1);
  }

  /** The assignment step: every sample to its lowest nearest entry among 1..15. */
  function Assignment(palette: Palette, samples: seq<Rgb>): (means: seq<int>)
    ensures |means| == |samples|
    ensures forall i :: 0 <= i < |samples| ==> 1 <= means[i] < PaletteSize
  {
    if samples == [] then []
    else Assignment(palette, samples[..|samples| - 1]) + [Nearest(palette, samples[|samples| - 1], 1)]
  }

  /** Sample `i` is assigned its nearest entry among 1..15. */
  lemma {:induction false} AssignmentAt(palette: Palette, samples: seq<Rgb>, i: nat)
    requires i < |samples|
    ensures Assignment(palette, samples)[i] == Nearest(palette, samples[i], 1)
    decreases |samples|
  {
    var k := |samples| - 1;
    if i < k {
      AssignmentAt(palette, samples[..k], i);
    }
  }

  /** The update step: entries 1..15 move to the centroids of their samples; entry 0 stays. */
  function Update(palette: Palette, samples: seq<Rgb>, means: seq<int>): (p: Palette)
    requires |means| == |samples|
    ensures p[0] == palette[0]
  {
    seq(PaletteSize, e requires 0 <= e < PaletteSize =>
      if e == 0 then palette[0] else Centroid(samples, means, e, palette[e]))
  }

  /**
   * Updating twice with the same assignment is updating once: an entry
   * with samples gets the same mean again, one without keeps its colour.
   */
  lemma UpdateIdempotent(palette: Palette, samples: seq<Rgb>, means: seq<int>)
    requires |means| == |samples|
    ensures Update(Update(palette, samples, means), samples, means) == Update(palette, samples, means)
  {
  }

  /** With no samples every entry keeps its colour. */
  lemma UpdateWithoutSamples(palette: Palette, samples: seq<Rgb>, means: seq<int>)
    requires |means| == |samples| == 0
    ensures Update(palette, samples, means) == palette
  {
    forall e | 1 <= e < PaletteSize
      ensures Update(palette, samples, means)[e] == palette[e]
    {
      assert CountWhere(means, e) == 0;
    }
  }

  /** The initial assignment: `std::make_unique<unsigned char[]>(n)` zero-fills it. */
  function Zeros(n: nat): (z: seq<int>)
    ensures |z| == n && forall i :: 0 <= i < n ==> z[i] == 0
  {
    seq(n, _ => 0)
  }

  /**
   * Lloyd's iteration as the loop at src/image.cpp:178 intends it: at
   * most `passes` passes of assignment then update, stopping after the
   * first pass whose assignment equals the previous one. It never
   * touches the background entry.
   */
  function Lloyd(palette: Palette, samples: seq<Rgb>, means: seq<int>, passes: int): (r: Palette)
    requires |means| == |samples|
    ensures r[0] == palette[0]
    decreases passes
  {
    if passes <= 0 then palette
    else
      var next := Assignment(palette, samples);
      var p := Update(palette, samples, next);
      if next == means then p else Lloyd(p, samples, next, passes - 1)
  }

  /** One pass of Lloyd's iteration: stop with the update, or go on from it. */
  lemma LloydPass(palette: Palette, samples: seq<Rgb>, means: seq<int>, passes: int)
    requires |means| == |samples| && passes > 0
    ensures var next := Assignment(palette, samples);
      Lloyd(palette, samples, means, passes) ==
        if next == means then Update(palette, samples, next) else Lloyd(Update(palette, samples, next), samples, next, passes - 1)
  {
  }

  /** The passes left after one, named. */
  lemma LloydRest(palette: Palette, samples: seq<Rgb>, means: seq<int>, passes: int, rest: int)
    requires |means| == |samples| && rest == passes - 1
    ensures Lloyd(palette, samples, means, passes - 1) == Lloyd(palette, samples, means, rest)
  {
  }

  /**
   * The state of `k_means` between passes, against the palette `target`
   * of Lloyd's iteration: the assignment is still the initial all-zero
   * one or the palette is the centroids of the assignment; until the
   * assignment settles the remaining passes lead to `target`, and once
   * it settles the palette is `target` and reproduces the assignment.
   */
  ghost predicate Converging(palette: Palette, samples: seq<Rgb>, means: seq<int>, settled: bool, passes: int, target: Palette) {
    && |means| == |samples|
    && ((means == Zeros(|samples|) && !settled) || palette == Update(palette, samples, means))
    && (!settled ==> Lloyd(palette, samples, means, passes) == target)
    && (settled ==> palette == target && Assignment(palette, samples) == means)
  }

  /** Before the first pass, with the all-zero assignment, the passes lead to Lloyd's palette. */
  lemma ConvergingStart(palette: Palette, samples: seq<Rgb>, passes: int)
    ensures Converging(palette, samples, Zeros(|samples|), false, passes, Lloyd(palette, samples, Zeros(|samples|), passes))
  {
  }

  /**
   * One pass of `k_means` (assignment, then update) keeps that state,
   * and the assignment settles when the pass reproduces it.
   */
  lemma ConvergingStep(palette: Palette, samples: seq<Rgb>, means: seq<int>, settled: bool, passes: int, target: Palette,
                        p: Palette, next: seq<int>, settles: bool, rest: int)
    requires Converging(palette, samples, means, settled, passes, target) && passes > 0
    requires next == Assignment(palette, samples) && p == Update(palette, samples, next)
    requires settles == (settled || next == means) && rest == passes - 1
    ensures Converging(p, samples, next, settles, rest, target)
  {
    UpdateIdempotent(palette, samples, next);
    LloydPass(palette, samples, means, passes);
    LloydRest(p, samples, next, passes, rest);
    assert |samples| > 0 ==> next[0] >= 1;
    if next == means && palette != Update(palette, samples, means) {
      UpdateWithoutSamples(palette, samples, next);
    }
  }

  /** When the assignment has settled or no pass is left, the palette is the target. */
  lemma ConvergingDone(palette: Palette, samples: seq<Rgb>, means: seq<int>, settled: bool, passes: int, target: Palette)
    requires Converging(palette, samples, means, settled, passes, target)
    requires settled || passes <= 0
    ensures palette == target
  {
  }

  /**
   * A converged palette (its own centroids, under an assignment that
   * reproduces itself) is a fixed point: further passes change nothing.
   */
  lemma LloydFixedPoint(palette: Palette, samples: seq<Rgb>, means: seq<int>, passes: int)
    requires |means| == |samples|
    requires Assignment(palette, samples) == means && Update(palette, samples, means) == palette
    ensures Lloyd(palette, samples, means, passes) == palette
  {
  }

  /** Weights of all samples once `chosen` are the centres: `distances` after the scan. */
  function Weights(samples: seq<Rgb>, chosen: seq<Rgb>): (w: seq<real>)
    requires chosen != []
    ensures |w| == |samples|
    ensures forall i :: 0 <= i < |samples| ==> w[i] == Weight(samples[i], chosen) as real
    ensures Prefix(w, |w|) <= (|samples| * MaxDist2) as real
  {
    var w := seq(|samples|, i requires 0 <= i < |samples| => Weight(samples[i], chosen) as real);
    assert forall k :: 0 <= k < |w| ==> w[k] <= MaxDist2 as real by {
      forall k | 0 <= k < |w|
        ensures w[k] <= MaxDist2 as real
      {
        WeightPositive(samples[k], chosen);
      }
    }
    PrefixAtMost(w, |w|, MaxDist2 as real);
    w
  }

  /** Partial sums of weights that are each at most `bound` are at most `j` times it. */
  lemma {:induction false} PrefixAtMost(w: seq<real>, j: nat, bound: real)
    requires j <= |w|
    requires forall k :: 0 <= k < |w| ==> w[k] <= bound
    ensures Prefix(w, j) <= (j as real) * bound
  {
    if j > 0 {
      PrefixAtMost(w, j - 1, bound);
      assert (j as real) * bound == ((j - 1) as real) * bound + bound;
    }
  }

  /**
   * A sample small enough that every k-means++ total stays within the
   * 32-bit denominator `mix32_rand` documents (src/random.cpp:34-35),
   * since no weight exceeds `MaxDist2`: at most 22017 samples.
   */
  predicate DenominatorFits(samples: seq<Rgb>) {
    |samples| * MaxDist2 <= Uint32Max
  }

  /** Partial sums of non-negative whole weights are non-negative whole numbers. */
  lemma {:induction false} PrefixWhole(w: seq<real>, j: nat)
    requires j <= |w|
    requires forall k :: 0 <= k < |w| ==> w[k] >= 0.0 && w[k] == w[k].Floor as real
    ensures Prefix(w, j) >= 0.0 && Prefix(w, j) == Prefix(w, j).Floor as real
  {
    if j > 0 {
      PrefixWhole(w, j - 1);
      var a, b := Prefix(w, j - 1).Floor, w[j - 1].Floor;
      assert Prefix(w, j) == (a + b) as real;
      assert ((a + b) as real).Floor == a + b;
    }
  }

  /** Partial sums of non-negative weights vanish exactly when every weight in them does. */
  lemma {:induction false} PrefixZero(w: seq<real>, j: nat)
    requires j <= |w|
    requires forall k :: 0 <= k < |w| ==> w[k] >= 0.0
    ensures Prefix(w, j) >= 0.0
    ensures Prefix(w, j) == 0.0 <==> forall k :: 0 <= k < j ==> w[k] == 0.0
  {
    if j > 0 {
      PrefixZero(w, j - 1);
    }
  }

  /** Every weight is a non-negative whole number. */
  lemma WeightsWhole(samples: seq<Rgb>, chosen: seq<Rgb>)
    requires chosen != []
    ensures forall k :: 0 <= k < |samples| ==>
      Weights(samples, chosen)[k] >= 0.0 && Weights(samples, chosen)[k] == Weights(samples, chosen)[k].Floor as real
  {
    forall k | 0 <= k < |samples|
      ensures Weights(samples, chosen)[k] >= 0.0
    {
      WeightPositive(samples[k], chosen);
    }
  }

  /**
   * The k-means++ choice of the next centre for the bounded draw `draw`
   * (src/image.cpp:160-170): `sample[0]` when every weight is 0,
   * otherwise the weighted choice for `draw % (uint32_t)total`.
   */
  function Pick(samples: seq<Rgb>, chosen: seq<Rgb>, draw: nat): (c: Rgb)
    requires samples != [] && chosen != []
    requires Prefix(Weights(samples, chosen), |samples|) <= Uint32Max as real
    ensures c in samples
  {
    var w := Weights(samples, chosen);
    var total := Prefix(w, |w|);
    WeightsWhole(samples, chosen);
    PrefixWhole(w, |w|);
    if total == 0.0 then samples[0]
    else
      var x := (draw % total.Floor) as real;
      WeightedIndexInRange(w, x);
      samples[WeightedIndex(w, x)]
  }

  /** Every sample is a centre already. */
  predicate Covers(samples: seq<Rgb>, chosen: seq<Rgb>) {
    forall i :: 0 <= i < |samples| ==> samples[i] in chosen
  }

  /**
   * A new centre is never one already chosen while some sample is not a
   * centre yet; once every sample is, the choice falls back to `sample[0]`.
   */
  lemma PickFresh(samples: seq<Rgb>, chosen: seq<Rgb>, draw: nat)
    requires samples != [] && chosen != []
    requires Prefix(Weights(samples, chosen), |samples|) <= Uint32Max as real
    ensures Covers(samples, chosen) ==> Pick(samples, chosen, draw) == samples[0]
    ensures !Covers(samples, chosen) ==> Pick(samples, chosen, draw) !in chosen
  {
    var w := Weights(samples, chosen);
    WeightsWhole(samples, chosen);
    PrefixWhole(w, |w|);
    PrefixZero(w, |w|);
    forall k | 0 <= k < |samples|
      ensures w[k] == 0.0 <==> samples[k] in chosen
    {
      WeightPositive(samples[k], chosen);
    }
    var total := Prefix(w, |w|);
    if total != 0.0 {
      var x := (draw % total.Floor) as real;
      WeightedIndexInRange(w, x);
      var i := WeightedIndex(w, x);
      assert samples[i] !in chosen;
    }
  }

  /** The centres after `chosen`, one more for every draw. */
  function Extend(samples: seq<Rgb>, chosen: seq<Rgb>, draws: seq<nat>): (r: seq<Rgb>)
    requires samples != [] && chosen != []
    requires DenominatorFits(samples)
    ensures |r| == |chosen| + |draws|
    ensures r[..|chosen|] == chosen
    decreases |draws|
  {
    if draws == [] then chosen
    else Extend(samples, chosen + [Pick(samples, chosen, draws[0])], draws[1..])
  }

  /** Every added centre is the pick, for its own draw, given the centres before it. */
  lemma {:induction false} ExtendPicks(samples: seq<Rgb>, chosen: seq<Rgb>, draws: seq<nat>, k: nat)
    requires samples != [] && chosen != []
    requires DenominatorFits(samples)
    requires |chosen| <= k < |chosen| + |draws|
    ensures Extend(samples, chosen, draws)[k] == Pick(samples, Extend(samples, chosen, draws)[..k], draws[k - |chosen|])
    decreases |draws|
  {
    var r := Extend(samples, chosen, draws);
    var next := chosen + [Pick(samples, chosen, draws[0])];
    assert r == Extend(samples, next, draws[1..]);
    assert r[..|next|] == next;
    if k == |chosen| {
      assert r[..k] == r[..|next|][..k];
    } else {
      ExtendPicks(samples, next, draws[1..], k);
    }
  }

  /**
   * Centre `k` of `r` is a sample, and it repeats an earlier centre
   * exactly when every sample is one already, in which case it is
   * `sample[0]`.
   */
  ghost predicate Fresh(samples: seq<Rgb>, r: seq<Rgb>, k: nat)
    requires k < |r|
  {
    && r[k] in samples
    && (r[k] in r[..k] <==> Covers(samples, r[..k]))
    && (Covers(samples, r[..k]) ==> r[k] == samples[0])
  }

  /** Every centre `Extend` adds is fresh in that sense. */
  lemma {:induction false} ExtendFresh(samples: seq<Rgb>, chosen: seq<Rgb>, draws: seq<nat>)
    requires samples != [] && chosen != []
    requires DenominatorFits(samples)
    ensures forall k :: |chosen| <= k < |Extend(samples, chosen, draws)| ==> Fresh(samples, Extend(samples, chosen, draws), k)
    decreases |draws|
  {
    if draws != [] {
      var p := Pick(samples, chosen, draws[0]);
      var next := chosen + [p];
      var r := Extend(samples, next, draws[1..]);
      assert r == Extend(samples, chosen, draws);
      ExtendFresh(samples, next, draws[1..]);
      PickFresh(samples, chosen, draws[0]);
      assert r[..|next|] == next;
      assert r[..|chosen|] == chosen by {
        assert r[..|chosen|] == r[..|next|][..|chosen|];
      }
      assert r[|chosen|] == p;
      assert Fresh(samples, r, |chosen|);
    }
  }

  /**
   * The 15 centres of `k_means_pp` (entries 1..15): the first is
   * `sample[draws[0] % n]`, each later one the weighted pick for the next
   * draw.
   */
  function Seeds(samples: seq<Rgb>, draws: seq<nat>): (s: seq<Rgb>)
    requires samples != [] && |draws| == PaletteSize - 1
    requires DenominatorFits(samples)
    ensures |s| == PaletteSize - 1
  {
    Extend(samples, [samples[draws[0] % |samples|]], draws[1..])
  }

  /** Seed `k` is the pick, for draw `k`, given the seeds before it. */
  lemma SeedsPick(samples: seq<Rgb>, draws: seq<nat>, k: nat)
    requires samples != [] && |draws| == PaletteSize - 1 && 0 < k < PaletteSize - 1
    requires DenominatorFits(samples)
    ensures Seeds(samples, draws)[k] == Pick(samples, Seeds(samples, draws)[..k], draws[k])
  {
    ExtendPicks(samples, [samples[draws[0] % |samples|]], draws[1..], k);
  }

  /**
   * Every seed is a sample, and a seed repeats an earlier one exactly
   * when every sample is already a seed, and is then `sample[0]`.
   */
  lemma SeedsFresh(samples: seq<Rgb>, draws: seq<nat>)
    requires samples != [] && |draws| == PaletteSize - 1
    requires DenominatorFits(samples)
    ensures forall k :: 0 <= k < PaletteSize - 1 ==> Seeds(samples, draws)[k] in samples
    ensures forall k :: 0 < k < PaletteSize - 1 ==> Fresh(samples, Seeds(samples, draws), k)
  {
    var first := [samples[draws[0] % |samples|]];
    ExtendFresh(samples, first, draws[1..]);
    var s := Seeds(samples, draws);
    assert s[..1] == first;
    assert s[0] == first[0];
    forall k | 0 < k < PaletteSize - 1
      ensures s[k] in samples
    {
      assert Fresh(samples, s, k);
    }
  }

  /** The palette `make_palette` computes from `palette` and a sample, for the given draws and pass limit. */
  function Quantised(palette: Palette, samples: seq<Rgb>, draws: seq<nat>, iters: int): Palette
    requires |draws| == PaletteSize - 1
    requires DenominatorFits(samples)
  {
    var seeded := if samples == [] then palette else palette[..1] + Seeds(samples, draws);
    Lloyd(seeded, samples, Zeros(|samples|), iters)
  }

  /** With an empty sample the palette is left as it is. */
  lemma QuantisedWithoutSamples(palette: Palette, draws: seq<nat>, iters: int)
    requires |draws| == PaletteSize - 1
    ensures Quantised(palette, [], draws, iters) == palette
  {
    if iters > 0 {
      UpdateWithoutSamples(palette, [], []);
    }
  }

  /**
   * With a non-empty sample the background entry stays, and if no pass
   * runs the other 15 entries are the k-means++ seeds, all of them
   * samples.
   */
  lemma QuantisedSeeds(palette: Palette, samples: seq<Rgb>, draws: seq<nat>, iters: int)
    requires |draws| == PaletteSize - 1
    requires DenominatorFits(samples)
    ensures Quantised(palette, samples, draws, iters)[0] == palette[0]
    ensures samples != [] && iters <= 0 ==>
      forall e :: 1 <= e < PaletteSize ==> Quantised(palette, samples, draws, iters)[e] in samples
  {
    var seeded := if samples == [] then palette else palette[..1] + Seeds(samples, draws);
    if samples != [] {
      SeedsFresh(samples, draws);
      assert forall e :: 1 <= e < PaletteSize ==> seeded[e] == Seeds(samples, draws)[e - 1];
    }
  }

  /** The sample: `picks` chooses among the foreground positions `fg`, as `res_sample` does. */
  function Sample(pixels: seq<Rgb>, fg: seq<nat>, picks: seq<nat>): (s: seq<Rgb>)
    requires forall j :: 0 <= j < |fg| ==> fg[j] < |pixels|
    requires forall k :: 0 <= k < |picks| ==> picks[k] < |fg|
    ensures |s| == |picks|
    ensures forall k :: 0 <= k < |picks| ==> s[k] == pixels[fg[picks[k]]]
  {
    seq(|picks|, k requires 0 <= k < |picks| => pixels[fg[picks[k]]])
  }

  /** A sequence of one colour counts that colour at every position. */
  lemma {:induction false} CountAll(pixels: seq<Rgb>, bg: Rgb)
    requires forall i :: 0 <= i < |pixels| ==> pixels[i] == bg
    ensures Count(pixels, bg) == |pixels|
  {
    if pixels != [] {
      CountAll(pixels[..|pixels| - 1], bg);
    }
  }

  /**
   * When every pixel is the background colour the foreground is empty
   * and the sample count is 0, whatever `sampled` says. `make_palette`
   * as written still calls `k_means_pp` then, whose first draw
   * `mix32_rand(0)` takes `UINT32_MAX % 0` (outside the `0 < n` of
   * `Random.Rng.Bounded32`) and reads `sample[0]` of an empty sample;
   * `Image.MakePalette` seeds only a non-empty sample.
   */
  lemma EmptySample(pixels: seq<Rgb>, bg: Rgb, sampled: int)
    requires forall i :: 0 <= i < |pixels| ==> pixels[i] == bg
    ensures Foreground(pixels, bg) == []
    ensures SampleCount(|Foreground(pixels, bg)|, sampled) == 0
  {
    CountAll(pixels, bg);
  }

  /** One sample of the assignment pass, stored into `means[i]`. */
  method AssignAt(palette: Palette, samples: seq<Rgb>, means: array<int>, i: nat) returns (changed: bool)
    requires means.Length == |samples| && i < |samples|
    modifies means
    ensures means[i] == Assignment(palette, samples)[i]
    ensures forall k :: 0 <= k < means.Length && k != i ==> means[k] == old(means[k])
    ensures !changed ==> means[i] == old(means[i])
  {
    var m;
    m, changed := AssignOne(palette, samples[i], means[i]);
    AssignmentAt(palette, samples, i);
    means[i] := m;
  }

  /** The positions before the `k`-th foreground position and that position itself. */
  function Done(fg: seq<nat>, k: nat): nat
    requires k <= |fg|
  {
    if k == 0 then 0 else fg[k - 1] + 1
  }

  /** `pixels` with the positions `ps` remapped one after another. */
  function RemapAt(palette: Palette, pixels: seq<Rgb>, ps: seq<nat>): (out: seq<Rgb>)
    requires forall k :: 0 <= k < |ps| ==> ps[k] < |pixels|
    ensures |out| == |pixels|
  {
    if ps == [] then pixels
    else
      var q := ps[|ps| - 1];
      RemapAt(palette, pixels, ps[..|ps| - 1])[q := Remap(palette, pixels[q])]
  }

  /** Remapping one more position of a list updates that position alone. */
  lemma RemapAtStep(palette: Palette, pixels: seq<Rgb>, ps: seq<nat>, k: nat)
    requires forall j :: 0 <= j < |ps| ==> ps[j] < |pixels|
    requires k < |ps|
    ensures RemapAt(palette, pixels, ps[..k + 1]) == RemapAt(palette, pixels, ps[..k])[ps[k] := Remap(palette, pixels[ps[k]])]
  {
    assert ps[..k + 1][..k] == ps[..k];
  }

  /** Remapping positions of a prefix leaves a pixel appended after it alone. */
  lemma {:induction false} RemapAtAppend(palette: Palette, pixels: seq<Rgb>, x: Rgb, ps: seq<nat>)
    requires forall k :: 0 <= k < |ps| ==> ps[k] < |pixels|
    ensures RemapAt(palette, pixels + [x], ps) == RemapAt(palette, pixels, ps) + [x]
  {
    if ps != [] {
      var q := ps[|ps| - 1];
      RemapAtAppend(palette, pixels, x, ps[..|ps| - 1]);
      assert (pixels + [x])[q] == pixels[q];
    }
  }

  /**
   * Remapping just the foreground positions remaps the whole image: a
   * background pixel is `palette[0]`, which remaps to itself.
   */
  lemma {:induction false} RemapForegroundAll(palette: Palette, pixels: seq<Rgb>)
    ensures RemapAt(palette, pixels, Foreground(pixels, palette[0])) == RemapAll(palette, pixels)
  {
    if pixels != [] {
      var k := |pixels| - 1;
      var init, last := pixels[..k], pixels[k];
      var fi := Foreground(init, palette[0]);
      assert pixels == init + [last];
      RemapForegroundAll(palette, init);
      RemapAtAppend(palette, init, last, fi);
      if last != palette[0] {
        assert Foreground(pixels, palette[0]) == fi + [k];
        assert (fi + [k])[..|fi|] == fi;
      }
    }
  }

  /** The `k`-th foreground position is a foreground pixel past the previous one. */
  lemma ForegroundStep(pixels: seq<Rgb>, bg: Rgb, k: nat)
    requires k < |Foreground(pixels, bg)|
    ensures Foreground(pixels, bg)[k] < |pixels| && pixels[Foreground(pixels, bg)[k]] != bg
    ensures k > 0 ==> Foreground(pixels, bg)[k - 1] < Foreground(pixels, bg)[k]
  {
    ForegroundExact(pixels, bg);
  }

  /**
   * The rule loop of `make_background` on one pixel: the paint colour
   * when some rule matches, otherwise the pixel as it is.
   */
  method MaskOne(px: Rgb, bg: Rgb, background: Hsv, thrs: seq<Threshold>, cfg: Configuration) returns (out: Rgb)
    requires background == PixelHsv(bg)
    ensures out == MaskPixel(px, bg, thrs, cfg)
  {
    out := px;
    var found := FirstMatch(PixelHsv(px), background, thrs, cfg.dark);
    if found {
      out := Paint(bg, cfg);
    }
  }

  /**
   * The distance pass of `k_means_pp` once `chosen` are the centres: a
   * sample at distance 0 (a centre before the latest) is skipped, every
   * other one gets its squared distance to the latest centre, and the
   * distances are summed.
   */
  method ScanDistances(samples: seq<Rgb>, chosen: seq<Rgb>, distances: array<real>) returns (total: real)
    requires chosen != [] && distances.Length == |samples|
    requires forall i :: 0 <= i < |samples| ==> (distances[i] == 0.0 <==> samples[i] in chosen[..|chosen| - 1])
    modifies distances
    ensures distances[..] == Weights(samples, chosen)
    ensures total == Prefix(Weights(samples, chosen), |samples|)
    ensures forall i :: 0 <= i < |samples| ==> (distances[i] == 0.0 <==> samples[i] in chosen)
  {
    ghost var w := Weights(samples, chosen);
    var last := chosen[|chosen| - 1];
    assert chosen == chosen[..|chosen| - 1] + [last];
    total := 0.0;
    var i := 0;
    while i < |samples|
      invariant 0 <= i <= |samples|
      invariant forall k :: 0 <= k < i ==> distances[k] == w[k]
      invariant forall k :: i <= k < |samples| ==> (distances[k] == 0.0 <==> samples[k] in chosen[..|chosen| - 1])
      invariant total == Prefix(w, i)
    {
      if distances[i] != 0.0 {
        distances[i] := Dist2(samples[i], last) as real;
        Dist2Properties(samples[i], last);
        total := total + distances[i];
      }
      i := i + 1;
    }
    WeightsZero(samples, chosen);
  }

  /** A sample weighs nothing exactly when it is a centre already. */
  lemma WeightsZero(samples: seq<Rgb>, chosen: seq<Rgb>)
    requires chosen != []
    ensures forall i :: 0 <= i < |samples| ==> (Weights(samples, chosen)[i] == 0.0 <==> samples[i] in chosen)
  {
    forall i | 0 <= i < |samples|
      ensures Weights(samples, chosen)[i] == 0.0 <==> samples[i] in chosen
    {
      WeightPositive(samples[i], chosen);
    }
  }

  /**
   * The draw of `k_means_pp`: index 0 when every distance is 0, otherwise
   * the weighted index for `draw % (uint32_t)total`. That index never has
   * distance 0, so the redraw loop around it ends after one draw.
   */
  method Choose(samples: seq<Rgb>, chosen: seq<Rgb>, w: seq<real>, total: real, draw: nat) returns (index: nat)
    requires samples != [] && chosen != []
    requires w == Weights(samples, chosen) && total == Prefix(w, |w|)
    requires total <= Uint32Max as real
    ensures index < |samples| && samples[index] == Pick(samples, chosen, draw)
  {
    index := 0;
    if total != 0.0 {
      WeightsWhole(samples, chosen);
      PrefixWhole(w, |w|);
      var x := (draw % total.Floor) as real;
      WeightedIndexInRange(w, x);
      index := Scan(w, x);
      assert w[index] != 0.0;
    }
  }

  /**
   * One entry of `k_means_pp`: with the seeds before it as the centres,
   * refresh the distances and draw the next seed.
   */
  method NextCentre(samples: seq<Rgb>, draws: seq<nat>, chosen: seq<Rgb>, distances: array<real>) returns (c: Rgb)
    requires samples != [] && |draws| == PaletteSize - 1 && 0 < |chosen| < PaletteSize - 1
    requires DenominatorFits(samples)
    requires chosen == Seeds(samples, draws)[..|chosen|]
    requires distances.Length == |samples|
    requires forall i :: 0 <= i < |samples| ==> (distances[i] == 0.0 <==> samples[i] in chosen[..|chosen| - 1])
    modifies distances
    ensures c == Seeds(samples, draws)[|chosen|]
    ensures forall i :: 0 <= i < |samples| ==> (distances[i] == 0.0 <==> samples[i] in chosen)
  {
    var total := ScanDistances(samples, chosen, distances);
    var index := Choose(samples, chosen, distances[..], total, draws[|chosen|]);
    SeedsPick(samples, draws, |chosen|);
    c := samples[index];
  }

  /** The image record of the pipeline, restricted to what src/image.cpp reads and writes. */
  class Image {
    /** `data_dewarp`: the perspective-corrected pixels, read only here. */
    var dewarp: seq<Rgb>
    /** `data_output`: `out_width * out_height` pixels, written in place. */
    var output: array<Rgb>
    /** `palette`: entry 0 the background, 1..15 the quantised colours. */
    var palette: Palette

    constructor (dewarp: seq<Rgb>, palette: Palette)
      ensures this.dewarp == dewarp && this.palette == palette
      ensures fresh(output) && output.Length == |dewarp|
    {
      this.dewarp := dewarp;
      this.palette := palette;
      output := new Rgb[|dewarp|](_ => Black);
    }

    /**
     * `make_background`: copy the dewarped pixels to the output, take the
     * background (override or most frequent colour), paint every pixel
     * some rule matches, and store the paint colour as `palette[0]`.
     */
    method MakeBackground(thrs: seq<Threshold>, cfg: Configuration)
      requires output.Length == |dewarp|
      modifies this, output
      ensures dewarp == old(dewarp) && output == old(output)
      ensures output[..] == Masked(dewarp, ChosenBackground(dewarp, cfg), thrs, cfg)
      ensures palette == old(palette)[0 := Paint(ChosenBackground(dewarp, cfg), cfg)]
    {
      forall i | 0 <= i < output.Length {
        output[i] := dewarp[i];
      }
      var bg: Rgb;
      if cfg.ovrBgBefore {
        bg := cfg.ovrBgBeforeCol;
      } else {
        assert output[..] == dewarp;
        bg := ScanBackground(output[..]);
      }
      assert bg == ChosenBackground(dewarp, cfg);
      MaskAll(bg, thrs, cfg);
      palette := palette[0 := Paint(bg, cfg)];
    }

    /** The masking loop of `make_background`: every pixel through the rule list, in order. */
    method MaskAll(bg: Rgb, thrs: seq<Threshold>, cfg: Configuration)
      requires output[..] == dewarp
      modifies output
      ensures output[..] == Masked(dewarp, bg, thrs, cfg)
    {
      var background := PixelHsv(bg);
      var i := 0;
      while i < output.Length
        invariant 0 <= i <= output.Length
        invariant forall j :: 0 <= j < output.Length ==>
          output[j] == if j < i then MaskPixel(dewarp[j], bg, thrs, cfg) else dewarp[j]
      {
        output[i] := MaskOne(output[i], bg, background, thrs, cfg);
        i := i + 1;
      }
      assert output[..] == Masked(dewarp, bg, thrs, cfg);
    }

    /**
     * `k_means_pp`: entry 1 is `sample[draws[0] % n]`; for each later
     * entry every sample not yet at distance 0 gets its squared distance
     * to the previous centre, and the next centre is the weighted pick
     * (or `sample[0]` when all distances are 0).
     */
    method KMeansPP(samples: seq<Rgb>, draws: seq<nat>)
      requires samples != [] && |draws| == PaletteSize - 1
      requires DenominatorFits(samples)
      modifies this
      ensures dewarp == old(dewarp) && output == old(output)
      ensures palette == old(palette)[..1] + Seeds(samples, draws)
    {
      ghost var seeds := Seeds(samples, draws);
      var n := |samples|;
      var distances := new real[n](_ => 1.0);
      palette := palette[1 := samples[draws[0] % n]];
      assert seeds[..1] == [samples[draws[0] % n]];
      var entry := 2;
      while entry < PaletteSize
        invariant 2 <= entry <= PaletteSize
        invariant dewarp == old(dewarp) && output == old(output)
        invariant palette[0] == old(palette)[0]
        invariant palette[1..entry] == seeds[..entry - 1]
        invariant forall i :: 0 <= i < n ==> (distances[i] == 0.0 <==> samples[i] in palette[1..entry - 1])
      {
        var chosen := palette[1..entry];
        assert chosen[..|chosen| - 1] == palette[1..entry - 1];
        var c := NextCentre(samples, draws, chosen, distances);
        palette := palette[entry := c];
        assert palette[1..entry + 1] == chosen + [c];
        assert seeds[..entry] == seeds[..entry - 1] + [seeds[entry - 1]];
        entry := entry + 1;
      }
      assert palette == palette[..1] + palette[1..PaletteSize];
    }

    /**
     * The assignment pass of `k_means`: each sample to its nearest entry
     * among 1..15; a pass that leaves `changed` false altered no
     * assignment.
     */
    method AssignAll(samples: seq<Rgb>, means: array<int>) returns (changed: bool)
      requires means.Length == |samples|
      modifies means
      ensures means[..] == Assignment(palette, samples)
      ensures !changed ==> means[..] == old(means[..])
    {
      changed := false;
      ghost var target := Assignment(palette, samples);
      var i := 0;
      while i < means.Length
        invariant 0 <= i <= means.Length
        invariant forall k :: 0 <= k < i ==> means[k] == target[k]
        invariant forall k :: i <= k < means.Length ==> means[k] == old(means[k])
        invariant !changed ==> forall k :: 0 <= k < i ==> means[k] == old(means[k])
      {
        var c := AssignAt(palette, samples, means, i);
        if c {
          changed := true;
        }
        i := i + 1;
      }
    }

    /**
     * The update pass of `k_means`: every entry 1..15 with samples
     * becomes their rounded mean; the others, and entry 0, stay.
     */
    method UpdateCentroids(samples: seq<Rgb>, means: seq<int>)
      requires |means| == |samples|
      modifies this
      ensures dewarp == old(dewarp) && output == old(output)
      ensures palette == Update(old(palette), samples, means)
    {
      var entry := 1;
      while entry < PaletteSize
        invariant 1 <= entry <= PaletteSize
        invariant dewarp == old(dewarp) && output == old(output)
        invariant forall e :: 0 <= e < PaletteSize ==>
          palette[e] == if 1 <= e < entry then Centroid(samples, means, e, old(palette)[e]) else old(palette)[e]
      {
        var count, r, g, b := SumAssigned(samples, means, entry);
        if count != 0 {
          palette := palette[entry := Rgb(RoundedMean(r, count), RoundedMean(g, count), RoundedMean(b, count))];
        }
        entry := entry + 1;
      }
    }

    /**
     * `k_means`: at most `iters` passes, continuing while the previous
     * pass raised `changed`. The flag is raised more often than the
     * assignment changes (`ChangedWithoutChange`), so passes continue
     * after convergence; they leave the palette as it is, and the result
     * is the palette of Lloyd's iteration stopped at convergence.
     */
    method KMeans(samples: seq<Rgb>, iters: int)
      modifies this
      ensures dewarp == old(dewarp) && output == old(output)
      ensures palette == Lloyd(old(palette), samples, Zeros(|samples|), iters)
    {
      var n := |samples|;
      var means := new int[n](_ => 0);
      assert means[..] == Zeros(n);
      var changed := true;
      var iterations := 0;
      ghost var settled, passes := false, iters;
      ghost var target := Lloyd(palette, samples, means[..], iters);
      ConvergingStart(palette, samples, iters);
      while iterations < iters && changed
        invariant 0 <= iterations && passes == iters - iterations
        invariant dewarp == old(dewarp) && output == old(output)
        invariant Converging(palette, samples, means[..], settled, passes, target)
        invariant !changed ==> settled
        decreases iters - iterations
      {
        changed, settled, passes := Pass(samples, means, settled, passes, target);
        iterations := iterations + 1;
      }
      ConvergingDone(palette, samples, means[..], settled, passes, target);
    }

    /** One pass of `k_means`: the assignment pass, then the update pass. */
    method Pass(samples: seq<Rgb>, means: array<int>, ghost settled: bool, ghost passes: int, ghost target: Palette)
      returns (changed: bool, ghost settles: bool, ghost rest: int)
      requires Converging(palette, samples, means[..], settled, passes, target) && passes > 0
      modifies this, means
      ensures dewarp == old(dewarp) && output == old(output)
      ensures rest == passes - 1
      ensures Converging(palette, samples, means[..], settles, rest, target)
      ensures !changed ==> settles
    {
      ghost var before, p0 := means[..], palette;
      changed := AssignAll(samples, means);
      UpdateCentroids(samples, means[..]);
      settles, rest := settled || means[..] == before, passes - 1;
      ConvergingStep(p0, samples, before, settled, passes, target, palette, means[..], settles, rest);
    }

    /**
     * The remapping loop shared by `make_palette` and `use_palette`:
     * every foreground position takes the colour of its nearest entry.
     */
    method RemapForeground(fg: seq<nat>)
      requires fg == Foreground(output[..], palette[0])
      modifies output
      ensures output[..] == RemapAll(palette, old(output[..]))
    {
      ghost var pixels := output[..];
      var k := 0;
      while k < |fg|
        invariant 0 <= k <= |fg|
        invariant output[..] == RemapAt(palette, pixels, fg[..k])
        invariant forall j :: Done(fg, k) <= j < output.Length ==> output[j] == pixels[j]
      {
        var p := fg[k];
        ForegroundStep(pixels, palette[0], k);
        RemapAtStep(palette, pixels, fg, k);
        var c := FindNearest(palette, output[p], 0);
        output[p] := palette[c];
        k := k + 1;
      }
      assert fg[..k] == fg;
      RemapForegroundAll(palette, pixels);
    }

    /**
     * `make_palette`, seeding only a non-empty sample: collect the
     * foreground, sample it, seed with k-means++, refine with k-means,
     * then remap the foreground onto the palette.
     */
    method MakePalette(cfg: Configuration, picks: seq<nat>, draws: seq<nat>)
      requires |draws| == PaletteSize - 1
      requires |picks| == SampleCount(|Foreground(output[..], palette[0])|, cfg.sampled)
      requires forall k :: 0 <= k < |picks| ==> picks[k] < |Foreground(output[..], palette[0])|
      requires |picks| * MaxDist2 <= Uint32Max
      modifies this, output
      ensures dewarp == old(dewarp) && output == old(output)
      ensures palette == Quantised(old(palette), Sample(old(output[..]), Foreground(old(output[..]), old(palette)[0]), picks), draws, cfg.iters)
      ensures output[..] == RemapAll(palette, old(output[..]))
    {
      var pixels := output[..];
      var fg := CollectForeground(pixels, palette[0]);
      var samples := Sample(pixels, fg, picks);
      if samples != [] {
        KMeansPP(samples, draws);
      }
      KMeans(samples, cfg.iters);
      RemapForeground(fg);
    }

    /** `use_palette`: remap the foreground onto the palette as it stands. */
    method UsePalette()
      modifies output
      ensures output[..] == RemapAll(palette, old(output[..]))
    {
      var fg := CollectForeground(output[..], palette[0]);
      RemapForeground(fg);
    }
  }
}
