/**
 * The splitmix-style generator (src/random.cpp, and the header-only
 * generation src/random.hpp). The 64-bit state advances by the golden
 * gamma modulo 2^64 and each output is a bit mixer applied to the new
 * state. Bounded draws reject the tail above the largest multiple of the
 * bound; weighted draws scan cumulative weights. Seeding from
 * `std::random_device` or the clock is a constructor parameter here.
 */
module Random {
  import opened Util

  /** 2^64: `uint64_t` arithmetic is arithmetic modulo this. */
  const Modulus: nat := 0x1_0000_0000_0000_0000

  /** A `uint64_t` value. */
  type U64 = x: int | 0 <= x < 0x1_0000_0000_0000_0000

  /** `0x9e3779b97f4a7c15`, ((sqrt 5 - 1) / 2) * 2^64. */
  const Gamma: U64 := 0x9e37_79b9_7f4a_7c15

  const Uint32Max: nat := 0xffff_ffff
  const Uint64Max: nat := 0xffff_ffff_ffff_ffff

  function Pow2(n: nat): (p: nat)
    ensures p > 0
  {
    if n == 0 then 1 else 2 * Pow2(n - 1)
  }

  lemma {:induction false} Pow2Add(a: nat, b: nat)
    ensures Pow2(a + b) == Pow2(a) * Pow2(b)
    decreases a
  {
    if a > 0 {
      Pow2Add(a - 1, b);
    }
  }

  lemma Pow2Of64()
    ensures Pow2(64) == Modulus
  {
    assert Pow2(2) == 4;
    Pow2Add(2, 2);
    assert Pow2(4) == 16;
    Pow2Add(4, 4);
    assert Pow2(8) == 0x100;
    Pow2Add(8, 8);
    assert Pow2(16) == 0x1_0000;
    Pow2Add(16, 16);
    assert Pow2(32) == 0x1_0000_0000;
    Pow2Add(32, 32);
  }

  /** Bitwise exclusive or (`^`) of two naturals, bit by bit from the lowest. */
  function Xor(a: nat, b: nat): nat
    decreases a + b
  {
    if a == 0 && b == 0 then 0
    else 2 * Xor(a / 2, b / 2) + (if a % 2 == b % 2 then 0 else 1)
  }

  /** Exclusive or of two `n`-bit values is an `n`-bit value. */
  lemma {:induction false} XorBelow(a: nat, b: nat, n: nat)
    requires a < Pow2(n) && b < Pow2(n)
    ensures Xor(a, b) < Pow2(n)
  {
    if n > 0 && !(a == 0 && b == 0) {
      XorBelow(a / 2, b / 2, n - 1);
    }
  }

  /** One xor-shift-multiply round `x = (x ^ (x >> shift)) * k` in `uint64_t`; `divisor` is `2^shift`. */
  function Round(x: U64, divisor: nat, k: U64): U64
    requires divisor > 0
  {
    (Xor(x, x / divisor) * k) % Modulus
  }

  /**
   * `mix32` (Steele et al. 2014): two rounds shifting by 33, then the top
   * 32 bits (the `(uint32_t)(input >> 32)` truncation).
   */
  function Mix32(input: U64): (r: nat)
    ensures r <= Uint32Max
  {
    var a := Round(input, 0x2_0000_0000, 0xff51_afd7_ed55_8ccd);
    var b := Round(a, 0x2_0000_0000, 0xc4ce_b9fe_1a85_ec53);
    b / 0x1_0000_0000
  }

  /**
   * `mix64variant13` (Steele et al. 2014): rounds shifting by 30 and 27,
   * then `input ^ (input >> 31)`. The header src/random.hpp declares a
   * textually identical `mix64`; both are this function.
   */
  function Mix64(input: U64): (r: U64)
  {
    var a := Round(input, 0x4000_0000, 0xbf58_476d_1ce4_e5b9);
    var b := Round(a, 0x800_0000, 0x94d0_49bb_1331_11eb);
    Pow2Of64();
    XorBelow(b, b / 0x8000_0000, 64);
    Xor(b, b / 0x8000_0000)
  }

  /** The state step `state += 0x9e3779b97f4a7c15`, wrapping modulo 2^64. */
  function Step(s: U64): (t: U64)
    ensures t == if s + Gamma < Modulus then s + Gamma else s + Gamma - Modulus
  {
    (s + Gamma) % Modulus
  }

  /** The state after `k` steps from `s`. */
  function Advance(s: U64, k: nat): U64 {
    if k == 0 then s else Step(Advance(s, k - 1))
  }

  /** A raw draw from state `s`: `mix64` when `wide`, else `mix32`. */
  function Draw(s: U64, wide: bool): nat {
    if wide then Mix64(s) else Mix32(s)
  }

  /**
   * `UINTn_MAX - UINTn_MAX % n`: the end of the accepted range, the
   * largest multiple of `n` that does not exceed `max`.
   */
  function Limit(max: nat, n: nat): (limit: nat)
    requires 0 < n <= max
    ensures limit == (max / n) * n && max - n < limit <= max
  {
    max - max % n
  }

  /**
   * Whether a raw draw is kept: src/random.cpp rejects `raw >= limit`,
   * the header src/random.hpp only `raw > limit` (`inclusive`).
   */
  predicate Accepts(raw: nat, limit: nat, inclusive: bool) {
    if inclusive then raw <= limit else raw < limit
  }

  /** Some later draw from state `s` is accepted, so the rejection loop ends. */
  ghost predicate EventuallyAccepts(s: U64, limit: nat, wide: bool, inclusive: bool) {
    exists k: nat :: 0 < k && Accepts(Draw(Advance(s, k), wide), limit, inclusive)
  }

  /** `s` is the state of the first accepted draw after `s0`. */
  ghost predicate FirstAccepted(s0: U64, s: U64, limit: nat, wide: bool, inclusive: bool) {
    exists k: nat ::
      && 0 < k
      && s == Advance(s0, k)
      && Accepts(Draw(s, wide), limit, inclusive)
      && RefusedBefore(s0, k, limit, wide, inclusive)
  }

  /** Every draw strictly between `s0` and step `k` was refused. */
  ghost predicate RefusedBefore(s0: U64, k: nat, limit: nat, wide: bool, inclusive: bool) {
    forall j :: 0 < j < k ==> !Accepts(Draw(Advance(s0, j), wide), limit, inclusive)
  }

  /** One more rejection: draw `i` was refused, so the known accepted draw `k` lies further on. */
  lemma RejectStep(s0: U64, i: nat, k: nat, s: U64, limit: nat, wide: bool, inclusive: bool)
    requires 0 < i <= k && s == Advance(s0, i)
    requires Accepts(Draw(Advance(s0, k), wide), limit, inclusive)
    requires !Accepts(Draw(s, wide), limit, inclusive)
    requires RefusedBefore(s0, i, limit, wide, inclusive)
    ensures i < k && Advance(s0, i + 1) == Step(s)
    ensures RefusedBefore(s0, i + 1, limit, wide, inclusive)
  {
  }

  /** Sum of the first `j` weights. */
  function Prefix(weights: seq<real>, j: nat): real
    requires j <= |weights|
  {
    if j == 0 then 0.0 else Prefix(weights, j - 1) + weights[j - 1]
  }

  /**
   * The weighted choice for a draw `x`: the smallest `i` whose cumulative
   * weight `weights[0] + ... + weights[i]` exceeds `x`, or `|weights|`
   * when none does.
   */
  function WeightedIndex(weights: seq<real>, x: real): (i: nat)
    ensures i <= |weights|
    ensures forall j :: 0 < j <= i ==> Prefix(weights, j) <= x
    ensures i < |weights| ==> x < Prefix(weights, i + 1)
  {
    ScanFrom(weights, x, 0)
  }

  function ScanFrom(weights: seq<real>, x: real, i: nat): (r: nat)
    requires i <= |weights|
    requires forall j :: 0 < j <= i ==> Prefix(weights, j) <= x
    ensures i <= r <= |weights|
    ensures forall j :: 0 < j <= r ==> Prefix(weights, j) <= x
    ensures r < |weights| ==> x < Prefix(weights, r + 1)
    decreases |weights| - i
  {
    if i == |weights| then i
    else if x < Prefix(weights, i + 1) then i
    else ScanFrom(weights, x, i + 1)
  }

  /**
   * The scan loop shared by every weighted draw: subtract each weight from
   * `x` until one exceeds what is left.
   */
  method Scan(numerators: seq<real>, x0: real) returns (i: nat)
    ensures i == WeightedIndex(numerators, x0)
  {
    var x := x0;
    i := 0;
    while i < |numerators|
      invariant 0 <= i <= |numerators|
      invariant x == x0 - Prefix(numerators, i)
      invariant forall j :: 0 < j <= i ==> Prefix(numerators, j) <= x0
    {
      if numerators[i] > x {
        WeightedIndexUnique(numerators, x0, i);
        return i;
      }
      x := x - numerators[i];
      i := i + 1;
    }
    WeightedIndexUnique(numerators, x0, i);
  }

  /** The characterisation in `WeightedIndex`'s contract pins the index down. */
  lemma WeightedIndexUnique(weights: seq<real>, x: real, i: nat)
    requires i <= |weights|
    requires forall j :: 0 < j <= i ==> Prefix(weights, j) <= x
    requires i < |weights| ==> x < Prefix(weights, i + 1)
    ensures WeightedIndex(weights, x) == i
  {
  }

  /**
   * With non-negative weights and a draw below their total, the weighted
   * choice is a real index, and one with positive weight: a zero-weight
   * entry is never chosen and the shortfall value `n` cannot occur.
   */
  lemma WeightedIndexInRange(weights: seq<real>, x: real)
    requires forall j :: 0 <= j < |weights| ==> weights[j] >= 0.0
    requires 0.0 <= x < Prefix(weights, |weights|)
    ensures WeightedIndex(weights, x) < |weights|
    ensures weights[WeightedIndex(weights, x)] > 0.0
  {
    var i := WeightedIndex(weights, x);
    assert Prefix(weights, i) <= x by {
      if i > 0 {
        assert 0 < i <= i;
      }
    }
  }

  /** Number of `x` in `[0, m)` with `x % n == k`. */
  function Hits(m: nat, n: nat, k: nat): nat
    requires n > 0
  {
    if m == 0 then 0 else Hits(m - 1, n, k) + (if (m - 1) % n == k then 1 else 0)
  }

  lemma {:induction false} HitsBlocks(q: nat, j: nat, n: nat, k: nat)
    requires 0 < n && k < n && j <= n
    ensures Hits(q * n + j, n, k) == q + (if k < j then 1 else 0)
    decreases q, j
  {
    if j == 0 {
      if q > 0 {
        assert q * n + 0 == (q - 1) * n + n;
        HitsBlocks(q - 1, n, n, k);
      }
    } else {
      HitsBlocks(q, j - 1, n, k);
      ModUnique(q * n + j - 1, n, q, j - 1);
    }
  }

  /**
   * The accepted range `[0, limit)` of the bounded draw holds every residue
   * modulo `n` equally often, so `raw % n` is unbiased.
   */
  lemma BoundedDrawUnbiased(max: nat, n: nat, k: nat)
    requires 0 < n <= max && k < n
    ensures Hits(Limit(max, n), n, k) == Limit(max, n) / n
  {
    var q := max / n;
    ModUnique(q * n, n, q, 0);
    HitsBlocks(q, 0, n, k);
  }

  /**
   * The header's accepted range `[0, limit]` has one value too many:
   * residue 0 is hit once more than every other residue.
   */
  lemma InclusiveDrawBiased(max: nat, n: nat, k: nat)
    requires 1 < n <= max && k < n
    ensures Hits(Limit(max, n) + 1, n, k) == Limit(max, n) / n + (if k == 0 then 1 else 0)
  {
    var q := max / n;
    ModUnique(q * n, n, q, 0);
    HitsBlocks(q, 1, n, k);
  }

  /** The generator: one 64-bit state, advanced by every draw. */
  class Rng {
    var state: U64

    /** `init_rand` (or the header's static initialiser), with the entropy as `seed`. */
    constructor (seed: U64)
      ensures state == seed
    {
      state := seed;
    }

    /** `mix32_rand()`: a raw 32-bit draw. */
    method Next32() returns (r: nat)
      modifies this
      ensures state == Step(old(state))
      ensures r == Mix32(state)
    {
      state := Step(state);
      r := Mix32(state);
    }

    /** `mix64_rand()`: a raw 64-bit draw (both generations). */
    method Next64() returns (r: U64)
      modifies this
      ensures state == Step(old(state))
      ensures r == Mix64(state)
    {
      state := Step(state);
      r := Mix64(state);
    }

    /** The rejection loop shared by the bounded draws. */
    method Reject(limit: nat, wide: bool, inclusive: bool) returns (raw: nat)
      requires EventuallyAccepts(state, limit, wide, inclusive)
      modifies this
      ensures FirstAccepted(old(state), state, limit, wide, inclusive)
      ensures raw == Draw(state, wide) && Accepts(raw, limit, inclusive)
    {
      ghost var s0 := state;
      ghost var k: nat :| 0 < k && Accepts(Draw(Advance(s0, k), wide), limit, inclusive);
      raw := NextRaw(wide);
      ghost var i: nat := 1;
      while !Accepts(raw, limit, inclusive)
        invariant 0 < i
        invariant i <= k
        invariant state == Advance(s0, i)
        invariant raw == Draw(state, wide)
        invariant RefusedBefore(s0, i, limit, wide, inclusive)
        decreases k - i
      {
        ghost var before := state;
        raw := NextRaw(wide);
        RejectStep(s0, i, k, before, limit, wide, inclusive);
        i := i + 1;
      }
      assert 0 < i && state == Advance(s0, i) && Accepts(Draw(state, wide), limit, inclusive);
    }

    method NextRaw(wide: bool) returns (raw: nat)
      modifies this
      ensures state == Step(old(state))
      ensures raw == Draw(state, wide)
    {
      if wide {
        raw := Next64();
      } else {
        raw := Next32();
      }
    }

    /**
     * `mix32_rand(n)`: draws until a raw value lies below
     * `UINT32_MAX - UINT32_MAX % n`, then reduces it modulo `n`.
     */
    method Bounded32(n: nat) returns (r: nat)
      requires 0 < n <= Uint32Max
      requires EventuallyAccepts(state, Limit(Uint32Max, n), false, false)
      modifies this
      ensures r < n
      ensures FirstAccepted(old(state), state, Limit(Uint32Max, n), false, false)
      ensures r == Draw(state, false) % n
    {
      var raw := Reject(Limit(Uint32Max, n), false, false);
      r := raw % n;
    }

    /** `mix64_rand(n)` of src/random.cpp: the 64-bit analogue. */
    method Bounded64(n: nat) returns (r: nat)
      requires 0 < n <= Uint64Max
      requires EventuallyAccepts(state, Limit(Uint64Max, n), true, false)
      modifies this
      ensures r < n
      ensures FirstAccepted(old(state), state, Limit(Uint64Max, n), true, false)
      ensures r == Draw(state, true) % n
    {
      var raw := Reject(Limit(Uint64Max, n), true, false);
      r := raw % n;
    }

    /**
     * `mix64_rand(n)` of src/random.hpp: rejects only `raw > limit`, so
     * `raw == limit` is kept; the result is still below `n`.
     */
    method BoundedInclusive64(n: nat) returns (r: nat)
      requires 0 < n <= Uint64Max
      requires EventuallyAccepts(state, Limit(Uint64Max, n), true, true)
      modifies this
      ensures r < n
      ensures FirstAccepted(old(state), state, Limit(Uint64Max, n), true, true)
      ensures r == Draw(state, true) % n
    {
      var raw := Reject(Limit(Uint64Max, n), true, true);
      r := raw % n;
    }

    /**
     * `mix32_rand(n, numerators, denominator)`: a bounded draw below
     * `(uint32_t)denominator`, then the cumulative scan; `n` when the
     * weights fall short of the draw.
     */
    method Weighted32(numerators: seq<real>, denominator: real) returns (i: nat)
      requires 1.0 <= denominator && denominator.Floor <= Uint32Max
      requires EventuallyAccepts(state, Limit(Uint32Max, denominator.Floor), false, false)
      modifies this
      ensures FirstAccepted(old(state), state, Limit(Uint32Max, denominator.Floor), false, false)
      ensures i == WeightedIndex(numerators, (Draw(state, false) % denominator.Floor) as real)
    {
      var x := Bounded32(denominator.Floor);
      i := Scan(numerators, x as real);
    }

    /** `mix64_rand(n, numerators, denominator)` of src/random.cpp. */
    method Weighted64(numerators: seq<real>, denominator: real) returns (i: nat)
      requires 1.0 <= denominator && denominator.Floor <= Uint64Max
      requires EventuallyAccepts(state, Limit(Uint64Max, denominator.Floor), true, false)
      modifies this
      ensures FirstAccepted(old(state), state, Limit(Uint64Max, denominator.Floor), true, false)
      ensures i == WeightedIndex(numerators, (Draw(state, true) % denominator.Floor) as real)
    {
      var x := Bounded64(denominator.Floor);
      i := Scan(numerators, x as real);
    }

    /** `mix64_rand(n, numerators, denominator)` of src/random.hpp, over its inclusive bounded draw. */
    method WeightedInclusive64(numerators: seq<real>, denominator: real) returns (i: nat)
      requires 1.0 <= denominator && denominator.Floor <= Uint64Max
      requires EventuallyAccepts(state, Limit(Uint64Max, denominator.Floor), true, true)
      modifies this
      ensures FirstAccepted(old(state), state, Limit(Uint64Max, denominator.Floor), true, true)
      ensures i == WeightedIndex(numerators, (Draw(state, true) % denominator.Floor) as real)
    {
      var x := BoundedInclusive64(denominator.Floor);
      i := Scan(numerators, x as real);
    }
  }
}
