/**
 * Arithmetic and sequence facts shared by the other modules: Euclidean
 * division, and the layout of equally long blocks laid end to end.
 */
module Util {

  lemma MulAtLeast(d: int, n: int)
    requires d >= 1 && n > 0
    ensures d * n >= n
  {
  }

  /** `q * n + r` with `0 <= r < n` has quotient `q` and remainder `r`. */
  lemma ModUnique(a: int, n: int, q: int, r: int)
    requires n > 0 && 0 <= r < n && a == q * n + r
    ensures a % n == r && a / n == q
  {
    var d := a / n - q;
    assert a == (a / n) * n + a % n;
    assert (a / n) * n - q * n == d * n;
    assert d * n == r - a % n;
    if d > 0 {
      MulAtLeast(d, n);
    } else if d < 0 {
      MulAtLeast(-d, n);
    }
  }

  /** The blocks `bs[0], bs[1], ...` laid end to end. */
  function Concat<T>(bs: seq<seq<T>>): seq<T> {
    if |bs| == 0 then [] else Concat(bs[..|bs| - 1]) + bs[|bs| - 1]
  }

  lemma {:induction false} ConcatLength<T>(bs: seq<seq<T>>, len: nat)
    requires forall k :: 0 <= k < |bs| ==> |bs[k]| == len
    ensures |Concat(bs)| == |bs| * len
  {
    if |bs| > 0 {
      ConcatLength(bs[..|bs| - 1], len);
    }
  }

  /** With blocks of length `len`, block `y` occupies `[y * len, (y + 1) * len)`. */
  lemma {:induction false} ConcatBlock<T>(bs: seq<seq<T>>, len: nat, y: nat)
    requires forall k :: 0 <= k < |bs| ==> |bs[k]| == len
    requires y < |bs|
    ensures |Concat(bs)| == |bs| * len
    ensures (y + 1) * len <= |bs| * len
    ensures Concat(bs)[y * len..(y + 1) * len] == bs[y]
  {
    ConcatLength(bs, len);
    var init := bs[..|bs| - 1];
    ConcatLength(init, len);
    var a := y * len;
    var b := (y + 1) * len;
    assert b == a + len;
    assert |bs| * len == |init| * len + len;
    if y == |bs| - 1 {
      assert |Concat(init)| == a;
    } else {
      ConcatBlock(init, len, y);
      assert Concat(bs) == Concat(init) + bs[|bs| - 1];
      assert Concat(bs)[a..b] == Concat(init)[a..b];
    }
  }

  /** A prefix holding the first `i` blocks, followed by block `i`, holds the first `i + 1`. */
  lemma ConcatExtend<T>(s: seq<T>, bs: seq<seq<T>>, i: nat, base: nat, len: nat, next: nat, end: nat)
    requires i < |bs| && |bs[i]| == len && base + len <= |s|
    requires next == i + 1 && end == base + len
    requires s[..base] == Concat(bs[..i])
    requires s[base..end] == bs[i]
    ensures s[..end] == Concat(bs[..next])
  {
    assert s[..end] == s[..base] + s[base..end];
    assert bs[..next][..i] == bs[..i];
  }

  /** Four sequences joined left to right are the same as joined right to left. */
  lemma Assoc4<T>(a: seq<T>, b: seq<T>, c: seq<T>, d: seq<T>)
    ensures a + b + c + d == a + (b + (c + d))
  {
  }

  /** Dropping a leading `s` from `s + a + b + c + d` leaves `a + b + c + d`. */
  lemma DropHead4<T>(s: seq<T>, a: seq<T>, b: seq<T>, c: seq<T>, d: seq<T>)
    ensures (s + a + b + c + d)[..|s|] == s
    ensures (s + a + b + c + d)[|s|..] == a + b + c + d
  {
  }

  /** A four-element sequence built by prepending one element at a time. */
  lemma Cons4<T>(a: T, b: T, c: T, d: T)
    ensures [a] + ([b] + ([c] + [d])) == [a, b, c, d]
  {
  }
}
