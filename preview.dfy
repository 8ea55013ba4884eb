/**
 * The preview window's geometry (src/preview.cpp): `fix_quad`, which puts
 * four clicked points into counter-clockwise order starting at the
 * bottom-left corner, and the click handler that maintains the deque of
 * selected vertices. Coordinates are `float`s in the source and `real`s
 * here.
 */
module Preview {
  import opened Defs
  import opened Config

  /** `dist2` on points: the squared Euclidean distance. */
  function Dist2(left: Point, right: Point): (d: real)
    ensures d >= 0.0
  {
    var dx, dy := left.x - right.x, left.y - right.y;
    dx * dx + dy * dy
  }

  /**
   * The cross product of `b - a` and `c - b`: positive where the path
   * a, b, c turns left (counter-clockwise), zero where it goes straight.
   */
  function Cross(a: Point, b: Point, c: Point): real {
    (b.x - a.x) * (c.y - b.y) - (b.y - a.y) * (c.x - b.x)
  }

  /** `products[i]`: the turn at vertex `i` of the polygon `q`, from its predecessor to its successor. */
  function Turn(q: seq<Point>, i: nat): real
    requires |q| == 4 && i < 4
  {
    Cross(q[(i + 3) % 4], q[i], q[(i + 1) % 4])
  }

  /** The number of left turns among the first `n` vertices. */
  function PositivesBelow(q: seq<Point>, n: nat): (k: nat)
    requires |q| == 4 && n <= 4
    ensures k <= n
  {
    if n == 0 then 0 else PositivesBelow(q, n - 1) + (if Turn(q, n - 1) > 0.0 then 1 else 0)
  }

  /** Some vertex among the first `n` has a zero cross product. */
  predicate ZeroBelow(q: seq<Point>, n: nat)
    requires |q| == 4 && n <= 4
  {
    exists i :: 0 <= i < n && Turn(q, i) == 0.0
  }

  /** `positive_count`: the number of counter-clockwise turns of the polygon. */
  function PositiveCount(q: seq<Point>): nat
    requires |q| == 4
  {
    PositivesBelow(q, 4)
  }

  /** The polygon is degenerate: one of its turns is straight (or doubles back). */
  predicate Degenerate(q: seq<Point>)
    requires |q| == 4
  {
    ZeroBelow(q, 4)
  }

  /** `fix_quad` accepts: no straight turn, and 0, 2 or 4 left turns. */
  predicate Accepted(q: seq<Point>)
    requires |q| == 4
  {
    !Degenerate(q) && PositiveCount(q) in {0, 2, 4}
  }

  /**
   * The vertex whose pair `(vert, vert + 1)` is swapped for a
   * self-intersecting quad: the first `i` whose turn and next turn are
   * both clockwise; the scan leaves `vert == 3` when there is none.
   */
  function SwapIndex(q: seq<Point>): (v: nat)
    requires |q| == 4
    ensures v < 4
  {
    if BothClockwise(q, 0) then 0
    else if BothClockwise(q, 1) then 1
    else if BothClockwise(q, 2) then 2
    else 3
  }

  /** The turns at `i` and at the vertex after it are both clockwise. */
  predicate BothClockwise(q: seq<Point>, i: nat)
    requires |q| == 4 && i < 4
  {
    Turn(q, i) < 0.0 && Turn(q, (i + 1) % 4) < 0.0
  }

  /** The vertices at `v` and `v + 1 (mod 4)` exchanged. */
  function Swap(q: seq<Point>, v: nat): (c: seq<Point>)
    requires |q| == 4 && v < 4
    ensures |c| == 4
  {
    q[v := q[(v + 1) % 4]][(v + 1) % 4 := q[v]]
  }

  /** `q` in the opposite order. */
  function Reverse(q: seq<Point>): (c: seq<Point>)
    requires |q| == 4
    ensures |c| == 4
  {
    [q[3], q[2], q[1], q[0]]
  }

  /**
   * `copy` after the switch on `positive_count`: reversed when every turn
   * is clockwise, one adjacent pair swapped when two are, and otherwise
   * (counter-clockwise, or concave) unchanged.
   */
  function Reorder(q: seq<Point>): (c: seq<Point>)
    requires |q| == 4
    ensures |c| == 4
  {
    var n := PositiveCount(q);
    if n == 0 then Reverse(q)
    else if n == 2 then Swap(q, SwapIndex(q))
    else q
  }

  /** `x + y`, the distance to the bottom-left corner the source minimises. */
  function SumXY(p: Point): real {
    p.x + p.y
  }

  /** `best` after scanning the first `n` points, starting from `FLT_MAX`. */
  function BestBelow(q: seq<Point>, n: nat): real
    requires n <= |q|
  {
    if n == 0 then FltMax
    else
      var b := BestBelow(q, n - 1);
      var d := SumXY(q[n - 1]);
      if b > d then d else b
  }

  /**
   * The rotation loop ends: some point is no further than `FLT_MAX` from
   * the corner (for clicks in the preview, every point is).
   */
  predicate Reachable(q: seq<Point>) {
    exists i :: 0 <= i < |q| && SumXY(q[i]) <= FltMax
  }

  /** The first position from `j` on whose point is no further than `best`, or `|c|`. */
  function FirstAtMost(c: seq<Point>, best: real, j: nat): (k: nat)
    requires j <= |c|
    ensures j <= k <= |c|
    ensures k < |c| ==> SumXY(c[k]) <= best
    ensures forall i :: j <= i < k ==> SumXY(c[i]) > best
    decreases |c| - j
  {
    if j == |c| then |c| else if SumXY(c[j]) <= best then j else FirstAtMost(c, best, j + 1)
  }

  /** `c` rotated left by `k`: what `k` rounds of `push_back(front); pop_front()` leave. */
  function Rotate(c: seq<Point>, k: nat): (r: seq<Point>)
    requires k <= |c|
    ensures |r| == |c|
  {
    c[k..] + c[..k]
  }

  /** The quad `fix_quad` writes when the polygon is not degenerate. */
  function Fixed(q: seq<Point>): (r: seq<Point>)
    requires |q| == 4 && Reachable(q)
    ensures |r| == 4
  {
    var c := Reorder(q);
    ReorderPermutes(q);
    BestAttained(q, c);
    Rotate(c, FirstAtMost(c, BestBelow(q, 4), 0))
  }

  /**
   * The outcome of `fix_quad(out, in)`: the result and the quad left in
   * `out`. A deque of the wrong size leaves `out` alone; a degenerate one
   * leaves it equal to `in`; otherwise `out` holds the reordered, rotated
   * quad, even when the quad is concave and the result is false.
   */
  function FixQuadResult(out: seq<Point>, inp: seq<Point>): (bool, seq<Point>)
    requires |inp| == 4 ==> Reachable(inp)
  {
    if |inp| != 4 then (false, out)
    else if Degenerate(inp) then (false, inp)
    else (Accepted(inp), Fixed(inp))
  }

  /** `fix_quad(out, in)`. */
  method FixQuad(out: array<Point>, inp: seq<Point>) returns (ok: bool)
    requires out.Length == 4
    requires |inp| == 4 ==> Reachable(inp)
    modifies out
    ensures (ok, out[..]) == FixQuadResult(old(out[..]), inp)
  {
    if |inp| != 4 {
      return false;
    }
    var products, positiveCount, degenerate := Turns(out, inp);
    if degenerate {
      return false;
    }
    var copy, err := Reordered(inp, products, positiveCount);
    // `first` is still null here, so the branch that keeps the order on
    // error never runs: the quad is always rotated.
    ReorderPermutes(inp);
    copy := BottomLeftFirst(inp, copy);
    assert copy == Fixed(inp);
    for i := 0 to 4
      invariant out[..i] == copy[..i]
    {
      out[i] := copy[i];
    }
    assert out[..] == out[..4] == copy[..4] == copy;
    assert PositiveCount(inp) <= 4;
    assert Accepted(inp) == !err;
    return !err;
  }

  /**
   * The first loop of `fix_quad`: copies `in` to `out` and records each
   * vertex's cross product, the number of positive ones and whether one
   * is zero.
   */
  method Turns(out: array<Point>, inp: seq<Point>) returns (products: array<real>, positiveCount: nat, degenerate: bool)
    requires out.Length == 4 && |inp| == 4
    modifies out
    ensures fresh(products) && products.Length == 4
    ensures out[..] == inp
    ensures forall k :: 0 <= k < 4 ==> products[k] == Turn(inp, k)
    ensures positiveCount == PositiveCount(inp) && degenerate == Degenerate(inp)
  {
    var copy := inp;
    products := new real[4](_ => 0.0);
    positiveCount := 0;
    degenerate := false;
    for i := 0 to 4
      invariant out[..i] == inp[..i]
      invariant forall k :: 0 <= k < i ==> products[k] == Turn(inp, k)
      invariant positiveCount == PositivesBelow(inp, i)
      invariant degenerate == ZeroBelow(inp, i)
    {
      out[i] := inp[i];
      products[i] := Cross(copy[(i + 3) % 4], copy[i], copy[(i + 1) % 4]);
      if products[i] == 0.0 {
        degenerate := true;
      } else if products[i] > 0.0 {
        positiveCount := positiveCount + 1;
      }
    }
    assert out[..] == out[..4];
  }

  /**
   * The `switch` on `positive_count`: reverse, swap the first clockwise
   * pair, or flag a concave quad.
   */
  method Reordered(inp: seq<Point>, products: array<real>, positiveCount: nat) returns (copy: seq<Point>, err: bool)
    requires |inp| == 4 && products.Length == 4 && positiveCount == PositiveCount(inp)
    requires forall k :: 0 <= k < 4 ==> products[k] == Turn(inp, k)
    ensures copy == Reorder(inp) && err == (positiveCount == 1 || positiveCount == 3)
  {
    copy := inp;
    err := false;
    if positiveCount == 0 {
      for i := 0 to 4
        invariant |copy| == 4
        invariant forall k :: 0 <= k < i ==> copy[k] == inp[3 - k]
      {
        copy := copy[i := inp[3 - i]];
      }
      assert copy == Reverse(inp);
    } else if positiveCount == 2 {
      var vert := 0;
      for i := 0 to 4
        invariant forall k :: 0 <= k < i ==> !BothClockwise(inp, k)
        invariant 0 < i ==> vert == i - 1
      {
        vert := i;
        if products[i] < 0.0 && products[(i + 1) % 4] < 0.0 {
          assert BothClockwise(inp, i);
          break;
        }
      }
      assert vert == SwapIndex(inp);
      copy := copy[vert := inp[(vert + 1) % 4]];
      copy := copy[(vert + 1) % 4 := inp[vert]];
    } else if positiveCount == 1 || positiveCount == 3 {
      err := true;
    }
  }

  /**
   * The last part of `fix_quad`: `best` is the least `x + y` of the input
   * points (capped at `FLT_MAX`), and the deque is rotated until a point
   * that close is at its front.
   */
  method BottomLeftFirst(inp: seq<Point>, c: seq<Point>) returns (copy: seq<Point>)
    requires |inp| == 4 && Reachable(inp) && multiset(c) == multiset(inp)
    ensures copy == Rotate(c, FirstAtMost(c, BestBelow(inp, 4), 0))
  {
    var best := FltMax;
    for i := 0 to 4
      invariant best == BestBelow(inp, i)
    {
      var dist := inp[i].x + inp[i].y;
      if best > dist {
        best := dist;
      }
    }
    BestAttained(inp, c);
    ghost var start := FirstAtMost(c, best, 0);
    ghost var k := 0;
    copy := c;
    while copy[0].x + copy[0].y > best
      invariant k <= start < |c| && copy == Rotate(c, k)
      decreases start - k
    {
      RotateStep(c, k);
      copy := copy[1..] + [copy[0]];
      k := k + 1;
    }
  }

  /** One round of the rotation loop. */
  lemma RotateStep(c: seq<Point>, k: nat)
    requires k < |c|
    ensures Rotate(c, k)[1..] + [Rotate(c, k)[0]] == Rotate(c, k + 1)
  {
    assert Rotate(c, k)[0] == c[k];
    assert Rotate(c, k)[1..] == c[k + 1..] + c[..k];
    assert c[..k + 1] == c[..k] + [c[k]];
  }

  /** Reordering only permutes the four points. */
  lemma ReorderPermutes(q: seq<Point>)
    requires |q| == 4
    ensures multiset(Reorder(q)) == multiset(q)
  {
    var n := PositiveCount(q);
    if n == 0 {
      ReversePermutes(q);
    } else if n == 2 {
      SwapPermutes(q, SwapIndex(q));
    }
  }

  lemma ReversePermutes(q: seq<Point>)
    requires |q| == 4
    ensures multiset(Reverse(q)) == multiset(q)
  {
    assert q == [q[0], q[1], q[2], q[3]];
  }

  lemma SwapPermutes(q: seq<Point>, v: nat)
    requires |q| == 4 && v < 4
    ensures multiset(Swap(q, v)) == multiset(q)
  {
    var w := (v + 1) % 4;
    var s := q[v := q[w]];
    assert s[w] == q[w];
    assert multiset(s) == multiset(q) - multiset{q[v]} + multiset{q[w]};
    assert multiset(s[w := q[v]]) == multiset(s) - multiset{q[w]} + multiset{q[v]};
  }

  /**
   * `best` is at most `FLT_MAX`, no larger than any scanned point's
   * `x + y`, and either `FLT_MAX` or one of those sums.
   */
  lemma {:induction false} BestBelowBounds(q: seq<Point>, n: nat)
    requires n <= |q|
    ensures BestBelow(q, n) <= FltMax
    ensures forall i :: 0 <= i < n ==> BestBelow(q, n) <= SumXY(q[i])
    ensures BestBelow(q, n) == FltMax || exists i :: 0 <= i < n && BestBelow(q, n) == SumXY(q[i])
  {
    if n > 0 {
      BestBelowBounds(q, n - 1);
    }
  }

  /** For a reachable quad some point of any permutation `c` of it lies no further than `best`. */
  lemma BestAttained(q: seq<Point>, c: seq<Point>)
    requires |q| == 4 && Reachable(q) && multiset(c) == multiset(q)
    ensures FirstAtMost(c, BestBelow(q, 4), 0) < |c|
  {
    BestBelowBounds(q, 4);
    var i :| 0 <= i < |q| && SumXY(q[i]) <= FltMax;
    var j: nat;
    if BestBelow(q, 4) == FltMax {
      j := i;
    } else {
      j :| 0 <= j < 4 && BestBelow(q, 4) == SumXY(q[j]);
    }
    assert q[j] in multiset(c);
    var l :| 0 <= l < |c| && c[l] == q[j];
    assert SumXY(c[l]) <= BestBelow(q, 4);
  }

  /** Rotating keeps the points. */
  lemma RotatePermutes(c: seq<Point>, k: nat)
    requires k <= |c|
    ensures multiset(Rotate(c, k)) == multiset(c)
  {
    assert c == c[..k] + c[k..];
  }

  /** `fix_quad` only reorders the points it is given. */
  lemma FixedPermutes(q: seq<Point>)
    requires |q| == 4 && Reachable(q)
    ensures multiset(Fixed(q)) == multiset(q)
  {
    var c := Reorder(q);
    ReorderPermutes(q);
    BestAttained(q, c);
    RotatePermutes(c, FirstAtMost(c, BestBelow(q, 4), 0));
  }

  /** The first point of the fixed quad is one closest to the bottom-left corner. */
  lemma FixedStartsBottomLeft(q: seq<Point>)
    requires |q| == 4 && Reachable(q)
    ensures SumXY(Fixed(q)[0]) <= FltMax
    ensures forall i :: 0 <= i < 4 ==> SumXY(Fixed(q)[0]) <= SumXY(q[i])
  {
    var c := Reorder(q);
    ReorderPermutes(q);
    BestAttained(q, c);
    BestBelowBounds(q, 4);
    var k := FirstAtMost(c, BestBelow(q, 4), 0);
    assert Fixed(q)[0] == c[k];
  }

  /** Every turn of the polygon is counter-clockwise. */
  predicate Counterclockwise(q: seq<Point>)
    requires |q| == 4
  {
    forall i :: 0 <= i < 4 ==> Turn(q, i) > 0.0
  }

  /** All of the first `n` turns are left turns exactly when all `n` are counted. */
  lemma {:induction false} PositivesBelowAll(q: seq<Point>, n: nat)
    requires |q| == 4 && n <= 4
    ensures PositivesBelow(q, n) == n <==> forall i :: 0 <= i < n ==> Turn(q, i) > 0.0
  {
    if n > 0 {
      PositivesBelowAll(q, n - 1);
    }
  }

  /** None of the first `n` turns is a left turn exactly when none is counted. */
  lemma {:induction false} PositivesBelowNone(q: seq<Point>, n: nat)
    requires |q| == 4 && n <= 4
    ensures PositivesBelow(q, n) == 0 <==> forall i :: 0 <= i < n ==> Turn(q, i) <= 0.0
  {
    if n > 0 {
      PositivesBelowNone(q, n - 1);
    }
  }

  /** `positive_count == 4` says exactly that the polygon is counter-clockwise. */
  lemma CountFour(q: seq<Point>)
    requires |q| == 4
    ensures PositiveCount(q) == 4 <==> Counterclockwise(q)
  {
    PositivesBelowAll(q, 4);
  }

  /** Walking the path backwards turns the other way. */
  lemma CrossReverse(a: Point, b: Point, c: Point)
    ensures Cross(c, b, a) == -Cross(a, b, c)
  {
  }

  /** The turn at `i` of the reversed polygon is the opposite of the turn at `3 - i`. */
  lemma ReverseTurn(q: seq<Point>, i: nat)
    requires |q| == 4 && i < 4
    ensures Turn(Reverse(q), i) == -Turn(q, 3 - i)
  {
    var r := Reverse(q);
    if i == 0 {
      CrossReverse(q[3], q[0], q[1]);
      assert Turn(r, 0) == Cross(q[0], q[3], q[2]);
    } else if i == 1 {
      CrossReverse(q[1], q[2], q[3]);
      assert Turn(r, 1) == Cross(q[3], q[2], q[1]);
    } else if i == 2 {
      CrossReverse(q[0], q[1], q[2]);
      assert Turn(r, 2) == Cross(q[2], q[1], q[0]);
    } else {
      CrossReverse(q[3], q[0], q[1]);
      assert Turn(r, 3) == Cross(q[1], q[0], q[3]);
    }
  }

  /** A convex polygon, either way round, is counter-clockwise after the reordering. */
  lemma ReorderCounterclockwise(q: seq<Point>)
    requires |q| == 4 && !Degenerate(q) && PositiveCount(q) in {0, 4}
    ensures Counterclockwise(Reorder(q))
  {
    if PositiveCount(q) == 4 {
      CountFour(q);
    } else {
      PositivesBelowNone(q, 4);
      forall i | 0 <= i < 4
        ensures Turn(Reverse(q), i) > 0.0
      {
        ReverseTurn(q, i);
        assert Turn(q, 3 - i) != 0.0;
      }
    }
  }

  /** Position `j` of the rotation is position `j + k (mod 4)` of the original. */
  lemma RotateAt(c: seq<Point>, k: nat, j: nat)
    requires |c| == 4 && k < 4 && j < 4
    ensures Rotate(c, k)[j] == c[(j + k) % 4]
  {
  }

  /** The turn at `i` of the rotation is the turn at `i + k (mod 4)` of the original. */
  lemma RotateTurn(c: seq<Point>, k: nat, i: nat)
    requires |c| == 4 && k < 4 && i < 4
    ensures Turn(Rotate(c, k), i) == Turn(c, (i + k) % 4)
  {
    var r, j := Rotate(c, k), (i + k) % 4;
    ShiftMod(i, k);
    RotateAt(c, k, (i + 3) % 4);
    RotateAt(c, k, i);
    RotateAt(c, k, (i + 1) % 4);
    assert r[(i + 3) % 4] == c[(j + 3) % 4] && r[i] == c[j] && r[(i + 1) % 4] == c[(j + 1) % 4];
  }

  /** Stepping back or forward around the polygon commutes with rotating it. */
  lemma ShiftMod(i: nat, k: nat)
    requires i < 4 && k < 4
    ensures ((i + 3) % 4 + k) % 4 == ((i + k) % 4 + 3) % 4
    ensures ((i + 1) % 4 + k) % 4 == ((i + k) % 4 + 1) % 4
  {
  }

  /** Rotating a counter-clockwise polygon keeps it counter-clockwise. */
  lemma RotateCounterclockwise(c: seq<Point>, k: nat)
    requires |c| == 4 && k < 4 && Counterclockwise(c)
    ensures Counterclockwise(Rotate(c, k))
  {
    forall i | 0 <= i < 4
      ensures Turn(Rotate(c, k), i) > 0.0
    {
      RotateTurn(c, k, i);
    }
  }

  /**
   * A convex quad, clicked in either direction, comes out of `fix_quad`
   * counter-clockwise: it is accepted again, with four left turns.
   */
  lemma FixedCounterclockwise(q: seq<Point>)
    requires |q| == 4 && Reachable(q) && !Degenerate(q) && PositiveCount(q) in {0, 4}
    ensures Counterclockwise(Fixed(q))
    ensures !Degenerate(Fixed(q)) && PositiveCount(Fixed(q)) == 4
  {
    var c := Reorder(q);
    ReorderPermutes(q);
    BestAttained(q, c);
    ReorderCounterclockwise(q);
    RotateCounterclockwise(c, FirstAtMost(c, BestBelow(q, 4), 0));
    CountFour(Fixed(q));
  }

  /** `best` depends only on which points there are, not on their order. */
  lemma BestBelowPermutation(q: seq<Point>, r: seq<Point>)
    requires |q| == 4 && |r| == 4 && multiset(q) == multiset(r)
    ensures BestBelow(q, 4) == BestBelow(r, 4)
  {
    BestBelowAtMost(q, r);
    BestBelowAtMost(r, q);
  }

  /** The `best` of `q` is no larger than that of a permutation `r`. */
  lemma BestBelowAtMost(q: seq<Point>, r: seq<Point>)
    requires |q| == 4 && |r| == 4 && multiset(q) == multiset(r)
    ensures BestBelow(q, 4) <= BestBelow(r, 4)
  {
    BestBelowBounds(q, 4);
    BestBelowBounds(r, 4);
    if BestBelow(r, 4) != FltMax {
      var j :| 0 <= j < 4 && BestBelow(r, 4) == SumXY(r[j]);
      assert r[j] in multiset(q);
      var i :| 0 <= i < 4 && q[i] == r[j];
    }
  }

  /**
   * Running `fix_quad` again on the quad it produced for a convex quad
   * changes nothing.
   */
  lemma FixedIdempotent(q: seq<Point>)
    requires |q| == 4 && Reachable(q) && !Degenerate(q) && PositiveCount(q) in {0, 4}
    ensures Reachable(Fixed(q)) && Fixed(Fixed(q)) == Fixed(q)
  {
    var r := Fixed(q);
    FixedPermutes(q);
    FixedStartsBottomLeft(q);
    FixedCounterclockwise(q);
    assert Reachable(r) by {
      assert SumXY(r[0]) <= FltMax;
    }
    assert Reorder(r) == r;
    BestBelowPermutation(q, r);
    BestBelowBounds(q, 4);
    assert SumXY(r[0]) <= BestBelow(r, 4);
    assert FirstAtMost(r, BestBelow(r, 4), 0) == 0;
    assert Rotate(r, 0) == r;
  }

  /**
   * `best` and `vert` after the `MOVE_NEAREST` scan of the first `n`
   * vertices: the first vertex strictly closer than everything before it
   * (and than `FLT_MAX`) replaces the current choice, which starts at the
   * front.
   */
  function NearestBelow(vs: seq<Point>, p: Point, n: nat): (r: (real, nat))
    requires n <= |vs|
    ensures r.1 < n || r.1 == 0
  {
    if n == 0 then (FltMax, 0)
    else
      var (best, vert) := NearestBelow(vs, p, n - 1);
      var dist := Dist2(p, vs[n - 1]);
      if best > dist then (dist, n - 1) else (best, vert)
  }

  /** The vertex `MOVE_NEAREST` erases. */
  function NearestIndex(vs: seq<Point>, p: Point): (k: nat)
    ensures |vs| > 0 ==> k < |vs|
  {
    NearestBelow(vs, p, |vs|).1
  }

  /**
   * The scan keeps the least distance seen (capped at `FLT_MAX`) and the
   * first vertex attaining it, or the front when none is below `FLT_MAX`.
   */
  lemma {:induction false} NearestBelowIsNearest(vs: seq<Point>, p: Point, n: nat)
    requires 0 < n <= |vs|
    ensures NearestBelow(vs, p, n).1 < n
    ensures NearestBelow(vs, p, n).0 <= FltMax
    ensures forall j :: 0 <= j < n ==> NearestBelow(vs, p, n).0 <= Dist2(p, vs[j])
    ensures NearestBelow(vs, p, n).0 == FltMax || NearestBelow(vs, p, n).0 == Dist2(p, vs[NearestBelow(vs, p, n).1])
    ensures NearestBelow(vs, p, n).0 < FltMax ==>
      forall j :: 0 <= j < NearestBelow(vs, p, n).1 ==> Dist2(p, vs[j]) > NearestBelow(vs, p, n).0
    ensures NearestBelow(vs, p, n).0 == FltMax ==> NearestBelow(vs, p, n).1 == 0
  {
    if n > 1 {
      NearestBelowIsNearest(vs, p, n - 1);
    }
  }

  /**
   * `MOVE_NEAREST` erases the first vertex closest to the click; when no
   * vertex is closer than `FLT_MAX` it erases the front.
   */
  lemma NearestIndexIsNearest(vs: seq<Point>, p: Point)
    requires |vs| > 0
    ensures NearestIndex(vs, p) < |vs|
    ensures (exists j :: 0 <= j < |vs| && Dist2(p, vs[j]) < FltMax) ==>
      (forall j :: 0 <= j < |vs| ==> Dist2(p, vs[NearestIndex(vs, p)]) <= Dist2(p, vs[j])) &&
      (forall j :: 0 <= j < NearestIndex(vs, p) ==> Dist2(p, vs[j]) > Dist2(p, vs[NearestIndex(vs, p)]))
    ensures (forall j :: 0 <= j < |vs| ==> Dist2(p, vs[j]) >= FltMax) ==> NearestIndex(vs, p) == 0
  {
    NearestBelowIsNearest(vs, p, |vs|);
  }

  /** The scan of the `MOVE_NEAREST` case. */
  method NearestVertex(vs: seq<Point>, p: Point) returns (vert: nat)
    ensures vert == NearestIndex(vs, p)
  {
    vert := 0;
    var best := FltMax;
    for i := 0 to |vs|
      invariant (best, vert) == NearestBelow(vs, p, i)
    {
      var dist := Dist2(p, vs[i]);
      if best > dist {
        best := dist;
        vert := i;
      }
    }
  }

  /**
   * The state the click handler keeps between clicks: the deque
   * `vertices`, oldest first, the quadrilateral `img.dewarp_src` and
   * `valid_quad`.
   */
  datatype Picker = Picker(vertices: seq<Point>, src: seq<Point>, validQuad: bool)

  /** The deque after erasing position `k`. */
  function Erase(vs: seq<Point>, k: nat): (r: seq<Point>)
    requires k < |vs|
    ensures |r| == |vs| - 1 && multiset(r) == multiset(vs) - multiset{vs[k]}
  {
    assert vs == vs[..k] + [vs[k]] + vs[k + 1..];
    vs[..k] + vs[k + 1..]
  }

  /** `valid_quad = fix_quad(&img.dewarp_src, vertices)` with the new deque `vs`, which ends with a reachable point. */
  function Refit(s: Picker, vs: seq<Point>): (r: Picker)
    requires |s.src| == 4 && |vs| > 0 && SumXY(vs[|vs| - 1]) <= FltMax
    ensures r.vertices == vs && |r.src| == 4
  {
    assert |vs| == 4 ==> Reachable(vs);
    var (ok, out) := FixQuadResult(s.src, vs);
    assert |vs| == 4 ==> |out| == 4;
    Picker(vs, out, ok)
  }

  /**
   * One click at `p` (src/preview.cpp:86-127): the deque is emptied if the
   * quad's first corner is `invalid_point`; a new point is appended while
   * there are fewer than four, and becomes corner `size - 1`, with
   * `fix_quad` run on the fourth; otherwise a click on the oldest point or
   * on a new point is handled by the configured behaviour, and a click on
   * any other selected point does nothing.
   */
  function AfterClick(s: Picker, p: Point, behaviour: ClickBehaviour): (r: Picker)
    requires |s.src| == 4 && SumXY(p) <= FltMax
    ensures |r.src| == 4
  {
    var vs := if PointEq(s.src[0], InvalidPoint) then [] else s.vertices;
    if |vs| < 4 && p !in vs then
      var src := s.src[|vs| := p];
      if |vs| + 1 == 4 then Refit(s.(src := src), vs + [p])
      else Picker(vs + [p], src, s.validQuad)
    else if p == vs[0] || p !in vs then
      match behaviour
      case MoveNearest => Refit(s, Erase(vs, NearestIndex(vs, p)) + [p])
      case MoveOldest => Refit(s, vs[1..] + [p])
      case ClearAll => s.(vertices := [p])
    else s.(vertices := vs)
  }

  /** No point occurs twice. */
  predicate Distinct(vs: seq<Point>) {
    forall i, j :: 0 <= i < j < |vs| ==> vs[i] != vs[j]
  }

  /** Every point is close enough to the corner for `fix_quad`'s rotation to stop. */
  predicate Bounded(vs: seq<Point>) {
    forall i :: 0 <= i < |vs| ==> SumXY(vs[i]) <= FltMax
  }

  /**
   * What the handler maintains: at most four distinct selected points, and
   * once there are four, `dewarp_src` and `valid_quad` are what `fix_quad`
   * makes of them.
   */
  predicate Consistent(s: Picker) {
    |s.vertices| <= 4 && |s.src| == 4 && Distinct(s.vertices) && Bounded(s.vertices) &&
    (|s.vertices| == 4 ==> Reachable(s.vertices) && (s.validQuad, s.src) == FixQuadResult(s.src, s.vertices))
  }

  /** The empty deque of a fresh handler is consistent with any quad. */
  lemma InitialConsistent(src: seq<Point>, validQuad: bool)
    requires |src| == 4
    ensures Consistent(Picker([], src, validQuad))
  {
  }

  /** A point equal to the front is at distance 0 from it, so `MOVE_NEAREST` erases the front. */
  lemma NearestOfFront(vs: seq<Point>, p: Point)
    requires |vs| > 0 && vs[0] == p
    ensures NearestIndex(vs, p) == 0
  {
    assert Dist2(p, vs[0]) == 0.0;
    NearestBelowIsNearest(vs, p, |vs|);
    var k := NearestIndex(vs, p);
    assert Dist2(p, vs[k]) >= 0.0;
  }

  /** Appending a point not yet present keeps the points distinct. */
  lemma AppendDistinct(vs: seq<Point>, p: Point)
    requires Distinct(vs) && p !in vs
    ensures Distinct(vs + [p])
  {
  }

  /** Erasing a point keeps the others distinct and drops only that point. */
  lemma EraseDistinct(vs: seq<Point>, k: nat)
    requires Distinct(vs) && k < |vs|
    ensures Distinct(Erase(vs, k)) && vs[k] !in Erase(vs, k)
    ensures forall q :: q in Erase(vs, k) ==> q in vs
  {
    var r := Erase(vs, k);
    forall i, j | 0 <= i < j < |r|
      ensures r[i] != r[j]
    {
      var i', j' := if i < k then i else i + 1, if j < k then j else j + 1;
      assert r[i] == vs[i'] && r[j] == vs[j'];
    }
    forall i | 0 <= i < |r|
      ensures r[i] != vs[k] && r[i] in vs
    {
      assert r[i] == vs[if i < k then i else i + 1];
    }
  }

  /** The new deque of a move: one point erased, the clicked one appended. */
  lemma MoveConsistent(s: Picker, vs: seq<Point>, k: nat, p: Point)
    requires |s.src| == 4 && SumXY(p) <= FltMax
    requires |vs| <= 4 && Distinct(vs) && Bounded(vs) && k < |vs| && (p !in vs || vs[k] == p)
    ensures Consistent(Refit(s, Erase(vs, k) + [p]))
  {
    EraseDistinct(vs, k);
    AppendDistinct(Erase(vs, k), p);
  }

  /** Every click keeps the handler's state consistent. */
  lemma ClickConsistent(s: Picker, p: Point, behaviour: ClickBehaviour)
    requires Consistent(s) && SumXY(p) <= FltMax
    ensures Consistent(AfterClick(s, p, behaviour))
  {
    var vs := if PointEq(s.src[0], InvalidPoint) then [] else s.vertices;
    if |vs| < 4 && p !in vs {
      AppendDistinct(vs, p);
    } else if p == vs[0] || p !in vs {
      match behaviour
      case MoveNearest =>
        if p == vs[0] {
          NearestOfFront(vs, p);
        } else {
          NearestIndexIsNearest(vs, p);
        }
        MoveConsistent(s, vs, NearestIndex(vs, p), p);
      case MoveOldest =>
        assert vs[1..] == Erase(vs, 0);
        MoveConsistent(s, vs, 0, p);
      case ClearAll =>
    }
  }

  /**
   * After a click the clicked point is selected, and a click that changed
   * the deque (any click but one on a selected point other than the
   * oldest) makes it the newest.
   */
  lemma ClickSelects(s: Picker, p: Point, behaviour: ClickBehaviour)
    requires |s.src| == 4 && SumXY(p) <= FltMax
    ensures p in AfterClick(s, p, behaviour).vertices
    ensures var vs := if PointEq(s.src[0], InvalidPoint) then [] else s.vertices;
      p !in vs || (|vs| > 0 && p == vs[0]) ==>
        var r := AfterClick(s, p, behaviour).vertices;
        |r| > 0 && r[|r| - 1] == p
  {
  }

  /**
   * The click handler's static state. The quad `img.dewarp_src.p` it
   * writes is passed in as a four-point array.
   */
  class VertexPicker {
    var vertices: seq<Point>
    var validQuad: bool

    /** The statics before the first click: an empty deque and `valid_quad == false`. */
    constructor()
      ensures vertices == [] && !validQuad
    {
      vertices := [];
      validQuad := false;
    }

    /** The click branch of `window_preview`. */
    method Click(src: array<Point>, p: Point, behaviour: ClickBehaviour)
      requires src.Length == 4 && SumXY(p) <= FltMax
      modifies this, src
      ensures Picker(vertices, src[..], validQuad) == AfterClick(Picker(old(vertices), old(src[..]), old(validQuad)), p, behaviour)
    {
      ghost var s := Picker(vertices, src[..], validQuad);
      if PointEq(src[0], InvalidPoint) {
        vertices := [];
      }
      ghost var vs := vertices;
      if |vertices| < 4 && p !in vertices {
        vertices := vertices + [p];
        src[|vertices| - 1] := p;
        if |vertices| == 4 {
          assert vertices[3] == p;
          validQuad := FixQuad(src, vertices);
        }
      } else if p == vertices[0] || p !in vertices {
        match behaviour
        case MoveNearest =>
          var vert := NearestVertex(vertices, p);
          NearestIndexIsNearest(vertices, p);
          vertices := vertices[..vert] + vertices[vert + 1..];
          vertices := vertices + [p];
          assert vertices == Erase(vs, NearestIndex(vs, p)) + [p];
          assert vertices[|vertices| - 1] == p;
          validQuad := FixQuad(src, vertices);
        case MoveOldest =>
          vertices := vertices[1..];
          vertices := vertices + [p];
          assert vertices == vs[1..] + [p];
          assert vertices[|vertices| - 1] == p;
          validQuad := FixQuad(src, vertices);
        case ClearAll =>
          vertices := [p];
      }
    }
  }
}
