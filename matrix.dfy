/**
 * The fixed-size matrices of the perspective correction (src/matrix.cpp,
 * inc/matrix.hpp): `mat<R, C>` holds `data[R][C]` row by row and is
 * indexed from 1. Elements are `double`s, modelled as `real`, so the
 * algebra below is exact.
 */
module Matrix {
  import opened Defs

  /** `mat<R, C>::data`: `R` rows of `C` elements each. */
  type Mat = seq<seq<real>>

  /** `m` is an `r`-by-`c` matrix. */
  predicate Shape(m: Mat, r: nat, c: nat) {
    |m| == r && forall i :: 0 <= i < r ==> |m[i]| == c
  }

  /** `min(R, C)`: the length of the main diagonal. */
  function MinDim(r: nat, c: nat): nat {
    if r <= c then r else c
  }

  /**
   * The matrix the constructors `mat()` and `mat(t)` build: zero-filled,
   * with `t` on the first `min(R, C)` diagonal entries.
   */
  function Diagonal(r: nat, c: nat, t: real): (m: Mat)
    ensures Shape(m, r, c)
  {
    seq(r, i => seq(c, j => if i == j then t else 0.0))
  }

  /**
   * The variadic constructor `mat(ts...)`, which overload resolution
   * picks for two or more arguments (none calls `mat(void)`, one the
   * diagonal `mat(t)`): copies the first `min(R * C, |ts|)` arguments
   * row by row and leaves the rest zero.
   */
  function Filled(r: nat, c: nat, ts: seq<real>): (m: Mat)
    requires |ts| >= 2
    ensures Shape(m, r, c)
  {
    seq(r, i => seq(c, j => Arg(ts, i * c + j)))
  }

  /** Argument `k` of the list, or the zero the constructor starts from. */
  function Arg(ts: seq<real>, k: int): real {
    if 0 <= k < |ts| then ts[k] else 0.0
  }

  /** The 1-based `operator()(row, column)`: element `data[row - 1][column - 1]`. */
  function At(m: Mat, row: nat, column: nat): real
    requires 1 <= row <= |m| && 1 <= column <= |m[row - 1]|
  {
    m[row - 1][column - 1]
  }

  /**
   * Reading a filled matrix at `(row, column)` gives argument number
   * `(row - 1) * C + (column - 1)`: the arguments are laid out row-major
   * and the accessor counts from 1.
   */
  lemma AtFilled(r: nat, c: nat, ts: seq<real>, row: nat, column: nat)
    requires 1 <= row <= r && 1 <= column <= c && r * c == |ts| >= 2
    ensures (row - 1) * c + (column - 1) < |ts|
    ensures At(Filled(r, c, ts), row, column) == ts[(row - 1) * c + (column - 1)]
  {
    var i, j := row - 1, column - 1;
    assert 0 <= i * c;
    assert i * c + j < (i + 1) * c <= r * c by {
      assert (i + 1) * c == i * c + c;
      MulMono(i + 1, r, c);
    }
    assert Filled(r, c, ts)[i][j] == Arg(ts, i * c + j);
  }

  lemma MulMono(a: nat, b: nat, c: nat)
    requires a <= b
    ensures a * c <= b * c
  {
  }

  /** `vec(p)`: the column `(p.x, p.y, 1)` in homogeneous coordinates. */
  function Vec(p: Point): (v: Mat)
    ensures Shape(v, 3, 1)
  {
    Filled(3, 1, [p.x, p.y, 1.0])
  }

  /** The column `vec(p)` holds x, y and 1, in that order. */
  lemma VecColumn(p: Point)
    ensures Vec(p) == [[p.x], [p.y], [1.0]]
  {
    var ts := [p.x, p.y, 1.0];
    var v := Filled(3, 1, ts);
    assert v[0][0] == Arg(ts, 0);
    assert v[1][0] == Arg(ts, 1);
    assert v[2][0] == Arg(ts, 2);
    assert v[0] == [p.x] && v[1] == [p.y] && v[2] == [1.0];
  }

  /** Every element multiplied by `t` (`operator*(T)`). */
  function Scale(m: Mat, t: real): (s: Mat)
    ensures |s| == |m| && forall i :: 0 <= i < |m| ==> |s[i]| == |m[i]|
  {
    seq(|m|, i requires 0 <= i < |m| => seq(|m[i]|, j requires 0 <= j < |m[i]| => m[i][j] * t))
  }

  /** Every element divided by `t` (`operator/(T)`). */
  function Quotient(m: Mat, t: real): (s: Mat)
    requires t != 0.0
    ensures |s| == |m| && forall i :: 0 <= i < |m| ==> |s[i]| == |m[i]|
  {
    seq(|m|, i requires 0 <= i < |m| => seq(|m[i]|, j requires 0 <= j < |m[i]| => m[i][j] / t))
  }

  /** Dividing by `t` undoes multiplying by it, and the other way round. */
  lemma ScaleQuotientInverse(m: Mat, t: real)
    requires t != 0.0
    ensures Quotient(Scale(m, t), t) == m
    ensures Scale(Quotient(m, t), t) == m
  {
    forall i | 0 <= i < |m|
      ensures Quotient(Scale(m, t), t)[i] == m[i] && Scale(Quotient(m, t), t)[i] == m[i]
    {
      forall j | 0 <= j < |m[i]|
        ensures Quotient(Scale(m, t), t)[i][j] == m[i][j] && Scale(Quotient(m, t), t)[i][j] == m[i][j]
      {
        assert m[i][j] * t / t == m[i][j] && m[i][j] / t * t == m[i][j];
      }
    }
  }

  /** Dividing by `t` is multiplying by `1 / t`. */
  lemma QuotientIsScale(m: Mat, t: real)
    requires t != 0.0
    ensures Quotient(m, t) == Scale(m, 1.0 / t)
  {
    forall i | 0 <= i < |m|
      ensures Quotient(m, t)[i] == Scale(m, 1.0 / t)[i]
    {
      forall j | 0 <= j < |m[i]|
        ensures Quotient(m, t)[i][j] == Scale(m, 1.0 / t)[i][j]
      {
        assert m[i][j] / t == m[i][j] * (1.0 / t);
      }
    }
  }

  /** Every row of `a` has `n` elements and `b` has `n` rows: `a * b` is defined. */
  predicate Conformable(a: Mat, b: Mat, n: nat) {
    (forall i :: 0 <= i < |a| ==> |a[i]| == n) && |b| == n
  }

  /** `left.data[i][0] * right.data[0][j] + ... ` over the first `n` terms, summed in order. */
  function Dot(a: Mat, b: Mat, i: nat, j: nat, n: nat): real
    requires i < |a| && n <= |a[i]| && n <= |b| && forall k :: 0 <= k < n ==> j < |b[k]|
  {
    if n == 0 then 0.0 else Dot(a, b, i, j, n - 1) + a[i][n - 1] * b[n - 1][j]
  }

  /** `left * right`: entry `(i, j)` is the sum over `k` of `left[i][k] * right[k][j]`. */
  function Product(a: Mat, b: Mat, n: nat, c: nat): (p: Mat)
    requires Conformable(a, b, n) && Shape(b, n, c)
    ensures Shape(p, |a|, c)
  {
    seq(|a|, i requires 0 <= i < |a| => seq(c, j requires 0 <= j < c => Dot(a, b, i, j, n)))
  }

  /** A dot product of length 3 is the sum of its three products. */
  lemma Dot3(a: Mat, b: Mat, i: nat, j: nat)
    requires i < |a| && 3 <= |a[i]| && 3 <= |b| && forall k :: 0 <= k < 3 ==> j < |b[k]|
    ensures Dot(a, b, i, j, 3) == Sum3(a[i][0], b[0][j], a[i][1], b[1][j], a[i][2], b[2][j])
  {
    assert Dot(a, b, i, j, 1) == a[i][0] * b[0][j];
    assert Dot(a, b, i, j, 2) == Dot(a, b, i, j, 1) + a[i][1] * b[1][j];
  }

  /**
   * The cofactor expansion of the determinant of a 3-by-3 matrix, the
   * quantity `det` is meant to compute. The source reads the elements
   * through the 1-based accessor, `m(r, c) == At(m, r, c) == m[r - 1][c - 1]`;
   * here they are named row by row a, b, c / d, e, f / g, h, k.
   */
  function Det(m: Mat): real
    requires Shape(m, 3, 3)
  {
    Expand(m[0][0], m[0][1], m[0][2], m[1][0], m[1][1], m[1][2], m[2][0], m[2][1], m[2][2])
  }

  /** The expansion itself, over the elements a .. k read row by row. */
  function Expand(a: real, b: real, c: real, d: real, e: real, f: real, g: real, h: real, k: real): real {
    a * e * k + b * f * g + c * d * h - a * f * h - b * d * k - c * e * g
  }

  /**
   * `det` as written: its last product reads `m(1,3) * m(2,2) * m(1,3)`,
   * that is `c * e * c`, where the expansion has `m(1,3) * m(2,2) * m(3,1)`,
   * that is `c * e * g`.
   */
  function DetAsWritten(m: Mat): real
    requires Shape(m, 3, 3)
  {
    var a, b, c, d, e, f, g, h, k := m[0][0], m[0][1], m[0][2], m[1][0], m[1][1], m[1][2], m[2][0], m[2][1], m[2][2];
    a * e * k + b * f * g + c * d * h - a * f * h - b * d * k - c * e * c
  }

  /**
   * The typo changes the result by `m13 * m22 * (m31 - m13)`: `det` is
   * right exactly on the matrices where that product vanishes.
   */
  lemma DetAsWrittenError(m: Mat)
    requires Shape(m, 3, 3)
    ensures DetAsWritten(m) == Det(m) + At(m, 1, 3) * At(m, 2, 2) * (At(m, 3, 1) - At(m, 1, 3))
    ensures DetAsWritten(m) == Det(m) <==> At(m, 1, 3) * At(m, 2, 2) * (At(m, 1, 3) - At(m, 3, 1)) == 0.0
  {
    var c, e, g := m[0][2], m[1][1], m[2][0];
    assert At(m, 1, 3) == c && At(m, 2, 2) == e && At(m, 3, 1) == g;
    assert DetAsWritten(m) - Det(m) == c * e * g - c * e * c;
    assert c * e * (g - c) == c * e * g - c * e * c;
    assert c * e * (c - g) == -(c * e * (g - c));
  }

  /**
   * `adj`: the classical adjugate, the transpose of the matrix of
   * cofactors. The source starts from `mat()` and overwrites all nine
   * entries, so nothing of the identity survives.
   */
  function Adj(m: Mat): (r: Mat)
    requires Shape(m, 3, 3)
    ensures Shape(r, 3, 3)
  {
    var a, b, c, d, e, f, g, h, k := m[0][0], m[0][1], m[0][2], m[1][0], m[1][1], m[1][2], m[2][0], m[2][1], m[2][2];
    [[Minor(e, k, f, h), Minor(c, h, b, k), Minor(b, f, c, e)],
     [Minor(f, g, d, k), Minor(a, k, c, g), Minor(c, d, a, f)],
     [Minor(d, h, e, g), Minor(b, g, a, h), Minor(a, e, b, d)]]
  }

  /** The defining property of the adjugate: `m * adj(m) == adj(m) * m == det(m) * I`. */
  lemma AdjugateProduct(m: Mat)
    requires Shape(m, 3, 3)
    ensures Product(m, Adj(m), 3, 3) == Diagonal(3, 3, Det(m))
    ensures Product(Adj(m), m, 3, 3) == Diagonal(3, 3, Det(m))
  {
    AdjEntries(m);
    ProductMul3(m, Adj(m));
    ProductMul3(Adj(m), m);
    AdjugateRight(m[0][0], m[0][1], m[0][2], m[1][0], m[1][1], m[1][2], m[2][0], m[2][1], m[2][2]);
    AdjugateLeft(m[0][0], m[0][1], m[0][2], m[1][0], m[1][1], m[1][2], m[2][0], m[2][1], m[2][2]);
    assert Product(m, Adj(m), 3, 3) == Mul3(m[0][0], m[0][1], m[0][2], m[1][0], m[1][1], m[1][2], m[2][0], m[2][1], m[2][2],
      Minor(m[1][1], m[2][2], m[1][2], m[2][1]), Minor(m[0][2], m[2][1], m[0][1], m[2][2]), Minor(m[0][1], m[1][2], m[0][2], m[1][1]),
      Minor(m[1][2], m[2][0], m[1][0], m[2][2]), Minor(m[0][0], m[2][2], m[0][2], m[2][0]), Minor(m[0][2], m[1][0], m[0][0], m[1][2]),
      Minor(m[1][0], m[2][1], m[1][1], m[2][0]), Minor(m[0][1], m[2][0], m[0][0], m[2][1]), Minor(m[0][0], m[1][1], m[0][1], m[1][0]));
    assert Product(Adj(m), m, 3, 3) == Mul3(
      Minor(m[1][1], m[2][2], m[1][2], m[2][1]), Minor(m[0][2], m[2][1], m[0][1], m[2][2]), Minor(m[0][1], m[1][2], m[0][2], m[1][1]),
      Minor(m[1][2], m[2][0], m[1][0], m[2][2]), Minor(m[0][0], m[2][2], m[0][2], m[2][0]), Minor(m[0][2], m[1][0], m[0][0], m[1][2]),
      Minor(m[1][0], m[2][1], m[1][1], m[2][0]), Minor(m[0][1], m[2][0], m[0][0], m[2][1]), Minor(m[0][0], m[1][1], m[0][1], m[1][0]),
      m[0][0], m[0][1], m[0][2], m[1][0], m[1][1], m[1][2], m[2][0], m[2][1], m[2][2]);
  }

  /** The nine cofactors, each in terms of the elements of `m`. */
  lemma AdjEntries(m: Mat)
    requires Shape(m, 3, 3)
    ensures Adj(m)[0][0] == Minor(m[1][1], m[2][2], m[1][2], m[2][1])
    ensures Adj(m)[0][1] == Minor(m[0][2], m[2][1], m[0][1], m[2][2])
    ensures Adj(m)[0][2] == Minor(m[0][1], m[1][2], m[0][2], m[1][1])
    ensures Adj(m)[1][0] == Minor(m[1][2], m[2][0], m[1][0], m[2][2])
    ensures Adj(m)[1][1] == Minor(m[0][0], m[2][2], m[0][2], m[2][0])
    ensures Adj(m)[1][2] == Minor(m[0][2], m[1][0], m[0][0], m[1][2])
    ensures Adj(m)[2][0] == Minor(m[1][0], m[2][1], m[1][1], m[2][0])
    ensures Adj(m)[2][1] == Minor(m[0][1], m[2][0], m[0][0], m[2][1])
    ensures Adj(m)[2][2] == Minor(m[0][0], m[1][1], m[0][1], m[1][0])
  {
  }

  /**
   * The adjugate identity on the elements a, b, c / d, e, f / g, h, k,
   * multiplying on the right: along each row the cofactor expansion is
   * the determinant, and the mixed expansions vanish.
   */
  lemma AdjugateRight(a: real, b: real, c: real, d: real, e: real, f: real, g: real, h: real, k: real)
    ensures Mul3(a, b, c, d, e, f, g, h, k,
                 Minor(e, k, f, h), Minor(c, h, b, k), Minor(b, f, c, e),
                 Minor(f, g, d, k), Minor(a, k, c, g), Minor(c, d, a, f),
                 Minor(d, h, e, g), Minor(b, g, a, h), Minor(a, e, b, d)) == Diagonal(3, 3, Expand(a, b, c, d, e, f, g, h, k))
  {
    CofactorSum(a, e, k, f, h, b, f, g, d, k, c, d, h, e, g, Expand(a, b, c, d, e, f, g, h, k));
    CofactorSum(a, c, h, b, k, b, a, k, c, g, c, b, g, a, h, 0.0);
    CofactorSum(a, b, f, c, e, b, c, d, a, f, c, a, e, b, d, 0.0);
    CofactorSum(d, e, k, f, h, e, f, g, d, k, f, d, h, e, g, 0.0);
    CofactorSum(d, c, h, b, k, e, a, k, c, g, f, b, g, a, h, Expand(a, b, c, d, e, f, g, h, k));
    CofactorSum(d, b, f, c, e, e, c, d, a, f, f, a, e, b, d, 0.0);
    CofactorSum(g, e, k, f, h, h, f, g, d, k, k, d, h, e, g, 0.0);
    CofactorSum(g, c, h, b, k, h, a, k, c, g, k, b, g, a, h, 0.0);
    CofactorSum(g, b, f, c, e, h, c, d, a, f, k, a, e, b, d, Expand(a, b, c, d, e, f, g, h, k));
    Equal3(Mul3(a, b, c, d, e, f, g, h, k,
                Minor(e, k, f, h), Minor(c, h, b, k), Minor(b, f, c, e),
                Minor(f, g, d, k), Minor(a, k, c, g), Minor(c, d, a, f),
                Minor(d, h, e, g), Minor(b, g, a, h), Minor(a, e, b, d)), Diagonal(3, 3, Expand(a, b, c, d, e, f, g, h, k)));
  }

  /** The same identity multiplying on the left, the expansions along the columns. */
  lemma AdjugateLeft(a: real, b: real, c: real, d: real, e: real, f: real, g: real, h: real, k: real)
    ensures Mul3(Minor(e, k, f, h), Minor(c, h, b, k), Minor(b, f, c, e),
                 Minor(f, g, d, k), Minor(a, k, c, g), Minor(c, d, a, f),
                 Minor(d, h, e, g), Minor(b, g, a, h), Minor(a, e, b, d),
                 a, b, c, d, e, f, g, h, k) == Diagonal(3, 3, Expand(a, b, c, d, e, f, g, h, k))
  {
    CofactorSum(a, e, k, f, h, d, c, h, b, k, g, b, f, c, e, Expand(a, b, c, d, e, f, g, h, k));
    CofactorSum(b, e, k, f, h, e, c, h, b, k, h, b, f, c, e, 0.0);
    CofactorSum(c, e, k, f, h, f, c, h, b, k, k, b, f, c, e, 0.0);
    CofactorSum(a, f, g, d, k, d, a, k, c, g, g, c, d, a, f, 0.0);
    CofactorSum(b, f, g, d, k, e, a, k, c, g, h, c, d, a, f, Expand(a, b, c, d, e, f, g, h, k));
    CofactorSum(c, f, g, d, k, f, a, k, c, g, k, c, d, a, f, 0.0);
    CofactorSum(a, d, h, e, g, d, b, g, a, h, g, a, e, b, d, 0.0);
    CofactorSum(b, d, h, e, g, e, b, g, a, h, h, a, e, b, d, 0.0);
    CofactorSum(c, d, h, e, g, f, b, g, a, h, k, a, e, b, d, Expand(a, b, c, d, e, f, g, h, k));
    Equal3(Mul3(Minor(e, k, f, h), Minor(c, h, b, k), Minor(b, f, c, e),
                Minor(f, g, d, k), Minor(a, k, c, g), Minor(c, d, a, f),
                Minor(d, h, e, g), Minor(b, g, a, h), Minor(a, e, b, d),
                a, b, c, d, e, f, g, h, k), Diagonal(3, 3, Expand(a, b, c, d, e, f, g, h, k)));
  }

  /**
   * The product of `a0 .. a8` by `b0 .. b8`, both read row by row,
   * written out entry by entry.
   */
  function Mul3(a0: real, a1: real, a2: real, a3: real, a4: real, a5: real, a6: real, a7: real, a8: real,
                b0: real, b1: real, b2: real, b3: real, b4: real, b5: real, b6: real, b7: real, b8: real): (p: Mat)
    ensures Shape(p, 3, 3)
  {
    [[Sum3(a0, b0, a1, b3, a2, b6), Sum3(a0, b1, a1, b4, a2, b7), Sum3(a0, b2, a1, b5, a2, b8)],
     [Sum3(a3, b0, a4, b3, a5, b6), Sum3(a3, b1, a4, b4, a5, b7), Sum3(a3, b2, a4, b5, a5, b8)],
     [Sum3(a6, b0, a7, b3, a8, b6), Sum3(a6, b1, a7, b4, a8, b7), Sum3(a6, b2, a7, b5, a8, b8)]]
  }

  /** A 2-by-2 determinant `p * q - r * s`, the cofactors of `adj`. */
  function Minor(p: real, q: real, r: real, s: real): real {
    p * q - r * s
  }

  /** A cofactor scaled by an element, multiplied out. */
  lemma ScaleMinor(x: real, p: real, q: real, r: real, s: real)
    ensures x * Minor(p, q, r, s) == x * p * q - x * r * s
  {
  }

  /**
   * Three cofactors, each scaled by an element and summed, in either order
   * of the factors: the sum of the twelve multiplied-out monomials.
   */
  lemma CofactorSum(x0: real, p0: real, q0: real, r0: real, s0: real,
                    x1: real, p1: real, q1: real, r1: real, s1: real,
                    x2: real, p2: real, q2: real, r2: real, s2: real, v: real)
    requires x0 * p0 * q0 - x0 * r0 * s0 + x1 * p1 * q1 - x1 * r1 * s1 + x2 * p2 * q2 - x2 * r2 * s2 == v
    ensures Sum3(x0, Minor(p0, q0, r0, s0), x1, Minor(p1, q1, r1, s1), x2, Minor(p2, q2, r2, s2)) == v
    ensures Sum3(Minor(p0, q0, r0, s0), x0, Minor(p1, q1, r1, s1), x1, Minor(p2, q2, r2, s2), x2) == v
  {
    ScaleMinor(x0, p0, q0, r0, s0);
    ScaleMinor(x1, p1, q1, r1, s1);
    ScaleMinor(x2, p2, q2, r2, s2);
  }

  /** A three-term dot product. */
  function Sum3(p: real, q: real, r: real, s: real, t: real, u: real): real {
    p * q + r * s + t * u
  }

  /** A 3-by-3 product is the written-out product of its factors' elements. */
  lemma ProductMul3(x: Mat, y: Mat)
    requires Shape(x, 3, 3) && Shape(y, 3, 3)
    ensures Product(x, y, 3, 3) == Mul3(x[0][0], x[0][1], x[0][2], x[1][0], x[1][1], x[1][2], x[2][0], x[2][1], x[2][2],
                                        y[0][0], y[0][1], y[0][2], y[1][0], y[1][1], y[1][2], y[2][0], y[2][1], y[2][2])
  {
    Dot3(x, y, 0, 0); Dot3(x, y, 0, 1); Dot3(x, y, 0, 2);
    Dot3(x, y, 1, 0); Dot3(x, y, 1, 1); Dot3(x, y, 1, 2);
    Dot3(x, y, 2, 0); Dot3(x, y, 2, 1); Dot3(x, y, 2, 2);
    Equal3(Product(x, y, 3, 3), Mul3(x[0][0], x[0][1], x[0][2], x[1][0], x[1][1], x[1][2], x[2][0], x[2][1], x[2][2],
                                     y[0][0], y[0][1], y[0][2], y[1][0], y[1][1], y[1][2], y[2][0], y[2][1], y[2][2]));
  }

  /** Two 3-by-3 matrices with the same nine elements are equal. */
  lemma Equal3(p: Mat, q: Mat)
    requires Shape(p, 3, 3) && Shape(q, 3, 3)
    requires p[0][0] == q[0][0] && p[0][1] == q[0][1] && p[0][2] == q[0][2]
    requires p[1][0] == q[1][0] && p[1][1] == q[1][1] && p[1][2] == q[1][2]
    requires p[2][0] == q[2][0] && p[2][1] == q[2][1] && p[2][2] == q[2][2]
    ensures p == q
  {
    assert p[0] == q[0];
    assert p[1] == q[1];
    assert p[2] == q[2];
  }

  /** Scaling either factor of a dot product scales the sum. */
  lemma {:induction false} DotScale(a: Mat, b: Mat, t: real, i: nat, j: nat, n: nat)
    requires i < |a| && n <= |a[i]| && n <= |b| && forall k :: 0 <= k < n ==> j < |b[k]|
    ensures Dot(a, Scale(b, t), i, j, n) == Dot(a, b, i, j, n) * t
    ensures Dot(Scale(a, t), b, i, j, n) == Dot(a, b, i, j, n) * t
  {
    if n > 0 {
      DotScale(a, b, t, i, j, n - 1);
      var x, y := a[i][n - 1], b[n - 1][j];
      assert Scale(b, t)[n - 1][j] == y * t;
      assert Scale(a, t)[i][n - 1] == x * t;
      Distribute(Dot(a, b, i, j, n - 1), x, y, t);
    }
  }

  lemma Distribute(s: real, x: real, y: real, t: real)
    ensures (s + x * y) * t == s * t + x * (y * t) == s * t + (x * t) * y
  {
  }

  /** Scaling either factor of a product scales the product (`(a * t) * b == a * (b * t) == (a * b) * t`). */
  lemma ProductScale(a: Mat, b: Mat, t: real, n: nat, c: nat)
    requires Conformable(a, b, n) && Shape(b, n, c)
    ensures Product(a, Scale(b, t), n, c) == Scale(Product(a, b, n, c), t)
    ensures Product(Scale(a, t), b, n, c) == Scale(Product(a, b, n, c), t)
  {
    var p := Product(a, b, n, c);
    forall i, j | 0 <= i < |a| && 0 <= j < c
      ensures Product(a, Scale(b, t), n, c)[i][j] == Scale(p, t)[i][j]
      ensures Product(Scale(a, t), b, n, c)[i][j] == Scale(p, t)[i][j]
    {
      DotScale(a, b, t, i, j, n);
    }
    forall i | 0 <= i < |a|
      ensures Product(a, Scale(b, t), n, c)[i] == Scale(p, t)[i]
      ensures Product(Scale(a, t), b, n, c)[i] == Scale(p, t)[i]
    {
    }
  }

  /** Scaling `mat(t)` by `s` gives `mat(u)` for `u == t * s`. */
  lemma ScaleDiagonal(r: nat, c: nat, t: real, s: real, u: real)
    requires u == t * s
    ensures Scale(Diagonal(r, c, t), s) == Diagonal(r, c, u)
  {
    forall i | 0 <= i < r
      ensures Scale(Diagonal(r, c, t), s)[i] == Diagonal(r, c, u)[i]
    {
      forall j | 0 <= j < c
        ensures Scale(Diagonal(r, c, t), s)[i][j] == Diagonal(r, c, u)[i][j]
      {
        assert 0.0 * s == 0.0;
      }
    }
  }

  /**
   * `operator~` with the cofactor determinant: the adjugate divided by
   * the determinant, defined where the determinant is non-zero.
   */
  function Inverse(m: Mat): (r: Mat)
    requires Shape(m, 3, 3) && Det(m) != 0.0
    ensures Shape(r, 3, 3)
  {
    Quotient(Adj(m), Det(m))
  }

  /** `operator~` as written: the adjugate divided by `det` with its typo. */
  function InverseAsWritten(m: Mat): (r: Mat)
    requires Shape(m, 3, 3) && DetAsWritten(m) != 0.0
    ensures Shape(r, 3, 3)
  {
    Quotient(Adj(m), DetAsWritten(m))
  }

  /** With a non-zero determinant, `~m` is a two-sided inverse of `m`. */
  lemma InverseProduct(m: Mat)
    requires Shape(m, 3, 3) && Det(m) != 0.0
    ensures Product(m, Inverse(m), 3, 3) == Diagonal(3, 3, 1.0)
    ensures Product(Inverse(m), m, 3, 3) == Diagonal(3, 3, 1.0)
  {
    var d := Det(m);
    QuotientIsScale(Adj(m), d);
    ProductScale(m, Adj(m), 1.0 / d, 3, 3);
    ProductScale(Adj(m), m, 1.0 / d, 3, 3);
    AdjugateProduct(m);
    ScaleDiagonal(3, 3, d, 1.0 / d, 1.0);
  }

  /**
   * Where both determinants are non-zero, the inverse as written is the
   * inverse scaled by `D / det`: the same projective map.
   */
  lemma InverseAsWrittenScaled(m: Mat)
    requires Shape(m, 3, 3) && Det(m) != 0.0 && DetAsWritten(m) != 0.0
    ensures InverseAsWritten(m) == Scale(Inverse(m), Det(m) / DetAsWritten(m))
  {
    var d, d' := Det(m), DetAsWritten(m);
    forall i | 0 <= i < 3
      ensures InverseAsWritten(m)[i] == Scale(Inverse(m), d / d')[i]
    {
      forall j | 0 <= j < 3
        ensures InverseAsWritten(m)[i][j] == Scale(Inverse(m), d / d')[i][j]
      {
        DivRescale(Adj(m)[i][j], d, d');
      }
    }
  }

  lemma DivRescale(x: real, d: real, d': real)
    requires d != 0.0 && d' != 0.0
    ensures x / d' == x / d * (d / d')
  {
  }

  /** The product of `a0 .. a8`, read row by row, by the column `v0, v1, v2`, written out. */
  function Col3(a0: real, a1: real, a2: real, a3: real, a4: real, a5: real, a6: real, a7: real, a8: real,
                v0: real, v1: real, v2: real): (p: Mat)
    ensures Shape(p, 3, 1)
  {
    [[Sum3(a0, v0, a1, v1, a2, v2)], [Sum3(a3, v0, a4, v1, a5, v2)], [Sum3(a6, v0, a7, v1, a8, v2)]]
  }

  /** A 3-by-3 matrix times a column is the written-out product of their elements. */
  lemma ProductCol3(x: Mat, v: Mat)
    requires Shape(x, 3, 3) && Shape(v, 3, 1)
    ensures Product(x, v, 3, 1) == Col3(x[0][0], x[0][1], x[0][2], x[1][0], x[1][1], x[1][2], x[2][0], x[2][1], x[2][2],
                                        v[0][0], v[1][0], v[2][0])
  {
    var p := Product(x, v, 3, 1);
    var q := Col3(x[0][0], x[0][1], x[0][2], x[1][0], x[1][1], x[1][2], x[2][0], x[2][1], x[2][2], v[0][0], v[1][0], v[2][0]);
    Dot3(x, v, 0, 0);
    Dot3(x, v, 1, 0);
    Dot3(x, v, 2, 0);
    assert p[0] == q[0] && p[1] == q[1] && p[2] == q[2];
  }

  /** An element times a three-term dot product, multiplied out, on either side. */
  lemma ScaleSum3(x: real, p: real, q: real, r: real, s: real, t: real, u: real)
    ensures x * Sum3(p, q, r, s, t, u) == x * p * q + x * r * s + x * t * u
    ensures Sum3(p, q, r, s, t, u) * x == x * p * q + x * r * s + x * t * u
  {
  }

  /**
   * One entry of `(a * b) * v == a * (b * v)` on elements: row `a0, a1, a2`,
   * the columns `b0 b3 b6`, `b1 b4 b7`, `b2 b5 b8` and the vector `v`.
   */
  lemma AssocEntry(a0: real, a1: real, a2: real, b0: real, b1: real, b2: real, b3: real, b4: real, b5: real,
                   b6: real, b7: real, b8: real, v0: real, v1: real, v2: real)
    ensures Sum3(Sum3(a0, b0, a1, b3, a2, b6), v0, Sum3(a0, b1, a1, b4, a2, b7), v1, Sum3(a0, b2, a1, b5, a2, b8), v2)
         == Sum3(a0, Sum3(b0, v0, b1, v1, b2, v2), a1, Sum3(b3, v0, b4, v1, b5, v2), a2, Sum3(b6, v0, b7, v1, b8, v2))
  {
    ScaleSum3(v0, a0, b0, a1, b3, a2, b6);
    ScaleSum3(v1, a0, b1, a1, b4, a2, b7);
    ScaleSum3(v2, a0, b2, a1, b5, a2, b8);
    ScaleSum3(a0, b0, v0, b1, v1, b2, v2);
    ScaleSum3(a1, b3, v0, b4, v1, b5, v2);
    ScaleSum3(a2, b6, v0, b7, v1, b8, v2);
  }

  /** `(a * b) * v == a * (b * v)` for 3-by-3 `a`, `b` and a column `v`. */
  lemma ProductAssoc(a: Mat, b: Mat, v: Mat)
    requires Shape(a, 3, 3) && Shape(b, 3, 3) && Shape(v, 3, 1)
    ensures Product(Product(a, b, 3, 3), v, 3, 1) == Product(a, Product(b, v, 3, 1), 3, 1)
  {
    var ab := Product(a, b, 3, 3);
    var bv := Product(b, v, 3, 1);
    ProductMul3(a, b);
    ProductCol3(ab, v);
    ProductCol3(b, v);
    ProductCol3(a, bv);
    AssocEntry(a[0][0], a[0][1], a[0][2], b[0][0], b[0][1], b[0][2], b[1][0], b[1][1], b[1][2], b[2][0], b[2][1], b[2][2], v[0][0], v[1][0], v[2][0]);
    AssocEntry(a[1][0], a[1][1], a[1][2], b[0][0], b[0][1], b[0][2], b[1][0], b[1][1], b[1][2], b[2][0], b[2][1], b[2][2], v[0][0], v[1][0], v[2][0]);
    AssocEntry(a[2][0], a[2][1], a[2][2], b[0][0], b[0][1], b[0][2], b[1][0], b[1][1], b[1][2], b[2][0], b[2][1], b[2][2], v[0][0], v[1][0], v[2][0]);
  }

  /** A 3-by-1 matrix is the column of its three elements. */
  lemma ColumnEq(s: Mat, a: real, b: real, c: real)
    requires Shape(s, 3, 1) && s[0][0] == a && s[1][0] == b && s[2][0] == c
    ensures s == [[a], [b], [c]]
  {
    assert s[0] == [a] && s[1] == [b] && s[2] == [c];
  }

  /** `mat<3>()` is the identity: multiplying a column by it changes nothing. */
  lemma IdentityProduct(v: Mat)
    requires Shape(v, 3, 1)
    ensures Product(Diagonal(3, 3, 1.0), v, 3, 1) == v
  {
    var e := Diagonal(3, 3, 1.0);
    ProductCol3(e, v);
    var p := Product(e, v, 3, 1);
    assert p[0] == v[0] && p[1] == v[1] && p[2] == v[2];
  }
}
