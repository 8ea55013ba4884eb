/**
 * Heckbert's square-to-quad mapping (src/matrix.cpp:96-121): the forward
 * matrix that sends the unit square onto a quadrilateral, whose inverse
 * `persp_to_rect` and `persp_matrix` build their maps from.
 */
module Heckbert {
  import opened Defs
  import opened Matrix
  import opened Projective

  /** `struct quad` of inc/matrix.hpp: the corners `p0 .. p3`. */
  datatype Corners = Corners(p0: Point, p1: Point, p2: Point, p3: Point)

  /** `d = dx1 * dy2 - dy1 * dx2`, the determinant of the two edge vectors at `p2`. */
  function Denominator(src: Corners): real {
    var dx1, dx2 := src.p1.x - src.p2.x, src.p3.x - src.p2.x;
    var dy1, dy2 := src.p1.y - src.p2.y, src.p3.y - src.p2.y;
    dx1 * dy2 - dy1 * dx2
  }

  /** `m31 = (sx * dy2 - sy * dx2) / d`. */
  function M31(src: Corners): real
    requires Denominator(src) != 0.0
  {
    var dx2, dy2 := src.p3.x - src.p2.x, src.p3.y - src.p2.y;
    var sx, sy := src.p0.x - src.p1.x - dx2, src.p0.y - src.p1.y - dy2;
    (sx * dy2 - sy * dx2) / Denominator(src)
  }

  /** `m32 = (dx1 * sy - dy1 * sx) / d`. */
  function M32(src: Corners): real
    requires Denominator(src) != 0.0
  {
    var dx1, dy1 := src.p1.x - src.p2.x, src.p1.y - src.p2.y;
    var dx2, dy2 := src.p3.x - src.p2.x, src.p3.y - src.p2.y;
    var sx, sy := src.p0.x - src.p1.x - dx2, src.p0.y - src.p1.y - dy2;
    (dx1 * sy - dy1 * sx) / Denominator(src)
  }

  /**
   * `u` and `v` solve Heckbert's linear system for the quad:
   * `u * dx1 + v * dx2 == sx` and `u * dy1 + v * dy2 == sy`.
   */
  predicate Solves(src: Corners, u: real, v: real) {
    && u * (src.p1.x - src.p2.x) + v * (src.p3.x - src.p2.x) == src.p0.x - src.p1.x - (src.p3.x - src.p2.x)
    && u * (src.p1.y - src.p2.y) + v * (src.p3.y - src.p2.y) == src.p0.y - src.p1.y - (src.p3.y - src.p2.y)
  }

  /**
   * `m31` and `m32` solve Heckbert's linear system by Cramer's rule:
   * `m31 * dx1 + m32 * dx2 == sx` and `m31 * dy1 + m32 * dy2 == sy`.
   */
  lemma Cramer(src: Corners)
    requires Denominator(src) != 0.0
    ensures Solves(src, M31(src), M32(src))
  {
    var dx1, dy1 := src.p1.x - src.p2.x, src.p1.y - src.p2.y;
    var dx2, dy2 := src.p3.x - src.p2.x, src.p3.y - src.p2.y;
    var sx, sy := src.p0.x - src.p1.x - dx2, src.p0.y - src.p1.y - dy2;
    Solve2(dx1, dx2, dy1, dy2, sx, sy, Denominator(src), M31(src), M32(src));
  }

  /** Cramer's rule for two unknowns, on the numbers alone. */
  lemma Solve2(dx1: real, dx2: real, dy1: real, dy2: real, sx: real, sy: real, d: real, u: real, v: real)
    requires d == dx1 * dy2 - dy1 * dx2 && d != 0.0
    requires u == (sx * dy2 - sy * dx2) / d && v == (dx1 * sy - dy1 * sx) / d
    ensures u * dx1 + v * dx2 == sx && u * dy1 + v * dy2 == sy
  {
    assert u * d == sx * dy2 - sy * dx2;
    assert v * d == dx1 * sy - dy1 * sx;
    assert (u * dx1 + v * dx2) * d == sx * d by {
      assert (u * dx1 + v * dx2) * d == (u * d) * dx1 + (v * d) * dx2;
    }
    assert (u * dy1 + v * dy2) * d == sy * d by {
      assert (u * dy1 + v * dy2) * d == (u * d) * dy1 + (v * d) * dy2;
    }
  }

  /**
   * The forward matrix `m` of `persp_to_rect` (Heckbert's square-to-quad
   * mapping): its columns are built from the corners and from `m31`,
   * `m32`, and its last entry is 1.
   */
  function SquareToQuad(src: Corners): (m: Mat)
    requires Denominator(src) != 0.0
    ensures Shape(m, 3, 3)
  {
    Forward(src, M31(src), M32(src))
  }

  /** The forward matrix for given values of `m31` and `m32`. */
  function Forward(src: Corners, m31: real, m32: real): (m: Mat)
    ensures Shape(m, 3, 3)
  {
    [[src.p1.x - src.p0.x + m31 * src.p1.x, src.p3.x - src.p0.x + m32 * src.p3.x, src.p0.x],
     [src.p1.y - src.p0.y + m31 * src.p1.y, src.p3.y - src.p0.y + m32 * src.p3.y, src.p0.y],
     [m31, m32, 1.0]]
  }

  /**
   * Whatever `m31` and `m32` are, the forward matrix sends the corners
   * (0, 0), (1, 0) and (0, 1) of the unit square to `p0`, `p1` and `p3`
   * in homogeneous coordinates, with weights 1, 1 + m31 and 1 + m32, and
   * so, where the weight is non-zero, under the projective divide.
   */
  lemma ForwardCorners(src: Corners, u: real, v: real)
    ensures Represents(Homogeneous(Forward(src, u, v), Point(0.0, 0.0)), src.p0, 1.0)
    ensures Represents(Homogeneous(Forward(src, u, v), Point(1.0, 0.0)), src.p1, 1.0 + u)
    ensures Represents(Homogeneous(Forward(src, u, v), Point(0.0, 1.0)), src.p3, 1.0 + v)
    ensures PerspMaps(Forward(src, u, v), Point(0.0, 0.0), src.p0)
    ensures 1.0 + u != 0.0 ==> PerspMaps(Forward(src, u, v), Point(1.0, 0.0), src.p1)
    ensures 1.0 + v != 0.0 ==> PerspMaps(Forward(src, u, v), Point(0.0, 1.0), src.p3)
  {
    var m := Forward(src, u, v);
    UnitSquareImages(m);
    assert (src.p1.x - src.p0.x + u * src.p1.x) + src.p0.x == src.p1.x * (1.0 + u);
    assert (src.p1.y - src.p0.y + u * src.p1.y) + src.p0.y == src.p1.y * (1.0 + u);
    assert (src.p3.x - src.p0.x + v * src.p3.x) + src.p0.x == src.p3.x * (1.0 + v);
    assert (src.p3.y - src.p0.y + v * src.p3.y) + src.p0.y == src.p3.y * (1.0 + v);
    PerspRepresents(Point(0.0, 0.0), m, src.p0, 1.0);
    if 1.0 + u != 0.0 {
      PerspRepresents(Point(1.0, 0.0), m, src.p1, 1.0 + u);
    }
    if 1.0 + v != 0.0 {
      PerspRepresents(Point(0.0, 1.0), m, src.p3, 1.0 + v);
    }
  }

  /**
   * When `m31` and `m32` solve Heckbert's system, the forward matrix sends
   * the corner (1, 1) to `p2`, with weight 1 + m31 + m32, and so, where
   * that is non-zero, under the projective divide.
   */
  lemma ThirdCorner(src: Corners, u: real, v: real)
    requires Solves(src, u, v)
    ensures Represents(Homogeneous(Forward(src, u, v), Point(1.0, 1.0)), src.p2, 1.0 + u + v)
    ensures 1.0 + u + v != 0.0 ==> PerspMaps(Forward(src, u, v), Point(1.0, 1.0), src.p2)
  {
    ThirdCornerImage(src, u, v);
    if 1.0 + u + v != 0.0 {
      PerspRepresents(Point(1.0, 1.0), Forward(src, u, v), src.p2, 1.0 + u + v);
    }
  }

  /** The homogeneous image of (1, 1) is `p2` with weight `1 + u + v`. */
  lemma ThirdCornerImage(src: Corners, u: real, v: real)
    requires Solves(src, u, v)
    ensures Represents(Homogeneous(Forward(src, u, v), Point(1.0, 1.0)), src.p2, 1.0 + u + v)
  {
    ForwardOppositeCorner(src, u, v);
    Corner2(src.p0.x, src.p1.x, src.p2.x, src.p3.x, u, v);
    Corner2(src.p0.y, src.p1.y, src.p2.y, src.p3.y, u, v);
  }

  /** The homogeneous image of (1, 1) under the forward matrix: the three row sums. */
  lemma ForwardOppositeCorner(src: Corners, u: real, v: real)
    ensures var h := Homogeneous(Forward(src, u, v), Point(1.0, 1.0));
      && h[0][0] == OppositeRow(src.p0.x, src.p1.x, src.p3.x, u, v)
      && h[1][0] == OppositeRow(src.p0.y, src.p1.y, src.p3.y, u, v)
      && h[2][0] == u + v + 1.0
  {
    var m := Forward(src, u, v);
    HomogeneousValue(m, Point(1.0, 1.0));
    assert m[0][0] == src.p1.x - src.p0.x + u * src.p1.x && m[0][1] == src.p3.x - src.p0.x + v * src.p3.x;
    assert m[1][0] == src.p1.y - src.p0.y + u * src.p1.y && m[1][1] == src.p3.y - src.p0.y + v * src.p3.y;
  }

  /**
   * The homogeneous images of the corners (0, 0), (1, 0), (1, 1), (0, 1)
   * of the unit square are sums of entries of the matrix.
   */
  lemma UnitSquareImages(m: Mat)
    requires Shape(m, 3, 3)
    ensures forall r :: 0 <= r < 3 ==> Homogeneous(m, Point(0.0, 0.0))[r][0] == m[r][2]
    ensures forall r :: 0 <= r < 3 ==> Homogeneous(m, Point(1.0, 0.0))[r][0] == m[r][0] + m[r][2]
    ensures forall r :: 0 <= r < 3 ==> Homogeneous(m, Point(1.0, 1.0))[r][0] == m[r][0] + m[r][1] + m[r][2]
    ensures forall r :: 0 <= r < 3 ==> Homogeneous(m, Point(0.0, 1.0))[r][0] == m[r][1] + m[r][2]
  {
    HomogeneousValue(m, Point(0.0, 0.0));
    HomogeneousValue(m, Point(1.0, 0.0));
    HomogeneousValue(m, Point(1.0, 1.0));
    HomogeneousValue(m, Point(0.0, 1.0));
  }

  /**
   * Under the projective divide `persp_to_rect`'s forward matrix maps the
   * corners (0, 0), (1, 0), (1, 1), (0, 1) of the unit square to `p0`,
   * `p1`, `p2`, `p3`, wherever the corner's weight (1, 1 + m31,
   * 1 + m31 + m32, 1 + m32) is non-zero.
   */
  lemma SquareToQuadMapsCorners(src: Corners)
    requires Denominator(src) != 0.0
    ensures PerspMaps(SquareToQuad(src), Point(0.0, 0.0), src.p0)
    ensures 1.0 + M31(src) != 0.0 ==> PerspMaps(SquareToQuad(src), Point(1.0, 0.0), src.p1)
    ensures 1.0 + M31(src) + M32(src) != 0.0 ==> PerspMaps(SquareToQuad(src), Point(1.0, 1.0), src.p2)
    ensures 1.0 + M32(src) != 0.0 ==> PerspMaps(SquareToQuad(src), Point(0.0, 1.0), src.p3)
  {
    Cramer(src);
    ForwardCorners(src, M31(src), M32(src));
    ThirdCorner(src, M31(src), M32(src));
  }

  /**
   * The third corner on one coordinate: with `u`, `v` solving Heckbert's
   * system, the sum of the first row is `(1 + u + v) * p2`.
   */
  lemma Corner2(a0: real, a1: real, a2: real, a3: real, u: real, v: real)
    requires u * (a1 - a2) + v * (a3 - a2) == a0 - a1 - (a3 - a2)
    ensures OppositeRow(a0, a1, a3, u, v) == a2 * (1.0 + u + v)
  {
  }

  /** One row of the forward matrix summed: the image of (1, 1) before division. */
  function OppositeRow(a0: real, a1: real, a3: real, u: real, v: real): real {
    (a1 - a0 + u * a1) + (a3 - a0 + v * a3) + a0
  }

  /** The right factor of `persp_to_rect`: `diag(width, height, 1)`, built by the variadic constructor. */
  function RectScale(width: real, height: real): (s: Mat)
    ensures Shape(s, 3, 3)
  {
    Filled(3, 3, [width, 0.0, 0.0, 0.0, height, 0.0, 0.0, 0.0, 1.0])
  }

  /** The right factor stretches `(x, y)` to `(width * x, height * y)`. */
  lemma RectScaleVec(q: Point, width: real, height: real)
    ensures Product(RectScale(width, height), Vec(q), 3, 1) == Vec(Point(width * q.x, height * q.y))
  {
    var s := RectScale(width, height);
    var ts := [width, 0.0, 0.0, 0.0, height, 0.0, 0.0, 0.0, 1.0];
    assert s[0] == [Arg(ts, 0), Arg(ts, 1), Arg(ts, 2)];
    assert s[1] == [Arg(ts, 3), Arg(ts, 4), Arg(ts, 5)];
    assert s[2] == [Arg(ts, 6), Arg(ts, 7), Arg(ts, 8)];
    VecColumn(q);
    VecColumn(Point(width * q.x, height * q.y));
    ProductCol3(s, Vec(q));
    var p := Product(s, Vec(q), 3, 1);
    assert p[0][0] == Sum3(width, q.x, 0.0, q.y, 0.0, 1.0) == width * q.x;
    assert p[1][0] == Sum3(0.0, q.x, height, q.y, 0.0, 1.0) == height * q.y;
    assert p[2][0] == Sum3(0.0, q.x, 0.0, q.y, 1.0, 1.0) == 1.0;
    ColumnEq(p, width * q.x, height * q.y, 1.0);
  }

  /** The right factor stretches the shrunk point back to `p`. */
  lemma RectScaleShrunk(p: Point, width: real, height: real)
    requires width != 0.0 && height != 0.0
    ensures Product(RectScale(width, height), Vec(Shrunk(p, width, height)), 3, 1) == Vec(p)
  {
    var q := Shrunk(p, width, height);
    RectScaleVec(q, width, height);
    assert Point(width * q.x, height * q.y) == p;
  }

  /**
   * `persp_to_rect(src, width, height)`: the inverse of the forward
   * matrix times `diag(width, height, 1)`, with `operator~` computed from
   * the cofactor determinant. The source divides by `d` and by the
   * determinant unchecked; the model is defined where both are non-zero.
   */
  function PerspToRect(src: Corners, width: real, height: real): (m: Mat)
    requires Denominator(src) != 0.0 && Det(SquareToQuad(src)) != 0.0
    ensures Shape(m, 3, 3)
  {
    Product(Inverse(SquareToQuad(src)), RectScale(width, height), 3, 3)
  }

  /** `persp_to_rect` as written: `operator~` divides by `det` with its typo. */
  function PerspToRectAsWritten(src: Corners, width: real, height: real): (m: Mat)
    requires Denominator(src) != 0.0 && DetAsWritten(SquareToQuad(src)) != 0.0
    ensures Shape(m, 3, 3)
  {
    Product(InverseAsWritten(SquareToQuad(src)), RectScale(width, height), 3, 3)
  }

  /**
   * What `persp_to_rect` computes: it sends `(p.x / width, p.y / height)`
   * to the corner `c` of the unit square whenever the forward matrix sends
   * `c` to `p`.
   */
  lemma RectCorner(src: Corners, width: real, height: real, c: Point, p: Point)
    requires Denominator(src) != 0.0 && Det(SquareToQuad(src)) != 0.0 && width != 0.0 && height != 0.0
    requires PerspMaps(SquareToQuad(src), c, p)
    ensures PerspMaps(PerspToRect(src, width, height), Shrunk(p, width, height), c)
  {
    var q := Shrunk(p, width, height);
    RectScaleShrunk(p, width, height);
    InverseUndoes(SquareToQuad(src), c, p);
    Compose(Inverse(SquareToQuad(src)), RectScale(width, height), q, p, c);
  }

  /** The point that the right factor stretches to `p`: `(p.x / width, p.y / height)`. */
  function Shrunk(p: Point, width: real, height: real): (q: Point)
    requires width != 0.0 && height != 0.0
    ensures Point(width * q.x, height * q.y) == p
  {
    Point(p.x / width, p.y / height)
  }

  /**
   * `persp_to_rect` sends each corner of `src`, divided by the rectangle's
   * size, to the matching corner of the unit square, wherever the corner's
   * weight is non-zero.
   */
  lemma PerspToRectCorners(src: Corners, width: real, height: real)
    requires Denominator(src) != 0.0 && Det(SquareToQuad(src)) != 0.0 && width != 0.0 && height != 0.0
    ensures PerspMaps(PerspToRect(src, width, height), Shrunk(src.p0, width, height), Point(0.0, 0.0))
    ensures 1.0 + M31(src) != 0.0 ==>
      PerspMaps(PerspToRect(src, width, height), Shrunk(src.p1, width, height), Point(1.0, 0.0))
    ensures 1.0 + M31(src) + M32(src) != 0.0 ==>
      PerspMaps(PerspToRect(src, width, height), Shrunk(src.p2, width, height), Point(1.0, 1.0))
    ensures 1.0 + M32(src) != 0.0 ==>
      PerspMaps(PerspToRect(src, width, height), Shrunk(src.p3, width, height), Point(0.0, 1.0))
  {
    SquareToQuadMapsCorners(src);
    RectCorner(src, width, height, Point(0.0, 0.0), src.p0);
    if 1.0 + M31(src) != 0.0 {
      RectCorner(src, width, height, Point(1.0, 0.0), src.p1);
    }
    if 1.0 + M31(src) + M32(src) != 0.0 {
      RectCorner(src, width, height, Point(1.0, 1.0), src.p2);
    }
    if 1.0 + M32(src) != 0.0 {
      RectCorner(src, width, height, Point(0.0, 1.0), src.p3);
    }
  }

  /**
   * Where both determinants are non-zero, the matrix as written is the
   * corrected one times `Det / DetAsWritten`, so it maps every point the
   * corrected matrix maps to the same place.
   */
  lemma PerspToRectAsWrittenAgrees(src: Corners, width: real, height: real, q: Point)
    requires Denominator(src) != 0.0 && Det(SquareToQuad(src)) != 0.0 && DetAsWritten(SquareToQuad(src)) != 0.0
    requires Homogeneous(PerspToRect(src, width, height), q)[2][0] != 0.0
    ensures PerspToRectAsWritten(src, width, height) ==
      Scale(PerspToRect(src, width, height), Det(SquareToQuad(src)) / DetAsWritten(SquareToQuad(src)))
    ensures Homogeneous(PerspToRectAsWritten(src, width, height), q)[2][0] != 0.0
    ensures PerspTransform(q, PerspToRectAsWritten(src, width, height)) == PerspTransform(q, PerspToRect(src, width, height))
  {
    var f := SquareToQuad(src);
    var k := Det(f) / DetAsWritten(f);
    InverseAsWrittenScaled(f);
    ProductScale(Inverse(f), RectScale(width, height), k, 3, 3);
    PerspScaleInvariant(q, PerspToRect(src, width, height), k);
  }

  /**
   * The typo is not harmless: for the square with corners (0.5, 0),
   * (0.75, 0), (0.75, 0.5), (0.5, 0.5) the forward matrix is
   * `[[0.25, 0, 0.5], [0, 0.5, 0], [0, 0, 1]]`, invertible with
   * determinant 0.125, but `det` as written returns 0, so `operator~`
   * divides by zero.
   */
  lemma PerspToRectTypoWitness()
    ensures var src := Corners(Point(0.5, 0.0), Point(0.75, 0.0), Point(0.75, 0.5), Point(0.5, 0.5));
      && Denominator(src) == -0.125
      && SquareToQuad(src) == [[0.25, 0.0, 0.5], [0.0, 0.5, 0.0], [0.0, 0.0, 1.0]]
      && Det(SquareToQuad(src)) == 0.125
      && DetAsWritten(SquareToQuad(src)) == 0.0
  {
    var src := Corners(Point(0.5, 0.0), Point(0.75, 0.0), Point(0.75, 0.5), Point(0.5, 0.5));
    assert M31(src) == 0.0 && M32(src) == 0.0;
  }
}
