/**
 * `persp_matrix` (src/perspective.cpp): the same forward matrix as
 * `persp_to_rect`, computed in `float` (modelled as `real`), whose inverse
 * is composed with the map from the unit square to the square
 * `[-1, 1] x [-1, 1]` instead of with a stretch to a rectangle.
 */
module Perspective {
  import opened Defs
  import opened Matrix
  import opened Projective
  import opened Heckbert

  /**
   * The right factor `[[2, 0, -1], [0, 2, -1], [0, 0, 1]]`, built by the
   * variadic constructor.
   */
  function ClipScale(): (s: Mat)
    ensures Shape(s, 3, 3)
  {
    Filled(3, 3, [2.0, 0.0, -1.0, 0.0, 2.0, -1.0, 0.0, 0.0, 1.0])
  }

  /** The right factor sends `(u, v)` to `(2u - 1, 2v - 1)`: the unit square onto `[-1, 1]²`. */
  lemma ClipScaleVec(q: Point)
    ensures Product(ClipScale(), Vec(q), 3, 1) == Vec(Point(2.0 * q.x - 1.0, 2.0 * q.y - 1.0))
  {
    var s := ClipScale();
    var ts := [2.0, 0.0, -1.0, 0.0, 2.0, -1.0, 0.0, 0.0, 1.0];
    assert s[0] == [Arg(ts, 0), Arg(ts, 1), Arg(ts, 2)];
    assert s[1] == [Arg(ts, 3), Arg(ts, 4), Arg(ts, 5)];
    assert s[2] == [Arg(ts, 6), Arg(ts, 7), Arg(ts, 8)];
    VecColumn(q);
    VecColumn(Point(2.0 * q.x - 1.0, 2.0 * q.y - 1.0));
    ProductCol3(s, Vec(q));
    var p := Product(s, Vec(q), 3, 1);
    assert p[0][0] == Sum3(2.0, q.x, 0.0, q.y, -1.0, 1.0) == 2.0 * q.x - 1.0;
    assert p[1][0] == Sum3(0.0, q.x, 2.0, q.y, -1.0, 1.0) == 2.0 * q.y - 1.0;
    assert p[2][0] == Sum3(0.0, q.x, 0.0, q.y, 1.0, 1.0) == 1.0;
    ColumnEq(p, 2.0 * q.x - 1.0, 2.0 * q.y - 1.0, 1.0);
  }

  /**
   * `persp_matrix(src)`: the inverse of the forward matrix times the
   * right factor, with `operator~` computed from the cofactor determinant.
   * Like `persp_to_rect`, the source divides by `d` and by the determinant
   * unchecked; the model is defined where both are non-zero.
   */
  function PerspMatrix(src: Corners): (m: Mat)
    requires Denominator(src) != 0.0 && Det(SquareToQuad(src)) != 0.0
    ensures Shape(m, 3, 3)
  {
    Product(Inverse(SquareToQuad(src)), ClipScale(), 3, 3)
  }

  /** `persp_matrix` as written: `operator~` divides by `det` with its typo. */
  function PerspMatrixAsWritten(src: Corners): (m: Mat)
    requires Denominator(src) != 0.0 && DetAsWritten(SquareToQuad(src)) != 0.0
    ensures Shape(m, 3, 3)
  {
    Product(InverseAsWritten(SquareToQuad(src)), ClipScale(), 3, 3)
  }

  /** The point of the unit square that the right factor sends to `p` of `[-1, 1]²`. */
  function Unclipped(p: Point): (q: Point)
    ensures Point(2.0 * q.x - 1.0, 2.0 * q.y - 1.0) == p
  {
    Point((p.x + 1.0) / 2.0, (p.y + 1.0) / 2.0)
  }

  /**
   * What `persp_matrix` computes: it sends `((p.x + 1) / 2, (p.y + 1) / 2)`
   * to the corner `c` of the unit square whenever the forward matrix sends
   * `c` to `p`.
   */
  lemma ClipCorner(src: Corners, c: Point, p: Point)
    requires Denominator(src) != 0.0 && Det(SquareToQuad(src)) != 0.0
    requires PerspMaps(SquareToQuad(src), c, p)
    ensures PerspMaps(PerspMatrix(src), Unclipped(p), c)
  {
    var q := Unclipped(p);
    ClipScaleVec(q);
    InverseUndoes(SquareToQuad(src), c, p);
    Compose(Inverse(SquareToQuad(src)), ClipScale(), q, p, c);
  }

  /**
   * `persp_matrix` sends each corner of `src`, moved from `[-1, 1]²` to
   * the unit square, to the matching corner of the unit square, wherever
   * the corner's weight is non-zero.
   */
  lemma PerspMatrixCorners(src: Corners)
    requires Denominator(src) != 0.0 && Det(SquareToQuad(src)) != 0.0
    ensures PerspMaps(PerspMatrix(src), Unclipped(src.p0), Point(0.0, 0.0))
    ensures 1.0 + M31(src) != 0.0 ==>
      PerspMaps(PerspMatrix(src), Unclipped(src.p1), Point(1.0, 0.0))
    ensures 1.0 + M31(src) + M32(src) != 0.0 ==>
      PerspMaps(PerspMatrix(src), Unclipped(src.p2), Point(1.0, 1.0))
    ensures 1.0 + M32(src) != 0.0 ==>
      PerspMaps(PerspMatrix(src), Unclipped(src.p3), Point(0.0, 1.0))
  {
    SquareToQuadMapsCorners(src);
    ClipCorner(src, Point(0.0, 0.0), src.p0);
    if 1.0 + M31(src) != 0.0 {
      ClipCorner(src, Point(1.0, 0.0), src.p1);
    }
    if 1.0 + M31(src) + M32(src) != 0.0 {
      ClipCorner(src, Point(1.0, 1.0), src.p2);
    }
    if 1.0 + M32(src) != 0.0 {
      ClipCorner(src, Point(0.0, 1.0), src.p3);
    }
  }

  /**
   * Where both determinants are non-zero, the matrix as written maps every
   * point the corrected matrix maps to the same place.
   */
  lemma PerspMatrixAsWrittenAgrees(src: Corners, q: Point)
    requires Denominator(src) != 0.0 && Det(SquareToQuad(src)) != 0.0 && DetAsWritten(SquareToQuad(src)) != 0.0
    requires Homogeneous(PerspMatrix(src), q)[2][0] != 0.0
    ensures PerspMatrixAsWritten(src) == Scale(PerspMatrix(src), Det(SquareToQuad(src)) / DetAsWritten(SquareToQuad(src)))
    ensures Homogeneous(PerspMatrixAsWritten(src), q)[2][0] != 0.0
    ensures PerspTransform(q, PerspMatrixAsWritten(src)) == PerspTransform(q, PerspMatrix(src))
  {
    var f := SquareToQuad(src);
    var k := Det(f) / DetAsWritten(f);
    InverseAsWrittenScaled(f);
    ProductScale(Inverse(f), ClipScale(), k, 3, 3);
    PerspScaleInvariant(q, PerspMatrix(src), k);
  }
}
