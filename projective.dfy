/**
 * The projective maps of the perspective correction (src/matrix.cpp,
 * inc/matrix.hpp, src/perspective.cpp): points in homogeneous
 * coordinates, the projective divide of `persp_transform`, and
 * Heckbert's square-to-quad mapping from which `persp_to_rect` and
 * `persp_matrix` are built. Coordinates are `double`s (`float`s in
 * `persp_matrix`), modelled as `real`.
 */
module Projective {
  import opened Defs
  import opened Matrix

  /** `proj * vec(p)`: the image of `p` in homogeneous coordinates. */
  function Homogeneous(proj: Mat, p: Point): (h: Mat)
    requires Shape(proj, 3, 3)
    ensures Shape(h, 3, 1)
  {
    Product(proj, Vec(p), 3, 1)
  }

  /** The homogeneous image is `(x', y', w') = proj * (x, y, 1)`, row by row. */
  lemma HomogeneousValue(proj: Mat, p: Point)
    requires Shape(proj, 3, 3)
    ensures Homogeneous(proj, p) == Col3(proj[0][0], proj[0][1], proj[0][2], proj[1][0], proj[1][1], proj[1][2],
                                         proj[2][0], proj[2][1], proj[2][2], p.x, p.y, 1.0)
  {
    VecColumn(p);
    ProductCol3(proj, Vec(p));
  }

  /**
   * `persp_transform`: the projective divide of the homogeneous image,
   * `(x' / w', y' / w')`. The source divides unchecked; the model is
   * defined where `w' != 0`.
   */
  function PerspTransform(p: Point, proj: Mat): Point
    requires Shape(proj, 3, 3) && Homogeneous(proj, p)[2][0] != 0.0
  {
    var h := Homogeneous(proj, p);
    Point(h[0][0] / h[2][0], h[1][0] / h[2][0])
  }

  /**
   * The transform in the elements of `proj`: the first two rows applied
   * to `(x, y, 1)`, each divided by the third.
   */
  lemma PerspTransformValue(p: Point, proj: Mat)
    requires Shape(proj, 3, 3) && Homogeneous(proj, p)[2][0] != 0.0
    ensures Homogeneous(proj, p)[2][0] == proj[2][0] * p.x + proj[2][1] * p.y + proj[2][2]
    ensures PerspTransform(p, proj) ==
      Point((proj[0][0] * p.x + proj[0][1] * p.y + proj[0][2]) / Homogeneous(proj, p)[2][0],
            (proj[1][0] * p.x + proj[1][1] * p.y + proj[1][2]) / Homogeneous(proj, p)[2][0])
  {
    HomogeneousValue(proj, p);
  }

  /**
   * Scaling the matrix by any non-zero `k` scales `(x', y', w')` by `k`
   * and leaves the transformed point unchanged: a projective map is
   * determined only up to a factor.
   */
  lemma PerspScaleInvariant(p: Point, proj: Mat, k: real)
    requires Shape(proj, 3, 3) && Homogeneous(proj, p)[2][0] != 0.0 && k != 0.0
    ensures Homogeneous(Scale(proj, k), p)[2][0] == Homogeneous(proj, p)[2][0] * k != 0.0
    ensures PerspTransform(p, Scale(proj, k)) == PerspTransform(p, proj)
  {
    var h := Homogeneous(proj, p);
    var hk := Homogeneous(Scale(proj, k), p);
    HomogeneousScale(proj, p, k);
    CancelFactor(h[0][0], h[2][0], k, hk[0][0], hk[2][0]);
    CancelFactor(h[1][0], h[2][0], k, hk[1][0], hk[2][0]);
  }

  /** Scaling the matrix scales the homogeneous image. */
  lemma HomogeneousScale(proj: Mat, p: Point, k: real)
    requires Shape(proj, 3, 3)
    ensures Homogeneous(Scale(proj, k), p)[0][0] == Homogeneous(proj, p)[0][0] * k
    ensures Homogeneous(Scale(proj, k), p)[1][0] == Homogeneous(proj, p)[1][0] * k
    ensures Homogeneous(Scale(proj, k), p)[2][0] == Homogeneous(proj, p)[2][0] * k
  {
    ProductScale(proj, Vec(p), k, 3, 1);
  }

  lemma CancelFactor(x: real, w: real, k: real, xk: real, wk: real)
    requires w != 0.0 && k != 0.0 && xk == x * k && wk == w * k
    ensures wk != 0.0 && xk / wk == x / w
  {
  }

  /** The column `h` holds `p` in homogeneous coordinates with weight `w`: `(w * x, w * y, w)`. */
  predicate Represents(h: Mat, p: Point, w: real) {
    Shape(h, 3, 1) && h[0][0] == p.x * w && h[1][0] == p.y * w && h[2][0] == w
  }

  /**
   * A homogeneous image that represents `q` with a non-zero weight
   * divides back to `q`: the projective divide ignores the weight.
   */
  lemma PerspRepresents(p: Point, proj: Mat, q: Point, w: real)
    requires Shape(proj, 3, 3) && w != 0.0 && Represents(Homogeneous(proj, p), q, w)
    ensures Homogeneous(proj, p)[2][0] != 0.0 && PerspTransform(p, proj) == q
  {
    assert q.x * w / w == q.x && q.y * w / w == q.y;
  }

  /** `persp_transform(p, proj)` is defined and is `q`. */
  predicate PerspMaps(proj: Mat, p: Point, q: Point)
    requires Shape(proj, 3, 3)
  {
    Homogeneous(proj, p)[2][0] != 0.0 && PerspTransform(p, proj) == q
  }

  /**
   * The inverse undoes the map: when `m` sends `c` to `p` with a non-zero
   * weight `w`, `~m` sends `p` back to `c`, with weight `1 / w`.
   */
  lemma InverseMapsBack(m: Mat, c: Point, p: Point, w: real)
    requires Shape(m, 3, 3) && Det(m) != 0.0 && w != 0.0
    requires Represents(Homogeneous(m, c), p, w)
    ensures Represents(Homogeneous(Inverse(m), p), c, 1.0 / w)
    ensures Homogeneous(Inverse(m), p)[2][0] != 0.0 && PerspTransform(p, Inverse(m)) == c
  {
    var t := 1.0 / w;
    var v := Scale(Vec(c), t);
    UndoWeight(Homogeneous(m, c), p, w, t);
    VecColumn(c);
    ProductScale(m, Vec(c), t, 3, 1);
    ProductAssoc(Inverse(m), m, v);
    InverseProduct(m);
    IdentityProduct(v);
    ScaledVec(c, t);
    PerspRepresents(p, Inverse(m), c, t);
  }

  /** Dividing a homogeneous column for `p` by its weight gives `Vec(p)`. */
  lemma UndoWeight(h: Mat, p: Point, w: real, t: real)
    requires w != 0.0 && t == 1.0 / w && Represents(h, p, w)
    ensures Vec(p) == Scale(h, t)
  {
    var s := Scale(h, t);
    assert w * t == 1.0;
    assert s[0][0] == p.x * w * t == p.x;
    assert s[1][0] == p.y * w * t == p.y;
    assert s[2][0] == w * t;
    VecColumn(p);
    ColumnEq(s, p.x, p.y, 1.0);
  }

  /** `Vec(c)` scaled by `t` represents `c` with weight `t`. */
  lemma ScaledVec(c: Point, t: real)
    ensures Represents(Scale(Vec(c), t), c, t)
  {
    VecColumn(c);
    var v := Scale(Vec(c), t);
    assert v[0][0] == c.x * t && v[1][0] == c.y * t && v[2][0] == 1.0 * t;
  }

  /** A point the map sends to `p` has a homogeneous image representing `p` with weight `w'`. */
  lemma MapsRepresents(proj: Mat, c: Point, p: Point)
    requires Shape(proj, 3, 3) && PerspMaps(proj, c, p)
    ensures Represents(Homogeneous(proj, c), p, Homogeneous(proj, c)[2][0])
  {
    var h := Homogeneous(proj, c);
    assert h[0][0] / h[2][0] * h[2][0] == h[0][0];
    assert h[1][0] / h[2][0] * h[2][0] == h[1][0];
  }

  /** `~m` undoes `m`: whatever `m` sends to `p`, `~m` sends `p` back to. */
  lemma InverseUndoes(m: Mat, c: Point, p: Point)
    requires Shape(m, 3, 3) && Det(m) != 0.0 && PerspMaps(m, c, p)
    ensures PerspMaps(Inverse(m), p, c)
  {
    MapsRepresents(m, c, p);
    InverseMapsBack(m, c, p, Homogeneous(m, c)[2][0]);
  }

  /**
   * Applying `a * s` to `q` is applying `a` to `r` when `s` sends the
   * column of `q` to the column of `r`, before and after the divide.
   */
  lemma Compose(a: Mat, s: Mat, q: Point, r: Point, c: Point)
    requires Shape(a, 3, 3) && Shape(s, 3, 3) && Product(s, Vec(q), 3, 1) == Vec(r)
    ensures Homogeneous(Product(a, s, 3, 3), q) == Homogeneous(a, r)
    ensures PerspMaps(Product(a, s, 3, 3), q, c) <==> PerspMaps(a, r, c)
  {
    ProductAssoc(a, s, Vec(q));
  }
}
