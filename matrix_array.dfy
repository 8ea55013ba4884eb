/**
 * The loops of `mat` (src/matrix.cpp:8-69): the constructors and the
 * operators fill the fixed-size buffer `data[R][C]` element by element.
 * A `mat` value is modelled by its buffer, an `array2<real>`; every method
 * returns a fresh buffer and leaves its operands untouched, as the `const`
 * operators do, and is proved to build the matrix of the matching function
 * in module `Matrix`.
 */
module MatrixArray {
  import opened Matrix

  /** The elements of the buffer, row by row. */
  function Elements(a: array2<real>): (m: Mat)
    reads a
    ensures Shape(m, a.Length0, a.Length1)
  {
    seq(a.Length0, i requires 0 <= i < a.Length0 reads a =>
      seq(a.Length1, j requires 0 <= j < a.Length1 reads a => a[i, j]))
  }

  /** A buffer whose every element matches `m` holds `m`. */
  lemma ElementsEqual(a: array2<real>, m: Mat)
    requires Shape(m, a.Length0, a.Length1)
    requires forall i, j :: 0 <= i < a.Length0 && 0 <= j < a.Length1 ==> a[i, j] == m[i][j]
    ensures Elements(a) == m
  {
    forall i | 0 <= i < a.Length0
      ensures Elements(a)[i] == m[i]
    {
    }
  }

  /** `mat(t)`: zero-filled, then `t` on each of the first `min(R, C)` diagonal entries. */
  method NewDiagonal(r: nat, c: nat, t: real) returns (m: array2<real>)
    ensures fresh(m) && m.Length0 == r && m.Length1 == c && Elements(m) == Diagonal(r, c, t)
  {
    m := new real[r, c]((i, j) => 0.0);
    var n := MinDim(r, c);
    for k := 0 to n
      invariant m.Length0 == r && m.Length1 == c
      invariant forall i, j :: 0 <= i < r && 0 <= j < c ==> m[i, j] == (if i == j && i < k then t else 0.0)
    {
      m[k, k] := t;
    }
    ElementsEqual(m, Diagonal(r, c, t));
  }

  /** `mat()`: the same loop writing 1, so the identity on the leading square. */
  method NewIdentity(r: nat, c: nat) returns (m: array2<real>)
    ensures fresh(m) && Elements(m) == Diagonal(r, c, 1.0)
  {
    m := NewDiagonal(r, c, 1.0);
  }

  /**
   * `mat(ts...)`: the arguments are gathered in an array and `memcpy`'d
   * over the zero-filled buffer, so the first `min(R * C, |ts|)` elements
   * are the arguments in row-major order and the rest stay zero. Two or
   * more arguments, as for `Matrix.Filled`.
   */
  method NewFilled(r: nat, c: nat, ts: seq<real>) returns (m: array2<real>)
    requires |ts| >= 2
    ensures fresh(m) && Elements(m) == Filled(r, c, ts)
  {
    var n := if r * c <= |ts| then r * c else |ts|;
    m := new real[r, c]((i, j) => if 0 <= i * c + j < n then ts[i * c + j] else 0.0);
    forall i, j | 0 <= i < r && 0 <= j < c
      ensures m[i, j] == Filled(r, c, ts)[i][j]
    {
      Flatten(i, j, r, c);
      assert m[i, j] == (if 0 <= i * c + j < n then ts[i * c + j] else 0.0);
      assert Filled(r, c, ts)[i][j] == Arg(ts, i * c + j);
    }
    ElementsEqual(m, Filled(r, c, ts));
  }

  /** Every position of an `r`-by-`c` matrix has an offset below `r * c`. */
  lemma Flatten(i: nat, j: nat, r: nat, c: nat)
    requires i < r && j < c
    ensures i * c + j < r * c
  {
    MulMono(i + 1, r, c);
  }

  /** The copy constructor: a new buffer with the same elements. */
  method Copy(a: array2<real>) returns (m: array2<real>)
    ensures fresh(m) && m.Length0 == a.Length0 && m.Length1 == a.Length1
    ensures forall i, j :: 0 <= i < a.Length0 && 0 <= j < a.Length1 ==> m[i, j] == a[i, j]
    ensures Elements(m) == Elements(a)
  {
    m := new real[a.Length0, a.Length1]((i, j) reads a => if 0 <= i < a.Length0 && 0 <= j < a.Length1 then a[i, j] else 0.0);
    ElementsEqual(m, Elements(a));
  }

  /** `operator*(T)`: a copy of the operand with every element multiplied by `t`. */
  method MulScalar(a: array2<real>, t: real) returns (m: array2<real>)
    ensures fresh(m) && Elements(m) == Scale(Elements(a), t)
  {
    m := Copy(a);
    for i := 0 to a.Length0
      invariant forall i', j' :: 0 <= i' < a.Length0 && 0 <= j' < a.Length1 ==>
        m[i', j'] == (if i' < i then a[i', j'] * t else a[i', j'])
    {
      for j := 0 to a.Length1
        invariant forall i', j' :: 0 <= i' < a.Length0 && 0 <= j' < a.Length1 ==>
          m[i', j'] == (if i' < i || (i' == i && j' < j) then a[i', j'] * t else a[i', j'])
      {
        m[i, j] := m[i, j] * t;
      }
    }
    ElementsEqual(m, Scale(Elements(a), t));
  }

  /**
   * `operator/(T)`: a copy of the operand with every element divided by
   * `t`. The source divides unchecked; the model asks for `t != 0`.
   */
  method DivScalar(a: array2<real>, t: real) returns (m: array2<real>)
    requires t != 0.0
    ensures fresh(m) && Elements(m) == Quotient(Elements(a), t)
  {
    m := Copy(a);
    for i := 0 to a.Length0
      invariant forall i', j' :: 0 <= i' < a.Length0 && 0 <= j' < a.Length1 ==>
        m[i', j'] == (if i' < i then a[i', j'] / t else a[i', j'])
    {
      for j := 0 to a.Length1
        invariant forall i', j' :: 0 <= i' < a.Length0 && 0 <= j' < a.Length1 ==>
          m[i', j'] == (if i' < i || (i' == i && j' < j) then a[i', j'] / t else a[i', j'])
      {
        m[i, j] := m[i, j] / t;
      }
    }
    ElementsEqual(m, Quotient(Elements(a), t));
  }

  /**
   * `left * right`: a zero matrix built by `mat(0)`, then each element
   * accumulated in place, one element at a time.
   */
  method Multiply(left: array2<real>, right: array2<real>) returns (m: array2<real>)
    requires left.Length1 == right.Length0
    ensures fresh(m) && Elements(m) == Product(Elements(left), Elements(right), left.Length1, right.Length1)
  {
    ghost var l, r := Elements(left), Elements(right);
    var n := left.Length1;
    m := NewDiagonal(left.Length0, right.Length1, 0.0);
    assert forall i, j :: 0 <= i < m.Length0 && 0 <= j < m.Length1 ==> m[i, j] == Diagonal(left.Length0, right.Length1, 0.0)[i][j];
    for i := 0 to m.Length0
      invariant forall i', j' :: 0 <= i' < m.Length0 && 0 <= j' < m.Length1 ==>
        m[i', j'] == (if i' < i then Dot(l, r, i', j', n) else 0.0)
    {
      for j := 0 to m.Length1
        invariant forall i', j' :: 0 <= i' < m.Length0 && 0 <= j' < m.Length1 ==>
          m[i', j'] == (if i' < i || (i' == i && j' < j) then Dot(l, r, i', j', n) else 0.0)
      {
        Accumulate(m, left, right, i, j);
      }
    }
    ElementsEqual(m, Product(l, r, n, right.Length1));
  }

  /**
   * The innermost loop of `left * right`:
   * `result[i][j] += left[i][k] * right[k][j]` for `k` from 0 up, which
   * adds `Dot` term by term to the zero the element starts from.
   */
  method Accumulate(m: array2<real>, left: array2<real>, right: array2<real>, i: nat, j: nat)
    requires m != left && m != right && left.Length1 == right.Length0
    requires i < m.Length0 == left.Length0 && j < m.Length1 == right.Length1 && m[i, j] == 0.0
    modifies m
    ensures m[i, j] == Dot(Elements(left), Elements(right), i, j, left.Length1)
    ensures forall i', j' :: 0 <= i' < m.Length0 && 0 <= j' < m.Length1 && (i' != i || j' != j) ==> m[i', j'] == old(m[i', j'])
  {
    ghost var l, r := Elements(left), Elements(right);
    for k := 0 to left.Length1
      invariant m[i, j] == Dot(l, r, i, j, k)
      invariant forall i', j' :: 0 <= i' < m.Length0 && 0 <= j' < m.Length1 && (i' != i || j' != j) ==> m[i', j'] == old(m[i', j'])
    {
      m[i, j] := m[i, j] + left[i, k] * right[k, j];
    }
  }
}
