/** Vector algebra over a field, the ground the erasure coder stands on: sums of products,
    linear combinations of matrix rows, and the law that exchanges the two. */
module FieldAlgebra {

  /** A field as the coder uses it: only sums, products and the two units. */
  datatype Field<!T> = Field(zero: T, one: T, add: (T, T) -> T, mul: (T, T) -> T)

  // Each law is a predicate of its own, so that the verifier uses it exactly where a proof
  // names it.

  ghost predicate Commutes<T>(f: Field<T>, a: T, b: T) {
    f.add(a, b) == f.add(b, a)
  }

  ghost predicate Units<T>(f: Field<T>, a: T) {
    f.add(f.zero, a) == a && f.mul(f.one, a) == a && f.mul(f.zero, a) == f.zero && f.mul(a, f.zero) == f.zero
  }

  ghost predicate Associates<T>(f: Field<T>, a: T, b: T, c: T) {
    f.add(f.add(a, b), c) == f.add(a, f.add(b, c)) && f.mul(f.mul(a, b), c) == f.mul(a, f.mul(b, c))
  }

  ghost predicate Distributes<T>(f: Field<T>, a: T, b: T, c: T) {
    f.mul(a, f.add(b, c)) == f.add(f.mul(a, b), f.mul(a, c)) && f.mul(f.add(a, b), c) == f.add(f.mul(a, c), f.mul(b, c))
  }

  ghost predicate Laws<T(!new)>(f: Field<T>) {
    && (forall a, b :: Commutes(f, a, b))
    && (forall a :: Units(f, a))
    && (forall a, b, c :: Associates(f, a, b, c))
    && (forall a, b, c :: Distributes(f, a, b, c))
    && f.zero != f.one
  }

  /** Sum of products of two vectors. */
  function Dot<T>(f: Field<T>, u: seq<T>, v: seq<T>): T
    requires |u| == |v|
  {
    if u == [] then f.zero else f.add(f.mul(u[0], v[0]), Dot(f, u[1..], v[1..]))
  }

  function Zeros<T>(f: Field<T>, n: nat): seq<T> {
    seq(n, _ => f.zero)
  }

  /** The x-th unit vector. */
  function Unit<T>(f: Field<T>, n: nat, x: nat): seq<T>
    requires x < n
  {
    Zeros(f, n)[x := f.one]
  }

  function AddVectors<T>(f: Field<T>, u: seq<T>, v: seq<T>): seq<T>
    requires |u| == |v|
  {
    seq(|u|, i requires 0 <= i < |u| => f.add(u[i], v[i]))
  }

  function Scale<T>(f: Field<T>, c: T, u: seq<T>): seq<T> {
    seq(|u|, i requires 0 <= i < |u| => f.mul(c, u[i]))
  }

  ghost predicate IsMatrix<T>(rows: seq<seq<T>>, width: nat) {
    forall i :: 0 <= i < |rows| ==> |rows[i]| == width
  }

  /** The linear combination c[0] * rows[0] + c[1] * rows[1] + ...: one row of the product of
      the matrix with rows `c` and the matrix `rows`. */
  function Combine<T>(f: Field<T>, c: seq<T>, rows: seq<seq<T>>, width: nat): (r: seq<T>)
    requires |c| == |rows| && IsMatrix(rows, width)
    ensures |r| == width
    decreases |c|
  {
    if c == [] then Zeros(f, width)
    else AddVectors(f, Scale(f, c[0], rows[0]), Combine(f, c[1..], rows[1..], width))
  }

  /** The matrix with the given rows, applied to a vector. */
  function Apply<T>(f: Field<T>, rows: seq<seq<T>>, v: seq<T>): (r: seq<T>)
    requires IsMatrix(rows, |v|)
    ensures |r| == |rows|
  {
    seq(|rows|, i requires 0 <= i < |rows| => Dot(f, rows[i], v))
  }

  lemma {:induction false} DotZeros<T(!new)>(f: Field<T>, v: seq<T>)
    requires Laws(f)
    ensures Dot(f, Zeros(f, |v|), v) == f.zero
    decreases |v|
  {
    if v != [] {
      assert Zeros(f, |v|)[1..] == Zeros(f, |v[1..]|);
      DotZeros(f, v[1..]);
      assert Units(f, v[0]) && Units(f, f.zero);
    }
  }

  /** A unit vector selects one entry. */
  lemma {:induction false} DotUnit<T(!new)>(f: Field<T>, v: seq<T>, x: nat)
    requires Laws(f) && x < |v|
    ensures Dot(f, Unit(f, |v|, x), v) == v[x]
    decreases |v|
  {
    var u := Unit(f, |v|, x);
    if x == 0 {
      assert u[1..] == Zeros(f, |v[1..]|);
      DotZeros(f, v[1..]);
      assert Units(f, v[0]) && Commutes(f, v[0], f.zero);
    } else {
      assert u[1..] == Unit(f, |v[1..]|, x - 1);
      DotUnit(f, v[1..], x - 1);
      assert u[0] == f.zero && Units(f, v[0]) && Units(f, v[x]);
    }
  }

  lemma {:induction false} DotAdds<T(!new)>(f: Field<T>, u: seq<T>, w: seq<T>, v: seq<T>)
    requires Laws(f) && |u| == |w| == |v|
    ensures Dot(f, AddVectors(f, u, w), v) == f.add(Dot(f, u, v), Dot(f, w, v))
    decreases |v|
  {
    if v != [] {
      assert AddVectors(f, u, w)[1..] == AddVectors(f, u[1..], w[1..]);
      DotAdds(f, u[1..], w[1..], v[1..]);
      assert Distributes(f, u[0], w[0], v[0]);
      SwapMiddle(f, f.mul(u[0], v[0]), f.mul(w[0], v[0]), Dot(f, u[1..], v[1..]), Dot(f, w[1..], v[1..]));
    } else {
      assert Units(f, f.zero);
    }
  }

  lemma SwapMiddle<T(!new)>(f: Field<T>, a: T, b: T, c: T, d: T)
    requires Laws(f)
    ensures f.add(f.add(a, b), f.add(c, d)) == f.add(f.add(a, c), f.add(b, d))
  {
    assert Associates(f, a, b, f.add(c, d)) && Associates(f, b, c, d);
    assert Commutes(f, b, c);
    assert Associates(f, c, b, d) && Associates(f, a, c, f.add(b, d));
  }

  lemma {:induction false} DotScales<T(!new)>(f: Field<T>, c: T, u: seq<T>, v: seq<T>)
    requires Laws(f) && |u| == |v|
    ensures Dot(f, Scale(f, c, u), v) == f.mul(c, Dot(f, u, v))
    decreases |v|
  {
    if v != [] {
      assert Scale(f, c, u)[1..] == Scale(f, c, u[1..]);
      DotScales(f, c, u[1..], v[1..]);
      assert Associates(f, c, u[0], v[0]);
      assert Distributes(f, c, f.mul(u[0], v[0]), Dot(f, u[1..], v[1..]));
    } else {
      assert Units(f, c);
    }
  }

  /** Associativity of the matrix product, one row at a time: combining rows and then applying
      the combination is applying every row and then combining the results. */
  lemma {:induction false} CombineThenApply<T(!new)>(f: Field<T>, c: seq<T>, rows: seq<seq<T>>, v: seq<T>)
    requires Laws(f) && |c| == |rows| && IsMatrix(rows, |v|)
    ensures Dot(f, Combine(f, c, rows, |v|), v) == Dot(f, c, Apply(f, rows, v))
    decreases |c|
  {
    if c == [] {
      DotZeros(f, v);
    } else {
      CombineThenApply(f, c[1..], rows[1..], v);
      assert Apply(f, rows, v)[1..] == Apply(f, rows[1..], v);
      DotAdds(f, Scale(f, c[0], rows[0]), Combine(f, c[1..], rows[1..], |v|), v);
      DotScales(f, c[0], rows[0], v);
    }
  }

  /** The dot product with a vector of zeros on the right. */
  lemma {:induction false} DotRightZeros<T(!new)>(f: Field<T>, u: seq<T>)
    requires Laws(f)
    ensures Dot(f, u, Zeros(f, |u|)) == f.zero
    decreases |u|
  {
    if u != [] {
      assert Zeros(f, |u|)[1..] == Zeros(f, |u[1..]|);
      DotRightZeros(f, u[1..]);
      assert Units(f, u[0]) && Units(f, f.zero);
    }
  }

  /** A matrix applied to the zero vector. */
  lemma ApplyZeros<T(!new)>(f: Field<T>, rows: seq<seq<T>>, width: nat)
    requires Laws(f) && IsMatrix(rows, width)
    ensures Apply(f, rows, Zeros(f, width)) == Zeros(f, |rows|)
  {
    forall i | 0 <= i < |rows|
      ensures Dot(f, rows[i], Zeros(f, width)) == f.zero
    {
      DotRightZeros(f, rows[i]);
    }
  }
}
