/** The field of the erasure coder: bytes with exclusive or and the shift-and-add product reduced by
    the polynomial 0x11d.  The product's laws are proved for any carrier with an additive "multiply
    by x" map; bit-level reasoning is confined to a handful of facts about bytes. */
module GaloisField {
  import opened FieldAlgebra

  // ----- shift-and-add products -----

  /** A carrier: zero, one, addition, multiplication by x, and the bits of an element, lowest first. */
  datatype Carrier<!T> = Carrier(zero: T, one: T, add: (T, T) -> T, x: T -> T, bits: T -> seq<bool>)

  function Gate<T>(r: Carrier<T>, open: bool, a: T): T {
    if open then a else r.zero
  }

  /** Product of `a` with a bit string. */
  function MulBits<T>(r: Carrier<T>, a: T, p: seq<bool>): T
    decreases |p|
  {
    if p == [] then r.zero else r.add(Gate(r, p[0], a), MulBits(r, r.x(a), p[1..]))
  }

  function Mul<T>(r: Carrier<T>, a: T, b: T): T {
    MulBits(r, a, r.bits(b))
  }

  function XorBits(p: seq<bool>, q: seq<bool>): (r: seq<bool>)
    requires |p| == |q|
    ensures |r| == |p|
  {
    seq(|p|, i requires 0 <= i < |p| => p[i] != q[i])
  }

  const NO_BITS: seq<bool> := [false, false, false, false, false, false, false, false]

  /** x^8 = x^4 + x^3 + x^2 + 1. */
  const REDUCTION: seq<bool> := [true, false, true, true, true, false, false, false]

  /** The number some bits spell, lowest first. */
  function Spelled(p: seq<bool>): nat {
    if p == [] then 0 else (if p[0] then 1 else 0) + 2 * Spelled(p[1..])
  }

  /** The reduction is 0x1d: with x^8 itself, the polynomial 0x11d. */
  lemma ReductionSpelled()
    ensures Spelled(REDUCTION) == 0x1d && Spelled(NO_BITS) == 0
  {
    assert REDUCTION[1..] == [false, true, true, true, false, false, false];
    assert REDUCTION[1..][1..] == [true, true, true, false, false, false];
    assert REDUCTION[1..][1..][1..] == [true, true, false, false, false];
    assert REDUCTION[1..][1..][1..][1..] == [true, false, false, false];
    SpelledZeros(3);
    assert [true, false, false, false][1..] == seq(3, _ => false);
    SpelledZeros(8);
    assert NO_BITS == seq(8, _ => false);
  }

  lemma {:induction false} SpelledZeros(n: nat)
    ensures Spelled(seq(n, _ => false)) == 0
    decreases n
  {
    if n > 0 {
      assert seq(n, _ => false)[1..] == seq(n - 1, _ => false);
      SpelledZeros(n - 1);
    }
  }

  function PowerX<T>(r: Carrier<T>, a: T, n: nat): T {
    if n == 0 then a else PowerX(r, r.x(a), n - 1)
  }

  // The facts about a carrier, each a predicate of its own.

  ghost predicate Group<T>(r: Carrier<T>, a: T, b: T, c: T) {
    && r.add(r.add(a, b), c) == r.add(a, r.add(b, c)) && r.add(a, b) == r.add(b, a)
    && r.add(r.zero, a) == a && r.add(a, a) == r.zero
  }

  ghost predicate Additive<T>(r: Carrier<T>, a: T, b: T) {
    && r.x(r.add(a, b)) == r.add(r.x(a), r.x(b))
    && |r.bits(a)| == |r.bits(b)| == 8 && r.bits(r.add(a, b)) == XorBits(r.bits(a), r.bits(b))
  }

  /** Multiplying by x shifts the bits and reduces. */
  ghost predicate Shifts<T>(r: Carrier<T>, b: T) {
    && |r.bits(b)| == 8
    && r.bits(r.x(b)) == XorBits([false] + r.bits(b)[..7], if r.bits(b)[7] then REDUCTION else NO_BITS)
  }

  ghost predicate OneIsUnit<T>(r: Carrier<T>, b: T) {
    MulBits(r, r.one, r.bits(b)) == b
  }

  ghost predicate Valid<T(!new)>(r: Carrier<T>) {
    && (forall a, b, c :: Group(r, a, b, c))
    && (forall a, b :: Additive(r, a, b))
    && (forall a :: Shifts(r, a))
    && (forall a :: OneIsUnit(r, a))
    && r.bits(PowerX(r, r.one, 8)) == REDUCTION
    && r.zero != r.one
  }

  lemma SwapMiddle<T(!new)>(r: Carrier<T>, a: T, b: T, c: T, d: T)
    requires Valid(r)
    ensures r.add(r.add(a, b), r.add(c, d)) == r.add(r.add(a, c), r.add(b, d))
  {
    assert Group(r, a, b, r.add(c, d)) && Group(r, b, c, d);
    assert Group(r, c, b, d) && Group(r, a, c, r.add(b, d));
  }

  lemma GateXor<T(!new)>(r: Carrier<T>, p: bool, q: bool, a: T)
    requires Valid(r)
    ensures Gate(r, p != q, a) == r.add(Gate(r, p, a), Gate(r, q, a))
  {
    assert Group(r, a, a, a) && Group(r, a, r.zero, a) && Group(r, r.zero, r.zero, r.zero);
  }

  lemma GateAdds<T(!new)>(r: Carrier<T>, p: bool, a: T, b: T)
    requires Valid(r)
    ensures Gate(r, p, r.add(a, b)) == r.add(Gate(r, p, a), Gate(r, p, b))
  {
    assert Group(r, r.zero, r.zero, r.zero);
  }

  lemma {:induction false} BitsAddRight<T(!new)>(r: Carrier<T>, a: T, p: seq<bool>, q: seq<bool>)
    requires Valid(r) && |p| == |q|
    ensures MulBits(r, a, XorBits(p, q)) == r.add(MulBits(r, a, p), MulBits(r, a, q))
    decreases |p|
  {
    if p == [] {
      assert Group(r, r.zero, r.zero, r.zero);
    } else {
      assert XorBits(p, q)[1..] == XorBits(p[1..], q[1..]);
      BitsAddRight(r, r.x(a), p[1..], q[1..]);
      GateXor(r, p[0], q[0], a);
      SwapMiddle(r, Gate(r, p[0], a), Gate(r, q[0], a), MulBits(r, r.x(a), p[1..]), MulBits(r, r.x(a), q[1..]));
    }
  }

  lemma {:induction false} BitsAddLeft<T(!new)>(r: Carrier<T>, a: T, b: T, p: seq<bool>)
    requires Valid(r)
    ensures MulBits(r, r.add(a, b), p) == r.add(MulBits(r, a, p), MulBits(r, b, p))
    decreases |p|
  {
    if p == [] {
      assert Group(r, r.zero, r.zero, r.zero);
    } else {
      assert Additive(r, a, b);
      BitsAddLeft(r, r.x(a), r.x(b), p[1..]);
      GateAdds(r, p[0], a, b);
      SwapMiddle(r, Gate(r, p[0], a), Gate(r, p[0], b), MulBits(r, r.x(a), p[1..]), MulBits(r, r.x(b), p[1..]));
    }
  }

  lemma XZero<T(!new)>(r: Carrier<T>)
    requires Valid(r)
    ensures r.x(r.zero) == r.zero
  {
    assert Group(r, r.zero, r.zero, r.zero) && Additive(r, r.zero, r.zero);
    assert Group(r, r.x(r.zero), r.x(r.zero), r.zero);
  }

  lemma {:induction false} ZeroTimesBits<T(!new)>(r: Carrier<T>, p: seq<bool>)
    requires Valid(r)
    ensures MulBits(r, r.zero, p) == r.zero
    decreases |p|
  {
    if p != [] {
      XZero(r);
      ZeroTimesBits(r, p[1..]);
      assert Group(r, r.zero, r.zero, r.zero);
    }
  }

  lemma {:induction false} TimesNoBits<T(!new)>(r: Carrier<T>, a: T, p: seq<bool>)
    requires Valid(r) && forall i :: 0 <= i < |p| ==> !p[i]
    ensures MulBits(r, a, p) == r.zero
    decreases |p|
  {
    if p != [] {
      TimesNoBits(r, r.x(a), p[1..]);
      assert Group(r, r.zero, r.zero, r.zero);
    }
  }

  lemma MulZeros<T(!new)>(r: Carrier<T>, a: T)
    requires Valid(r)
    ensures Mul(r, r.zero, a) == r.zero && Mul(r, a, r.zero) == r.zero
  {
    ZeroTimesBits(r, r.bits(a));
    assert Group(r, r.zero, r.zero, r.zero) && Additive(r, r.zero, r.zero);
    TimesNoBits(r, a, r.bits(r.zero));
  }

  /** Multiplication by x commutes with products. */
  lemma {:induction false} XComesOut<T(!new)>(r: Carrier<T>, a: T, p: seq<bool>)
    requires Valid(r)
    ensures MulBits(r, r.x(a), p) == r.x(MulBits(r, a, p))
    decreases |p|
  {
    XZero(r);
    if p != [] {
      XComesOut(r, r.x(a), p[1..]);
      assert Additive(r, Gate(r, p[0], a), MulBits(r, r.x(a), p[1..]));
    }
  }

  lemma {:induction false} LastBit<T(!new)>(r: Carrier<T>, a: T, p: seq<bool>, last: bool)
    requires Valid(r)
    ensures MulBits(r, a, p + [last]) == r.add(MulBits(r, a, p), Gate(r, last, PowerX(r, a, |p|)))
    decreases |p|
  {
    if p == [] {
      assert p + [last] == [last] && [last][1..] == [];
      assert Group(r, Gate(r, last, a), r.zero, r.zero) && Group(r, r.zero, Gate(r, last, a), r.zero);
    } else {
      assert (p + [last])[1..] == p[1..] + [last];
      LastBit(r, r.x(a), p[1..], last);
      assert Group(r, Gate(r, p[0], a), MulBits(r, r.x(a), p[1..]), Gate(r, last, PowerX(r, a, |p|)));
    }
  }

  lemma {:induction false} PowerComesOut<T(!new)>(r: Carrier<T>, a: T, p: seq<bool>, n: nat)
    requires Valid(r)
    ensures MulBits(r, PowerX(r, a, n), p) == PowerX(r, MulBits(r, a, p), n)
    decreases n
  {
    if n > 0 {
      PowerComesOut(r, r.x(a), p, n - 1);
      XComesOut(r, a, p);
    }
  }

  /** The two bit strings of a double product change places. */
  lemma {:induction false} FactorsSwap<T(!new)>(r: Carrier<T>, a: T, p: seq<bool>, q: seq<bool>)
    requires Valid(r)
    ensures MulBits(r, MulBits(r, a, p), q) == MulBits(r, MulBits(r, a, q), p)
    decreases |p|
  {
    if p == [] {
      ZeroTimesBits(r, q);
    } else {
      BitsAddLeft(r, Gate(r, p[0], a), MulBits(r, r.x(a), p[1..]), q);
      ZeroTimesBits(r, q);
      FactorsSwap(r, r.x(a), p[1..], q);
      XComesOut(r, a, q);
    }
  }

  /** The product commutes. */
  lemma MulCommutes<T(!new)>(r: Carrier<T>, a: T, b: T)
    requires Valid(r)
    ensures Mul(r, a, b) == Mul(r, b, a)
  {
    assert OneIsUnit(r, a) && OneIsUnit(r, b);
    FactorsSwap(r, r.one, r.bits(a), r.bits(b));
  }

  /** The reduction rule for 1 is the reduction rule for every element. */
  lemma Reduces<T(!new)>(r: Carrier<T>, a: T)
    requires Valid(r)
    ensures PowerX(r, a, 8) == MulBits(r, a, REDUCTION)
  {
    var top := PowerX(r, r.one, 8);
    assert OneIsUnit(r, a) && OneIsUnit(r, top);
    PowerComesOut(r, r.one, r.bits(a), 8);
    FactorsSwap(r, r.one, REDUCTION, r.bits(a));
  }

  /** Multiplying the second factor by x multiplies the product by x: shift, and reduce the bit that
      falls out. */
  lemma MulByX<T(!new)>(r: Carrier<T>, a: T, b: T)
    requires Valid(r)
    ensures Mul(r, a, r.x(b)) == r.x(Mul(r, a, b))
  {
    var p := r.bits(b);
    assert Shifts(r, b);
    var top := p[7];
    BitsAddRight(r, a, [false] + p[..7], if top then REDUCTION else NO_BITS);
    TimesNoBits(r, a, NO_BITS);
    assert ([false] + p[..7])[1..] == p[..7];
    assert Group(r, MulBits(r, r.x(a), p[..7]), r.zero, r.zero) && Group(r, r.zero, MulBits(r, r.x(a), p[..7]), r.zero);
    XComesOut(r, a, p);
    assert p == p[..7] + [top];
    LastBit(r, r.x(a), p[..7], top);
    Reduces(r, a);
    assert PowerX(r, a, 8) == PowerX(r, r.x(a), 7);
  }

  lemma {:induction false} ProductNests<T(!new)>(r: Carrier<T>, a: T, b: T, p: seq<bool>)
    requires Valid(r)
    ensures Mul(r, a, MulBits(r, b, p)) == MulBits(r, Mul(r, a, b), p)
    decreases |p|
  {
    MulZeros(r, a);
    if p != [] {
      var head, tail := Gate(r, p[0], b), MulBits(r, r.x(b), p[1..]);
      assert Additive(r, head, tail);
      BitsAddRight(r, a, r.bits(head), r.bits(tail));
      ProductNests(r, a, r.x(b), p[1..]);
      MulByX(r, a, b);
    }
  }

  /** Every carrier is a ring with the two units, which is what the coder needs of a field. */
  function FieldOf<T>(r: Carrier<T>): Field<T> {
    Field(r.zero, r.one, r.add, (a: T, b: T) => Mul(r, a, b))
  }

  lemma CarrierLaws<T(!new)>(r: Carrier<T>)
    requires Valid(r)
    ensures Laws(FieldOf(r))
  {
    var f := FieldOf(r);
    forall a, b
      ensures Commutes(f, a, b)
    {
      assert Group(r, a, b, a);
    }
    forall a
      ensures Units(f, a)
    {
      assert Group(r, a, a, a) && OneIsUnit(r, a);
      MulZeros(r, a);
    }
    forall a, b, c
      ensures Associates(f, a, b, c)
    {
      assert Group(r, a, b, c);
      ProductNests(r, a, b, r.bits(c));
    }
    forall a, b, c
      ensures Distributes(f, a, b, c)
    {
      assert Additive(r, b, c);
      BitsAddRight(r, a, r.bits(b), r.bits(c));
      BitsAddLeft(r, a, b, r.bits(c));
    }
  }
}
