/** The erasure coder's field on bytes, a byte being its eight bits, lowest first. */
module ByteField {
  import opened FieldAlgebra
  import opened GaloisField
  import opened Erasure

  type Octet = a: seq<bool> | |a| == 8 witness NO_BITS

  function Xor(a: Octet, b: Octet): Octet {
    XorBits(a, b)
  }

  /** Multiplication by x: a left shift, and 0x1d exclusive-ored in when the top bit falls out. */
  function TimesX(a: Octet): Octet {
    XorBits([false] + a[..7], if a[7] then REDUCTION else NO_BITS)
  }

  function Bits(a: Octet): seq<bool> {
    a
  }

  /** x^i, for i below 8. */
  function Power(i: int): Octet {
    seq(8, j => j == i)
  }

  const BYTES: Carrier<Octet> := Carrier<Octet>.Carrier(NO_BITS, Power(0), Xor, TimesX, Bits)

  const FIELD: Field<Octet> := FieldOf(BYTES)

  lemma XorIsGroup(a: Octet, b: Octet, c: Octet)
    ensures Group(BYTES, a, b, c)
  {
    assert Xor(Xor(a, b), c) == Xor(a, Xor(b, c)) && Xor(a, b) == Xor(b, a);
    assert Xor(NO_BITS, a) == a && Xor(a, a) == NO_BITS;
  }

  lemma TimesXAdds(a: Octet, b: Octet)
    ensures Additive(BYTES, a, b)
  {
    assert TimesX(Xor(a, b)) == Xor(TimesX(a), TimesX(b));
  }

  lemma NextPower(i: nat)
    requires i < 8
    ensures TimesX(Power(i)) == if i < 7 then Power(i + 1) else REDUCTION
  {}

  lemma {:induction false} EighthPower(i: nat)
    requires i < 8
    ensures PowerX(BYTES, Power(i), 8 - i) == REDUCTION
    decreases 8 - i
  {
    NextPower(i);
    if i < 7 {
      EighthPower(i + 1);
    }
  }

  /** The bits from i on, the others cleared. */
  function HighBits(a: Octet, i: int): Octet {
    seq(8, j requires 0 <= j < 8 => j >= i && a[j])
  }

  lemma {:induction false} PowersSelectBits(a: Octet, i: nat)
    requires i <= 8
    ensures MulBits(BYTES, if i < 8 then Power(i) else REDUCTION, a[i..]) == HighBits(a, i)
    decreases 8 - i
  {
    if i == 8 {
      assert HighBits(a, 8) == NO_BITS;
    } else {
      NextPower(i);
      PowersSelectBits(a, i + 1);
      assert a[i..][1..] == a[i + 1..];
      assert Xor(if a[i] then Power(i) else NO_BITS, HighBits(a, i + 1)) == HighBits(a, i);
    }
  }

  lemma OneSelectsAll(a: Octet)
    ensures OneIsUnit(BYTES, a)
  {
    PowersSelectBits(a, 0);
    assert HighBits(a, 0) == a && a[0..] == a;
  }

  /** Bytes satisfy every law the coder relies on. */
  lemma BytesObeyLaws()
    ensures Valid(BYTES) && Laws(FIELD)
    ensures forall a, b :: FIELD.mul(a, b) == FIELD.mul(b, a)
  {
    forall a, b, c
      ensures Group(BYTES, a, b, c)
    {
      XorIsGroup(a, b, c);
    }
    forall a, b
      ensures Additive(BYTES, a, b)
    {
      TimesXAdds(a, b);
    }
    forall a
      ensures OneIsUnit(BYTES, a)
    {
      OneSelectsAll(a);
    }
    EighthPower(0);
    assert Power(0)[0] && !NO_BITS[0];
    CarrierLaws(BYTES);
    forall a, b
      ensures FIELD.mul(a, b) == FIELD.mul(b, a)
    {
      MulCommutes(BYTES, a, b);
    }
  }

  /** On bytes, all that is left to ask of the matrix primitives is a systematic generator and a
      sound inversion. */
  lemma ByteContract(ker: Kernel<Octet>)
    requires ker.field == FIELD
    requires forall k, m :: ValidConfig(k, m) ==> Systematic(ker, k, m)
    requires forall a, k :: InvertsSoundly(ker, a, k)
    ensures Contract(ker)
  {
    BytesObeyLaws();
  }
}
