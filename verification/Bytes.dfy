/** Bytes and the numbers they spell, lowest byte first. */
module Bytes {
  type Byte = b: nat | b < 256

  /** Little-endian value of some bytes. */
  function LittleEndian(b: seq<Byte>): nat {
    if b == [] then 0 else b[0] + 256 * LittleEndian(b[1..])
  }

  function Pow256(i: nat): nat {
    if i == 0 then 1 else 256 * Pow256(i - 1)
  }

  lemma {:induction false} LittleEndianAppends(a: seq<Byte>, b: seq<Byte>)
    ensures LittleEndian(a + b) == LittleEndian(a) + Pow256(|a|) * LittleEndian(b)
    decreases |a|
  {
    if a == [] {
      assert a + b == b;
    } else {
      assert (a + b)[1..] == a[1..] + b;
      LittleEndianAppends(a[1..], b);
      MulNests(256, Pow256(|a| - 1), LittleEndian(b));
    }
  }

  lemma MulNests(a: nat, b: nat, c: nat)
    ensures a * (b * c) == a * b * c
  {
  }

  lemma OneByte(x: Byte)
    ensures LittleEndian([x]) == x
  {
    assert [x][1..] == [];
  }

  lemma {:induction false} ZeroValue(n: nat)
    ensures LittleEndian(seq(n, _ => 0)) == 0
    decreases n
  {
    if n > 0 {
      assert seq<Byte>(n, _ => 0)[1..] == seq<Byte>(n - 1, _ => 0);
      ZeroValue(n - 1);
    }
  }

  lemma {:induction false} Pow256Bounds(b: seq<Byte>)
    ensures LittleEndian(b) < Pow256(|b|)
    decreases |b|
  {
    if b != [] {
      Pow256Bounds(b[1..]);
    }
  }

  /** The `n` lowest bytes of a number. */
  function Stored(w: nat, n: nat): (b: seq<Byte>)
    ensures |b| == n
  {
    if n == 0 then [] else [w % 256] + Stored(w / 256, n - 1)
  }

  /** Storing and loading are inverse. */
  lemma {:induction false} LoadStored(w: nat, n: nat)
    requires w < Pow256(n)
    ensures LittleEndian(Stored(w, n)) == w
    decreases n
  {
    if n > 0 {
      assert w / 256 < Pow256(n - 1);
      LoadStored(w / 256, n - 1);
      assert Stored(w, n)[1..] == Stored(w / 256, n - 1);
    }
  }

  lemma LittleEndianOf8(b0: Byte, b1: Byte, b2: Byte, b3: Byte, b4: Byte, b5: Byte, b6: Byte, b7: Byte)
    ensures var v: seq<nat> := [b0, b1, b2, b3, b4, b5, b6, b7];
            LittleEndian([b0, b1, b2, b3, b4, b5, b6, b7])
            == v[0] + v[1] * 0x100 + v[2] * 0x1_0000 + v[3] * 0x100_0000 + v[4] * 0x1_0000_0000
               + v[5] * 0x100_0000_0000 + v[6] * 0x1_0000_0000_0000 + v[7] * 0x100_0000_0000_0000
  {
    OneByte(b7);
    LittleEndianHead(b6, [b7]);
    LittleEndianHead(b5, [b6, b7]);
    LittleEndianHead(b4, [b5, b6, b7]);
    LittleEndianHead(b3, [b4, b5, b6, b7]);
    LittleEndianHead(b2, [b3, b4, b5, b6, b7]);
    LittleEndianHead(b1, [b2, b3, b4, b5, b6, b7]);
    LittleEndianHead(b0, [b1, b2, b3, b4, b5, b6, b7]);
    assert [b6] + [b7] == [b6, b7];
    assert [b5] + [b6, b7] == [b5, b6, b7];
    assert [b4] + [b5, b6, b7] == [b4, b5, b6, b7];
    assert [b3] + [b4, b5, b6, b7] == [b3, b4, b5, b6, b7];
    assert [b2] + [b3, b4, b5, b6, b7] == [b2, b3, b4, b5, b6, b7];
    assert [b1] + [b2, b3, b4, b5, b6, b7] == [b1, b2, b3, b4, b5, b6, b7];
    assert [b0] + [b1, b2, b3, b4, b5, b6, b7] == [b0, b1, b2, b3, b4, b5, b6, b7];
  }

  lemma LittleEndianHead(x: Byte, b: seq<Byte>)
    ensures LittleEndian([x] + b) == x + 256 * LittleEndian(b)
  {
    assert ([x] + b)[1..] == b;
  }
}
