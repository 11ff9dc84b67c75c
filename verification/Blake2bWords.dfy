/** BLAKE2b on 64-bit words, as numbers below 2^64: the instance of the streaming and compression theorems
    that the code runs. */
module Blake2bWords {
  import opened Sequences
  import opened Wrappers
  import opened Arithmetic
  import opened Bytes
  import opened Blake2b
  import opened Blake2bCompression
  import opened Blake2bStream

  type Word = w: nat | w < WORD

  // ----- word arithmetic -----

  function Add(a: Word, b: Word): Word {
    (a + b) % WORD
  }

  function Pow2(n: nat): (r: nat)
    ensures r > 0
  {
    if n == 0 then 1 else 2 * Pow2(n - 1)
  }

  /** Exclusive or of the `n` lowest bits. */
  function XorBits(a: nat, b: nat, n: nat): (r: nat)
    ensures r < Pow2(n)
  {
    if n == 0 then 0 else (if a % 2 == b % 2 then 0 else 1) + 2 * XorBits(a / 2, b / 2, n - 1)
  }

  lemma {:induction false} Pow2Adds(a: nat, b: nat)
    ensures Pow2(a + b) == Pow2(a) * Pow2(b)
    decreases a
  {
    if a > 0 {
      Pow2Adds(a - 1, b);
      MulNests(2, Pow2(a - 1), Pow2(b));
    }
  }

  lemma Squared(n: nat, p: nat)
    requires Pow2(n) == p
    ensures Pow2(2 * n) == p * p
  {
    Pow2Adds(n, n);
  }

  lemma Pow2Of64()
    ensures Pow2(64) == WORD
  {
    Squared(1, 2);
    Squared(2, 4);
    Squared(4, 16);
    Squared(8, 0x100);
    Squared(16, 0x1_0000);
    Squared(32, 0x1_0000_0000);
  }

  function Xor(a: Word, b: Word): Word {
    Pow2Of64();
    XorBits(a, b, 64)
  }

  // A rotation to the right by c: the word shifted right, and shifted left by 64 - c with the bits beyond
  // the word lost.  The two parts have no bit in common, so their union is their sum.

  function Rotate32(w: Word): Word {
    w / 0x1_0000_0000 + w * 0x1_0000_0000 % WORD
  }

  function Rotate24(w: Word): Word {
    w / 0x100_0000 + w * 0x100_0000_0000 % WORD
  }

  function Rotate16(w: Word): Word {
    w / 0x1_0000 + w * 0x1_0000_0000_0000 % WORD
  }

  function Rotate63(w: Word): Word {
    w / 0x8000_0000_0000_0000 + w * 2 % WORD
  }

  /** Byte i shifted up by 8 * i bits, for eight bytes. */
  function Load(b: seq<Byte>): Word {
    if |b| != 8 then 0
    else
      var v: seq<nat> := b;
      v[0] + v[1] * 0x100 + v[2] * 0x1_0000 + v[3] * 0x100_0000
      + v[4] * 0x1_0000_0000 + v[5] * 0x100_0000_0000 + v[6] * 0x1_0000_0000_0000 + v[7] * 0x100_0000_0000_0000
  }

  function Counter(t: nat): Word {
    t % WORD
  }

  /** The initialization vector. */
  const IV: seq<Word> := [
    0x6a09e667f3bcc908, 0xbb67ae8584caa73b, 0x3c6ef372fe94f82b, 0xa54ff53a5f1d36f1,
    0x510e527fade682d1, 0x9b05688c2b3e6c1f, 0x1f83d9abfb41bd6b, 0x5be0cd19137e2179]

  const WORDS: Words<Word> := Words<Word>.Words(
    0, 0xffff_ffff_ffff_ffff, IV, Add, Xor, Rotate32, Rotate24, Rotate16, Rotate63, Load, Counter)

  // ----- what these operations are -----

  /** Bit number `i`. */
  function Bit(w: nat, i: nat): bool {
    if i == 0 then w % 2 == 1 else Bit(w / 2, i - 1)
  }

  lemma {:induction false} XorBitwiseFrom(a: nat, b: nat, n: nat, i: nat)
    requires i < n
    ensures Bit(XorBits(a, b, n), i) == (Bit(a, i) != Bit(b, i))
    decreases n
  {
    var r := XorBits(a, b, n);
    assert r / 2 == XorBits(a / 2, b / 2, n - 1);
    if i > 0 {
      XorBitwiseFrom(a / 2, b / 2, n - 1, i - 1);
    }
  }

  /** The 64 bits of a word determine it. */
  lemma {:induction false} BitsDetermine(a: nat, b: nat, n: nat)
    requires a < Pow2(n) && b < Pow2(n) && forall i :: 0 <= i < n ==> Bit(a, i) == Bit(b, i)
    ensures a == b
    decreases n
  {
    if n > 0 {
      assert Bit(a, 0) == Bit(b, 0);
      forall i | 0 <= i < n - 1
        ensures Bit(a / 2, i) == Bit(b / 2, i)
      {
        assert Bit(a, i + 1) == Bit(b, i + 1);
      }
      BitsDetermine(a / 2, b / 2, n - 1);
    }
  }

  /** Exclusive or works bit by bit ... */
  lemma XorIsBitwise(a: Word, b: Word, i: nat)
    requires i < 64
    ensures Bit(WORDS.xor(a, b), i) == (Bit(a, i) != Bit(b, i))
  {
    XorBitwiseFrom(a, b, 64, i);
  }

  /** ... which leaves no choice. */
  lemma XorIsUnique(a: Word, b: Word, c: Word)
    requires forall i :: 0 <= i < 64 ==> Bit(c, i) == (Bit(a, i) != Bit(b, i))
    ensures c == WORDS.xor(a, b)
  {
    forall i | 0 <= i < 64
      ensures Bit(c, i) == Bit(Xor(a, b), i)
    {
      XorIsBitwise(a, b, i);
    }
    Pow2Of64();
    BitsDetermine(c, Xor(a, b), 64);
  }

  /** Addition loses at most one multiple of 2^64. */
  lemma AddWraps(a: Word, b: Word)
    ensures WORDS.add(a, b) == a + b || WORDS.add(a, b) + WORD == a + b
  {
  }

  /** A rotation by c moves the high bits down by c and the low c bits up by 64 - c. */
  lemma RotationsRotate(w: Word)
    ensures WORDS.rot32(w) == w / 0x1_0000_0000 + w % 0x1_0000_0000 * 0x1_0000_0000
    ensures WORDS.rot24(w) == w / 0x100_0000 + w % 0x100_0000 * 0x100_0000_0000
    ensures WORDS.rot16(w) == w / 0x1_0000 + w % 0x1_0000 * 0x1_0000_0000_0000
    ensures WORDS.rot63(w) == w / 0x8000_0000_0000_0000 + w % 0x8000_0000_0000_0000 * 2
  {
    LowBitsUp(w, 0x1_0000_0000, 0x1_0000_0000);
    LowBitsUp(w, 0x100_0000, 0x100_0000_0000);
    LowBitsUp(w, 0x1_0000, 0x1_0000_0000_0000);
    LowBitsUp(w, 0x8000_0000_0000_0000, 2);
  }

  lemma LowBitsUp(w: Word, low: nat, up: nat)
    requires low > 0 && low * up == WORD
    ensures w * up % WORD == w % low * up
  {
    var q, r := w / low, w % low;
    assert w * up == q * WORD + r * up by {
      assert w == q * low + r;
      assert (q * low + r) * up == q * low * up + r * up;
      assert q * low * up == q * (low * up);
    }
    assert r * up < low * up by {
      assert (low - r) * up > 0;
    }
    DivisionUnique(w * up, q, WORD, r * up);
  }

  /** Eight bytes are loaded lowest first. */
  lemma LoadIsLittleEndian(b: seq<Byte>)
    requires |b| == 8
    ensures WORDS.load(b) == LittleEndian(b)
  {
    LittleEndianOf8(b[0], b[1], b[2], b[3], b[4], b[5], b[6], b[7]);
    assert b == [b[0], b[1], b[2], b[3], b[4], b[5], b[6], b[7]];
  }

  /** The flag word has every bit set, the other none. */
  lemma FlagWords(i: nat)
    requires i < 64
    ensures Bit(WORDS.ones, i) && !Bit(WORDS.zero, i)
  {
    Pow2Of64();
    AllOnes(64, i);
    NoOnes(i);
  }

  lemma {:induction false} AllOnes(n: nat, i: nat)
    requires i < n
    ensures Bit(Pow2(n) - 1, i)
    decreases n
  {
    assert (Pow2(n) - 1) / 2 == Pow2(n - 1) - 1;
    if i > 0 {
      AllOnes(n - 1, i - 1);
    }
  }

  lemma {:induction false} NoOnes(i: nat)
    ensures !Bit(0, i)
    decreases i
  {
    if i > 0 {
      NoOnes(i - 1);
    }
  }

  const PRIMES: seq<nat> := [2, 3, 5, 7, 11, 13, 17, 19]
  const ROOTS: seq<nat> := [1, 1, 2, 2, 3, 3, 4, 4]

  /** `f` is the 64-bit fraction of the square root of `p`, whose whole part is `k`. */
  ghost predicate RootFraction(p: nat, k: nat, f: nat) {
    (k * WORD + f) * (k * WORD + f) <= p * WORD * WORD < (k * WORD + f + 1) * (k * WORD + f + 1)
  }

  /** The initialization vector: fractions of the square roots of the first eight primes. */
  lemma RootsOfPrimes(i: nat)
    requires i < 8
    ensures RootFraction(PRIMES[i], ROOTS[i], IV[i])
  {
  }

  lemma XorZero(a: Word)
    ensures WORDS.xor(a, WORDS.zero) == a
  {
    forall i | 0 <= i < 64
      ensures Bit(a, i) == (Bit(a, i) != Bit(0, i))
    {
      NoOnes(i);
    }
    XorIsUnique(a, 0, a);
  }

  /** 64-bit words satisfy what the compression theorem asks of word arithmetic. */
  lemma WordsObey()
    ensures Laws(WORDS)
  {
    forall a
      ensures WORDS.xor(a, WORDS.zero) == a
    {
      XorZero(a);
    }
  }

  /** The first parameter word is 0x0101kknn: section 3.3 of RFC 7693. */
  lemma LengthsWord(digestLength: Byte, keyLength: Byte)
    ensures WORDS.load(LengthsBlock(digestLength, keyLength)) == 0x01010000 + 0x100 * keyLength + digestLength
  {
  }

  // ----- the hash -----

  /** The start state is the initialization vector with that word in front. */
  lemma StandardStart(length: nat, keyLength: nat)
    requires length <= OUT_BYTES && keyLength <= KEY_BYTES
    ensures StartOf(WORDS, length, keyLength) == IV[0 := Xor(IV[0], 0x01010000 + 0x100 * keyLength + length)]
  {
    LengthsWord(length, keyLength);
  }

  /** The words as bytes, each lowest first. */
  function Output(h: seq<Word>): (r: seq<Byte>)
    ensures |r| == OUT_BYTES
  {
    seq(OUT_BYTES, i requires 0 <= i < OUT_BYTES => if i / 8 < |h| then Stored(h[i / 8], 8)[i % 8] else 0)
  }

  /** The output can be read back word by word. */
  lemma OutputLoads(h: seq<Word>, i: nat)
    requires |h| == 8 && i < 8
    ensures WORDS.load(Output(h)[8 * i..8 * i + 8]) == h[i]
  {
    var b := Output(h)[8 * i..8 * i + 8];
    forall j | 0 <= j < 8
      ensures b[j] == Stored(h[i], 8)[j]
    {
      DivisionUnique(8 * i + j, i, 8, j);
    }
    assert b == Stored(h[i], 8);
    LoadIsLittleEndian(b);
    Pow256Of8();
    LoadStored(h[i], 8);
  }

  lemma Pow256Of8()
    ensures Pow256(8) == WORD
  {
    assert Pow256(4) == 0x1_0000_0000;
    assert Pow256(8) == 256 * (256 * (256 * (256 * Pow256(4))));
  }

  /** On the code's own context: the hash of a message fed in pieces is the truncated output of the
      standard's fold, with the standard's compression function and start. */
  method Digest(length: nat, room: nat, key: seq<Byte>, pieces: seq<seq<Byte>>) returns (digest: Option<seq<Byte>>)
    ensures digest.Some? <==> 1 <= length <= OUT_BYTES && |key| <= KEY_BYTES && length <= room
    ensures digest.Some? ==>
              var h := Fold(BlockFunction(WORDS), StartOf(WORDS, length, |key|), KeyedInput(key, Flatten(pieces)));
              digest.value == Output(h)[..length]
  {
    WordsObey();
    digest := Hash(WORDS, Output, length, room, key, pieces);
  }
}
