/** Jump consistent hash, with the code's double-precision step: every operation is the exact real
    result passed through a rounding function. */
module JumpHash {

  const TWO_31: int := 0x8000_0000
  const TWO_53: int := 0x20_0000_0000_0000
  const TWO_62: int := 0x4000_0000_0000_0000
  const TWO_64: int := 0x1_0000_0000_0000_0000
  const MULTIPLIER: int := 2862933555777941757

  type Rounding = real -> real

  ghost predicate Monotone(rnd: Rounding, x: real, y: real) {
    x <= y ==> rnd(x) <= rnd(y)
  }

  ghost predicate Exact(rnd: Rounding, n: int) {
    rnd(n as real) == n as real
  }

  /** What the proofs use of IEEE rounding: it is monotone, and exact on the integers a double
      represents exactly, among them all up to 2^53 and the power 2^62. */
  ghost predicate Doubles(rnd: Rounding) {
    && (forall x: real, y: real :: Monotone(rnd, x, y))
    && (forall n: int :: 0 <= n <= TWO_53 ==> Exact(rnd, n))
    && Exact(rnd, TWO_62)
  }

  /** The next value of the generator, modulo 2^64. */
  function NextKey(key: nat): (r: nat)
    requires key < TWO_64
    ensures r < TWO_64
  {
    (key * MULTIPLIER + 1) % TWO_64
  }

  /** The top 31 bits of a key, plus one. */
  function Divisor(key: nat): (r: int)
    requires key < TWO_64
    ensures 1 <= r <= TWO_31
  {
    key / 0x2_0000_0000 + 1
  }

  /** Where the jump from bucket `b` lands. */
  function Landing(rnd: Rounding, key: nat, b: int): int
    requires key < TWO_64
  {
    rnd(Product((b + 1) as real, rnd(Quotient(Divisor(key))))).Floor
  }

  function Quotient(d: int): real
    requires d > 0
  {
    TWO_31 as real / d as real
  }

  function Product(n: real, r: real): real {
    n * r
  }

  /** Despite rounding, a jump always lands past the current bucket, and within 63 bits. */
  lemma JumpsForward(rnd: Rounding, key: nat, b: int)
    requires Doubles(rnd) && key < TWO_64 && 0 <= b < TWO_31
    ensures b < Landing(rnd, key, b) <= TWO_62
  {
    RoundedQuotient(rnd, Divisor(key));
    RoundedProduct(rnd, b + 1, rnd(Quotient(Divisor(key))));
    FloorBounds(rnd(Product((b + 1) as real, rnd(Quotient(Divisor(key))))), b + 1, TWO_62);
  }

  lemma FloorBounds(v: real, low: int, high: int)
    requires low as real <= v <= high as real
    ensures low <= v.Floor <= high
  {
    assert v.Floor as real <= v < (v.Floor + 1) as real;
    assert (low as real) < (v.Floor + 1) as real;
  }

  lemma RoundedQuotient(rnd: Rounding, d: int)
    requires Doubles(rnd) && 1 <= d <= TWO_31
    ensures 1.0 <= rnd(Quotient(d)) <= TWO_31 as real
  {
    QuotientBounds(d);
    assert Monotone(rnd, 1.0, Quotient(d)) && Exact(rnd, 1);
    assert Monotone(rnd, Quotient(d), TWO_31 as real) && Exact(rnd, TWO_31);
  }

  lemma RoundedProduct(rnd: Rounding, n: int, r: real)
    requires Doubles(rnd) && 0 <= n <= TWO_31 && 1.0 <= r <= TWO_31 as real
    ensures n as real <= rnd(Product(n as real, r)) <= TWO_62 as real
  {
    ProductBounds(n as real, r);
    var p := Product(n as real, r);
    assert Monotone(rnd, n as real, p) && Exact(rnd, n);
    assert Monotone(rnd, p, TWO_62 as real) && Exact(rnd, TWO_62);
  }

  lemma QuotientBounds(d: int)
    requires 1 <= d <= TWO_31
    ensures 1.0 <= Quotient(d) <= TWO_31 as real
  {
    var q := Quotient(d);
    var a, e := TWO_31 as real, d as real;
    assert q * e == a;
    assert q < 1.0 ==> (1.0 - q) * e > 0.0;
    assert q > a ==> (q - a) * e > 0.0 && a * (e - 1.0) >= 0.0;
  }

  lemma ProductBounds(n: real, r: real)
    requires 0.0 <= n <= TWO_31 as real && 1.0 <= r <= TWO_31 as real
    ensures n <= Product(n, r) <= TWO_62 as real
  {
    NonNegative(n, r - 1.0);
    NonNegative(n, TWO_31 as real - r);
  }

  lemma NonNegative(a: real, b: real)
    requires 0.0 <= a && 0.0 <= b
    ensures 0.0 <= a * b
  {
  }

  /** The bucket for `n` buckets, having jumped as far as bucket `b`. */
  ghost function BucketFrom(rnd: Rounding, key: nat, b: int, n: int): int
    requires Doubles(rnd) && key < TWO_64 && 0 <= b < n <= TWO_31
    decreases n - b
  {
    JumpsForward(rnd, NextKey(key), b);
    var j := Landing(rnd, NextKey(key), b);
    if j < n then BucketFrom(rnd, NextKey(key), j, n) else b
  }

  ghost function Bucket(rnd: Rounding, key: nat, n: int): int
    requires Doubles(rnd) && key < TWO_64 && 0 < n <= TWO_31
  {
    BucketFrom(rnd, key, 0, n)
  }

  /** In exact arithmetic a jump lands at the whole part of (b + 1) * 2^31 over the top 31 bits of the key
      plus one. */
  lemma LandingExact(key: nat, b: int)
    requires key < TWO_64 && 0 <= b < TWO_31
    ensures var n, d := Landing(x => x, key, b), key / 0x2_0000_0000 + 1;
            n * d <= (b + 1) * 0x8000_0000 < (n + 1) * d
  {
    var d := Divisor(key);
    var q := Quotient(d);
    var v := (b + 1) as real * q;
    var n := v.Floor;
    assert Landing(x => x, key, b) == n;
    assert q * d as real == TWO_31 as real;
    assert v * d as real == (b + 1) as real * TWO_31 as real by {
      Reorder((b + 1) as real, q, d as real);
    }
    assert n as real <= v < (n + 1) as real;
    Scales(n as real, v, d as real);
    ScalesStrictly(v, (n + 1) as real, d as real);
    assert (n * d) as real == n as real * d as real;
    assert ((n + 1) * d) as real == (n + 1) as real * d as real;
    assert ((b + 1) * TWO_31) as real == (b + 1) as real * TWO_31 as real;
  }

  lemma Reorder(a: real, b: real, c: real)
    ensures a * b * c == a * (b * c)
  {}

  lemma Scales(a: real, b: real, c: real)
    requires a <= b && c > 0.0
    ensures a * c <= b * c
  {
    NonNegative(b - a, c);
  }

  lemma ScalesStrictly(a: real, b: real, c: real)
    requires a < b && c > 0.0
    ensures a * c < b * c
  {
    assert (b - a) * c > 0.0;
  }

  /** The key after `m` steps of the generator. */
  ghost function KeyAt(key: nat, m: nat): (r: nat)
    requires key < TWO_64
    ensures r < TWO_64
  {
    if m == 0 then key else (KeyAt(key, m - 1) * 2862933555777941757 + 1) % 0x1_0000_0000_0000_0000
  }

  /** The bucket after `m` jumps. */
  ghost function JumpAt(rnd: Rounding, key: nat, m: nat): int
    requires key < TWO_64
  {
    if m == 0 then 0 else Landing(rnd, KeyAt(key, m), JumpAt(rnd, key, m - 1))
  }

  lemma {:induction false} LastJumpFrom(rnd: Rounding, key: nat, n: int, m: nat)
    requires Doubles(rnd) && key < TWO_64 && 0 <= JumpAt(rnd, key, m) < n <= TWO_31
    ensures exists k: nat :: BucketFrom(rnd, KeyAt(key, m), JumpAt(rnd, key, m), n) == JumpAt(rnd, key, k)
                             && JumpAt(rnd, key, k) < n <= JumpAt(rnd, key, k + 1)
    decreases n - JumpAt(rnd, key, m)
  {
    var b := JumpAt(rnd, key, m);
    assert KeyAt(key, m + 1) == NextKey(KeyAt(key, m));
    JumpsForward(rnd, KeyAt(key, m + 1), b);
    if JumpAt(rnd, key, m + 1) < n {
      LastJumpFrom(rnd, key, n, m + 1);
    }
  }

  /** The bucket is the last of the jumps that stays below the bucket count. */
  lemma BucketIsLastJump(rnd: Rounding, key: nat, n: int)
    requires Doubles(rnd) && key < TWO_64 && 0 < n <= TWO_31
    ensures exists k: nat :: Bucket(rnd, key, n) == JumpAt(rnd, key, k)
                             && JumpAt(rnd, key, k) < n <= JumpAt(rnd, key, k + 1)
  {
    LastJumpFrom(rnd, key, n, 0);
  }

  /** Growing from `m` to `n` buckets keeps a key's bucket or sends it to one of the new ones. */
  lemma {:induction false} GrowthFrom(rnd: Rounding, key: nat, b: int, m: int, n: int)
    requires Doubles(rnd) && key < TWO_64 && 0 <= b < m <= n <= TWO_31
    ensures b <= BucketFrom(rnd, key, b, m) < m
    ensures var r := BucketFrom(rnd, key, b, n); if r < m then r == BucketFrom(rnd, key, b, m) else r < n
    decreases n - b
  {
    JumpsForward(rnd, NextKey(key), b);
    var j := Landing(rnd, NextKey(key), b);
    if j < m {
      GrowthFrom(rnd, NextKey(key), j, m, n);
    } else if j < n {
      GrowthFrom(rnd, NextKey(key), j, n, n);
    }
  }

  /** One more bucket moves keys only to that bucket. */
  lemma OneMoreBucket(rnd: Rounding, key: nat, n: int)
    requires Doubles(rnd) && key < TWO_64 && 0 < n < TWO_31
    ensures 0 <= Bucket(rnd, key, n) < n
    ensures Bucket(rnd, key, n + 1) in {Bucket(rnd, key, n), n}
  {
    GrowthFrom(rnd, key, 0, n, n + 1);
  }

  /** The code's loop.  A non-positive bucket count is refused with -1. */
  method Jump(rnd: Rounding, key: nat, buckets: int) returns (b: int)
    requires Doubles(rnd) && key < TWO_64 && buckets < TWO_31
    ensures buckets <= 0 ==> b == -1
    ensures buckets > 0 ==> b == Bucket(rnd, key, buckets)
  {
    if buckets <= 0 {
      return -1;
    }
    b := -1;
    var j := 0;
    var k := key;
    while j < buckets
      invariant 0 <= k < TWO_64 && 0 <= j && b < j
      invariant j < buckets ==> Bucket(rnd, key, buckets) == BucketFrom(rnd, k, j, buckets)
      invariant j >= buckets ==> Bucket(rnd, key, buckets) == b
      decreases buckets - j
    {
      b := j;
      k := NextKey(k);
      JumpsForward(rnd, k, b);
      j := Landing(rnd, k, b);
    }
  }
}
