/** BLAKE2b as a stream, on values: buffered updates that hold the last full block back, against the block
    fold of section 3.3 of RFC 7693.  The chaining value has an arbitrary type H; the compression
    function receives the counter as two 64-bit words. */
module Blake2b {
  import opened Sequences
  import opened Arithmetic
  import opened Bytes

  const BLOCK: nat := 128
  const OUT_BYTES: nat := 64
  const KEY_BYTES: nat := 64
  const WORD: nat := 0x1_0000_0000_0000_0000

  /** Chaining value, block, low and high counter word, final flag. */
  type Compression<!H> = (H, seq<Byte>, nat, nat, bool) -> H

  // ----- the reference: section 3.3 of RFC 7693 -----

  function Zeros(n: nat): (r: seq<Byte>)
    ensures |r| == n
  {
    seq(n, _ => 0)
  }

  /** F with its counter given as a number, reduced to the 128 bits the algorithm keeps. */
  function F<H>(c: Compression<H>, h: H, block: seq<Byte>, t: nat, final: bool): H {
    c(h, block, t % WORD, t / WORD % WORD, final)
  }

  /** Number of blocks; empty input still makes one. */
  function BlockCount(n: nat): (r: nat)
    ensures r > 0 && (r - 1) * BLOCK <= n <= r * BLOCK && (n > 0 ==> (r - 1) * BLOCK < n)
  {
    if n == 0 then 1 else (n + BLOCK - 1) / BLOCK
  }

  /** Block number `i`, padded with zeros. */
  function Block(input: seq<Byte>, i: nat): (r: seq<Byte>)
    requires i * BLOCK <= |input|
    ensures |r| == BLOCK
  {
    if (i + 1) * BLOCK <= |input| then input[i * BLOCK..(i + 1) * BLOCK]
    else input[i * BLOCK..] + Zeros((i + 1) * BLOCK - |input|)
  }

  /** The chaining value after the first `i` blocks, none of them final. */
  function Chain<H>(c: Compression<H>, h: H, input: seq<Byte>, i: nat): H
    requires i * BLOCK <= |input|
  {
    if i == 0 then h else F(c, Chain(c, h, input, i - 1), Block(input, i - 1), i * BLOCK, false)
  }

  /** The final chaining value. */
  function Fold<H>(c: Compression<H>, h: H, input: seq<Byte>): H {
    var last := BlockCount(|input|) - 1;
    F(c, Chain(c, h, input, last), Block(input, last), |input|, true)
  }

  /** What is hashed: the key, padded to a block, in front of the message. */
  function KeyedInput(key: seq<Byte>, message: seq<Byte>): seq<Byte>
    requires |key| <= KEY_BYTES
  {
    if key == [] then message else key + Zeros(BLOCK - |key|) + message
  }

  /** Later input does not change earlier blocks. */
  lemma {:induction false} ChainPrefix<H>(c: Compression<H>, h: H, input: seq<Byte>, more: seq<Byte>, i: nat)
    requires i * BLOCK <= |input|
    ensures Chain(c, h, input + more, i) == Chain(c, h, input, i)
    decreases i
  {
    if i > 0 {
      ChainPrefix(c, h, input, more, i - 1);
      assert Block(input + more, i - 1) == Block(input, i - 1);
    }
  }

  // ----- the counter -----

  /** Adding to a two-word counter with carry adds modulo 2^128. */
  lemma CarryAdds(t: nat, d: nat)
    requires d < WORD
    ensures var low := (t % WORD + d) % WORD;
            && low == (t + d) % WORD
            && (if low < d then (t / WORD % WORD + 1) % WORD else t / WORD % WORD) == (t + d) / WORD % WORD
  {
    var q, r := t / WORD, t % WORD;
    if r + d < WORD {
      DivisionUnique(t + d, q, WORD, r + d);
    } else {
      DivisionUnique(t + d, q + 1, WORD, r + d - WORD);
    }
  }

  // ----- the stream -----

  /** Blocks already compressed when `n` bytes have been absorbed: a full last block is held back. */
  function Compressed(n: nat): nat {
    BlockCount(n) - 1
  }

  /** A context by value: chaining value, counter words and the buffered bytes. */
  datatype Snapshot<H> = Snapshot(h: H, t0: nat, t1: nat, held: seq<Byte>)

  function Fresh<H>(start: H): Snapshot<H> {
    Snapshot(start, 0, 0, [])
  }

  /** Advances the counter by `d`, carrying into the high word. */
  function Advanced<H>(s: Snapshot<H>, d: nat): Snapshot<H> {
    var low := (s.t0 + d) % WORD;
    s.(t0 := low, t1 := if low < d then (s.t1 + 1) % WORD else s.t1)
  }

  /** Compresses a full buffer as a non-final block. */
  function Flushed<H>(c: Compression<H>, s: Snapshot<H>): Snapshot<H> {
    var a := Advanced(s, BLOCK);
    a.(h := c(a.h, a.held, a.t0, a.t1, false), held := [])
  }

  /** One update call. */
  function Updated<H>(c: Compression<H>, s: Snapshot<H>, data: seq<Byte>): (r: Snapshot<H>)
    requires |s.held| <= BLOCK
    ensures |r.held| <= BLOCK
    decreases |data|, |s.held|
  {
    var fill := BLOCK - |s.held|;
    if |data| > fill then Updated(c, Flushed(c, s.(held := s.held + data[..fill])), data[fill..])
    else s.(held := s.held + data)
  }

  /** The last compression. */
  function Finished<H>(c: Compression<H>, s: Snapshot<H>): H
    requires |s.held| <= BLOCK
  {
    var a := Advanced(s, |s.held|);
    c(a.h, a.held + Zeros(BLOCK - |a.held|), a.t0, a.t1, true)
  }

  /** `n` blocks of `input` are compressed, the rest is in the buffer, and the counter words hold
      the number of bytes compressed. */
  ghost predicate Holding<H>(c: Compression<H>, start: H, input: seq<Byte>, n: nat, s: Snapshot<H>) {
    && n * BLOCK <= |input| <= n * BLOCK + BLOCK && s.held == input[n * BLOCK..]
    && s.h == Chain(c, start, input, n)
    && s.t0 == n * BLOCK % WORD && s.t1 == n * BLOCK / WORD % WORD
  }

  /** The context after absorbing `input`, with a full last block held back. */
  ghost predicate Absorbed<H>(c: Compression<H>, start: H, input: seq<Byte>, s: Snapshot<H>) {
    Holding(c, start, input, Compressed(|input|), s)
  }

  lemma FillHolds<H>(c: Compression<H>, start: H, input: seq<Byte>, n: nat, s: Snapshot<H>, piece: seq<Byte>)
    requires Holding(c, start, input, n, s) && |s.held| + |piece| <= BLOCK
    ensures Holding(c, start, input + piece, n, s.(held := s.held + piece))
  {
    ChainPrefix(c, start, input, piece, n);
  }

  lemma FlushHolds<H>(c: Compression<H>, start: H, input: seq<Byte>, n: nat, s: Snapshot<H>)
    requires Holding(c, start, input, n, s) && |s.held| == BLOCK
    ensures Holding(c, start, input, n + 1, Flushed(c, s))
  {
    CarryAdds(n * BLOCK, BLOCK);
    assert Block(input, n) == s.held;
  }

  lemma CutRejoins<T>(a: seq<T>, b: seq<T>, i: nat)
    requires i <= |b|
    ensures a + b[..i] + b[i..] == a + b
  {}

  lemma {:induction false} UpdateHolds<H>(c: Compression<H>, start: H, input: seq<Byte>, n: nat, s: Snapshot<H>,
                                          data: seq<Byte>)
    requires Holding(c, start, input, n, s) && (data == [] ==> n == Compressed(|input|))
    ensures Absorbed(c, start, input + data, Updated(c, s, data))
    decreases |data|, |s.held|
  {
    var fill := BLOCK - |s.held|;
    if |data| > fill {
      var full := s.(held := s.held + data[..fill]);
      FillHolds(c, start, input, n, s, data[..fill]);
      FlushHolds(c, start, input + data[..fill], n, full);
      UpdateHolds(c, start, input + data[..fill], n + 1, Flushed(c, full), data[fill..]);
      CutRejoins(input, data, fill);
    } else if data == [] {
      assert input + data == input && s.held + data == s.held;
    } else {
      FillHolds(c, start, input, n, s, data);
      HeldBack(|input + data|, n);
    }
  }

  /** However the input is cut into updates, the context depends only on their concatenation. */
  lemma UpdateAbsorbs<H>(c: Compression<H>, start: H, input: seq<Byte>, s: Snapshot<H>, data: seq<Byte>)
    requires Absorbed(c, start, input, s)
    ensures Absorbed(c, start, input + data, Updated(c, s, data))
  {
    UpdateHolds(c, start, input, Compressed(|input|), s, data);
  }

  /** Finishing is the last step of the fold. */
  lemma FinishFolds<H>(c: Compression<H>, start: H, input: seq<Byte>, s: Snapshot<H>)
    requires Absorbed(c, start, input, s)
    ensures Finished(c, s) == Fold(c, start, input)
  {
    var n := Compressed(|input|);
    CarryAdds(n * BLOCK, |s.held|);
    assert Block(input, n) == s.held + Zeros(BLOCK - |s.held|);
  }

  /** A non-empty buffer means that all earlier blocks, and no more, are compressed. */
  lemma HeldBack(size: nat, n: nat)
    requires n * BLOCK < size <= (n + 1) * BLOCK
    ensures n == Compressed(size)
  {
    CancelFactor(n, BlockCount(size), BLOCK);
    CancelFactor(BlockCount(size) - 1, n + 1, BLOCK);
  }

  // ----- whole messages -----

  /** The context after a sequence of updates. */
  function AfterUpdates<H>(c: Compression<H>, s: Snapshot<H>, pieces: seq<seq<Byte>>): (r: Snapshot<H>)
    requires |s.held| <= BLOCK
    ensures |r.held| <= BLOCK
  {
    if pieces == [] then s else Updated(c, AfterUpdates(c, s, pieces[..|pieces| - 1]), pieces[|pieces| - 1])
  }

  /** A key is absorbed as a first, padded block. */
  function AfterKey<H>(c: Compression<H>, start: H, key: seq<Byte>): (r: Snapshot<H>)
    requires |key| <= KEY_BYTES
    ensures |r.held| <= BLOCK
  {
    if key == [] then Fresh(start) else Updated(c, Fresh(start), key + Zeros(BLOCK - |key|))
  }

  lemma {:induction false} UpdatesAbsorb<H>(c: Compression<H>, start: H, input: seq<Byte>, s: Snapshot<H>,
                                            pieces: seq<seq<Byte>>)
    requires Absorbed(c, start, input, s)
    ensures Absorbed(c, start, input + Flatten(pieces), AfterUpdates(c, s, pieces))
    decreases |pieces|
  {
    if pieces == [] {
      assert input + Flatten(pieces) == input;
    } else {
      var n := |pieces| - 1;
      UpdatesAbsorb(c, start, input, s, pieces[..n]);
      FlattenStep(input, pieces);
      UpdateAbsorbs(c, start, input + Flatten(pieces[..n]), AfterUpdates(c, s, pieces[..n]), pieces[n]);
    }
  }

  lemma FlattenStep(input: seq<Byte>, pieces: seq<seq<Byte>>)
    requires pieces != []
    ensures input + Flatten(pieces) == (input + Flatten(pieces[..|pieces| - 1])) + pieces[|pieces| - 1]
  {
    ConcatAssociates(input, Flatten(pieces[..|pieces| - 1]), pieces[|pieces| - 1]);
  }

  /** For every key and every way of cutting a message into updates, the final chaining value is the
      block fold over the key block and the message. */
  lemma StreamIsFold<H>(c: Compression<H>, start: H, key: seq<Byte>, pieces: seq<seq<Byte>>)
    requires |key| <= KEY_BYTES
    ensures Finished(c, AfterUpdates(c, AfterKey(c, start, key), pieces))
         == Fold(c, start, KeyedInput(key, Flatten(pieces)))
  {
    var prefix := if key == [] then [] else key + Zeros(BLOCK - |key|);
    assert Absorbed(c, start, [], Fresh(start));
    if key != [] {
      UpdateAbsorbs(c, start, [], Fresh(start), prefix);
      assert [] + prefix == prefix;
    }
    UpdatesAbsorb(c, start, prefix, AfterKey(c, start, key), pieces);
    assert prefix + Flatten(pieces) == KeyedInput(key, Flatten(pieces));
    FinishFolds(c, start, prefix + Flatten(pieces), AfterUpdates(c, AfterKey(c, start, key), pieces));
  }
}
