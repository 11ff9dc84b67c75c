/** xxHash-64 as a stream: four accumulators fed by 32-byte stripes, and a tail of up to 31 bytes
    consumed by words, a half word and single bytes.  The 64-bit mixing steps are parameters. */
module XxHash {
  import opened Sequences
  import opened Arithmetic
  import opened Bytes
  import opened BlockStream

  const STRIPE: nat := 32

  datatype Lanes<W> = Lanes(v1: W, v2: W, v3: W, v4: W)

  /** The arithmetic: one accumulator round on eight bytes, merging the accumulators, the start value
      of short inputs, adding the length, the three tail steps and the avalanche. */
  datatype Ops<!W> = Ops(
    round: (W, seq<Byte>) -> W, converge: Lanes<W> -> W, short: W, addLength: (W, nat) -> W,
    eight: (W, seq<Byte>) -> W, four: (W, seq<Byte>) -> W, one: (W, Byte) -> W, avalanche: W -> W)

  /** A stripe feeds each accumulator its own eight bytes. */
  function AbsorbStripe<W>(ops: Ops<W>): Absorb<Lanes<W>> {
    (v: Lanes<W>, p: seq<Byte>) =>
      if |p| == STRIPE then
        Lanes(ops.round(v.v1, p[..8]), ops.round(v.v2, p[8..16]), ops.round(v.v3, p[16..24]), ops.round(v.v4, p[24..]))
      else v
  }

  // ----- the tail -----

  /** How a tail is cut: words of eight, at most one of four, then single bytes. */
  function TailPieces(tail: seq<Byte>): seq<seq<Byte>>
    decreases |tail|
  {
    if |tail| >= 8 then [tail[..8]] + TailPieces(tail[8..])
    else if |tail| >= 4 then [tail[..4]] + TailPieces(tail[4..])
    else if |tail| > 0 then [tail[..1]] + TailPieces(tail[1..])
    else []
  }

  function Step<W>(ops: Ops<W>, h: W, piece: seq<Byte>): W {
    if |piece| == 8 then ops.eight(h, piece) else if |piece| == 4 then ops.four(h, piece)
    else if |piece| == 1 then ops.one(h, piece[0]) else h
  }

  function Steps<W>(ops: Ops<W>, h: W, pieces: seq<seq<Byte>>): W
    decreases |pieces|
  {
    if pieces == [] then h else Steps(ops, Step(ops, h, pieces[0]), pieces[1..])
  }

  ghost function Joined(pieces: seq<seq<Byte>>): seq<Byte> {
    if pieces == [] then [] else pieces[0] + Joined(pieces[1..])
  }

  ghost function Sized(pieces: seq<seq<Byte>>, n: nat): nat {
    if pieces == [] then 0 else Sized(pieces[1..], n) + if |pieces[0]| == n then 1 else 0
  }

  /** Length of the next tail piece. */
  function NextPiece(n: nat): nat
    requires n > 0
  {
    if n >= 8 then 8 else if n >= 4 then 4 else 1
  }

  lemma TailUnfolds(tail: seq<Byte>)
    requires tail != []
    ensures var k := NextPiece(|tail|);
            TailPieces(tail) != [] && TailPieces(tail)[0] == tail[..k] && TailPieces(tail)[1..] == TailPieces(tail[k..])
  {
  }

  /** Every byte of a tail is used once and in order. */
  lemma {:induction false} TailIsUsedOnce(tail: seq<Byte>)
    ensures Joined(TailPieces(tail)) == tail
    decreases |tail|
  {
    if tail != [] {
      var k := NextPiece(|tail|);
      TailUnfolds(tail);
      TailIsUsedOnce(tail[k..]);
      assert tail == tail[..k] + tail[k..];
    }
  }

  /** A tail takes as many word steps as fit, at most one half-word step, and at most three byte steps. */
  lemma {:induction false} TailStepCounts(tail: seq<Byte>)
    ensures Sized(TailPieces(tail), 8) == |tail| / 8
    ensures Sized(TailPieces(tail), 4) == |tail| % 8 / 4
    ensures Sized(TailPieces(tail), 1) == |tail| % 4
    decreases |tail|
  {
    if tail != [] {
      TailUnfolds(tail);
      TailStepCounts(tail[NextPiece(|tail|)..]);
    }
  }

  // ----- the digest -----

  function Finished<W>(ops: Ops<W>, s: Snapshot<Lanes<W>>): W {
    var h := if s.total >= STRIPE then ops.converge(s.acc) else ops.short;
    ops.avalanche(Steps(ops, ops.addLength(h, s.total), TailPieces(s.held)))
  }

  /** The one-shot form: a single update with the whole input. */
  function OneShot<W>(ops: Ops<W>, start: Lanes<W>, input: seq<Byte>): W {
    Finished(ops, AfterUpdates(AbsorbStripe(ops), STRIPE, start, [input]))
  }

  lemma OneShotIsAfter<W>(ops: Ops<W>, start: Lanes<W>, input: seq<Byte>)
    ensures OneShot(ops, start, input) == Finished(ops, After(AbsorbStripe(ops), STRIPE, start, input))
  {
    CuttingIrrelevant(AbsorbStripe(ops), STRIPE, start, [input]);
    assert [input][..0] == [];
    assert Flatten([input]) == input;
  }

  // ----- the digest by position -----

  /** Accumulator `k` after `n` stripes: it has had bytes 8k to 8k + 7 of each of them. */
  ghost function Lane<W>(ops: Ops<W>, v: W, input: seq<Byte>, k: nat, n: nat): W
    requires k < 4 && 32 * n <= |input|
  {
    if n == 0 then v
    else
      var at := 32 * (n - 1) + 8 * k;
      ops.round(Lane(ops, v, input, k, n - 1), input[at..at + 8])
  }

  ghost function LanesAt<W>(ops: Ops<W>, start: Lanes<W>, input: seq<Byte>, n: nat): Lanes<W>
    requires 32 * n <= |input|
  {
    Lanes(Lane(ops, start.v1, input, 0, n), Lane(ops, start.v2, input, 1, n),
          Lane(ops, start.v3, input, 2, n), Lane(ops, start.v4, input, 3, n))
  }

  /** The hash after `n` whole words from a position on. */
  ghost function WordsFrom<W>(ops: Ops<W>, h: W, input: seq<Byte>, from: nat, n: nat): W
    requires from + 8 * n <= |input|
  {
    if n == 0 then h
    else ops.eight(WordsFrom(ops, h, input, from, n - 1), input[from + 8 * (n - 1)..from + 8 * n])
  }

  /** The hash after `n` single bytes from a position on. */
  ghost function BytesFrom<W>(ops: Ops<W>, h: W, input: seq<Byte>, from: nat, n: nat): W
    requires from + n <= |input|
  {
    if n == 0 then h else ops.one(BytesFrom(ops, h, input, from, n - 1), input[from + n - 1])
  }

  /** The hash after `count` whole words from a position on, a half word if more than three bytes are left,
      and the last `s` bytes. */
  ghost function TailFrom<W>(ops: Ops<W>, h: W, input: seq<Byte>, from: nat, count: nat, r: nat, s: nat): W
    requires from + 8 * count + r == |input| && s <= |input|
  {
    var words := WordsFrom(ops, h, input, from, count);
    var half := if r >= 4 then ops.four(words, input[|input| - r..|input| - r + 4]) else words;
    BytesFrom(ops, half, input, |input| - s, s)
  }

  lemma TailPositions(n: nat)
    ensures n - n % 32 == 32 * (n / 32) && n - n % 32 + 8 * (n % 32 / 8) == n - n % 8 && n % 8 <= n
    ensures n % 4 == if n % 8 >= 4 then n % 8 - 4 else n % 8
  {
    var r := n % 32;
    DivisionUnique(n, 4 * (n / 32) + r / 8, 8, r % 8);
    var x := n % 8;
    if x >= 4 {
      DivisionUnique(n, 2 * (n / 8) + 1, 4, x - 4);
    } else {
      DivisionUnique(n, 2 * (n / 8), 4, x);
    }
  }

  /** The digest by positions of the input: whole stripes to the accumulators, then the length, then the
      whole words, the half word and the single bytes that are left. */
  ghost function Reference<W>(ops: Ops<W>, start: Lanes<W>, input: seq<Byte>): W {
    var n := |input|;
    TailPositions(n);
    var h := if n >= 32 then ops.converge(LanesAt(ops, start, input, n / 32)) else ops.short;
    var counted := ops.addLength(h, n % 0x1_0000_0000_0000_0000);
    ops.avalanche(TailFrom(ops, counted, input, n - n % 32, n % 32 / 8, n % 8, n % 4))
  }

  lemma {:induction false} FoldByLanes<W>(ops: Ops<W>, start: Lanes<W>, input: seq<Byte>, n: nat)
    requires 32 * n <= |input|
    ensures Fold(AbsorbStripe(ops), STRIPE, start, input)
         == Fold(AbsorbStripe(ops), STRIPE, LanesAt(ops, start, input, n), input[32 * n..])
    decreases n
  {
    if n == 0 {
      assert input[0..] == input;
    } else {
      FoldByLanes(ops, start, input, n - 1);
      var at := 32 * (n - 1);
      var rest := input[at..];
      StripeSlices(input, at);
      assert rest[STRIPE..] == input[32 * n..];
      assert AbsorbStripe(ops)(LanesAt(ops, start, input, n - 1), rest[..STRIPE]) == LanesAt(ops, start, input, n);
    }
  }

  lemma StripeSlices(input: seq<Byte>, at: nat)
    requires at + 32 <= |input|
    ensures var p := input[at..][..32];
            && |p| == 32 && p[..8] == input[at..at + 8] && p[8..16] == input[at + 8..at + 16]
            && p[16..24] == input[at + 16..at + 24] && p[24..] == input[at + 24..at + 32]
  {
    Slice(input, at, 0, 8);
    Slice(input, at, 8, 16);
    Slice(input, at, 16, 24);
    Slice(input, at, 24, 32);
    var p := input[at..][..32];
    assert p[0..8] == p[..8] && p[24..32] == p[24..];
  }

  lemma Slice(input: seq<Byte>, at: nat, a: nat, b: nat)
    requires at + 32 <= |input| && a <= b <= 32
    ensures input[at..][..32][a..b] == input[at + a..at + b]
  {
  }

  /** Folding leaves the lanes after all whole stripes, and the bytes behind them. */
  lemma StripesThenRest<W>(ops: Ops<W>, start: Lanes<W>, input: seq<Byte>, n: nat)
    requires 32 * n <= |input| < 32 * n + 32
    ensures Fold(AbsorbStripe(ops), STRIPE, start, input) == (LanesAt(ops, start, input, n), input[32 * n..])
  {
    FoldByLanes(ops, start, input, n);
  }

  lemma {:induction false} TailByWords<W>(ops: Ops<W>, h: W, input: seq<Byte>, from: nat, n: nat)
    requires from + 8 * n <= |input|
    ensures Steps(ops, h, TailPieces(input[from..]))
         == Steps(ops, WordsFrom(ops, h, input, from, n), TailPieces(input[from + 8 * n..]))
    decreases n
  {
    if n > 0 {
      TailByWords(ops, h, input, from, n - 1);
      var at := from + 8 * (n - 1);
      var rest := input[at..];
      TailUnfolds(rest);
      assert rest[..8] == input[at..at + 8] && rest[8..] == input[at + 8..];
    }
  }

  lemma TailByHalf<W>(ops: Ops<W>, h: W, input: seq<Byte>, from: nat)
    requires 4 <= |input| - from < 8
    ensures Steps(ops, h, TailPieces(input[from..]))
         == Steps(ops, ops.four(h, input[from..from + 4]), TailPieces(input[from + 4..]))
  {
    var rest := input[from..];
    TailUnfolds(rest);
    assert rest[..4] == input[from..from + 4] && rest[4..] == input[from + 4..];
  }

  lemma {:induction false} TailByBytes<W>(ops: Ops<W>, h: W, input: seq<Byte>, from: nat, n: nat)
    requires from + n <= |input| < from + 4
    ensures Steps(ops, h, TailPieces(input[from..]))
         == Steps(ops, BytesFrom(ops, h, input, from, n), TailPieces(input[from + n..]))
    decreases n
  {
    if n > 0 {
      TailByBytes(ops, h, input, from, n - 1);
      var rest := input[from + n - 1..];
      TailUnfolds(rest);
      assert rest[..1] == [input[from + n - 1]] && rest[1..] == input[from + n..];
    }
  }

  lemma TailEnd<W>(ops: Ops<W>, h: W, input: seq<Byte>, r: nat, s: nat)
    requires r < 8 && r <= |input| && s == if r >= 4 then r - 4 else r
    ensures var n := |input|;
            var half := if r >= 4 then ops.four(h, input[n - r..n - r + 4]) else h;
            Steps(ops, h, TailPieces(input[n - r..])) == BytesFrom(ops, half, input, n - s, s)
  {
    var n := |input|;
    if r >= 4 {
      TailByHalf(ops, h, input, n - r);
      TailByBytes(ops, ops.four(h, input[n - r..n - r + 4]), input, n - s, s);
    } else {
      TailByBytes(ops, h, input, n - s, s);
    }
    assert input[n..] == [];
  }

  /** All of the tail, after the whole stripes. */
  lemma WholeTail<W>(ops: Ops<W>, h: W, input: seq<Byte>, from: nat, count: nat, r: nat, s: nat)
    requires from + 8 * count + r == |input| && r < 8 && s == if r >= 4 then r - 4 else r
    ensures Steps(ops, h, TailPieces(input[from..])) == TailFrom(ops, h, input, from, count, r, s)
  {
    TailByWords(ops, h, input, from, count);
    TailEnd(ops, WordsFrom(ops, h, input, from, count), input, r, s);
  }

  /** The digest is the one by positions, except for an input whose 64-bit length has wrapped round to less
      than a stripe. */
  lemma OneShotIsReference<W>(ops: Ops<W>, start: Lanes<W>, input: seq<Byte>)
    requires !(|input| >= WORD && |input| % WORD < STRIPE)
    ensures OneShot(ops, start, input) == Reference(ops, start, input)
  {
    var n := |input|;
    OneShotIsAfter(ops, start, input);
    LongLength(n);
    TailPositions(n);
    FinishedByPosition(ops, start, input, n / 32);
  }

  lemma FinishedByPosition<W>(ops: Ops<W>, start: Lanes<W>, input: seq<Byte>, n: nat)
    requires 32 * n <= |input| < 32 * n + 32 && n == |input| / 32
    requires |input| % WORD >= 32 <==> |input| >= 32
    ensures Finished(ops, After(AbsorbStripe(ops), STRIPE, start, input)) == Reference(ops, start, input)
  {
    StripesThenRest(ops, start, input, n);
    var all := |input|;
    var h := if all >= 32 then ops.converge(LanesAt(ops, start, input, n)) else ops.short;
    TailPositions(all);
    WholeTail(ops, ops.addLength(h, all % WORD), input, all - all % 32, all % 32 / 8, all % 8, all % 4);
  }

  lemma LongLength(n: nat)
    ensures (n % WORD >= 32 <==> n >= 32) <==> !(n >= WORD && n % WORD < 32)
  {
    if n < WORD {
      assert n % WORD == n;
    }
  }

  /** For every way of cutting an input into updates the digest is the one-shot digest, and the
      number of buffered bytes is the length modulo 32. */
  lemma StreamIsOneShot<W>(ops: Ops<W>, start: Lanes<W>, pieces: seq<seq<Byte>>)
    ensures var s := AfterUpdates(AbsorbStripe(ops), STRIPE, start, pieces);
            && Finished(ops, s) == OneShot(ops, start, Flatten(pieces))
            && |s.held| == |Flatten(pieces)| % STRIPE
  {
    CuttingIrrelevant(AbsorbStripe(ops), STRIPE, start, pieces);
    OneShotIsAfter(ops, start, Flatten(pieces));
    LeftoverLength(AbsorbStripe(ops), STRIPE, start, Flatten(pieces));
  }

  /** For every way of cutting an input into updates, and counting the stripes as they are absorbed: the
      long-input branch is taken exactly when there was one, unless the 64-bit length has wrapped round to
      less than a stripe. */
  lemma LongBranchExactly<W>(ops: Ops<W>, start: Lanes<W>, pieces: seq<seq<Byte>>)
    ensures var s := AfterUpdates(Counting(AbsorbStripe(ops)), STRIPE, Tally(start, 0), pieces);
            var length := |Flatten(pieces)|;
            && Snapshot(s.acc.v, s.total, s.held) == AfterUpdates(AbsorbStripe(ops), STRIPE, start, pieces)
            && ((s.total >= STRIPE <==> s.acc.blocks > 0) <==> !(length >= WORD && length % WORD < STRIPE))
  {
    CuttingIrrelevant(Counting(AbsorbStripe(ops)), STRIPE, Tally(start, 0), pieces);
    CuttingIrrelevant(AbsorbStripe(ops), STRIPE, start, pieces);
    CountsBlocks(AbsorbStripe(ops), STRIPE, Tally(start, 0), Flatten(pieces));
    LongLength(|Flatten(pieces)|);
  }

  /** The final routine, with its three tail loops. */
  method Final<W>(state: Stream<Lanes<W>>, ops: Ops<W>) returns (digest: W)
    requires state.Valid() && state.size == STRIPE
    ensures digest == Finished(ops, state.Contents())
  {
    var h := if state.total >= STRIPE then ops.converge(state.acc) else ops.short;
    h := ops.addLength(h, state.total);
    var p := state.buf[..state.bufLen];
    ghost var goal := Steps(ops, h, TailPieces(p));
    while |p| >= 8
      invariant Steps(ops, h, TailPieces(p)) == goal
      decreases |p|
    {
      h := ops.eight(h, p[..8]);
      p := p[8..];
    }
    if |p| >= 4 {
      h := ops.four(h, p[..4]);
      p := p[4..];
    }
    while |p| > 0
      invariant |p| < 4 && Steps(ops, h, TailPieces(p)) == goal
      decreases |p|
    {
      h := ops.one(h, p[0]);
      p := p[1..];
    }
    return ops.avalanche(h);
  }

  /** The hash of an input fed in pieces, on the mutable state. */
  method Hash<W>(ops: Ops<W>, start: Lanes<W>, pieces: seq<seq<Byte>>) returns (digest: W)
    ensures digest == OneShot(ops, start, Flatten(pieces))
  {
    var state := new Stream(AbsorbStripe(ops), STRIPE, start);
    for i := 0 to |pieces|
      invariant fresh(state) && fresh(state.buf) && state.Valid()
      invariant state.Contents() == AfterUpdates(AbsorbStripe(ops), STRIPE, start, pieces[..i])
    {
      assert pieces[..i + 1][..i] == pieces[..i];
      state.Update(pieces[i]);
    }
    assert pieces[..|pieces|] == pieces;
    StreamIsOneShot(ops, start, pieces);
    digest := Final(state, ops);
  }
}
