/** Block hashes that buffer partial blocks and absorb every full block at once: the shape shared by
    the xxHash-64 and SipHash update routines. */
module BlockStream {
  import opened Sequences
  import opened Arithmetic
  import opened Bytes

  const WORD: nat := 0x1_0000_0000_0000_0000

  /** Absorbs one block into the state. */
  type Absorb<!V> = (V, seq<Byte>) -> V

  /** Absorbs all full blocks; the second part is what is left over. */
  function Fold<V>(f: Absorb<V>, size: nat, v: V, input: seq<Byte>): (r: (V, seq<Byte>))
    requires size > 0
    ensures |r.1| < size && |r.1| <= |input|
    decreases |input|
  {
    if |input| < size then (v, input) else Fold(f, size, f(v, input[..size]), input[size..])
  }

  /** Input can be folded in two goes, carrying the leftover over. */
  lemma {:induction false} FoldContinues<V>(f: Absorb<V>, size: nat, v: V, x: seq<Byte>, y: seq<Byte>)
    requires size > 0
    ensures Fold(f, size, v, x + y) == var p := Fold(f, size, v, x); Fold(f, size, p.0, p.1 + y)
    decreases |x|
  {
    if |x| >= size {
      assert (x + y)[..size] == x[..size] && (x + y)[size..] == x[size..] + y;
      FoldContinues(f, size, f(v, x[..size]), x[size..], y);
    }
  }

  /** The leftover length is the input length modulo the block size. */
  lemma {:induction false} LeftoverLength<V>(f: Absorb<V>, size: nat, v: V, input: seq<Byte>)
    requires size > 0
    ensures |Fold(f, size, v, input).1| == |input| % size
    decreases |input|
  {
    if |input| < size {
      DivisionUnique(|input|, 0, size, |input|);
    } else {
      LeftoverLength(f, size, f(v, input[..size]), input[size..]);
      var rest := |input| - size;
      assert (rest / size + 1) * size == rest / size * size + size;
      DivisionUnique(|input|, rest / size + 1, size, rest % size);
    }
  }

  /** A state together with the number of blocks absorbed into it. */
  datatype Tally<V> = Tally(v: V, blocks: nat)

  function Counting<V>(f: Absorb<V>): Absorb<Tally<V>> {
    (t: Tally<V>, block: seq<Byte>) => Tally(f(t.v, block), t.blocks + 1)
  }

  /** Counting changes nothing else, and a fold absorbs as many blocks as the input has full ones. */
  lemma {:induction false} CountsBlocks<V>(f: Absorb<V>, size: nat, t: Tally<V>, input: seq<Byte>)
    requires size > 0
    ensures var plain := Fold(f, size, t.v, input);
            Fold(Counting(f), size, t, input) == (Tally(plain.0, t.blocks + |input| / size), plain.1)
    decreases |input|
  {
    if |input| < size {
      DivisionUnique(|input|, 0, size, |input|);
    } else {
      CountsBlocks(f, size, Counting(f)(t, input[..size]), input[size..]);
      var rest := |input| - size;
      assert (rest / size + 1) * size == rest / size * size + size;
      DivisionUnique(|input|, rest / size + 1, size, rest % size);
    }
  }

  /** A hash state: accumulators, total length as a 64-bit word, buffered bytes. */
  datatype Snapshot<V> = Snapshot(acc: V, total: nat, held: seq<Byte>)

  /** The state after absorbing `input`. */
  function After<V>(f: Absorb<V>, size: nat, start: V, input: seq<Byte>): (r: Snapshot<V>)
    requires size > 0
    ensures |r.held| < size
  {
    var p := Fold(f, size, start, input);
    Snapshot(p.0, |input| % WORD, p.1)
  }

  /** One update: the buffered bytes and the new ones, folded together. */
  function Updated<V>(f: Absorb<V>, size: nat, s: Snapshot<V>, data: seq<Byte>): (r: Snapshot<V>)
    requires size > 0
    ensures |r.held| < size
  {
    var p := Fold(f, size, s.acc, s.held + data);
    Snapshot(p.0, (s.total + |data|) % WORD, p.1)
  }

  lemma UpdateContinues<V>(f: Absorb<V>, size: nat, start: V, input: seq<Byte>, data: seq<Byte>)
    requires size > 0
    ensures Updated(f, size, After(f, size, start, input), data) == After(f, size, start, input + data)
  {
    FoldContinues(f, size, start, input, data);
    TotalAdds(|input|, |data|);
  }

  lemma TotalAdds(a: nat, b: nat)
    ensures (a % WORD + b) % WORD == (a + b) % WORD
  {
  }

  function AfterUpdates<V>(f: Absorb<V>, size: nat, start: V, pieces: seq<seq<Byte>>): (r: Snapshot<V>)
    requires size > 0
    ensures |r.held| < size
  {
    if pieces == [] then Snapshot(start, 0, [])
    else Updated(f, size, AfterUpdates(f, size, start, pieces[..|pieces| - 1]), pieces[|pieces| - 1])
  }

  /** For every way of cutting the input into updates, the state is the one a single update with the
      whole input leaves. */
  lemma {:induction false} CuttingIrrelevant<V>(f: Absorb<V>, size: nat, start: V, pieces: seq<seq<Byte>>)
    requires size > 0
    ensures AfterUpdates(f, size, start, pieces) == After(f, size, start, Flatten(pieces))
    decreases |pieces|
  {
    if pieces != [] {
      var n := |pieces| - 1;
      CuttingIrrelevant(f, size, start, pieces[..n]);
      UpdateContinues(f, size, start, Flatten(pieces[..n]), pieces[n]);
    }
  }

  /** The mutable state.  Both update routines run this code, with their own block size. */
  class Stream<V> {
    const absorb: Absorb<V>
    const size: nat
    var acc: V
    var total: nat
    const buf: array<Byte>
    var bufLen: nat

    ghost predicate Valid()
      reads this
    {
      size > 0 && buf.Length == size && bufLen < size && total < WORD
    }

    ghost function Contents(): Snapshot<V>
      requires Valid()
      reads this, buf
    {
      Snapshot(acc, total, buf[..bufLen])
    }

    constructor (f: Absorb<V>, blockSize: nat, start: V)
      requires blockSize > 0
      ensures Valid() && absorb == f && size == blockSize && fresh(buf) && Contents() == After(f, blockSize, start, [])
    {
      absorb, size, acc, total, bufLen := f, blockSize, start, 0, 0;
      buf := new Byte[blockSize](_ => 0);
    }

    method Update(data: seq<Byte>)
      requires Valid()
      modifies this, buf
      ensures Valid() && Contents() == Updated(absorb, size, old(Contents()), data)
    {
      ghost var before := Contents();
      total := (total + |data|) % WORD;
      var rest := data;
      if bufLen > 0 {
        rest := TopUp(data);
      } else {
        assert buf[..bufLen] + data == data;
      }
      // Either the buffer is empty or the input is used up.
      if bufLen > 0 {
        assert buf[..bufLen] + rest == buf[..bufLen];
      } else {
        assert buf[..bufLen] + rest == rest;
      }
      rest := AbsorbBlocks(rest);
      if |rest| > 0 {
        Store(rest);
      }
    }

    /** Absorbs full blocks straight from the data. */
    method AbsorbBlocks(data: seq<Byte>) returns (rest: seq<Byte>)
      requires Valid()
      modifies this`acc
      ensures (acc, rest) == Fold(absorb, size, old(acc), data)
    {
      rest := data;
      while |rest| >= size
        invariant Fold(absorb, size, acc, rest) == Fold(absorb, size, old(acc), data)
        decreases |rest|
      {
        acc := absorb(acc, rest[..size]);
        rest := rest[size..];
      }
    }

    /** Fills the buffer from the front of the data and absorbs it if that completes a block. */
    method TopUp(data: seq<Byte>) returns (rest: seq<Byte>)
      requires Valid() && bufLen > 0
      modifies this`acc, this`bufLen, buf
      ensures Valid() && (bufLen > 0 ==> rest == []) && |rest| <= |data|
      ensures Fold(absorb, size, acc, buf[..bufLen] + rest) == Fold(absorb, size, old(acc), old(buf[..bufLen]) + data)
    {
      ghost var joined := buf[..bufLen] + data;
      var toCopy := size - bufLen;
      if toCopy > |data| {
        toCopy := |data|;
      }
      forall i | 0 <= i < toCopy {
        buf[bufLen + i] := data[i];
      }
      rest := data[toCopy..];
      assert buf[..bufLen + toCopy] == joined[..bufLen + toCopy];
      if bufLen + toCopy == size {
        assert buf[..] == joined[..size] && rest == joined[size..];
        acc := absorb(acc, buf[..]);
        bufLen := 0;
        assert buf[..bufLen] + rest == rest;
      } else {
        bufLen := bufLen + toCopy;
        assert buf[..bufLen] + rest == joined;
      }
    }

    /** Buffers a partial block. */
    method Store(rest: seq<Byte>)
      requires Valid() && |rest| < size
      modifies this`bufLen, buf
      ensures Valid() && bufLen == |rest| && buf[..bufLen] == rest
    {
      forall i | 0 <= i < |rest| {
        buf[i] := rest[i];
      }
      bufLen := |rest|;
    }
  }
}
