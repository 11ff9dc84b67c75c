/** The BLAKE2b context as the code keeps it: the chaining value in an array that the compression
    function updates in place, two counter words, two flag words and a buffer. */
module Blake2bStream {
  import opened Sequences
  import opened Wrappers
  import opened Bytes
  import opened Blake2b
  import opened Blake2bCompression

  /** The standard's compression function, with its counter as two numbers. */
  function BlockFunction<W>(w: Words<W>): Compression<seq<W>> {
    (h: seq<W>, block: seq<Byte>, t0: nat, t1: nat, final: bool) =>
      if |w.iv| == |h| == 8 && |block| == BLOCK then CompressedBy(w, h, block, w.word(t0), w.word(t1), final) else h
  }

  /** `c` is that function where it matters. */
  ghost predicate Computes<W(!new)>(c: Compression<seq<W>>, w: Words<W>) {
    |w.iv| == 8 &&
    forall h: seq<W>, block: seq<Byte>, t0: nat, t1: nat, final: bool
      {:trigger CompressedBy(w, h, block, w.word(t0), w.word(t1), final)} ::
      |h| == 8 && |block| == BLOCK ==>
        c(h, block, t0, t1, final) == CompressedBy(w, h, block, w.word(t0), w.word(t1), final)
  }

  /** The in-place compression, seen as a step of the compression function. */
  method CompressInto<W(!new)>(w: Words<W>, h: array<W>, block: seq<Byte>, t0: nat, t1: nat, f0: W, f1: W,
                               ghost final: bool, ghost compress: Compression<seq<W>>)
    requires Laws(w) && Computes(compress, w) && h.Length == 8 && |block| == BLOCK
    requires f0 == (if final then w.ones else w.zero) && f1 == w.zero
    modifies h
    ensures h[..] == compress(old(h[..]), block, t0, t1, final)
  {
    Compress(w, h, block, w.word(t0), w.word(t1), f0, f1, final);
  }

  class Context<W(!new)> {
    const words: Words<W>
    ghost const compress: Compression<seq<W>>
    const h: array<W>
    var t0: nat
    var t1: nat
    var f0: W
    var f1: W
    const buf: array<Byte>
    var buflen: nat
    const outlen: nat

    ghost predicate Valid()
      reads this
    {
      && Laws(words) && Computes(compress, words) && h.Length == 8 && h as object != buf
      && f0 == f1 == words.zero && buf.Length == BLOCK && buflen <= BLOCK && 1 <= outlen <= OUT_BYTES
    }

    ghost function Contents(): Snapshot<seq<W>>
      requires Valid()
      reads this, h, buf
    {
      Snapshot(h[..], t0, t1, buf[..buflen])
    }

    /** Initialization from a parameter block. */
    constructor (w: Words<W>, param: seq<Byte>, length: nat)
      requires Laws(w) && |param| == 64 && 1 <= length <= OUT_BYTES
      ensures Valid() && fresh(h) && fresh(buf) && outlen == length
      ensures words == w && compress == BlockFunction(w)
      ensures Contents() == Fresh(ParamState(w, param))
    {
      var start := InitParam(w, param);
      words, compress, t0, t1, f0, f1, buflen, outlen := w, BlockFunction(w), 0, 0, w.zero, w.zero, 0, length;
      h := new W[8](i requires 0 <= i < 8 => start[i]);
      buf := new Byte[BLOCK](_ => 0);
      new;
      assert h[..] == start;
    }

    method Update(data: seq<Byte>)
      requires Valid()
      modifies this`t0, this`t1, this`buflen, h, buf
      ensures Valid() && Contents() == Updated(compress, old(Contents()), data)
    {
      var rest := data;
      while |rest| > 0
        invariant Valid() && Updated(compress, Contents(), rest) == Updated(compress, old(Contents()), data)
        decreases |rest|, buflen
      {
        var fill := BLOCK - buflen;
        if |rest| > fill {
          Append(rest[..fill]);
          CompressBuffer();
          rest := rest[fill..];
        } else {
          Append(rest);
          rest := [];
          assert buf[..buflen] + [] == buf[..buflen];
        }
      }
      assert buf[..buflen] + rest == buf[..buflen];
    }

    /** Counts and compresses the full buffer. */
    method CompressBuffer()
      requires Valid() && buflen == BLOCK
      modifies this`t0, this`t1, this`buflen, h
      ensures Valid() && Contents() == Flushed(compress, old(Contents()))
    {
      assert buf[..buflen] == buf[..];
      Count(BLOCK);
      CompressInto(words, h, buf[..], t0, t1, f0, f1, false, compress);
      buflen := 0;
    }

    /** Advances the counter, carrying into the high word. */
    method Count(bytes: nat)
      modifies this`t0, this`t1
      ensures t0 == (old(t0) + bytes) % WORD && t1 == if t0 < bytes then (old(t1) + 1) % WORD else old(t1)
    {
      t0 := (t0 + bytes) % WORD;
      if t0 < bytes {
        t1 := (t1 + 1) % WORD;
      }
    }

    /** Fills the rest of the buffer with zeros. */
    method Pad()
      requires Valid()
      modifies buf
      ensures buf[..] == old(buf[..buflen]) + Zeros(BLOCK - buflen) && h[..] == old(h[..])
    {
      if buflen < BLOCK {
        forall i | buflen <= i < BLOCK {
          buf[i] := 0;
        }
      }
    }

    /** Copies bytes to the end of the buffer. */
    method Append(data: seq<Byte>)
      requires Valid() && buflen + |data| <= BLOCK
      modifies this`buflen, buf
      ensures Valid() && Contents() == old(Contents()).(held := old(Contents()).held + data)
    {
      forall i | 0 <= i < |data| {
        buf[buflen + i] := data[i];
      }
      assert h[..] == old(h[..]);
      buflen := buflen + |data|;
    }

    /** Pads, counts the remaining bytes and compresses with the final flag; refuses an output buffer
        that is too short. */
    method Final(room: nat) returns (result: Option<seq<W>>)
      requires Valid()
      modifies this`t0, this`t1, this`f0, h, buf
      ensures result == if room < outlen then None else Some(Finished(compress, old(Contents())))
    {
      if room < outlen {
        return None;
      }
      Pad();
      Count(buflen);
      f0 := words.ones;
      CompressInto(words, h, buf[..], t0, t1, f0, f1, true, compress);
      return Some(h[..]);
    }
  }

  /** The state a sequential hash starts from: section 3.3 of RFC 7693. */
  function StartOf<W>(w: Words<W>, length: nat, keyLength: nat): seq<W>
    requires |w.iv| == 8 && length <= OUT_BYTES && keyLength <= KEY_BYTES
  {
    Initial(w, w.load(LengthsBlock(length, keyLength)))
  }

  /** Initialize, absorb the key block if there is a key, absorb the pieces one update at a time and
      finish.  Bad lengths are refused; otherwise the digest is the first `length` bytes of the fold. */
  method Hash<W(!new)>(w: Words<W>, output: seq<W> -> seq<Byte>, length: nat, room: nat, key: seq<Byte>,
                       pieces: seq<seq<Byte>>) returns (digest: Option<seq<Byte>>)
    requires Laws(w) && forall x :: |output(x)| == OUT_BYTES
    ensures digest.Some? <==> 1 <= length <= OUT_BYTES && |key| <= KEY_BYTES && length <= room
    ensures digest.Some? ==>
              var h := Fold(BlockFunction(w), StartOf(w, length, |key|), KeyedInput(key, Flatten(pieces)));
              digest.value == output(h)[..length]
  {
    if length == 0 || length > OUT_BYTES || |key| > KEY_BYTES {
      return None;
    }
    var ctx := new Context(w, ParameterBlock(length, |key|), length);
    SequentialStart(w, length, |key|);
    ghost var start := StartOf(w, length, |key|);
    if |key| > 0 {
      ctx.Update(key + Zeros(BLOCK - |key|));
    }
    ghost var keyed := AfterKey(ctx.compress, start, key);
    for i := 0 to |pieces|
      invariant fresh(ctx) && fresh(ctx.h) && fresh(ctx.buf) && ctx.Valid()
      invariant ctx.Contents() == AfterUpdates(ctx.compress, keyed, pieces[..i])
    {
      assert pieces[..i + 1][..i] == pieces[..i];
      ctx.Update(pieces[i]);
    }
    assert pieces[..|pieces|] == pieces;
    StreamIsFold(ctx.compress, start, key, pieces);
    var r := ctx.Final(room);
    return if r.None? then None else Some(output(r.value)[..length]);
  }
}
