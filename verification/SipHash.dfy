/** SipHash-2-4 as a stream.  The reference parses the message into little-endian 64-bit words, the
    last one completed with zeros and a byte holding the length modulo 256.  The state has an
    arbitrary type V; `mix` stands for one compression and `finish` for the finalization. */
module SipHash {
  import opened Sequences
  import opened Bytes
  import opened BlockStream

  const SIZE: nat := 8

  type Mix<!V> = (V, nat) -> V

  function AbsorbWord<V>(mix: Mix<V>): Absorb<V> {
    (v: V, block: seq<Byte>) => mix(v, LittleEndian(block))
  }

  // ----- the reference -----

  function LengthByte(n: nat): Byte {
    n % 256
  }

  /** The message completed to whole words. */
  function Padded(message: seq<Byte>): seq<Byte> {
    message + Padding(|message| % SIZE, |message|)
  }

  /** What follows `left` bytes of the last word. */
  function Padding(left: nat, n: nat): (r: seq<Byte>)
    requires left < SIZE
    ensures |r| == SIZE - left
  {
    seq(SIZE - 1 - left, _ => 0) + [LengthByte(n)]
  }

  /** The message first, then zeros, then the length modulo 256 as the last byte of a whole word. */
  lemma PaddedExact(message: seq<Byte>)
    ensures var p := Padded(message);
            && message <= p && |message| < |p| <= |message| + 8 && |p| % 8 == 0
            && p[|p| - 1] == |message| % 256
            && forall i :: |message| <= i < |p| - 1 ==> p[i] == 0
  {
  }

  /** Compress every word of the padded message. */
  function Reference<V>(mix: Mix<V>, finish: V -> nat, start: V, message: seq<Byte>): nat {
    finish(Fold(AbsorbWord(mix), SIZE, start, Padded(message)).0)
  }

  // ----- the code's last word -----

  /** The sum the switch with fall-through builds: the length byte on top, the buffered bytes below. */
  function LastWord(held: seq<Byte>, total: nat): nat {
    total % 256 * Pow256(7) + Shifted(held)
  }

  /** Sum of byte i shifted by 8 * i bits. */
  function Shifted(b: seq<Byte>): nat {
    if b == [] then 0 else Shifted(b[..|b| - 1]) + b[|b| - 1] * Pow256(|b| - 1)
  }

  lemma {:induction false} ShiftedIsLittleEndian(b: seq<Byte>)
    ensures Shifted(b) == LittleEndian(b)
    decreases |b|
  {
    if b != [] {
      var n := |b| - 1;
      ShiftedIsLittleEndian(b[..n]);
      assert b == b[..n] + [b[n]];
      LittleEndianAppends(b[..n], [b[n]]);
      OneByte(b[n]);
    }
  }

  /** The code's last word is the little-endian value of the completed block. */
  lemma LastWordIsBlock(held: seq<Byte>, total: nat)
    requires |held| < SIZE
    ensures LastWord(held, total) == LittleEndian(held + Padding(|held|, total))
  {
    var body := held + seq<Byte>(SIZE - 1 - |held|, _ => 0);
    ShiftedIsLittleEndian(held);
    TrailingZeros(held, SIZE - 1 - |held|);
    TopByte(body, LengthByte(total));
    PaddingLayout(held, total);
  }

  lemma PaddingLayout(held: seq<Byte>, total: nat)
    requires |held| < SIZE
    ensures held + Padding(|held|, total) == held + seq<Byte>(SIZE - 1 - |held|, _ => 0) + [LengthByte(total)]
  {}

  lemma TrailingZeros(held: seq<Byte>, z: nat)
    ensures LittleEndian(held + seq<Byte>(z, _ => 0)) == LittleEndian(held)
  {
    LittleEndianAppends(held, seq<Byte>(z, _ => 0));
    ZeroValue(z);
  }

  lemma TopByte(body: seq<Byte>, top: Byte)
    ensures LittleEndian(body + [top]) == LittleEndian(body) + top * Pow256(|body|)
  {
    LittleEndianAppends(body, [top]);
    OneByte(top);
  }

  function Finished<V>(mix: Mix<V>, finish: V -> nat, s: Snapshot<V>): nat {
    finish(mix(s.acc, LastWord(s.held, s.total)))
  }

  lemma WordLength(n: nat)
    ensures n % WORD % 256 == n % 256
  {
  }

  /** Finishing after any input is the reference on that input. */
  lemma FinishIsReference<V>(mix: Mix<V>, finish: V -> nat, start: V, message: seq<Byte>)
    ensures Finished(mix, finish, After(AbsorbWord(mix), SIZE, start, message))
         == Reference(mix, finish, start, message)
  {
    var f := AbsorbWord(mix);
    var s := After(f, SIZE, start, message);
    LeftoverLength(f, SIZE, start, message);
    var pad := Padding(|message| % SIZE, |message|);
    FoldContinues(f, SIZE, start, message, pad);
    OneBlock(f, s.acc, s.held + pad);
    LastWordIsBlock(s.held, |message|);
    WordLength(|message|);
  }

  lemma OneBlock<V>(f: Absorb<V>, v: V, block: seq<Byte>)
    requires |block| == SIZE
    ensures Fold(f, SIZE, v, block) == (f(v, block), [])
  {
    assert block[..SIZE] == block && block[SIZE..] == [];
  }

  /** For every way of cutting a message into updates, the digest is the reference's, and the number
      of buffered bytes is the length modulo eight. */
  lemma StreamIsReference<V>(mix: Mix<V>, finish: V -> nat, start: V, pieces: seq<seq<Byte>>)
    ensures var s := AfterUpdates(AbsorbWord(mix), SIZE, start, pieces);
            && Finished(mix, finish, s) == Reference(mix, finish, start, Flatten(pieces))
            && |s.held| == |Flatten(pieces)| % SIZE
  {
    CuttingIrrelevant(AbsorbWord(mix), SIZE, start, pieces);
    FinishIsReference(mix, finish, start, Flatten(pieces));
    LeftoverLength(AbsorbWord(mix), SIZE, start, Flatten(pieces));
  }

  /** The final routine: the last word from the length and the buffered bytes, highest first. */
  method Final<V>(state: Stream<V>, mix: Mix<V>, finish: V -> nat) returns (digest: nat)
    requires state.Valid() && state.size == SIZE
    ensures digest == Finished(mix, finish, state.Contents())
  {
    var b := state.total % 256 * Pow256(7);
    var i := state.bufLen;
    ghost var held := state.buf[..state.bufLen];
    assert held[..i] == held;
    while i > 0
      invariant i <= |held| == state.bufLen && b + Shifted(held[..i]) == LastWord(held, state.total)
    {
      i := i - 1;
      b := b + state.buf[i] * Pow256(i);
      assert held[..i + 1][..i] == held[..i];
    }
    return finish(mix(state.acc, b));
  }

  /** The hash of a message fed in pieces, on the mutable state. */
  method Hash<V>(mix: Mix<V>, finish: V -> nat, start: V, pieces: seq<seq<Byte>>) returns (digest: nat)
    ensures digest == Reference(mix, finish, start, Flatten(pieces))
  {
    var state := new Stream(AbsorbWord(mix), SIZE, start);
    for i := 0 to |pieces|
      invariant fresh(state) && fresh(state.buf) && state.Valid()
      invariant state.Contents() == AfterUpdates(AbsorbWord(mix), SIZE, start, pieces[..i])
    {
      assert pieces[..i + 1][..i] == pieces[..i];
      state.Update(pieces[i]);
    }
    assert pieces[..|pieces|] == pieces;
    StreamIsReference(mix, finish, start, pieces);
    digest := Final(state, mix, finish);
  }
}
