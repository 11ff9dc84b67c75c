/** The erasure coding context and its four calls, as the code runs them: buffers filled by
    loops, the error list and the working matrices kept in the context. */
module ErasureCoder {
  import opened Sequences
  import opened Arithmetic
  import opened Wrappers
  import opened FieldAlgebra
  import opened Erasure

  class Context<T(==, !new)> {
    const ker: Kernel<T>
    var k: nat
    var m: nat
    var n: nat
    var encodeMatrix: seq<seq<T>>
    var decodeMatrix: seq<seq<T>>
    var invertMatrix: seq<seq<T>>
    var errorList: seq<nat>

    /** What a successful Init establishes and no later call destroys. */
    ghost predicate Valid()
      reads this
    {
      && Contract(ker) && ValidConfig(k, m) && n == k + m && Systematic(ker, k, m)
      && encodeMatrix == ker.generate(n, k)[k..]
    }

    constructor (kernel: Kernel<T>)
      ensures ker == kernel
    {
      ker := kernel;
      k, m, n := 0, 0, 0;
      encodeMatrix, decodeMatrix, invertMatrix, errorList := [], [], [], [];
    }

    method Init(dataChunks: nat, parityChunks: nat) returns (ok: bool)
      requires Contract(ker)
      modifies this
      ensures ok <==> ValidConfig(dataChunks, parityChunks)
      ensures ok <==> 1 <= dataChunks <= 16 && 1 <= parityChunks <= 16 && dataChunks + parityChunks <= 32
      ensures ok ==> Valid() && k == dataChunks && m == parityChunks
      ensures !ok ==> unchanged(this)
    {
      if !ValidConfig(dataChunks, parityChunks) {
        return false;
      }
      k, m, n := dataChunks, parityChunks, dataChunks + parityChunks;
      assert Systematic(ker, k, m);
      encodeMatrix := ker.generate(n, k)[k..];
      decodeMatrix, invertMatrix, errorList := [], [], [];
      return true;
    }

    /** Fills the chunk buffers with Encoded(data); refuses, touching nothing, exactly when the
        chunk size is zero or below CalcChunkSize. */
    method Encode(data: seq<T>, chunkSize: nat, dataChunks: array<seq<T>>,
                  parityChunks: array<seq<T>>) returns (ok: bool)
      requires Valid() && dataChunks.Length == k && parityChunks.Length == m && dataChunks != parityChunks
      modifies dataChunks, parityChunks
      ensures ok <==> chunkSize > 0 && chunkSize >= CalcChunkSize(|data|, k)
      ensures ok ==> dataChunks[..] + parityChunks[..] == Encoded(ker, data, k, m, chunkSize)
      ensures !ok ==> unchanged(dataChunks, parityChunks)
    {
      if chunkSize == 0 {
        return false;
      }
      if chunkSize < CalcChunkSize(|data|, k) {
        return false;
      }
      FillData(data, chunkSize, dataChunks);
      FillParity(dataChunks[..], chunkSize, parityChunks);
      return true;
    }

    /** Copies the data into the data chunks, each padded with zeros. */
    method FillData(data: seq<T>, chunkSize: nat, dataChunks: array<seq<T>>)
      requires k > 0 && dataChunks.Length == k && PerChunk(|data|, k) <= chunkSize
      modifies dataChunks
      ensures dataChunks[..] == Split(ker.field, data, k, chunkSize)
    {
      var per := PerChunk(|data|, k);
      ghost var parts := Split(ker.field, data, k, chunkSize);
      for i := 0 to k
        invariant forall j :: 0 <= j < i ==> dataChunks[j] == parts[j]
      {
        dataChunks[i] := Padded(ker.field, data, per, i, chunkSize);
        CopyThenPad(ker.field, data, k, chunkSize, i);
      }
    }

    /** One output chunk for every row of the parity matrix. */
    method FillParity(parts: seq<seq<T>>, chunkSize: nat, parityChunks: array<seq<T>>)
      requires |parts| == k && IsMatrix(parts, chunkSize)
      requires |encodeMatrix| == parityChunks.Length && IsMatrix(encodeMatrix, k)
      modifies parityChunks
      ensures parityChunks[..] == EncodeRows(ker.field, encodeMatrix, parts, chunkSize)
    {
      for p := 0 to parityChunks.Length
        invariant forall j :: 0 <= j < p ==> parityChunks[j] == EncodeRow(ker.field, encodeMatrix[j], parts, chunkSize)
      {
        parityChunks[p] := EncodeRow(ker.field, encodeMatrix[p], parts, chunkSize);
      }
    }

    /** Copies the data chunks' bytes to their places in the output buffer. */
    method Reassemble(chunks: seq<Chunk<T>>, chunkSize: nat, out: array<T>)
      requires k > 0 && Readable(chunks, k, out.Length, chunkSize)
      modifies out
      ensures out[..] == Joined(chunks, k, out.Length, chunkSize)
    {
      var per := PerChunk(out.Length, k);
      ghost var joined := Joined(chunks, k, out.Length, chunkSize);
      forall i | 0 <= i < k
        ensures Placed(joined, chunks[i].bytes, i * per, per)
      {
        PlaceOfChunk(chunks, k, out.Length, chunkSize, i);
      }
      CopyChunks(out, chunks, k, per, joined);
    }

    /** The copying loop: chunk after chunk, the last ones cut short by the end of the buffer. */
    static method CopyChunks(out: array<T>, chunks: seq<Chunk<T>>, count: nat, per: nat, ghost target: seq<T>)
      requires |target| == out.Length <= count * per && count <= |chunks|
      requires forall i :: 0 <= i < count ==> chunks[i].Present? && Placed(target, chunks[i].bytes, i * per, per)
      modifies out
      ensures out[..] == target
    {
      ghost var done := 0;
      for i := 0 to count
        invariant done == i * per
        invariant forall p :: 0 <= p < out.Length && p < done ==> out[p] == target[p]
      {
        var offset := i * per;
        var remaining := if offset < out.Length then out.Length - offset else 0;
        var copySize := if remaining > per then per else remaining;
        assert Placed(target, chunks[i].bytes, done, per);
        CopyBytes(out, offset, chunks[i].bytes, copySize, target);
        NextMultiple(i, per);
        done := done + per;
      }
      assert out[..] == target;
    }

    /** memcpy of `count` bytes to `offset`, extending the finished part of `target`. */
    static method CopyBytes(out: array<T>, offset: nat, bytes: seq<T>, count: nat, ghost target: seq<T>)
      requires |target| == out.Length && (count > 0 ==> offset + count <= out.Length)
      requires Placed(target, bytes, offset, count)
      requires forall p :: 0 <= p < out.Length && p < offset ==> out[p] == target[p]
      modifies out
      ensures forall p :: 0 <= p < out.Length && p < offset + count ==> out[p] == target[p]
    {
      for j := 0 to count
        invariant forall p :: 0 <= p < out.Length && p < offset + j ==> out[p] == target[p]
      {
        out[offset + j] := bytes[j];
      }
    }

    /** The first k chunks present, by index. */
    method FirstAvailable(slots: seq<Chunk<T>>) returns (indices: seq<nat>)
      requires |slots| == n
      ensures indices == if |Survivors(slots)| < k then Survivors(slots) else FirstSurvivors(slots, k)
    {
      indices := [];
      var i := 0;
      while i < n && |indices| < k
        invariant i <= n && |indices| <= k
        invariant Survivors(slots) == indices + SurvivorsFrom(slots, i)
      {
        if slots[i].Present? {
          ConcatAssociates(indices, [i], SurvivorsFrom(slots, i + 1));
          indices := indices + [i];
        }
        i := i + 1;
      }
      TakenPrefix(Survivors(slots), indices, SurvivorsFrom(slots, i), k);
    }

    /** Computes every listed chunk from the survivors, before any slot is written. */
    method Recover(held: seq<seq<T>>, inverse: seq<seq<T>>, beyond: seq<seq<T>>, chunkSize: nat, missing: seq<nat>)
      returns (temp: seq<seq<T>>)
      requires IsMatrix(held, chunkSize) && |held| == k == |inverse| && IsMatrix(inverse, k) && IsMatrix(beyond, k)
      requires forall j :: 0 <= j < |missing| ==> missing[j] < k + |beyond|
      ensures |temp| == |missing|
      ensures forall j :: 0 <= j < |missing| ==>
                temp[j] == EncodeRow(ker.field, RecoveryRow(inverse, beyond, missing[j]), held, chunkSize)
    {
      temp := [];
      for i := 0 to |missing|
        invariant |temp| == i
        invariant forall j :: 0 <= j < i ==>
                    temp[j] == EncodeRow(ker.field, RecoveryRow(inverse, beyond, missing[j]), held, chunkSize)
      {
        temp := temp + [EncodeRow(ker.field, RecoveryRow(inverse, beyond, missing[i]), held, chunkSize)];
      }
    }

    /** Installs the recovered chunks in their slots. */
    method Install(chunks: array<Chunk<T>>, missing: seq<nat>, temp: seq<seq<T>>, ghost target: seq<Chunk<T>>)
      requires |temp| == |missing| && |target| == chunks.Length
      requires forall j :: 0 <= j < |missing| ==> missing[j] < chunks.Length && target[missing[j]] == Present(temp[j])
      requires forall x :: 0 <= x < chunks.Length && x !in missing ==> target[x] == chunks[x]
      modifies chunks
      ensures chunks[..] == target
    {
      for i := 0 to |missing|
        invariant forall x :: 0 <= x < chunks.Length && (x in missing[..i] || x !in missing) ==> chunks[x] == target[x]
      {
        chunks[missing[i]] := Present(temp[i]);
        assert missing[..i + 1] == missing[..i] + [missing[i]];
      }
      assert missing[..|missing|] == missing;
    }

    /** Rebuilds the listed chunks in place.  On an error no slot is changed. */
    method Reconstruct(chunks: array<Chunk<T>>, chunkSize: nat, missing: seq<nat>,
                       beyond: seq<seq<T>>) returns (ok: bool)
      requires Valid() && chunks.Length == n && Reconstructible(ker, k, m, chunks[..], chunkSize, beyond)
      requires forall j :: 0 <= j < |missing| ==> missing[j] < k + m
      modifies chunks, this`decodeMatrix, this`invertMatrix
      ensures Valid()
      ensures var r := Reconstructed(ker, k, m, old(chunks[..]), chunkSize, missing, beyond);
              (ok <==> r.Some?) && chunks[..] == if ok then r.value else old(chunks[..])
    {
      if |missing| == 0 {
        return true;
      }
      if |missing| > m {
        return false;
      }
      var available, inverse := InvertSurvivors(chunks[..]);
      if inverse.None? {
        return false;
      }
      RebuiltFromSurvivors(ker, k, m, chunks[..], chunkSize, missing, beyond);
      var temp := Recover(Gather(chunks[..], available), inverse.value, beyond, chunkSize, missing);
      Install(chunks, missing, temp, Reconstructed(ker, k, m, chunks[..], chunkSize, missing, beyond).value);
      return true;
    }

    /** Picks the first k survivors and inverts their generator rows, leaving the slots alone. */
    method InvertSurvivors(slots: seq<Chunk<T>>) returns (available: seq<nat>, inverse: Option<seq<seq<T>>>)
      requires |slots| == n == k + m && |ker.generate(n, k)| == n
      modifies this`decodeMatrix, this`invertMatrix
      ensures inverse == SurvivorInverse(ker, k, m, slots)
      ensures inverse.Some? ==> |Survivors(slots)| >= k && available == FirstSurvivors(slots, k)
    {
      available := FirstAvailable(slots);
      if |available| < k {
        return available, None;
      }
      decodeMatrix := SelectRows(ker.generate(n, k), available);
      inverse := ker.invert(decodeMatrix, k);
      if inverse.Some? {
        invertMatrix := inverse.value;
      }
    }

    /** Splits the slot numbers into the missing ones and a count of the others. */
    method ListErrors(slots: seq<Chunk<T>>) returns (errors: seq<nat>, availableCount: nat)
      requires |slots| == n
      ensures errors == LostIndices(slots) && availableCount == |Survivors(slots)|
    {
      errors, availableCount := [], 0;
      for i := 0 to n
        invariant LostIndices(slots) == errors + LostFrom(slots, i)
        invariant availableCount + |errors| == i
      {
        if slots[i].Lost? {
          errors := errors + [i];
        } else {
          availableCount := availableCount + 1;
        }
      }
    }

    /** Decodes into `out`.  On success slots and output are as Decoded says; on an error the
        slots and the output are untouched. */
    method Decode(chunks: array<Chunk<T>>, chunkSize: nat, out: array<T>, beyond: seq<seq<T>>) returns (ok: bool)
      requires Valid() && chunks.Length == n && Reconstructible(ker, k, m, chunks[..], chunkSize, beyond)
      requires PerChunk(out.Length, k) <= chunkSize && chunks as object != out
      modifies chunks, out, this`decodeMatrix, this`invertMatrix, this`errorList
      ensures Valid()
      ensures var r := Decoded(ker, k, m, old(chunks[..]), chunkSize, out.Length, beyond);
              && (ok <==> r.Some?)
              && chunks[..] == (if ok then r.value.0 else old(chunks[..]))
              && out[..] == (if ok then r.value.1 else old(out[..]))
    {
      var availableCount;
      errorList, availableCount := ListErrors(chunks[..]);
      if availableCount < k {
        return false;
      }
      ReadableAfter(ker, k, m, chunks[..], chunkSize, beyond, out.Length);
      if |errorList| == 0 {
        Reassemble(chunks[..], chunkSize, out);
        return true;
      }
      var done := Reconstruct(chunks, chunkSize, errorList, beyond);
      if !done {
        return false;
      }
      Reassemble(chunks[..], chunkSize, out);
      return true;
    }
  }

  /** What the encoder stores in data chunk `i`: the bytes it copies, then zeros. */
  function Padded<T>(f: Field<T>, data: seq<T>, per: nat, i: nat, size: nat): seq<T>
    requires per <= size
  {
    var offset := i * per;
    var remaining := if offset < |data| then |data| - offset else 0;
    var copySize := if remaining > per then per else remaining;
    (if copySize > 0 then data[offset..offset + copySize] else []) + Zeros(f, size - copySize)
  }

  lemma CopyThenPad<T(!new)>(f: Field<T>, data: seq<T>, k: nat, size: nat, i: nat)
    requires i < k && PerChunk(|data|, k) <= size
    ensures Padded(f, data, PerChunk(|data|, k), i, size) == Split(f, data, k, size)[i]
  {
    var per := PerChunk(|data|, k);
    forall b | 0 <= b < size
      ensures Padded(f, data, per, i, size)[b] == SplitSymbol(f, data, per, i, b)
    {
    }
  }

  /** The first `count` bytes stand in `target` at `offset`, as far as it reaches. */
  ghost predicate Placed<T>(target: seq<T>, bytes: seq<T>, offset: nat, count: nat) {
    count <= |bytes| && forall j :: 0 <= j < count && offset + j < |target| ==> target[offset + j] == bytes[j]
  }

  /** The bytes of chunk `i` belong at i * per. */
  lemma PlaceOfChunk<T>(chunks: seq<Chunk<T>>, k: nat, size: nat, chunkSize: nat, i: nat)
    requires Readable(chunks, k, size, chunkSize) && i < k
    ensures var per := PerChunk(size, k);
            Placed(Joined(chunks, k, size, chunkSize), chunks[i].bytes, i * per, per)
  {
    var per := PerChunk(size, k);
    var offset := i * per;
    forall j | 0 <= j < per && offset + j < size
      ensures Joined(chunks, k, size, chunkSize)[offset + j] == chunks[i].bytes[j]
    {
      DivisionUnique(offset + j, i, per, j);
    }
  }

  lemma NextMultiple(i: nat, per: nat)
    ensures (i + 1) * per == i * per + per
  {}

  lemma TakenPrefix<T>(whole: seq<T>, a: seq<T>, b: seq<T>, k: nat)
    requires whole == a + b && |a| <= k && (|a| == k || b == [])
    ensures a == if |whole| < k then whole else whole[..k]
  {}

  /** After reconstructing what is missing, every data byte can be read back. */
  lemma ReadableAfter<T(!new)>(ker: Kernel<T>, k: nat, m: nat, chunks: seq<Chunk<T>>, size: nat, beyond: seq<seq<T>>,
                               outLength: nat)
    requires Contract(ker) && ValidConfig(k, m) && Reconstructible(ker, k, m, chunks, size, beyond)
    requires PerChunk(outLength, k) <= size
    ensures var r := Reconstructed(ker, k, m, chunks, size, LostIndices(chunks), beyond);
            r.Some? ==> Readable(r.value, k, outLength, size)
  {
    AllDataPresent(ker, k, m, chunks, size, beyond);
  }

  /** Reconstruction succeeds with the survivors' inverse, and fills each missing slot with its row. */
  lemma RebuiltFromSurvivors<T(!new)>(ker: Kernel<T>, k: nat, m: nat, slots: seq<Chunk<T>>, size: nat,
                                      missing: seq<nat>, beyond: seq<seq<T>>)
    requires Contract(ker) && ValidConfig(k, m) && Reconstructible(ker, k, m, slots, size, beyond)
    requires 0 < |missing| <= m && forall j :: 0 <= j < |missing| ==> missing[j] < k + m
    requires SurvivorInverse(ker, k, m, slots).Some?
    ensures |Survivors(slots)| >= k
    ensures var held := Gather(slots, FirstSurvivors(slots, k));
            var inverse := SurvivorInverse(ker, k, m, slots).value;
            var r := Reconstructed(ker, k, m, slots, size, missing, beyond);
            && IsMatrix(held, size) && |inverse| == k && IsMatrix(inverse, k) && r.Some?
            && forall j :: 0 <= j < |missing| ==>
                 r.value[missing[j]]
                 == Present(EncodeRow(ker.field, RecoveryRow(inverse, beyond, missing[j]), held, size))
  {
    SurvivorInverseIsInverse(ker, k, m, slots);
    assert forall j :: 0 <= j < |missing| ==> missing[j] in missing;
  }
}
