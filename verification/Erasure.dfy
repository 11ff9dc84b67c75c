/** Reed-Solomon erasure coding: splitting, encoding, reconstruction and decoding.

    Symbols have an arbitrary type T over an arbitrary field; the coder's own bytes are the
    instance GF(2^8).  Matrices are sequences of rows. */
module Erasure {
  import opened Wrappers
  import opened FieldAlgebra
  import opened Arithmetic

  const MAX_DATA := 16
  const MAX_PARITY := 16
  const MAX_TOTAL := 32

  /** A chunk slot: a null pointer or a buffer. */
  datatype Chunk<T> = Lost | Present(bytes: seq<T>)

  /** The matrix primitives of the coding library: field arithmetic, the generator matrix with
      n rows of width k, and matrix inversion. */
  datatype Kernel<!T> = Kernel(
    field: Field<T>,
    generate: (nat, nat) -> seq<seq<T>>,
    invert: (seq<seq<T>>, nat) -> Option<seq<seq<T>>>)

  /** The generator is systematic: its top k rows are the identity. */
  ghost predicate Systematic<T>(ker: Kernel<T>, k: nat, m: nat) {
    var g := ker.generate(k + m, k);
    |g| == k + m && IsMatrix(g, k) && forall i :: 0 <= i < k ==> g[i] == Unit(ker.field, k, i)
  }

  ghost predicate IsLeftInverse<T>(f: Field<T>, inverse: seq<seq<T>>, a: seq<seq<T>>, k: nat)
    requires |a| == k && IsMatrix(a, k)
  {
    && |inverse| == k && IsMatrix(inverse, k)
    && forall x :: 0 <= x < k ==> Combine(f, inverse[x], a, k) == Unit(f, k, x)
  }

  /** A successful inversion yields an inverse. */
  ghost predicate InvertsSoundly<T>(ker: Kernel<T>, a: seq<seq<T>>, k: nat) {
    |a| == k && IsMatrix(a, k) && ker.invert(a, k).Some? ==> IsLeftInverse(ker.field, ker.invert(a, k).value, a, k)
  }

  ghost predicate Contract<T(!new)>(ker: Kernel<T>) {
    && Laws(ker.field)
    && (forall k, m :: ValidConfig(k, m) ==> Systematic(ker, k, m))
    && (forall a, k :: InvertsSoundly(ker, a, k))
  }

  predicate ValidConfig(k: nat, m: nat) {
    1 <= k <= MAX_DATA && 1 <= m <= MAX_PARITY && k + m <= MAX_TOTAL
  }

  // ----- splitting and reassembly -----

  /** Bytes of data carried by each data chunk. */
  function PerChunk(size: nat, k: nat): (per: nat)
    requires k > 0
    ensures per * k >= size
  {
    CeilDivision(size, k);
    (size + k - 1) / k
  }

  lemma CeilDivision(size: nat, k: nat)
    requires k > 0
    ensures size <= ((size + k - 1) / k) * k < size + k
  {
    var q := (size + k - 1) / k;
    assert size + k - 1 == q * k + (size + k - 1) % k;
  }

  /** The chunk size the encoder asks for: PerChunk rounded up to a multiple of 16. */
  function CalcChunkSize(size: nat, k: nat): (chunk: nat)
    ensures k > 0 ==> PerChunk(size, k) <= chunk < PerChunk(size, k) + 16
    ensures chunk % 16 == 0
  {
    if k == 0 then 0 else (PerChunk(size, k) + 15) / 16 * 16
  }

  /** Data byte `p` travels as byte p % per of chunk p / per; every other byte is padding. */
  function SplitSymbol<T>(f: Field<T>, data: seq<T>, per: nat, i: nat, b: nat): T {
    if b < per && i * per + b < |data| then data[i * per + b] else f.zero
  }

  function Split<T>(f: Field<T>, data: seq<T>, k: nat, size: nat): (r: seq<seq<T>>)
    requires k > 0
    ensures |r| == k && IsMatrix(r, size)
  {
    seq(k, i requires 0 <= i < k =>
      seq(size, b requires 0 <= b < size => SplitSymbol(f, data, PerChunk(|data|, k), i, b)))
  }

  /** Chunk i carries the data from i times the share on; whatever of a chunk is beyond its share or beyond
      the data is zero. */
  lemma SplitExact<T>(f: Field<T>, data: seq<T>, k: nat, size: nat, i: nat, b: nat)
    requires k > 0 && i < k && b < size
    ensures var per := (|data| + k - 1) / k;
            && (b < per && i * per + b < |data| ==> Split(f, data, k, size)[i][b] == data[i * per + b])
            && (b >= per || i * per + b >= |data| ==> Split(f, data, k, size)[i][b] == f.zero)
  {
  }

  lemma Position(p: nat, size: nat, k: nat)
    requires k > 0 && p < size
    ensures var per := PerChunk(size, k); per > 0 && p / per < k && p % per < per && (p / per) * per + p % per == p
  {
    var per := PerChunk(size, k);
    assert per != 0;
    assert (p / per) * per + p % per == p;
    CancelFactor(p / per, k, per);
  }

  /** Reads `size` bytes back out of the data chunks. */
  function Joined<T>(chunks: seq<Chunk<T>>, k: nat, size: nat, chunkSize: nat): (r: seq<T>)
    requires Readable(chunks, k, size, chunkSize)
    ensures |r| == size
  {
    seq(size, p requires 0 <= p < size =>
      Position(p, size, k); chunks[p / PerChunk(size, k)].bytes[p % PerChunk(size, k)])
  }

  ghost predicate Readable<T>(chunks: seq<Chunk<T>>, k: nat, size: nat, chunkSize: nat) {
    && 0 < k <= |chunks| && PerChunk(size, k) <= chunkSize
    && forall i :: 0 <= i < k ==> chunks[i].Present? && |chunks[i].bytes| == chunkSize
  }

  // ----- encoding -----

  /** Byte `b` of every chunk. */
  function Column<T>(chunks: seq<seq<T>>, b: nat): (r: seq<T>)
    requires forall i :: 0 <= i < |chunks| ==> b < |chunks[i]|
    ensures |r| == |chunks|
  {
    seq(|chunks|, i requires 0 <= i < |chunks| => chunks[i][b])
  }

  /** One output chunk of the library's encode routine: a row applied to every column. */
  function EncodeRow<T>(f: Field<T>, row: seq<T>, chunks: seq<seq<T>>, size: nat): (r: seq<T>)
    requires |row| == |chunks| && IsMatrix(chunks, size)
    ensures |r| == size
  {
    seq(size, b requires 0 <= b < size => Dot(f, row, Column(chunks, b)))
  }

  function EncodeRows<T>(f: Field<T>, rows: seq<seq<T>>, chunks: seq<seq<T>>, size: nat): (r: seq<seq<T>>)
    requires IsMatrix(rows, |chunks|) && IsMatrix(chunks, size)
    ensures |r| == |rows| && IsMatrix(r, size)
  {
    seq(|rows|, i requires 0 <= i < |rows| => EncodeRow(f, rows[i], chunks, size))
  }

  /** All n chunks of an encoded object. */
  ghost function Encoded<T>(ker: Kernel<T>, data: seq<T>, k: nat, m: nat, size: nat): (r: seq<seq<T>>)
    requires k > 0 && Systematic(ker, k, m)
    ensures |r| == k + m && IsMatrix(r, size)
  {
    var parts := Split(ker.field, data, k, size);
    parts + EncodeRows(ker.field, ker.generate(k + m, k)[k..], parts, size)
  }

  // ----- damage -----

  function LostFrom<T>(chunks: seq<Chunk<T>>, i: nat): (r: seq<nat>)
    requires i <= |chunks|
    ensures forall j :: 0 <= j < |r| ==> i <= r[j] < |chunks| && chunks[r[j]].Lost?
    decreases |chunks| - i
  {
    if i == |chunks| then [] else if chunks[i].Lost? then [i] + LostFrom(chunks, i + 1) else LostFrom(chunks, i + 1)
  }

  function SurvivorsFrom<T>(chunks: seq<Chunk<T>>, i: nat): (r: seq<nat>)
    requires i <= |chunks|
    ensures |r| + |LostFrom(chunks, i)| == |chunks| - i
    ensures forall j :: 0 <= j < |r| ==> i <= r[j] < |chunks| && chunks[r[j]].Present?
    decreases |chunks| - i
  {
    if i == |chunks| then []
    else if chunks[i].Present? then [i] + SurvivorsFrom(chunks, i + 1)
    else SurvivorsFrom(chunks, i + 1)
  }

  /** Indices of the missing chunks, in order. */
  function LostIndices<T>(chunks: seq<Chunk<T>>): (r: seq<nat>)
    ensures forall j :: 0 <= j < |r| ==> r[j] < |chunks| && chunks[r[j]].Lost?
  {
    LostFrom(chunks, 0)
  }

  /** Indices of the chunks still there, in order. */
  function Survivors<T>(chunks: seq<Chunk<T>>): (r: seq<nat>)
    ensures |r| + |LostIndices(chunks)| == |chunks|
    ensures forall j :: 0 <= j < |r| ==> r[j] < |chunks| && chunks[r[j]].Present?
  {
    SurvivorsFrom(chunks, 0)
  }

  function FirstSurvivors<T>(chunks: seq<Chunk<T>>, k: nat): (r: seq<nat>)
    requires k <= |Survivors(chunks)|
    ensures |r| == k
    ensures forall j :: 0 <= j < |r| ==> r[j] < |chunks| && chunks[r[j]].Present?
  {
    Survivors(chunks)[..k]
  }

  lemma {:induction false} LostFromComplete<T>(chunks: seq<Chunk<T>>, i: nat, x: nat)
    requires i <= x < |chunks| && chunks[x].Lost?
    ensures x in LostFrom(chunks, i)
    decreases |chunks| - i
  {
    if i < x {
      LostFromComplete(chunks, i + 1, x);
    }
  }

  /** The list of missing chunks names exactly the empty slots. */
  lemma LostIndicesExact<T>(chunks: seq<Chunk<T>>, x: nat)
    requires x < |chunks|
    ensures x in LostIndices(chunks) <==> chunks[x].Lost?
  {
    if chunks[x].Lost? {
      LostFromComplete(chunks, 0, x);
    }
  }

  ghost predicate Sized<T>(chunks: seq<Chunk<T>>, size: nat) {
    forall i :: 0 <= i < |chunks| && chunks[i].Present? ==> |chunks[i].bytes| == size
  }

  /** Some chunks of an encoded object may be missing; the others are intact. */
  ghost predicate Damaged<T>(chunks: seq<Chunk<T>>, encoded: seq<seq<T>>) {
    |chunks| == |encoded| && forall i :: 0 <= i < |chunks| ==> chunks[i].Lost? || chunks[i] == Present(encoded[i])
  }

  // ----- reconstruction -----

  /** Row `idx` of the inverse as the code reads it.  The inverse has k rows, so a row index of
      k or more reads the memory after it, whose contents are `beyond`. */
  function RecoveryRow<T>(inverse: seq<seq<T>>, beyond: seq<seq<T>>, idx: nat): seq<T>
    requires idx < |inverse| + |beyond|
  {
    if idx < |inverse| then inverse[idx] else beyond[idx - |inverse|]
  }

  function Gather<T>(chunks: seq<Chunk<T>>, indices: seq<nat>): (r: seq<seq<T>>)
    requires forall j :: 0 <= j < |indices| ==> indices[j] < |chunks| && chunks[indices[j]].Present?
    ensures |r| == |indices|
  {
    seq(|indices|, i requires 0 <= i < |indices| => chunks[indices[i]].bytes)
  }

  function SelectRows<T>(g: seq<seq<T>>, indices: seq<nat>): (r: seq<seq<T>>)
    requires forall j :: 0 <= j < |indices| ==> indices[j] < |g|
    ensures |r| == |indices|
  {
    seq(|indices|, i requires 0 <= i < |indices| => g[indices[i]])
  }

  ghost predicate Reconstructible<T>(ker: Kernel<T>, k: nat, m: nat, chunks: seq<Chunk<T>>, size: nat,
                                     beyond: seq<seq<T>>) {
    k > 0 && Systematic(ker, k, m) && |chunks| == k + m && Sized(chunks, size) && |beyond| == m && IsMatrix(beyond, k)
  }

  /** The inverse the code computes from the first k survivors, if it gets that far. */
  ghost function SurvivorInverse<T(!new)>(ker: Kernel<T>, k: nat, m: nat, chunks: seq<Chunk<T>>): Option<seq<seq<T>>>
    requires |chunks| == k + m && |ker.generate(k + m, k)| == k + m
  {
    if |Survivors(chunks)| < k then None
    else ker.invert(SelectRows(ker.generate(k + m, k), FirstSurvivors(chunks, k)), k)
  }

  /** The chunk the code writes into slot `idx`. */
  ghost function Rebuilt<T(!new)>(ker: Kernel<T>, k: nat, m: nat, chunks: seq<Chunk<T>>, size: nat,
                                  inverse: seq<seq<T>>, beyond: seq<seq<T>>, idx: nat): (r: seq<T>)
    requires Reconstructible(ker, k, m, chunks, size, beyond)
    requires |Survivors(chunks)| >= k && |inverse| == k && IsMatrix(inverse, k) && idx < k + m
    ensures |r| == size
  {
    EncodeRow(ker.field, RecoveryRow(inverse, beyond, idx), Gather(chunks, FirstSurvivors(chunks, k)), size)
  }

  /** The slots after reconstructing `missing`, or None when the call reports an error. */
  ghost function Reconstructed<T(!new)>(ker: Kernel<T>, k: nat, m: nat, chunks: seq<Chunk<T>>, size: nat,
                                        missing: seq<nat>, beyond: seq<seq<T>>): (r: Option<seq<Chunk<T>>>)
    requires Contract(ker) && ValidConfig(k, m) && Reconstructible(ker, k, m, chunks, size, beyond)
    requires forall j :: 0 <= j < |missing| ==> missing[j] < k + m
    ensures r.Some? ==> |r.value| == k + m && Sized(r.value, size)
    ensures r.Some? ==> forall i :: 0 <= i < k + m && i in missing ==> r.value[i].Present?
    ensures r.Some? ==> forall i :: 0 <= i < k + m && i !in missing ==> r.value[i] == chunks[i]
  {
    if missing == [] then Some(chunks)
    else if |missing| > m || SurvivorInverse(ker, k, m, chunks).None? then None
    else
      SurvivorInverseIsInverse(ker, k, m, chunks);
      var inverse := SurvivorInverse(ker, k, m, chunks).value;
      Some(seq(k + m, i requires 0 <= i < k + m =>
        if i in missing then Present(Rebuilt(ker, k, m, chunks, size, inverse, beyond, i)) else chunks[i]))
  }

  lemma SurvivorInverseIsInverse<T(!new)>(ker: Kernel<T>, k: nat, m: nat, chunks: seq<Chunk<T>>)
    requires Contract(ker) && ValidConfig(k, m) && |chunks| == k + m && Systematic(ker, k, m)
    requires SurvivorInverse(ker, k, m, chunks).Some?
    ensures |Survivors(chunks)| >= k
    ensures var rows := SelectRows(ker.generate(k + m, k), FirstSurvivors(chunks, k));
            && |rows| == k && IsMatrix(rows, k)
            && IsLeftInverse(ker.field, SurvivorInverse(ker, k, m, chunks).value, rows, k)
  {
    var rows := SelectRows(ker.generate(k + m, k), FirstSurvivors(chunks, k));
    assert InvertsSoundly(ker, rows, k);
  }

  /** Reconstructing everything that is missing leaves no slot empty. */
  lemma AllDataPresent<T(!new)>(ker: Kernel<T>, k: nat, m: nat, chunks: seq<Chunk<T>>, size: nat, beyond: seq<seq<T>>)
    requires Contract(ker) && ValidConfig(k, m) && Reconstructible(ker, k, m, chunks, size, beyond)
    ensures var r := Reconstructed(ker, k, m, chunks, size, LostIndices(chunks), beyond);
            r.Some? ==> forall i :: 0 <= i < k + m ==> r.value[i].Present?
  {
    forall i | 0 <= i < k + m
      ensures i in LostIndices(chunks) <==> chunks[i].Lost?
    {
      LostIndicesExact(chunks, i);
    }
  }

  /** What a decode call leaves behind: the chunk slots and the output buffer. */
  ghost function Decoded<T(!new)>(ker: Kernel<T>, k: nat, m: nat, chunks: seq<Chunk<T>>, size: nat,
                                  outLength: nat, beyond: seq<seq<T>>): (r: Option<(seq<Chunk<T>>, seq<T>)>)
    requires Contract(ker) && ValidConfig(k, m) && Reconstructible(ker, k, m, chunks, size, beyond)
    requires PerChunk(outLength, k) <= size
  {
    if |Survivors(chunks)| < k then None
    else
      AllDataPresent(ker, k, m, chunks, size, beyond);
      match Reconstructed(ker, k, m, chunks, size, LostIndices(chunks), beyond)
      case None => None
      case Some(slots) => Some((slots, Joined(slots, k, outLength, size)))
  }

  // ----- what encoding, loss and decoding amount to -----

  /** Every chunk, data or parity, is its generator row applied to the data columns. */
  lemma EncodedIsRowProduct<T(!new)>(ker: Kernel<T>, data: seq<T>, k: nat, m: nat, size: nat, i: nat)
    requires Laws(ker.field) && k > 0 && Systematic(ker, k, m) && i < k + m
    ensures var parts := Split(ker.field, data, k, size);
            Encoded(ker, data, k, m, size)[i] == EncodeRow(ker.field, ker.generate(k + m, k)[i], parts, size)
  {
    var f := ker.field;
    var g := ker.generate(k + m, k);
    var parts := Split(f, data, k, size);
    if i < k {
      forall b | 0 <= b < size
        ensures parts[i][b] == EncodeRow(f, g[i], parts, size)[b]
      {
        DotUnit(f, Column(parts, b), i);
      }
    } else {
      assert g[k..][i - k] == g[i];
    }
  }

  /** The columns of the survivors are the survivors' generator rows applied to the data. */
  lemma SurvivorColumns<T(!new)>(ker: Kernel<T>, data: seq<T>, k: nat, m: nat, size: nat, chunks: seq<Chunk<T>>, b: nat)
    requires Contract(ker) && ValidConfig(k, m) && Systematic(ker, k, m)
    requires Damaged(chunks, Encoded(ker, data, k, m, size)) && |Survivors(chunks)| >= k && b < size
    ensures IsMatrix(SelectRows(ker.generate(k + m, k), FirstSurvivors(chunks, k)), k)
    ensures IsMatrix(Gather(chunks, FirstSurvivors(chunks, k)), size)
    ensures Column(Gather(chunks, FirstSurvivors(chunks, k)), b)
         == Apply(ker.field, SelectRows(ker.generate(k + m, k), FirstSurvivors(chunks, k)),
                  Column(Split(ker.field, data, k, size), b))
  {
    var f := ker.field;
    var g := ker.generate(k + m, k);
    var first := FirstSurvivors(chunks, k);
    var rows := SelectRows(g, first);
    var held := Gather(chunks, first);
    forall i | 0 <= i < k
      ensures |rows[i]| == k && |held[i]| == size
      ensures held[i] == EncodeRow(f, rows[i], Split(f, data, k, size), size)
    {
      EncodedIsRowProduct(ker, data, k, m, size, first[i]);
    }
  }

  /** Applying the inverse to the survivors' columns gives back the data columns. */
  lemma InverseUndoesLoss<T(!new)>(ker: Kernel<T>, data: seq<T>, k: nat, m: nat, size: nat, chunks: seq<Chunk<T>>,
                                   b: nat, x: nat)
    requires Contract(ker) && ValidConfig(k, m) && Systematic(ker, k, m)
    requires Damaged(chunks, Encoded(ker, data, k, m, size)) && SurvivorInverse(ker, k, m, chunks).Some?
    requires b < size && x < k
    ensures |Survivors(chunks)| >= k && IsMatrix(Gather(chunks, FirstSurvivors(chunks, k)), size)
    ensures var inverse := SurvivorInverse(ker, k, m, chunks).value;
            |inverse| == k && |inverse[x]| == k
            && Dot(ker.field, inverse[x], Column(Gather(chunks, FirstSurvivors(chunks, k)), b))
               == Split(ker.field, data, k, size)[x][b]
  {
    var f := ker.field;
    SurvivorInverseIsInverse(ker, k, m, chunks);
    SurvivorColumns(ker, data, k, m, size, chunks, b);
    var inverse := SurvivorInverse(ker, k, m, chunks).value;
    var rows := SelectRows(ker.generate(k + m, k), FirstSurvivors(chunks, k));
    var d := Column(Split(f, data, k, size), b);
    assert |inverse[x]| == k;
    CombineThenApply(f, inverse[x], rows, d);
    DotUnit(f, d, x);
  }

  /** A rebuilt data chunk is the chunk that was lost. */
  lemma DataChunkRebuilt<T(!new)>(ker: Kernel<T>, data: seq<T>, k: nat, m: nat, size: nat, chunks: seq<Chunk<T>>,
                                  beyond: seq<seq<T>>, idx: nat)
    requires Contract(ker) && ValidConfig(k, m) && Reconstructible(ker, k, m, chunks, size, beyond)
    requires Damaged(chunks, Encoded(ker, data, k, m, size)) && SurvivorInverse(ker, k, m, chunks).Some?
    requires idx < k
    ensures |Survivors(chunks)| >= k
    ensures var inverse := SurvivorInverse(ker, k, m, chunks).value; |inverse| == k && IsMatrix(inverse, k)
    ensures Rebuilt(ker, k, m, chunks, size, SurvivorInverse(ker, k, m, chunks).value, beyond, idx)
         == Encoded(ker, data, k, m, size)[idx]
  {
    SurvivorInverseIsInverse(ker, k, m, chunks);
    var rebuilt := Rebuilt(ker, k, m, chunks, size, SurvivorInverse(ker, k, m, chunks).value, beyond, idx);
    forall b | 0 <= b < size
      ensures rebuilt[b] == Split(ker.field, data, k, size)[idx][b]
    {
      InverseUndoesLoss(ker, data, k, m, size, chunks, b, idx);
    }
  }

  /** Splitting and joining are inverse, padding included. */
  lemma JoinUndoesSplit<T(!new)>(ker: Kernel<T>, data: seq<T>, k: nat, m: nat, size: nat, chunks: seq<Chunk<T>>)
    requires k > 0 && Systematic(ker, k, m) && Readable(chunks, k, |data|, size)
    requires forall i :: 0 <= i < k ==> chunks[i].bytes == Encoded(ker, data, k, m, size)[i]
    ensures Joined(chunks, k, |data|, size) == data
  {
    var per := PerChunk(|data|, k);
    forall p | 0 <= p < |data|
      ensures Joined(chunks, k, |data|, size)[p] == data[p]
    {
      Position(p, |data|, k);
      assert chunks[p / per].bytes == Split(ker.field, data, k, size)[p / per];
    }
  }

  /** Decoding a damaged object.  It fails exactly when more than m chunks are gone or the
      survivors' matrix does not invert; otherwise the output is the original data byte for byte,
      the survivors are untouched, and every data chunk is back in its slot.  None of this
      depends on the memory beyond the inverse, so lost parity chunks do no harm to the data. */
  lemma DecodeRestoresData<T(!new)>(ker: Kernel<T>, data: seq<T>, k: nat, m: nat, size: nat, chunks: seq<Chunk<T>>,
                                    beyond: seq<seq<T>>)
    requires Contract(ker) && ValidConfig(k, m) && Reconstructible(ker, k, m, chunks, size, beyond)
    requires CalcChunkSize(|data|, k) <= size && Damaged(chunks, Encoded(ker, data, k, m, size))
    ensures var r := Decoded(ker, k, m, chunks, size, |data|, beyond);
            && (r.None? <==> |LostIndices(chunks)| > m
                             || (LostIndices(chunks) != [] && SurvivorInverse(ker, k, m, chunks).None?))
            && (r.Some? ==>
                 && r.value.1 == data
                 && (forall i :: 0 <= i < k + m && chunks[i].Present? ==> r.value.0[i] == chunks[i])
                 && (forall i :: 0 <= i < k ==> r.value.0[i] == Present(Encoded(ker, data, k, m, size)[i])))
  {
    var lost := LostIndices(chunks);
    var slots := Reconstructed(ker, k, m, chunks, size, lost, beyond);
    if slots.Some? && |Survivors(chunks)| >= k {
      forall i | 0 <= i < k
        ensures slots.value[i] == Present(Encoded(ker, data, k, m, size)[i])
      {
        LostIndicesExact(chunks, i);
        if i in lost {
          DataChunkRebuilt(ker, data, k, m, size, chunks, beyond, i);
        }
      }
      forall i | 0 <= i < k + m && chunks[i].Present?
        ensures slots.value[i] == chunks[i]
      {
        LostIndicesExact(chunks, i);
      }
      JoinUndoesSplit(ker, data, k, m, size, slots.value);
    }
  }

  /** Any k distinct rows of the generator form an invertible matrix: what a Cauchy matrix is
      chosen for. */
  ghost predicate AnyRowsInvert<T(!new)>(ker: Kernel<T>, k: nat, m: nat) {
    forall chunks: seq<Chunk<T>> :: |chunks| == k + m && |ker.generate(k + m, k)| == k + m && |Survivors(chunks)| >= k
      ==> SurvivorInverse(ker, k, m, chunks).Some?
  }

  /** With such a generator, the coder survives every loss of up to m chunks and no larger one. */
  lemma SurvivesUpToParityLosses<T(!new)>(ker: Kernel<T>, data: seq<T>, k: nat, m: nat, size: nat,
                                          chunks: seq<Chunk<T>>,
                                          beyond: seq<seq<T>>)
    requires Contract(ker) && ValidConfig(k, m) && Reconstructible(ker, k, m, chunks, size, beyond)
    requires CalcChunkSize(|data|, k) <= size && Damaged(chunks, Encoded(ker, data, k, m, size))
    requires AnyRowsInvert(ker, k, m)
    ensures var r := Decoded(ker, k, m, chunks, size, |data|, beyond);
            (|LostIndices(chunks)| <= m ==> r.Some? && r.value.1 == data) && (|LostIndices(chunks)| > m ==> r.None?)
  {
    DecodeRestoresData(ker, data, k, m, size, chunks, beyond);
  }

  // ----- lost parity chunks -----

  ghost predicate AllZero<T>(ker: Kernel<T>, data: seq<T>, k: nat, size: nat)
    requires k > 0
  {
    forall x, b :: 0 <= x < k && 0 <= b < size ==> Split(ker.field, data, k, size)[x][b] == ker.field.zero
  }

  /** If the survivors hold only zeros at byte b, so does the data. */
  lemma ZeroSurvivorsZeroData<T(!new)>(ker: Kernel<T>, data: seq<T>, k: nat, m: nat, size: nat, chunks: seq<Chunk<T>>,
                                       b: nat, x: nat)
    requires Contract(ker) && ValidConfig(k, m) && Systematic(ker, k, m)
    requires Damaged(chunks, Encoded(ker, data, k, m, size)) && SurvivorInverse(ker, k, m, chunks).Some?
    requires b < size && x < k
    requires |Survivors(chunks)| >= k && IsMatrix(Gather(chunks, FirstSurvivors(chunks, k)), size)
    requires Column(Gather(chunks, FirstSurvivors(chunks, k)), b) == Zeros(ker.field, k)
    ensures Split(ker.field, data, k, size)[x][b] == ker.field.zero
  {
    InverseUndoesLoss(ker, data, k, m, size, chunks, b, x);
    DotRightZeros(ker.field, SurvivorInverse(ker, k, m, chunks).value[x]);
  }

  /** What the code writes into slot `idx` is the lost chunk, whatever lies in memory beyond the
      inverse, exactly when the chunk is a data chunk or the whole object is zero. */
  lemma RebuiltRegardlessOfMemory<T(!new)>(ker: Kernel<T>, data: seq<T>, k: nat, m: nat, size: nat,
                                           chunks: seq<Chunk<T>>, idx: nat)
    requires Contract(ker) && ValidConfig(k, m) && Systematic(ker, k, m) && idx < k + m
    requires Damaged(chunks, Encoded(ker, data, k, m, size)) && SurvivorInverse(ker, k, m, chunks).Some?
    ensures |Survivors(chunks)| >= k
    ensures var inverse := SurvivorInverse(ker, k, m, chunks).value; |inverse| == k && IsMatrix(inverse, k)
    ensures (forall beyond :: Reconstructible(ker, k, m, chunks, size, beyond) ==>
               Rebuilt(ker, k, m, chunks, size, SurvivorInverse(ker, k, m, chunks).value, beyond, idx)
               == Encoded(ker, data, k, m, size)[idx])
        <==> idx < k || AllZero(ker, data, k, size)
  {
    SurvivorInverseIsInverse(ker, k, m, chunks);
    var inverse := SurvivorInverse(ker, k, m, chunks).value;
    if idx < k {
      forall beyond | Reconstructible(ker, k, m, chunks, size, beyond)
        ensures Rebuilt(ker, k, m, chunks, size, inverse, beyond, idx) == Encoded(ker, data, k, m, size)[idx]
      {
        DataChunkRebuilt(ker, data, k, m, size, chunks, beyond, idx);
      }
    } else if AllZero(ker, data, k, size) {
      forall beyond | Reconstructible(ker, k, m, chunks, size, beyond)
        ensures Rebuilt(ker, k, m, chunks, size, inverse, beyond, idx) == Encoded(ker, data, k, m, size)[idx]
      {
        ZeroDataZeroChunks(ker, data, k, m, size, chunks, inverse, beyond, idx);
      }
    } else {
      var x, b :| 0 <= x < k && 0 <= b < size && Split(ker.field, data, k, size)[x][b] != ker.field.zero;
      StrayMemoryMatters(ker, data, k, m, size, chunks, idx, x, b);
    }
  }

  lemma ZeroDataZeroChunks<T(!new)>(ker: Kernel<T>, data: seq<T>, k: nat, m: nat, size: nat, chunks: seq<Chunk<T>>,
                                    inverse: seq<seq<T>>, beyond: seq<seq<T>>, idx: nat)
    requires Contract(ker) && ValidConfig(k, m) && Reconstructible(ker, k, m, chunks, size, beyond)
    requires k <= idx < k + m && AllZero(ker, data, k, size)
    requires Damaged(chunks, Encoded(ker, data, k, m, size)) && |Survivors(chunks)| >= k
    requires |inverse| == k && IsMatrix(inverse, k)
    ensures Rebuilt(ker, k, m, chunks, size, inverse, beyond, idx) == Encoded(ker, data, k, m, size)[idx]
  {
    var rebuilt := Rebuilt(ker, k, m, chunks, size, inverse, beyond, idx);
    forall b | 0 <= b < size
      ensures rebuilt[b] == Encoded(ker, data, k, m, size)[idx][b]
    {
      ZeroColumn(ker, data, k, size, b);
      ZeroSurvivors(ker, data, k, m, size, chunks, b);
      ZeroParity(ker, data, k, m, size, idx, b);
      DotRightZeros(ker.field, beyond[idx - k]);
    }
  }

  lemma ZeroParity<T(!new)>(ker: Kernel<T>, data: seq<T>, k: nat, m: nat, size: nat, idx: nat, b: nat)
    requires Laws(ker.field) && k > 0 && Systematic(ker, k, m) && idx < k + m && b < size
    requires Column(Split(ker.field, data, k, size), b) == Zeros(ker.field, k)
    ensures Encoded(ker, data, k, m, size)[idx][b] == ker.field.zero
  {
    EncodedIsRowProduct(ker, data, k, m, size, idx);
    DotRightZeros(ker.field, ker.generate(k + m, k)[idx]);
  }

  lemma ZeroColumn<T(!new)>(ker: Kernel<T>, data: seq<T>, k: nat, size: nat, b: nat)
    requires k > 0 && AllZero(ker, data, k, size) && b < size
    ensures Column(Split(ker.field, data, k, size), b) == Zeros(ker.field, k)
  {
  }

  lemma ZeroSurvivors<T(!new)>(ker: Kernel<T>, data: seq<T>, k: nat, m: nat, size: nat, chunks: seq<Chunk<T>>, b: nat)
    requires Contract(ker) && ValidConfig(k, m) && Systematic(ker, k, m)
    requires Damaged(chunks, Encoded(ker, data, k, m, size)) && |Survivors(chunks)| >= k && b < size
    requires Column(Split(ker.field, data, k, size), b) == Zeros(ker.field, k)
    ensures IsMatrix(Gather(chunks, FirstSurvivors(chunks, k)), size)
    ensures Column(Gather(chunks, FirstSurvivors(chunks, k)), b) == Zeros(ker.field, k)
  {
    SurvivorColumns(ker, data, k, m, size, chunks, b);
    ApplyZeros(ker.field, SelectRows(ker.generate(k + m, k), FirstSurvivors(chunks, k)), k);
  }

  /** Two memory contents for which the "recovered" parity chunk differs. */
  lemma StrayMemoryMatters<T(!new)>(ker: Kernel<T>, data: seq<T>, k: nat, m: nat, size: nat, chunks: seq<Chunk<T>>,
                                    idx: nat, x: nat, b: nat)
    requires Contract(ker) && ValidConfig(k, m) && Systematic(ker, k, m) && k <= idx < k + m
    requires Damaged(chunks, Encoded(ker, data, k, m, size)) && |Survivors(chunks)| >= k
    requires SurvivorInverse(ker, k, m, chunks).Some?
    requires var inverse := SurvivorInverse(ker, k, m, chunks).value; |inverse| == k && IsMatrix(inverse, k)
    requires x < k && b < size && Split(ker.field, data, k, size)[x][b] != ker.field.zero
    ensures exists beyond :: Reconstructible(ker, k, m, chunks, size, beyond)
              && Rebuilt(ker, k, m, chunks, size, SurvivorInverse(ker, k, m, chunks).value, beyond, idx)
                 != Encoded(ker, data, k, m, size)[idx]
  {
    var f := ker.field;
    var inverse := SurvivorInverse(ker, k, m, chunks).value;
    InverseUndoesLoss(ker, data, k, m, size, chunks, b, x);
    var held := Column(Gather(chunks, FirstSurvivors(chunks, k)), b);
    assert held != Zeros(f, k) by {
      if held == Zeros(f, k) {
        ZeroSurvivorsZeroData(ker, data, k, m, size, chunks, b, x);
        assert false;
      }
    }
    var p :| 0 <= p < k && held[p] != f.zero;
    var zeros := seq(m, _ => Zeros(f, k));
    var units := seq(m, _ => Unit(f, k, p));
    DotZeros(f, held);
    DotUnit(f, held, p);
    assert Reconstructible(ker, k, m, chunks, size, zeros) && Reconstructible(ker, k, m, chunks, size, units);
    assert Rebuilt(ker, k, m, chunks, size, inverse, zeros, idx)[b] == f.zero;
    assert Rebuilt(ker, k, m, chunks, size, inverse, units, idx)[b] == held[p];
  }
}
