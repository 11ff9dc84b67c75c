/** The compression function and the initial chaining value of BLAKE2b.  The code's in-place rounds are
    proved against sections 3.1 to 3.3 of RFC 7693 for any word arithmetic; 64-bit words are the
    instance. */
module Blake2bCompression {
  import opened Bytes
  import opened Blake2b

  /** Word arithmetic: addition, exclusive or, the four rotations to the right, the word in eight bytes
      and the word for a counter value. */
  datatype Words<!W> = Words(zero: W, ones: W, iv: seq<W>, add: (W, W) -> W, xor: (W, W) -> W,
                             rot32: W -> W, rot24: W -> W, rot16: W -> W, rot63: W -> W, load: seq<Byte> -> W,
                             word: nat -> W)

  ghost predicate Laws<W(!new)>(w: Words<W>) {
    |w.iv| == 8 && (forall a :: w.xor(a, w.zero) == a) && w.load(Zeros(8)) == w.zero
  }

  // ----- section 3.1 and 3.2 of RFC 7693 -----

  // The message word permutations, a hexadecimal digit for each word number.
  const ROW_0 := "0123456789abcdef"
  const ROW_1 := "ea489fd61c02b753"
  const ROW_2 := "b8c052fdae367194"
  const ROW_3 := "7931dcbe265a40f8"
  const ROW_4 := "905724afe1bc683d"
  const ROW_5 := "2c6a0b834d75fe19"
  const ROW_6 := "c51fed4a0763928b"
  const ROW_7 := "db7ec13950f4862a"
  const ROW_8 := "6fe9b308c2d714a5"
  const ROW_9 := "a2847615fb9e3cd0"

  function SigmaRow(r: nat): (s: string)
    requires r < 10
    ensures |s| == 16
  {
    if r < 5 then
      if r == 0 then ROW_0 else if r == 1 then ROW_1 else if r == 2 then ROW_2 else if r == 3 then ROW_3 else ROW_4
    else
      if r == 5 then ROW_5 else if r == 6 then ROW_6 else if r == 7 then ROW_7 else if r == 8 then ROW_8 else ROW_9
  }

  function Digit(c: char): (d: nat)
    ensures d < 16
  {
    if '0' <= c <= '9' then (c - '0') as nat else if 'a' <= c <= 'f' then (c - 'a') as nat + 10 else 0
  }

  function Digits(row: string): (s: seq<nat>)
    ensures |s| == |row| && forall i :: 0 <= i < |s| ==> s[i] < 16
  {
    seq(|row|, i requires 0 <= i < |row| => Digit(row[i]))
  }

  ghost predicate Schedule(s: seq<nat>) {
    |s| == 16 && forall i :: 0 <= i < 16 ==> s[i] < 16
  }

  /** SIGMA of the standard, whose ten rows are used in turn. */
  function Sigma(r: nat): (s: seq<nat>)
    ensures Schedule(s)
  {
    Digits(SigmaRow(r % 10))
  }

  /** The two halves of the mixing function differ in the message word and the rotations. */
  function HalfMixed<W>(w: Words<W>, v: seq<W>, a: nat, b: nat, c: nat, d: nat, x: W, rd: W -> W,
                        rb: W -> W): (r: seq<W>)
    requires a < |v| && b < |v| && c < |v| && d < |v|
    ensures |r| == |v|
  {
    var v1 := v[a := w.add(w.add(v[a], v[b]), x)];
    var v2 := v1[d := rd(w.xor(v1[d], v1[a]))];
    var v3 := v2[c := w.add(v2[c], v2[d])];
    v3[b := rb(w.xor(v3[b], v3[c]))]
  }

  function Mixed<W>(w: Words<W>, v: seq<W>, a: nat, b: nat, c: nat, d: nat, x: W, y: W): (r: seq<W>)
    requires a < |v| && b < |v| && c < |v| && d < |v|
    ensures |r| == |v|
  {
    HalfMixed(w, HalfMixed(w, v, a, b, c, d, x, w.rot32, w.rot24), a, b, c, d, y, w.rot16, w.rot63)
  }

  /** The entries mixed in step `i` of a round: four columns, then four diagonals. */
  function Lane(i: nat): (r: (nat, nat, nat, nat))
    requires i < 8
    ensures r.0 < 16 && r.1 < 16 && r.2 < 16 && r.3 < 16
  {
    if i == 0 then (0, 4, 8, 12)
    else if i == 1 then (1, 5, 9, 13)
    else if i == 2 then (2, 6, 10, 14)
    else if i == 3 then (3, 7, 11, 15)
    else if i == 4 then (0, 5, 10, 15)
    else if i == 5 then (1, 6, 11, 12)
    else if i == 6 then (2, 7, 8, 13)
    else (3, 4, 9, 14)
  }

  /** Step `i` of a round. */
  function Step<W>(w: Words<W>, v: seq<W>, m: seq<W>, s: seq<nat>, i: nat): (r: seq<W>)
    requires |v| == |m| == 16 && Schedule(s) && i < 8
    ensures |r| == 16
  {
    var lane := Lane(i);
    Mixed(w, v, lane.0, lane.1, lane.2, lane.3, m[s[2 * i]], m[s[2 * i + 1]])
  }

  /** The first `n` steps of a round. */
  function Stepped<W>(w: Words<W>, v: seq<W>, m: seq<W>, s: seq<nat>, n: nat): (r: seq<W>)
    requires |v| == |m| == 16 && Schedule(s) && n <= 8
    ensures |r| == 16
  {
    if n == 0 then v else Step(w, Stepped(w, v, m, s, n - 1), m, s, n - 1)
  }

  function Rounds<W>(w: Words<W>, v: seq<W>, m: seq<W>, n: nat): (r: seq<W>)
    requires |v| == |m| == 16
    ensures |r| == 16
  {
    if n == 0 then v else Stepped(w, Rounds(w, v, m, n - 1), m, Sigma(n - 1), 8)
  }

  /** The work vector: the flag inverts one entry. */
  function WorkVector<W>(w: Words<W>, h: seq<W>, t0: W, t1: W, final: bool): (r: seq<W>)
    requires |h| == |w.iv| == 8
    ensures |r| == 16
  {
    var v := h + w.iv;
    var counted := v[12 := w.xor(v[12], t0)][13 := w.xor(v[13], t1)];
    if final then counted[14 := w.xor(v[14], w.ones)] else counted
  }

  function MessageWords<W>(w: Words<W>, block: seq<Byte>): (r: seq<W>)
    requires |block| == BLOCK
    ensures |r| == 16
  {
    seq(16, i requires 0 <= i < 16 => w.load(block[8 * i..8 * i + 8]))
  }

  /** The function F of section 3.2. */
  function CompressedBy<W>(w: Words<W>, h: seq<W>, block: seq<Byte>, t0: W, t1: W, final: bool): (r: seq<W>)
    requires |h| == |w.iv| == 8 && |block| == BLOCK
    ensures |r| == 8
  {
    var v := Rounds(w, WorkVector(w, h, t0, t1, final), MessageWords(w, block), 12);
    seq(8, i requires 0 <= i < 8 => w.xor(h[i], w.xor(v[i], v[i + 8])))
  }

  // ----- the code -----

  // The code's table, a row for each of its twelve rounds.

  function Table0(): seq<nat> {
    [0, 1, 2, 3, 4, 5, 6, 7, 8, 9, 10, 11, 12, 13, 14, 15]
  }

  function Table1(): seq<nat> {
    [14, 10, 4, 8, 9, 15, 13, 6, 1, 12, 0, 2, 11, 7, 5, 3]
  }

  function Table2(): seq<nat> {
    [11, 8, 12, 0, 5, 2, 15, 13, 10, 14, 3, 6, 7, 1, 9, 4]
  }

  function Table3(): seq<nat> {
    [7, 9, 3, 1, 13, 12, 11, 14, 2, 6, 5, 10, 4, 0, 15, 8]
  }

  function Table4(): seq<nat> {
    [9, 0, 5, 7, 2, 4, 10, 15, 14, 1, 11, 12, 6, 8, 3, 13]
  }

  function Table5(): seq<nat> {
    [2, 12, 6, 10, 0, 11, 8, 3, 4, 13, 7, 5, 15, 14, 1, 9]
  }

  function Table6(): seq<nat> {
    [12, 5, 1, 15, 14, 13, 4, 10, 0, 7, 6, 3, 9, 2, 8, 11]
  }

  function Table7(): seq<nat> {
    [13, 11, 7, 14, 12, 1, 3, 9, 5, 0, 15, 4, 8, 6, 2, 10]
  }

  function Table8(): seq<nat> {
    [6, 15, 14, 9, 11, 3, 0, 8, 12, 2, 13, 7, 1, 4, 10, 5]
  }

  function Table9(): seq<nat> {
    [10, 2, 8, 4, 7, 6, 1, 5, 15, 11, 9, 14, 3, 12, 13, 0]
  }

  function Table10(): seq<nat> {
    [0, 1, 2, 3, 4, 5, 6, 7, 8, 9, 10, 11, 12, 13, 14, 15]
  }

  function Table11(): seq<nat> {
    [14, 10, 4, 8, 9, 15, 13, 6, 1, 12, 0, 2, 11, 7, 5, 3]
  }

  function TableRow(r: nat): seq<nat>
    requires r < 12
  {
    if r < 4 then if r == 0 then Table0() else if r == 1 then Table1() else if r == 2 then Table2() else Table3()
    else if r < 8 then if r == 4 then Table4() else if r == 5 then Table5() else if r == 6 then Table6() else Table7()
    else if r == 8 then Table8() else if r == 9 then Table9() else if r == 10 then Table10() else Table11()
  }

  lemma Row0()
    ensures Table0() == Digits(ROW_0)
  {}

  lemma Row1()
    ensures Table1() == Digits(ROW_1)
  {}

  lemma Row2()
    ensures Table2() == Digits(ROW_2)
  {}

  lemma Row3()
    ensures Table3() == Digits(ROW_3)
  {}

  lemma Row4()
    ensures Table4() == Digits(ROW_4)
  {}

  lemma Row5()
    ensures Table5() == Digits(ROW_5)
  {}

  lemma Row6()
    ensures Table6() == Digits(ROW_6)
  {}

  lemma Row7()
    ensures Table7() == Digits(ROW_7)
  {}

  lemma Row8()
    ensures Table8() == Digits(ROW_8)
  {}

  lemma Row9()
    ensures Table9() == Digits(ROW_9)
  {}

  lemma Row10()
    ensures Table10() == Digits(ROW_0)
  {}

  lemma Row11()
    ensures Table11() == Digits(ROW_1)
  {}

  /** The code's table is the standard's, with its first two rows repeated for the last two rounds. */
  lemma TableIsSigma(r: nat)
    requires r < 12
    ensures TableRow(r) == Sigma(r)
  {
    assert r % 10 == if r < 10 then r else r - 10;
    match r {
      case 0 => Row0();
      case 1 => Row1();
      case 2 => Row2();
      case 3 => Row3();
      case 4 => Row4();
      case 5 => Row5();
      case 6 => Row6();
      case 7 => Row7();
      case 8 => Row8();
      case 9 => Row9();
      case 10 => Row10();
      case 11 => Row11();
    }
  }

  method HalfMix<W>(w: Words<W>, v: array<W>, a: nat, b: nat, c: nat, d: nat, x: W, rd: W -> W, rb: W -> W)
    requires a < v.Length && b < v.Length && c < v.Length && d < v.Length
    modifies v
    ensures v[..] == HalfMixed(w, old(v[..]), a, b, c, d, x, rd, rb)
  {
    v[a] := w.add(w.add(v[a], v[b]), x);
    v[d] := rd(w.xor(v[d], v[a]));
    v[c] := w.add(v[c], v[d]);
    v[b] := rb(w.xor(v[b], v[c]));
  }

  /** The macro G on entries of the work vector. */
  method Mix<W>(w: Words<W>, v: array<W>, m: seq<W>, s: seq<nat>, i: nat)
    requires v.Length == |m| == 16 && Schedule(s) && i < 8
    modifies v
    ensures v[..] == Step(w, old(v[..]), m, s, i)
  {
    var lane, x, y := Lane(i), m[s[2 * i]], m[s[2 * i + 1]];
    HalfMix(w, v, lane.0, lane.1, lane.2, lane.3, x, w.rot32, w.rot24);
    HalfMix(w, v, lane.0, lane.1, lane.2, lane.3, y, w.rot16, w.rot63);
  }

  /** The macro ROUND: eight mixings, each on its own four entries. */
  method Round<W>(w: Words<W>, v: array<W>, m: seq<W>, s: seq<nat>)
    requires v.Length == |m| == 16 && Schedule(s)
    modifies v
    ensures v[..] == Stepped(w, old(v[..]), m, s, 8)
  {
    for i := 0 to 8
      invariant v[..] == Stepped(w, old(v[..]), m, s, i)
    {
      Mix(w, v, m, s, i);
    }
  }

  /** The compression of one block into the chaining value, in place; the flag words are all ones and
      zero for the last block and zero otherwise. */
  method Compress<W(!new)>(w: Words<W>, h: array<W>, block: seq<Byte>, t0: W, t1: W, f0: W, f1: W, ghost final: bool)
    requires Laws(w) && h.Length == 8 && |block| == BLOCK && f0 == (if final then w.ones else w.zero) && f1 == w.zero
    modifies h
    ensures h[..] == CompressedBy(w, old(h[..]), block, t0, t1, final)
  {
    var m := LoadBlock(w, block);
    var start := h[..] + w.iv;
    var v := new W[16](i requires 0 <= i < 16 => start[i]);
    v[12] := w.xor(v[12], t0);
    v[13] := w.xor(v[13], t1);
    v[14] := w.xor(v[14], f0);
    v[15] := w.xor(v[15], f1);
    FlagWords(w, start, h[..], t0, t1, final);
    assert v[..] == WorkVector(w, h[..], t0, t1, final);
    AllRounds(w, v, m);
    FeedForward(w, h, v[..]);
  }

  lemma FlagWords<W(!new)>(w: Words<W>, start: seq<W>, h: seq<W>, t0: W, t1: W, final: bool)
    requires Laws(w) && |h| == 8 && start == h + w.iv
    ensures start[12 := w.xor(start[12], t0)][13 := w.xor(start[13], t1)]
              [14 := w.xor(start[14], if final then w.ones else w.zero)][15 := w.xor(start[15], w.zero)]
         == WorkVector(w, h, t0, t1, final)
  {
    assert w.xor(start[14], w.zero) == start[14] && w.xor(start[15], w.zero) == start[15];
  }

  method LoadBlock<W>(w: Words<W>, block: seq<Byte>) returns (m: seq<W>)
    requires |block| == BLOCK
    ensures m == MessageWords(w, block)
  {
    m := [];
    for i := 0 to 16
      invariant |m| == i && forall j :: 0 <= j < i ==> m[j] == w.load(block[8 * j..8 * j + 8])
    {
      m := m + [w.load(block[8 * i..8 * i + 8])];
    }
  }

  method AllRounds<W>(w: Words<W>, v: array<W>, m: seq<W>)
    requires v.Length == |m| == 16
    modifies v
    ensures v[..] == Rounds(w, old(v[..]), m, 12)
  {
    for r := 0 to 12
      invariant v[..] == Rounds(w, old(v[..]), m, r)
    {
      TableIsSigma(r);
      Round(w, v, m, TableRow(r));
    }
  }

  /** The feed-forward. */
  method FeedForward<W>(w: Words<W>, h: array<W>, v: seq<W>)
    requires h.Length == 8 && |v| == 16
    modifies h
    ensures h[..] == seq(8, i requires 0 <= i < 8 => w.xor(old(h[..])[i], w.xor(v[i], v[i + 8])))
  {
    for i := 0 to 8
      invariant forall j :: 0 <= j < i ==> h[j] == w.xor(old(h[..])[j], w.xor(v[j], v[j + 8]))
      invariant forall j :: i <= j < 8 ==> h[j] == old(h[..])[j]
    {
      h[i] := w.xor(h[i], w.xor(v[i], v[i + 8]));
    }
  }

  // ----- the initial chaining value -----

  /** Section 3.3: the initialization vector with the lengths in the first word. */
  function Initial<W>(w: Words<W>, lengths: W): seq<W>
    requires |w.iv| == 8
  {
    w.iv[0 := w.xor(w.iv[0], lengths)]
  }

  /** The parameter block of a sequential hash: digest length, key length, fanout and depth 1. */
  function ParameterBlock(digestLength: Byte, keyLength: Byte): (p: seq<Byte>)
    ensures |p| == 64
  {
    [digestLength, keyLength, 1, 1] + Zeros(60)
  }

  function LengthsBlock(digestLength: Byte, keyLength: Byte): seq<Byte> {
    [digestLength, keyLength, 1, 1, 0, 0, 0, 0]
  }

  function ParamState<W>(w: Words<W>, param: seq<Byte>): (h: seq<W>)
    requires |w.iv| == 8 && |param| == 64
    ensures |h| == 8
  {
    seq(8, i requires 0 <= i < 8 => w.xor(w.iv[i], w.load(param[8 * i..8 * i + 8])))
  }

  /** Exclusive-ors a parameter block into the initialization vector. */
  method InitParam<W>(w: Words<W>, param: seq<Byte>) returns (h: seq<W>)
    requires |w.iv| == 8 && |param| == 64
    ensures h == ParamState(w, param)
  {
    h := [];
    for i := 0 to 8
      invariant |h| == i && forall j :: 0 <= j < i ==> h[j] == w.xor(w.iv[j], w.load(param[8 * j..8 * j + 8]))
    {
      h := h + [w.xor(w.iv[i], w.load(param[8 * i..8 * i + 8]))];
    }
  }

  /** For a sequential hash only the first word changes, by the lengths. */
  lemma SequentialStart<W(!new)>(w: Words<W>, digestLength: Byte, keyLength: Byte)
    requires Laws(w)
    ensures ParamState(w, ParameterBlock(digestLength, keyLength))
         == Initial(w, w.load(LengthsBlock(digestLength, keyLength)))
  {
    var p := ParameterBlock(digestLength, keyLength);
    assert p[8 * 0..8 * 0 + 8] == LengthsBlock(digestLength, keyLength);
    forall i | 1 <= i < 8
      ensures w.xor(w.iv[i], w.load(p[8 * i..8 * i + 8])) == w.iv[i]
    {
      assert p[8 * i..8 * i + 8] == Zeros(8);
    }
  }
}
