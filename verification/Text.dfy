/** Strings as the code formats them: decimal numbers and bounded buffers. */
module Text {

  /** "%d" of a natural number. */
  function Decimal(n: nat): (r: string)
    ensures r != []
  {
    var digit := "0123456789"[n % 10];
    if n < 10 then [digit] else Decimal(n / 10) + [digit]
  }

  predicate IsDigit(c: char) {
    '0' <= c <= '9'
  }

  predicate AllDigits(s: string) {
    forall i :: 0 <= i < |s| ==> IsDigit(s[i])
  }

  /** Value of a string of digits. */
  function Number(s: string): nat
    requires AllDigits(s)
  {
    if s == [] then 0 else 10 * Number(s[..|s| - 1]) + (s[|s| - 1] - '0') as nat
  }

  lemma {:induction false} DecimalIsNumber(n: nat)
    ensures AllDigits(Decimal(n)) && Number(Decimal(n)) == n
    decreases n
  {
    var digit := "0123456789"[n % 10];
    assert IsDigit(digit) && (digit - '0') as nat == n % 10;
    if n < 10 {
      assert Decimal(n) == [digit] && [digit][..0] == [];
    } else {
      DecimalIsNumber(n / 10);
      var d := Decimal(n / 10);
      assert (d + [digit])[..|d|] == d;
    }
  }

  /** Two different numbers print differently. */
  lemma DecimalInjective(a: nat, b: nat)
    requires Decimal(a) == Decimal(b)
    ensures a == b
  {
    DecimalIsNumber(a);
    DecimalIsNumber(b);
  }

  /** Text around the first separator. */
  lemma FirstSeparator(a: string, b: string, x: string, y: string, c: char)
    requires c !in a && c !in b && a + [c] + x == b + [c] + y
    ensures a == b && x == y
  {
    var s := a + [c] + x;
    assert s[|a|] == c && s[|b|] == c;
    assert forall i :: 0 <= i < |a| ==> s[i] == a[i];
    assert forall i :: 0 <= i < |b| ==> s[i] == b[i];
    assert a == s[..|a|] && b == s[..|b|] && x == s[|a| + 1..] && y == s[|b| + 1..];
  }

  /** Text around the last separator. */
  lemma LastSeparator(a: string, b: string, x: string, y: string, c: char)
    requires c !in x && c !in y && a + [c] + x == b + [c] + y
    ensures a == b && x == y
  {
    var s := a + [c] + x;
    assert s[|a|] == c && s[|b|] == c;
    assert forall i :: |a| < i < |s| ==> s[i] == x[i - |a| - 1];
    assert forall i :: |b| < i < |s| ==> s[i] == y[i - |b| - 1];
    assert a == s[..|a|] && b == s[..|b|] && x == s[|a| + 1..] && y == s[|b| + 1..];
  }

  /** What a buffer with room for `room` characters keeps. */
  function Cut(s: string, room: nat): string {
    if |s| <= room then s else s[..room]
  }
}
