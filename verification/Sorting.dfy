/** Sorting by an integer key, and sums that do not depend on order. */
module Sorting {

  ghost predicate SortedBy<T>(key: T -> int, s: seq<T>) {
    forall i, j :: 0 <= i < j < |s| ==> key(s[i]) <= key(s[j])
  }

  function Inserted<T>(key: T -> int, v: T, s: seq<T>): seq<T> {
    if s == [] then [v] else if key(v) <= key(s[0]) then [v] + s else [s[0]] + Inserted(key, v, s[1..])
  }

  lemma {:induction false} InsertedPermutes<T>(key: T -> int, v: T, s: seq<T>)
    ensures multiset(Inserted(key, v, s)) == multiset(s) + multiset{v}
    decreases |s|
  {
    if s != [] {
      assert s == [s[0]] + s[1..];
      InsertedPermutes(key, v, s[1..]);
    }
  }

  lemma {:induction false} InsertedSorts<T>(key: T -> int, v: T, s: seq<T>)
    requires SortedBy(key, s)
    ensures SortedBy(key, Inserted(key, v, s)) && Inserted(key, v, s) != []
    ensures key(Inserted(key, v, s)[0]) == key(v) || (s != [] && key(Inserted(key, v, s)[0]) == key(s[0]))
    decreases |s|
  {
    if s != [] && key(v) > key(s[0]) {
      InsertedSorts(key, v, s[1..]);
      var t := Inserted(key, v, s[1..]);
      assert key(s[0]) <= key(t[0]);
      assert Inserted(key, v, s) == [s[0]] + t;
    }
  }

  /** Stands for the library's sort: callers rely only on order and permutation, and equal keys may
      end up in any order. */
  method Sort<T>(key: T -> int, s: seq<T>) returns (r: seq<T>)
    ensures SortedBy(key, r) && multiset(r) == multiset(s)
  {
    r := [];
    for i := 0 to |s|
      invariant SortedBy(key, r) && multiset(r) == multiset(s[..i])
    {
      InsertedSorts(key, s[i], r);
      InsertedPermutes(key, s[i], r);
      assert s[..i + 1] == s[..i] + [s[i]];
      r := Inserted(key, s[i], r);
    }
    assert s[..|s|] == s;
  }

  function Sum<T>(key: T -> int, s: seq<T>): int {
    if s == [] then 0 else Sum(key, s[..|s| - 1]) + key(s[|s| - 1])
  }

  lemma {:induction false} SumAppends<T>(key: T -> int, a: seq<T>, b: seq<T>)
    ensures Sum(key, a + b) == Sum(key, a) + Sum(key, b)
    decreases |b|
  {
    if b == [] {
      assert a + b == a;
    } else {
      assert (a + b)[..|a + b| - 1] == a + b[..|b| - 1];
      SumAppends(key, a, b[..|b| - 1]);
    }
  }

  /** `s` without the element at `k`. */
  function Dropped<T>(s: seq<T>, k: nat): seq<T>
    requires k < |s|
  {
    s[..k] + s[k + 1..]
  }

  lemma SplitAt<T>(s: seq<T>, k: nat)
    requires k < |s|
    ensures s == s[..k] + ([s[k]] + s[k + 1..])
  {}

  lemma DropOne<T>(s: seq<T>, k: nat)
    requires k < |s|
    ensures multiset(Dropped(s, k)) == multiset(s) - multiset{s[k]}
  {
    SplitAt(s, k);
  }

  lemma SumInserted<T>(key: T -> int, a: seq<T>, x: T, b: seq<T>)
    ensures Sum(key, a + ([x] + b)) == Sum(key, a + b) + key(x)
  {
    SumAppends(key, a, [x] + b);
    SumAppends(key, [x], b);
    assert [x][..0] == [];
    SumAppends(key, a, b);
  }

  lemma SumDropped<T>(key: T -> int, s: seq<T>, k: nat)
    requires k < |s|
    ensures Sum(key, s) == Sum(key, Dropped(s, k)) + key(s[k])
  {
    SplitAt(s, k);
    SumInserted(key, s[..k], s[k], s[k + 1..]);
  }

  /** The last element of one permutation stands somewhere in the other. */
  lemma DropPartner<T>(a: seq<T>, b: seq<T>) returns (k: nat)
    requires multiset(a) == multiset(b) && a != []
    ensures k < |b| && b[k] == a[|a| - 1] && multiset(a[..|a| - 1]) == multiset(Dropped(b, k))
  {
    var n := |a| - 1;
    assert a == a[..n] + [a[n]];
    assert a[n] in multiset(b);
    k :| 0 <= k < |b| && b[k] == a[n];
    DropOne(b, k);
  }

  /** Equal multisets have equal sums. */
  lemma {:induction false} SumPermuted<T>(key: T -> int, a: seq<T>, b: seq<T>)
    requires multiset(a) == multiset(b)
    ensures Sum(key, a) == Sum(key, b)
    decreases |a|
  {
    if a == [] {
      assert |b| == |multiset(b)| == |multiset(a)|;
    } else {
      var k := DropPartner(a, b);
      SumDropped(key, b, k);
      SumPermuted(key, a[..|a| - 1], Dropped(b, k));
    }
  }
}
