/** Consistent hashing on a ring of virtual nodes, for nodes of any type: who owns a position, and
    how little ownership moves when nodes come and go.  Rings are sorted by hash; the order of
    virtual nodes with equal hashes is whatever the sort made it. */
module HashRing {
  import Sorting

  datatype VNode<T> = VNode(hash: nat, node: T)

  ghost predicate Sorted<T>(s: seq<VNode<T>>) {
    forall i, j :: 0 <= i < j < |s| ==> s[i].hash <= s[j].hash
  }

  /** Index of the first virtual node at or after position `x`; the length if there is none. */
  function FirstAtOrAfter<T>(s: seq<VNode<T>>, x: nat): (r: nat)
    ensures r <= |s| && (forall j :: 0 <= j < r ==> s[j].hash < x) && (r < |s| ==> x <= s[r].hash)
  {
    if s == [] || x <= s[0].hash then 0 else 1 + FirstAtOrAfter(s[1..], x)
  }

  lemma FirstUnique<T>(s: seq<VNode<T>>, x: nat, r: nat)
    requires r <= |s| && (forall j :: 0 <= j < r ==> s[j].hash < x) && (r < |s| ==> x <= s[r].hash)
    ensures FirstAtOrAfter(s, x) == r
  {
  }

  /** Clockwise successor of a position, wrapping to the start of the ring. */
  function OwnerIndex<T>(s: seq<VNode<T>>, x: nat): (r: nat)
    requires s != []
    ensures r < |s|
  {
    if FirstAtOrAfter(s, x) == |s| then 0 else FirstAtOrAfter(s, x)
  }

  function Owner<T>(s: seq<VNode<T>>, x: nat): T
    requires s != []
  {
    s[OwnerIndex(s, x)].node
  }

  /** The owner has the least hash at or after the position; if there is none, the least hash of all. */
  lemma OwnerIsSuccessor<T>(s: seq<VNode<T>>, x: nat)
    requires Sorted(s) && s != []
    ensures exists v :: v in s && v.node == Owner(s, x)
              && if x <= v.hash then forall u :: u in s && x <= u.hash ==> v.hash <= u.hash
                 else forall u :: u in s ==> u.hash < x && v.hash <= u.hash
  {
    var v := s[OwnerIndex(s, x)];
    assert v in s && v.node == Owner(s, x);
  }

  /** Binary search for the owner. */
  method FindVNode<T>(s: seq<VNode<T>>, x: nat) returns (r: nat)
    requires Sorted(s) && s != []
    ensures r == OwnerIndex(s, x)
  {
    var left, right := 0, |s|;
    while left < right
      invariant left <= right <= |s|
      invariant forall j :: 0 <= j < left ==> s[j].hash < x
      invariant forall j :: right <= j < |s| ==> x <= s[j].hash
    {
      var mid := left + (right - left) / 2;
      if s[mid].hash < x {
        left := mid + 1;
      } else {
        right := mid;
      }
    }
    FirstUnique(s, x, left);
    if left >= |s| {
      left := 0;
    }
    return left;
  }

  // ----- sorting -----

  /** Sorts virtual nodes by hash; equal hashes end up in any order. */
  method Sort<T>(s: seq<VNode<T>>) returns (r: seq<VNode<T>>)
    ensures Sorted(r) && multiset(r) == multiset(s)
  {
    r := Sorting.Sort((v: VNode<T>) => v.hash, s);
  }

  // ----- removing a node -----

  /** The ring without the virtual nodes of `node`, in the same order. */
  function Without<T(==)>(s: seq<VNode<T>>, node: T): seq<VNode<T>> {
    if s == [] then []
    else if s[0].node == node then Without(s[1..], node)
    else [s[0]] + Without(s[1..], node)
  }

  lemma {:induction false} WithoutMembers<T>(s: seq<VNode<T>>, node: T)
    ensures forall j :: 0 <= j < |Without(s, node)| ==> Without(s, node)[j] in s && Without(s, node)[j].node != node
    decreases |s|
  {
    if s != [] {
      WithoutMembers(s[1..], node);
      assert forall v :: v in s[1..] ==> v in s;
    }
  }

  lemma {:induction false} WithoutSorted<T>(s: seq<VNode<T>>, node: T)
    requires Sorted(s)
    ensures Sorted(Without(s, node))
    decreases |s|
  {
    if s != [] {
      WithoutSorted(s[1..], node);
      WithoutMembers(s[1..], node);
    }
  }

  lemma {:induction false} WithoutCounts<T>(s: seq<VNode<T>>, node: T, v: VNode<T>)
    ensures multiset(Without(s, node))[v] == if v.node == node then 0 else multiset(s)[v]
    decreases |s|
  {
    if s != [] {
      WithoutCounts(s[1..], node, v);
      assert s == [s[0]] + s[1..];
    }
  }

  lemma {:induction false} WithoutAbsent<T>(s: seq<VNode<T>>, node: T)
    requires forall v :: v in s ==> v.node != node
    ensures Without(s, node) == s
    decreases |s|
  {
    if s != [] {
      WithoutAbsent(s[1..], node);
    }
  }

  /** Number of a node's virtual nodes. */
  ghost function NodeCount<T>(s: seq<VNode<T>>, node: T): nat {
    if s == [] then 0 else NodeCount(s[1..], node) + if s[0].node == node then 1 else 0
  }

  lemma {:induction false} CountPlusRest<T>(s: seq<VNode<T>>, node: T)
    ensures NodeCount(s, node) + |Without(s, node)| == |s|
    decreases |s|
  {
    if s != [] {
      CountPlusRest(s[1..], node);
    }
  }

  lemma {:induction false} CountAppends<T>(a: seq<VNode<T>>, b: seq<VNode<T>>, node: T)
    ensures NodeCount(a + b, node) == NodeCount(a, node) + NodeCount(b, node)
    decreases |a|
  {
    if a == [] {
      assert a + b == b;
    } else {
      assert (a + b)[1..] == a[1..] + b;
      CountAppends(a[1..], b, node);
    }
  }

  lemma {:induction false} CountUniform<T>(a: seq<VNode<T>>, owner: T, node: T)
    requires forall i :: 0 <= i < |a| ==> a[i].node == owner
    ensures NodeCount(a, node) == if owner == node then |a| else 0
    decreases |a|
  {
    if a != [] {
      CountUniform(a[1..], owner, node);
    }
  }

  lemma CountPermuted<T(!new)>(a: seq<VNode<T>>, b: seq<VNode<T>>, node: T)
    requires multiset(a) == multiset(b)
    ensures NodeCount(a, node) == NodeCount(b, node)
  {
    forall v
      ensures multiset(Without(a, node))[v] == multiset(Without(b, node))[v]
    {
      WithoutCounts(a, node, v);
      WithoutCounts(b, node, v);
    }
    SameSize(Without(a, node), Without(b, node));
    SameSize(a, b);
    CountPlusRest(a, node);
    CountPlusRest(b, node);
  }

  lemma SameSize<T>(a: seq<T>, b: seq<T>)
    requires multiset(a) == multiset(b)
    ensures |a| == |b|
  {
    assert |a| == |multiset(a)| == |multiset(b)| == |b|;
  }

  lemma {:induction false} FirstSurvives<T>(s: seq<VNode<T>>, node: T, x: nat)
    requires FirstAtOrAfter(s, x) < |s| && s[FirstAtOrAfter(s, x)].node != node
    ensures var t := Without(s, node);
            FirstAtOrAfter(t, x) < |t| && t[FirstAtOrAfter(t, x)] == s[FirstAtOrAfter(s, x)]
    decreases |s|
  {
    if x > s[0].hash {
      FirstSurvives(s[1..], node, x);
    }
  }

  /** Removing a node moves only what it owned; collisions and sort order play no part. */
  lemma RemoveMovesOnlyItsOwn<T>(s: seq<VNode<T>>, node: T, x: nat)
    requires s != [] && Owner(s, x) != node
    ensures Without(s, node) != [] && Owner(Without(s, node), x) == Owner(s, x)
  {
    var t := Without(s, node);
    if FirstAtOrAfter(s, x) < |s| {
      FirstSurvives(s, node, x);
    } else {
      WithoutMembers(s, node);
      assert t[0] == s[0];
      FirstUnique(t, x, |t|);
    }
  }

  // ----- adding a node -----

  /** No two different nodes share a position. */
  ghost predicate CollisionFree<T>(s: seq<VNode<T>>) {
    forall i, j :: 0 <= i < |s| && 0 <= j < |s| && s[i].hash == s[j].hash ==> s[i].node == s[j].node
  }

  /** Without collisions, ownership does not depend on how the sort arranged the ring. */
  lemma ArrangementIrrelevant<T>(s: seq<VNode<T>>, t: seq<VNode<T>>, x: nat)
    requires Sorted(s) && Sorted(t) && multiset(s) == multiset(t) && CollisionFree(s) && s != []
    ensures t != [] && Owner(t, x) == Owner(s, x)
  {
    SameMembers(s, t);
    SameMembers(t, s);
    OwnerHashAtMost(s, t, x);
    OwnerHashAtMost(t, s, x);
    assert t[OwnerIndex(t, x)] in s;
  }

  lemma OwnerHashAtMost<T>(s: seq<VNode<T>>, t: seq<VNode<T>>, x: nat)
    requires Sorted(t) && s != [] && t != []
    requires (forall i :: 0 <= i < |s| ==> s[i] in t) && (forall i :: 0 <= i < |t| ==> t[i] in s)
    ensures t[OwnerIndex(t, x)].hash <= s[OwnerIndex(s, x)].hash
  {
    var a := s[OwnerIndex(s, x)];
    assert a in t;
    var k :| 0 <= k < |t| && t[k] == a;
    if FirstAtOrAfter(s, x) < |s| {
      assert FirstAtOrAfter(t, x) <= k;
    } else {
      assert t[OwnerIndex(t, x)] in s;
    }
  }

  lemma SameMembers<T>(s: seq<VNode<T>>, t: seq<VNode<T>>)
    requires multiset(s) == multiset(t)
    ensures (forall i :: 0 <= i < |s| ==> s[i] in t) && |s| == |t|
  {
    assert |s| == |multiset(s)| == |multiset(t)| == |t|;
    forall i | 0 <= i < |s|
      ensures s[i] in t
    {
      assert s[i] in multiset(s);
      assert s[i] in multiset(t);
    }
  }

  /** Dropping the new node's virtual nodes from the enlarged ring leaves the old ring, up to the
      arrangement of equal hashes. */
  lemma AddThenRemoveContents<T(!new)>(s: seq<VNode<T>>, added: seq<VNode<T>>, t: seq<VNode<T>>, node: T)
    requires Sorted(t) && multiset(t) == multiset(s) + multiset(added)
    requires (forall v :: v in s ==> v.node != node) && (forall v :: v in added ==> v.node == node)
    ensures Sorted(Without(t, node)) && multiset(Without(t, node)) == multiset(s)
  {
    WithoutSorted(t, node);
    forall v
      ensures multiset(Without(t, node))[v] == multiset(s)[v]
    {
      WithoutCounts(t, node, v);
      if v.node == node {
        assert v !in s;
      } else {
        assert v !in added;
      }
    }
    assert multiset(Without(t, node)) == multiset(s);
  }

  /** Adding a node moves an object only to the new node. */
  lemma AddMovesOnlyToNew<T(!new)>(s: seq<VNode<T>>, added: seq<VNode<T>>, t: seq<VNode<T>>, node: T, x: nat)
    requires Sorted(s) && s != [] && CollisionFree(s) && Sorted(t) && multiset(t) == multiset(s) + multiset(added)
    requires (forall v :: v in s ==> v.node != node) && (forall v :: v in added ==> v.node == node)
    ensures t != [] && (Owner(t, x) == Owner(s, x) || Owner(t, x) == node)
  {
    AddThenRemoveContents(s, added, t, node);
    assert s[0] in multiset(s);
    assert s[0] in multiset(t);
    assert s[0] in t;
    if Owner(t, x) != node {
      RemoveMovesOnlyItsOwn(t, node, x);
      ArrangementIrrelevant(s, Without(t, node), x);
    }
  }

  /** Removing the node again restores every owner. */
  lemma AddThenRemoveRestores<T(!new)>(s: seq<VNode<T>>, added: seq<VNode<T>>, t: seq<VNode<T>>, node: T, x: nat)
    requires Sorted(s) && s != [] && CollisionFree(s) && Sorted(t) && multiset(t) == multiset(s) + multiset(added)
    requires (forall v :: v in s ==> v.node != node) && (forall v :: v in added ==> v.node == node)
    ensures Without(t, node) != [] && Owner(Without(t, node), x) == Owner(s, x)
  {
    AddThenRemoveContents(s, added, t, node);
    ArrangementIrrelevant(s, Without(t, node), x);
  }

  // ----- why collisions matter -----

  ghost predicate StableUnderSorting<T(!new)>(s: seq<VNode<T>>) {
    forall t: seq<VNode<T>>, x: nat ::
      Sorted(t) && multiset(t) == multiset(s) && t != [] && s != [] ==> Owner(t, x) == Owner(s, x)
  }

  /** Re-sorting can never move an object exactly when no two nodes collide. */
  lemma StableExactlyWithoutCollisions<T(!new)>(s: seq<VNode<T>>)
    requires Sorted(s)
    ensures StableUnderSorting(s) <==> CollisionFree(s)
  {
    if CollisionFree(s) {
      forall t: seq<VNode<T>>, x: nat | Sorted(t) && multiset(t) == multiset(s) && t != [] && s != []
        ensures Owner(t, x) == Owner(s, x)
      {
        ArrangementIrrelevant(s, t, x);
      }
    } else {
      var i, j :| 0 <= i < |s| && 0 <= j < |s| && s[i].hash == s[j].hash && s[i].node != s[j].node;
      SwapMoves(s, i, j);
    }
  }

  /** With a collision, some other sorted arrangement changes an owner. */
  lemma SwapMoves<T>(s: seq<VNode<T>>, i: nat, j: nat)
    requires Sorted(s) && i < |s| && j < |s| && s[i].hash == s[j].hash && s[i].node != s[j].node
    ensures exists t: seq<VNode<T>> ::
              Sorted(t) && multiset(t) == multiset(s) && t != [] && Owner(t, s[i].hash) != Owner(s, s[i].hash)
  {
    var f := FirstAtOrAfter(s, s[i].hash);
    SwapFirst(s, f, if s[f].node != s[i].node then i else j);
  }

  lemma SwapFirst<T>(s: seq<VNode<T>>, f: nat, k: nat)
    requires Sorted(s) && f < |s| && k < |s| && s[f].hash == s[k].hash && s[f].node != s[k].node
    requires f == FirstAtOrAfter(s, s[f].hash)
    ensures var t := s[f := s[k]][k := s[f]];
            Sorted(t) && multiset(t) == multiset(s) && t != [] && Owner(t, s[f].hash) != Owner(s, s[f].hash)
  {
    var t := s[f := s[k]][k := s[f]];
    assert f < k;
    FirstUnique(t, s[f].hash, f);
  }
}
