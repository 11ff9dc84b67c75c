/** Rings built from a topology: every set contributes virtual nodes that depend on its position
    and state only.  The placement layer and the migration scanner are two instances. */
module TopologyRing {
  import opened ClusterTopology
  import opened HashRing

  /** The virtual nodes of set number `s` of pool number `p`, given its state. */
  type PerSet<!T> = (nat, nat, SetState) -> seq<VNode<T>>

  /** Contributions of the first `n` sets of a pool, in order. */
  function PoolContents<T>(f: PerSet<T>, pool: Pool, p: nat, n: nat): seq<VNode<T>>
    requires n <= |pool.sets|
  {
    if n == 0 then [] else PoolContents(f, pool, p, n - 1) + f(p, n - 1, pool.sets[n - 1].state)
  }

  /** Contributions of the first `n` pools, in order. */
  function ContentsUpTo<T>(f: PerSet<T>, t: Layout, n: nat): seq<VNode<T>>
    requires n <= |t.pools|
  {
    if n == 0 then []
    else ContentsUpTo(f, t, n - 1) + PoolContents(f, t.pools[n - 1], n - 1, |t.pools[n - 1].sets|)
  }

  function Contents<T>(f: PerSet<T>, t: Layout): seq<VNode<T>> {
    ContentsUpTo(f, t, |t.pools|)
  }

  // ----- membership -----

  ghost predicate PoolGives<T>(f: PerSet<T>, pool: Pool, p: nat, s: int, v: VNode<T>) {
    0 <= s < |pool.sets| && v in f(p, s, pool.sets[s].state)
  }

  /** Set `s` of pool `p` contributes `v`. */
  ghost predicate Gives<T>(f: PerSet<T>, t: Layout, p: int, s: int, v: VNode<T>) {
    0 <= p < |t.pools| && PoolGives(f, t.pools[p], p, s, v)
  }

  lemma {:induction false} PoolMember<T>(f: PerSet<T>, pool: Pool, p: nat, n: nat, v: VNode<T>)
    requires n <= |pool.sets|
    ensures v in PoolContents(f, pool, p, n) <==> exists s :: s < n && PoolGives(f, pool, p, s, v)
    decreases n
  {
    if n > 0 {
      PoolMember(f, pool, p, n - 1, v);
      assert v in f(p, n - 1, pool.sets[n - 1].state) <==> PoolGives(f, pool, p, n - 1, v);
    }
  }

  lemma {:induction false} MemberUpTo<T>(f: PerSet<T>, t: Layout, n: nat, v: VNode<T>)
    requires n <= |t.pools|
    ensures v in ContentsUpTo(f, t, n) <==>
              exists p, s :: p < n && Gives(f, t, p, s, v)
    decreases n
  {
    if n > 0 {
      MemberUpTo(f, t, n - 1, v);
      var pool := t.pools[n - 1];
      PoolMember(f, pool, n - 1, |pool.sets|, v);
      if v in PoolContents(f, pool, n - 1, |pool.sets|) {
        var s :| s < |pool.sets| && PoolGives(f, pool, n - 1, s, v);
        assert Gives(f, t, n - 1, s, v);
      }
      if p, s :| p < n && Gives(f, t, p, s, v) {
        if p < n - 1 {
          assert v in ContentsUpTo(f, t, n - 1);
        } else {
          assert PoolGives(f, pool, n - 1, s, v);
        }
      }
    }
  }

  /** A virtual node is on the ring exactly when some set contributes it. */
  lemma Member<T>(f: PerSet<T>, t: Layout, v: VNode<T>)
    ensures v in Contents(f, t) <==> exists p, s :: Gives(f, t, p, s, v)
  {
    MemberUpTo(f, t, |t.pools|, v);
  }

  // ----- counting -----

  /** Every set contributes virtual nodes under its own position. */
  ghost predicate Labelled(f: PerSet<(nat, nat)>) {
    forall p: nat, s: nat, state, i :: 0 <= i < |f(p, s, state)| ==> f(p, s, state)[i].node == (p, s)
  }

  lemma {:induction false} PoolCount(f: PerSet<(nat, nat)>, pool: Pool, p: nat, n: nat, id: (nat, nat))
    requires Labelled(f) && n <= |pool.sets|
    ensures NodeCount(PoolContents(f, pool, p, n), id)
         == if id.0 == p && id.1 < n then |f(p, id.1, pool.sets[id.1].state)| else 0
    decreases n
  {
    if n > 0 {
      PoolCount(f, pool, p, n - 1, id);
      var last := f(p, n - 1, pool.sets[n - 1].state);
      CountAppends(PoolContents(f, pool, p, n - 1), last, id);
      CountUniform(last, (p, n - 1), id);
    }
  }

  lemma {:induction false} CountUpTo(f: PerSet<(nat, nat)>, t: Layout, n: nat, id: (nat, nat))
    requires Labelled(f) && n <= |t.pools|
    ensures NodeCount(ContentsUpTo(f, t, n), id)
         == if id.0 < n && InRange(t, id.0, id.1) then |f(id.0, id.1, t.pools[id.0].sets[id.1].state)| else 0
    decreases n
  {
    if n > 0 {
      CountUpTo(f, t, n - 1, id);
      var pool := t.pools[n - 1];
      PoolCount(f, pool, n - 1, |pool.sets|, id);
      CountAppends(ContentsUpTo(f, t, n - 1), PoolContents(f, pool, n - 1, |pool.sets|), id);
    }
  }

  // ----- effect of a change -----

  lemma {:induction false} PoolFramed<T>(f: PerSet<T>, a: Pool, b: Pool, p: nat, n: nat)
    requires n <= |a.sets| && n <= |b.sets| && forall s :: 0 <= s < n ==> a.sets[s].state == b.sets[s].state
    ensures PoolContents(f, a, p, n) == PoolContents(f, b, p, n)
    decreases n
  {
    if n > 0 {
      PoolFramed(f, a, b, p, n - 1);
    }
  }

  // Bookkeeping with sequences and multisets.

  lemma AddBoth<T>(a: seq<T>, b: seq<T>, c: seq<T>, x: multiset<T>, y: multiset<T>)
    requires multiset(a) + x == multiset(b) + y
    ensures multiset(a + c) + x == multiset(b + c) + y
  {
    assert multiset(a + c) + x == (multiset(a) + x) + multiset(c);
    assert multiset(b + c) + y == (multiset(b) + y) + multiset(c);
  }

  lemma AddBefore<T>(c: seq<T>, a: seq<T>, b: seq<T>, x: multiset<T>, y: multiset<T>)
    requires multiset(a) + x == multiset(b) + y
    ensures multiset(c + a) + x == multiset(c + b) + y
  {
    assert multiset(c + a) + x == multiset(c) + (multiset(a) + x);
    assert multiset(c + b) + y == multiset(c) + (multiset(b) + y);
  }

  lemma SwapLast<T>(c: seq<T>, a: seq<T>, b: seq<T>)
    ensures multiset(c + a) + multiset(b) == multiset(c + b) + multiset(a)
  {
  }

  /** One set of a pool changes state. */
  lemma {:induction false} PoolStateChange<T>(f: PerSet<T>, a: Pool, b: Pool, p: nat, s: nat, n: nat)
    requires s < n <= |a.sets| == |b.sets|
    requires forall i :: 0 <= i < n && i != s ==> a.sets[i].state == b.sets[i].state
    ensures multiset(PoolContents(f, a, p, n)) + multiset(f(p, s, b.sets[s].state))
         == multiset(PoolContents(f, b, p, n)) + multiset(f(p, s, a.sets[s].state))
    decreases n
  {
    if s == n - 1 {
      PoolFramed(f, a, b, p, n - 1);
      SwapLast(PoolContents(f, a, p, n - 1), f(p, s, a.sets[s].state), f(p, s, b.sets[s].state));
    } else {
      PoolStateChange(f, a, b, p, s, n - 1);
      AddBoth(PoolContents(f, a, p, n - 1), PoolContents(f, b, p, n - 1), f(p, n - 1, a.sets[n - 1].state),
              multiset(f(p, s, b.sets[s].state)), multiset(f(p, s, a.sets[s].state)));
    }
  }

  /** One pool is replaced; `gone` leaves and `come` enters. */
  lemma {:induction false} PoolReplaced<T>(f: PerSet<T>, t: Layout, u: Layout, p: nat, gone: multiset<VNode<T>>,
                                           come: multiset<VNode<T>>, n: nat)
    requires p < |t.pools| && n <= |t.pools| == |u.pools|
    requires forall i :: 0 <= i < |t.pools| && i != p ==> t.pools[i] == u.pools[i]
    requires multiset(PoolContents(f, t.pools[p], p, |t.pools[p].sets|)) + come
          == multiset(PoolContents(f, u.pools[p], p, |u.pools[p].sets|)) + gone
    ensures if p < n then multiset(ContentsUpTo(f, t, n)) + come == multiset(ContentsUpTo(f, u, n)) + gone
            else ContentsUpTo(f, t, n) == ContentsUpTo(f, u, n)
    decreases n
  {
    if n > 0 {
      PoolReplaced(f, t, u, p, gone, come, n - 1);
      var last := PoolContents(f, t.pools[n - 1], n - 1, |t.pools[n - 1].sets|);
      if p < n - 1 {
        AddBoth(ContentsUpTo(f, t, n - 1), ContentsUpTo(f, u, n - 1), last, come, gone);
      } else if p == n - 1 {
        AddBefore(ContentsUpTo(f, t, n - 1), last, PoolContents(f, u.pools[p], p, |u.pools[p].sets|), come, gone);
      }
    }
  }

  /** Adding a set adds exactly its virtual nodes. */
  lemma AddSetContents<T>(f: PerSet<T>, t: Layout, p: nat, disks: seq<DiskInfo>)
    requires Accepts(t, AddSet(p, disks))
    ensures multiset(Contents(f, Changed(t, AddSet(p, disks))))
         == multiset(Contents(f, t)) + multiset(f(p, |t.pools[p].sets|, Active))
  {
    var u := Changed(t, AddSet(p, disks));
    var n := |t.pools[p].sets|;
    PoolFramed(f, t.pools[p], u.pools[p], p, n);
    assert PoolContents(f, u.pools[p], p, n + 1) == PoolContents(f, t.pools[p], p, n) + f(p, n, Active);
    PoolReplaced(f, t, u, p, multiset{}, multiset(f(p, n, Active)), |t.pools|);
  }

  /** A state change swaps one set's virtual nodes. */
  lemma StateChangeContents<T>(f: PerSet<T>, t: Layout, p: nat, s: nat, state: SetState)
    requires Accepts(t, SetStateOf(p, s, state))
    ensures multiset(Contents(f, t)) + multiset(f(p, s, state))
         == multiset(Contents(f, Changed(t, SetStateOf(p, s, state)))) + multiset(f(p, s, t.pools[p].sets[s].state))
  {
    var u := Changed(t, SetStateOf(p, s, state));
    var n := |t.pools[p].sets|;
    PoolStateChange(f, t.pools[p], u.pools[p], p, s, n);
    PoolReplaced(f, t, u, p, multiset(f(p, s, t.pools[p].sets[s].state)), multiset(f(p, s, state)), |t.pools|);
  }

  /** A new pool brings nothing. */
  lemma AddPoolContents<T>(f: PerSet<T>, t: Layout)
    ensures Contents(f, Changed(t, AddPool)) == Contents(f, t)
  {
    var u := Changed(t, AddPool);
    PrefixContents(f, t, u, |t.pools|);
    assert PoolContents(f, u.pools[|t.pools|], |t.pools|, 0) == [];
  }

  lemma {:induction false} PrefixContents<T>(f: PerSet<T>, t: Layout, u: Layout, n: nat)
    requires n <= |t.pools| && n <= |u.pools| && forall i :: 0 <= i < n ==> t.pools[i] == u.pools[i]
    ensures ContentsUpTo(f, t, n) == ContentsUpTo(f, u, n)
    decreases n
  {
    if n > 0 {
      PrefixContents(f, t, u, n - 1);
    }
  }
}
