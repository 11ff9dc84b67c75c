/** Object placement: a ring of 150 virtual nodes per active set, rebuilt from the manager's
    topology on request and consulted for every object. */
module Placement {
  import opened Wrappers
  import opened Text
  import opened ClusterTopology
  import opened HashRing
  import opened TopologyRing
  import Quorum
  import TopologyManager

  const VNODES_PER_SET: nat := 150

  /** A set, by pool and set index. */
  type SetId = (nat, nat)

  type KeyedHash = string -> nat

  /** "pool:set:vnode" */
  function VNodeKey(p: nat, s: nat, v: nat): string {
    Decimal(p) + ":" + Decimal(s) + ":" + Decimal(v)
  }

  /** The first `n` virtual nodes of a set. */
  function SetVNodes(hash: KeyedHash, p: nat, s: nat, n: nat): (r: seq<VNode<SetId>>)
    ensures |r| == n && forall v :: v in r ==> v.node == (p, s)
  {
    seq(n, i requires 0 <= i < n => VNode(hash(VNodeKey(p, s, i)), (p, s)))
  }

  /** Only active sets take part. */
  function ActiveSets(hash: KeyedHash): PerSet<SetId> {
    (p: nat, s: nat, state: SetState) => if state.Active? then SetVNodes(hash, p, s, VNODES_PER_SET) else []
  }

  /** A ring correctly built from a topology. */
  ghost predicate BuiltFrom(ring: seq<VNode<SetId>>, hash: KeyedHash, t: Layout) {
    Sorted(ring) && multiset(ring) == multiset(Contents(ActiveSets(hash), t))
  }

  // ----- shape of the ring -----

  ghost function ActiveInPool(pool: Pool, n: nat): nat
    requires n <= |pool.sets|
  {
    if n == 0 then 0 else ActiveInPool(pool, n - 1) + if pool.sets[n - 1].state.Active? then 1 else 0
  }

  ghost function ActiveCount(t: Layout, n: nat): nat
    requires n <= |t.pools|
  {
    if n == 0 then 0 else ActiveCount(t, n - 1) + ActiveInPool(t.pools[n - 1], |t.pools[n - 1].sets|)
  }

  lemma {:induction false} PoolSize(hash: KeyedHash, pool: Pool, p: nat, n: nat)
    requires n <= |pool.sets|
    ensures |PoolContents(ActiveSets(hash), pool, p, n)| == VNODES_PER_SET * ActiveInPool(pool, n)
    decreases n
  {
    if n > 0 {
      PoolSize(hash, pool, p, n - 1);
    }
  }

  lemma {:induction false} RingSizeUpTo(hash: KeyedHash, t: Layout, n: nat)
    requires n <= |t.pools|
    ensures |ContentsUpTo(ActiveSets(hash), t, n)| == VNODES_PER_SET * ActiveCount(t, n)
    decreases n
  {
    if n > 0 {
      RingSizeUpTo(hash, t, n - 1);
      PoolSize(hash, t.pools[n - 1], n - 1, |t.pools[n - 1].sets|);
    }
  }

  /** The ring holds exactly 150 virtual nodes of every active set, none of any other, and nothing
      else. */
  lemma RingShape(ring: seq<VNode<SetId>>, hash: KeyedHash, t: Layout, id: SetId)
    requires BuiltFrom(ring, hash, t)
    ensures |ring| == 150 * ActiveCount(t, |t.pools|)
    ensures NodeCount(ring, id)
         == if InRange(t, id.0, id.1) && t.pools[id.0].sets[id.1].state.Active? then 150 else 0
  {
    var f := ActiveSets(hash);
    SameSize(ring, Contents(f, t));
    RingSizeUpTo(hash, t, |t.pools|);
    CountPermuted(ring, Contents(f, t), id);
    assert Labelled(f);
    CountUpTo(f, t, |t.pools|, id);
  }

  /** What is on the ring: for each active set the hashes of "pool:set:0" to "pool:set:149". */
  lemma RingExactly(ring: seq<VNode<SetId>>, hash: KeyedHash, t: Layout, h: nat, p: nat, s: nat)
    requires BuiltFrom(ring, hash, t)
    ensures VNode(h, (p, s)) in ring <==>
              && InRange(t, p, s) && t.pools[p].sets[s].state.Active?
              && exists v: nat :: v < 150 && FromKey(hash, p, s, v, h)
  {
    var f := ActiveSets(hash);
    var node := VNode(h, (p, s));
    assert node in ring <==> node in multiset(ring);
    assert node in Contents(f, t) <==> node in multiset(Contents(f, t));
    Member(f, t, node);
    SetVNodesExactly(hash, p, s, h);
    if p', s' :| Gives(f, t, p', s', node) {
      assert p' == p && s' == s;
    }
    if InRange(t, p, s) && t.pools[p].sets[s].state.Active? && node in SetVNodes(hash, p, s, VNODES_PER_SET) {
      assert Gives(f, t, p, s, node);
    }
  }

  ghost predicate FromKey(hash: KeyedHash, p: nat, s: nat, v: nat, h: nat) {
    h == hash(Decimal(p) + ":" + Decimal(s) + ":" + Decimal(v))
  }

  lemma SetVNodesExactly(hash: KeyedHash, p: nat, s: nat, h: nat)
    ensures VNode(h, (p, s)) in SetVNodes(hash, p, s, VNODES_PER_SET) <==>
              exists v: nat :: v < 150 && FromKey(hash, p, s, v, h)
  {
    var nodes := SetVNodes(hash, p, s, VNODES_PER_SET);
    if v: nat :| v < 150 && FromKey(hash, p, s, v, h) {
      assert VNodeKey(p, s, v) == Decimal(p) + ":" + Decimal(s) + ":" + Decimal(v);
      assert nodes[v] == VNode(h, (p, s));
    }
    if VNode(h, (p, s)) in nodes {
      var v: nat :| v < |nodes| && nodes[v] == VNode(h, (p, s));
      assert VNodeKey(p, s, v) == Decimal(p) + ":" + Decimal(s) + ":" + Decimal(v);
      assert FromKey(hash, p, s, v, h);
    }
  }

  /** No two virtual nodes of a cluster are hashed from the same key. */
  lemma KeysDiffer(p: nat, s: nat, v: nat, p': nat, s': nat, v': nat)
    requires VNodeKey(p, s, v) == VNodeKey(p', s', v')
    ensures p == p' && s == s' && v == v'
  {
    DecimalIsNumber(p);
    DecimalIsNumber(p');
    DecimalIsNumber(v);
    DecimalIsNumber(v');
    LastSeparator(Decimal(p) + ":" + Decimal(s), Decimal(p') + ":" + Decimal(s'), Decimal(v), Decimal(v'), ':');
    FirstSeparator(Decimal(p), Decimal(p'), Decimal(s), Decimal(s'), ':');
    DecimalInjective(p, p');
    DecimalInjective(s, s');
    DecimalInjective(v, v');
  }

  // ----- a ring that is out of date -----

  lemma RingMember(ring: seq<VNode<SetId>>, hash: KeyedHash, t: Layout, i: nat)
    requires BuiltFrom(ring, hash, t) && i < |ring|
    ensures InRange(t, ring[i].node.0, ring[i].node.1)
  {
    assert ring[i] in multiset(ring);
    assert ring[i] in Contents(ActiveSets(hash), t);
    Member(ActiveSets(hash), t, ring[i]);
    var p, s :| Gives(ActiveSets(hash), t, p, s, ring[i]);
  }

  /** A ring built at any moment of a run of the four changing calls names only sets that exist at
      every later moment: placement does not fail on an index, however stale its ring. */
  lemma StaleRingStaysInRange(ring: seq<VNode<SetId>>, hash: KeyedHash, start: TopologyManager.State,
                              calls: seq<TopologyManager.Call>, i: nat, j: nat, k: nat)
    requires start.cache.Some? && TopologyManager.ValidRun(start, calls) && i <= j <= |calls|
    requires TopologyManager.After(start, calls, i).cache.Some?
    requires BuiltFrom(ring, hash, TopologyManager.After(start, calls, i).cache.value) && k < |ring|
    ensures TopologyManager.After(start, calls, j).cache.Some?
    ensures InRange(TopologyManager.After(start, calls, j).cache.value, ring[k].node.0, ring[k].node.1)
  {
    TopologyManager.RunExtendsBetween(start, calls, i, j);
    var t := TopologyManager.After(start, calls, i).cache.value;
    RingMember(ring, hash, t, k);
    assert SetKept(t, TopologyManager.After(start, calls, j).cache.value, ring[k].node.0, ring[k].node.1);
  }

  /** The same for runs that also load: from a committed topology on an even number of disks or one, as
      long as no failed call leaves a file behind, and on any disks as long as every topology a load can
      return extends the cached one. */
  lemma StaleRingSurvivesLoads(ring: seq<VNode<SetId>>, hash: KeyedHash, start: TopologyManager.State,
                               events: seq<TopologyManager.Event>, content: Layout -> nat, i: nat, j: nat, k: nat)
    requires TopologyManager.TameRun(start, events, content) || TopologyManager.GrowingRun(start, events, content)
    requires i <= j <= |events|
    requires var t := TopologyManager.CacheAt(start, events, content)(i); t.Some? && BuiltFrom(ring, hash, t.value)
    requires k < |ring|
    ensures var u := TopologyManager.CacheAt(start, events, content)(j);
            u.Some? && InRange(u.value, ring[k].node.0, ring[k].node.1)
  {
    if TopologyManager.TameRun(start, events, content) {
      TopologyManager.TameRunExtends(start, events, content, i, j);
    } else {
      TopologyManager.GrowingRunExtends(start, events, content, i, j);
    }
    var at := TopologyManager.CacheAt(start, events, content);
    RingMember(ring, hash, at(i).value, k);
    assert SetKept(at(i).value, at(j).value, ring[k].node.0, ring[k].node.1);
  }

  lemma {:induction false} NodePresent(ring: seq<VNode<SetId>>, id: SetId)
    requires NodeCount(ring, id) > 0
    ensures exists k :: 0 <= k < |ring| && ring[k].node == id
    decreases |ring|
  {
    if ring[0].node != id {
      NodePresent(ring[1..], id);
      var k :| 0 <= k < |ring[1..]| && ring[1..][k].node == id;
      assert ring[k + 1].node == id;
    }
  }

  /** That condition matters.  On any two or more disks, a set added by a call whose save failed
      half-way is adopted by one load and dropped by the next; a ring built in between names a set
      that is no longer there. */
  lemma LoadStrandsRing(ring: seq<VNode<SetId>>, hash: KeyedHash, t: Layout, p: nat, disks: seq<DiskInfo>, n: nat,
                        content: Layout -> nat)
    returns (adopt: TopologyManager.Event, drop: TopologyManager.Event, k: nat)
    requires n >= 2 && Accepts(t, AddSet(p, disks)) && content(Changed(t, AddSet(p, disks))) != content(t)
    requires BuiltFrom(ring, hash, Changed(t, AddSet(p, disks)))
    ensures var s := TopologyManager.State(Some(t), Quorum.All(n, t));
            var failed := TopologyManager.Call(AddSet(p, disks),
                            Quorum.Outcomes(n, n / 2, Quorum.Wrote, Quorum.FailedKeepingOld));
            && adopt.Reload? && drop.Reload? && TopologyManager.Fits(s, adopt) && TopologyManager.Fits(s, drop)
            && var adopted := TopologyManager.Next(TopologyManager.Step(s, failed), adopt, content);
               && adopted.cache == Some(Changed(t, AddSet(p, disks)))
               && TopologyManager.Next(adopted, drop, content).cache == Some(t)
    ensures k < |ring| && !InRange(t, ring[k].node.0, ring[k].node.1)
  {
    adopt, drop := TopologyManager.LoadCanRetract(t, AddSet(p, disks), n, content);
    var id := (p, |t.pools[p].sets|);
    RingShape(ring, hash, Changed(t, AddSet(p, disks)), id);
    NodePresent(ring, id);
    k :| 0 <= k < |ring| && ring[k].node == id;
  }

  /** Every set the ring names exists in the topology. */
  ghost predicate RingFits(ring: seq<VNode<SetId>>, t: Layout) {
    forall k :: 0 <= k < |ring| ==> InRange(t, ring[k].node.0, ring[k].node.1)
  }

  /** A ring in range of the cache stays in range through every load, whichever disks can be read,
      exactly when every topology on a read quorum of the disks has all the sets the ring names. */
  lemma RingSurvivesLoadsExactly(ring: seq<VNode<SetId>>, s: TopologyManager.State, content: Layout -> nat)
    requires s.cache.Some? && Quorum.HashesIdentify(s.disks, content) && RingFits(ring, s.cache.value)
    ensures (forall readable: seq<bool> :: |readable| == |s.disks| ==>
               RingFits(ring, TopologyManager.Next(s, TopologyManager.Reload(readable), content).cache.value))
       <==> (forall v :: Quorum.Holds(s.disks, v) >= Quorum.ReadQuorum(|s.disks|) ==> RingFits(ring, v))
  {
    var p := v => RingFits(ring, v);
    TopologyManager.LoadGivesExactly(s, content, p);
    assert forall v :: p(v) == RingFits(ring, v);
  }

  // ----- rebuilding after one change -----

  lemma NodesOf(ring: seq<VNode<SetId>>, hash: KeyedHash, t: Layout, p: nat, s: nat)
    requires BuiltFrom(ring, hash, t) && !(InRange(t, p, s) && t.pools[p].sets[s].state.Active?)
    ensures forall v :: v in ring ==> v.node != (p, s)
  {
    forall v | v in ring
      ensures v.node != (p, s)
    {
      assert v in multiset(ring);
      assert v in Contents(ActiveSets(hash), t);
      Member(ActiveSets(hash), t, v);
      var p', s' :| Gives(ActiveSets(hash), t, p', s', v);
    }
  }

  /** Adding a set moves objects only to it. */
  lemma AddSetMovement(hash: KeyedHash, t: Layout, p: nat, disks: seq<DiskInfo>,
                       before: seq<VNode<SetId>>, after: seq<VNode<SetId>>, x: nat)
    requires Accepts(t, AddSet(p, disks)) && BuiltFrom(before, hash, t)
    requires BuiltFrom(after, hash, Changed(t, AddSet(p, disks)))
    requires before != [] && CollisionFree(before)
    ensures after != [] && Owner(after, x) in {Owner(before, x), (p, |t.pools[p].sets|)}
  {
    var s := |t.pools[p].sets|;
    AddSetContents(ActiveSets(hash), t, p, disks);
    NodesOf(before, hash, t, p, s);
    AddMovesOnlyToNew(before, SetVNodes(hash, p, s, VNODES_PER_SET), after, (p, s), x);
  }

  /** Draining or removing an active set moves only the objects it owned. */
  lemma RetireMovement(hash: KeyedHash, t: Layout, p: nat, s: nat, state: SetState,
                       before: seq<VNode<SetId>>, after: seq<VNode<SetId>>, x: nat)
    requires Accepts(t, SetStateOf(p, s, state)) && !state.Active? && t.pools[p].sets[s].state.Active?
    requires BuiltFrom(before, hash, t) && BuiltFrom(after, hash, Changed(t, SetStateOf(p, s, state)))
    requires after != [] && CollisionFree(after)
    ensures before != [] && (Owner(before, x) != (p, s) ==> Owner(after, x) == Owner(before, x))
  {
    var u := Changed(t, SetStateOf(p, s, state));
    StateChangeContents(ActiveSets(hash), t, p, s, state);
    NodesOf(after, hash, u, p, s);
    AddMovesOnlyToNew(after, SetVNodes(hash, p, s, VNODES_PER_SET), before, (p, s), x);
  }

  /** Retiring a set that is not active moves nothing. */
  lemma RetireAgainMovesNothing(hash: KeyedHash, t: Layout, p: nat, s: nat, state: SetState,
                                before: seq<VNode<SetId>>, after: seq<VNode<SetId>>, x: nat)
    requires Accepts(t, SetStateOf(p, s, state)) && !state.Active? && !t.pools[p].sets[s].state.Active?
    requires BuiltFrom(before, hash, t) && BuiltFrom(after, hash, Changed(t, SetStateOf(p, s, state)))
    requires before != [] && CollisionFree(before)
    ensures after != [] && Owner(after, x) == Owner(before, x)
  {
    StateChangeContents(ActiveSets(hash), t, p, s, state);
    assert ActiveSets(hash)(p, s, state) == [] == ActiveSets(hash)(p, s, t.pools[p].sets[s].state);
    assert multiset(before) == multiset(before) + multiset([]) == multiset(after) + multiset([]) == multiset(after);
    ArrangementIrrelevant(before, after, x);
  }

  /** Adding a pool moves nothing. */
  lemma AddPoolMovesNothing(hash: KeyedHash, t: Layout, before: seq<VNode<SetId>>, after: seq<VNode<SetId>>, x: nat)
    requires BuiltFrom(before, hash, t) && BuiltFrom(after, hash, Changed(t, AddPool))
    requires before != [] && CollisionFree(before)
    ensures after != [] && Owner(after, x) == Owner(before, x)
  {
    AddPoolContents(ActiveSets(hash), t);
    ArrangementIrrelevant(before, after, x);
  }

  /** The placement layer's state. */
  class Placer {
    /** The hash keyed by a deployment id, if that parses as a UUID. */
    const keyFor: string -> Option<KeyedHash>
    var hash: KeyedHash
    var ring: seq<VNode<SetId>>
    var generation: int
    var initialized: bool

    /** The ring is sorted and, once initialized, not empty. */
    ghost predicate Valid()
      reads this
    {
      Sorted(ring) && (initialized ==> ring != [])
    }

    constructor (key: KeyedHash, derive: string -> Option<KeyedHash>)
      ensures Valid() && !initialized && ring == [] && keyFor == derive
    {
      hash, keyFor := key, derive;
      ring, generation, initialized := [], 0, false;
    }

    /** Replaces the ring; refuses a missing topology and one without active sets, keeping the old
        ring. */
    method BuildHashRing(topology: Option<Layout>) returns (ok: bool)
      requires Valid()
      modifies this`ring, this`generation
      ensures Valid() && ok == (topology.Some? && ActiveCount(topology.value, |topology.value.pools|) > 0)
      ensures ok ==> BuiltFrom(ring, hash, topology.value) && generation == topology.value.generation && ring != []
      ensures !ok ==> unchanged(this)
    {
      if topology.None? {
        return false;
      }
      var t := topology.value;
      var active := CountActive(t);
      if active == 0 {
        return false;
      }
      var unsorted := CreateVNodes(t);
      var sorted := Sort(unsorted);
      RingSizeUpTo(hash, t, |t.pools|);
      SameSize(sorted, unsorted);
      ring, generation := sorted, t.generation;
      return true;
    }

    static method CountActive(t: Layout) returns (count: nat)
      ensures count == ActiveCount(t, |t.pools|)
    {
      count := 0;
      for p := 0 to |t.pools|
        invariant count == ActiveCount(t, p)
      {
        var pool := t.pools[p];
        for s := 0 to |pool.sets|
          invariant count == ActiveCount(t, p) + ActiveInPool(pool, s)
        {
          if pool.sets[s].state.Active? {
            count := count + 1;
          }
        }
      }
    }

    method CreateVNodes(t: Layout) returns (out: seq<VNode<SetId>>)
      ensures out == Contents(ActiveSets(hash), t)
    {
      out := [];
      for p := 0 to |t.pools|
        invariant out == ContentsUpTo(ActiveSets(hash), t, p)
      {
        var more := CreatePool(t.pools[p], p);
        out := out + more;
      }
    }

    method CreatePool(pool: Pool, p: nat) returns (out: seq<VNode<SetId>>)
      ensures out == PoolContents(ActiveSets(hash), pool, p, |pool.sets|)
    {
      out := [];
      for s := 0 to |pool.sets|
        invariant out == PoolContents(ActiveSets(hash), pool, p, s)
      {
        if pool.sets[s].state.Active? {
          var mine := CreateSet(p, s);
          out := out + mine;
        }
      }
    }

    method CreateSet(p: nat, s: nat) returns (out: seq<VNode<SetId>>)
      ensures out == SetVNodes(hash, p, s, VNODES_PER_SET)
    {
      out := [];
      for v := 0 to VNODES_PER_SET
        invariant out == SetVNodes(hash, p, s, v)
      {
        out := out + [VNode(hash(VNodeKey(p, s, v)), (p, s))];
      }
    }

    /** Keys the hash by the deployment id and builds the first ring; a second call does nothing. */
    method Init(topology: Option<Layout>) returns (ok: bool)
      requires Valid()
      modifies this
      ensures Valid() && initialized == ok
      ensures old(initialized) ==> ok && unchanged(this)
      ensures !old(initialized) ==>
                ok == (topology.Some? && keyFor(topology.value.deploymentId).Some?
                       && ActiveCount(topology.value, |topology.value.pools|) > 0)
      ensures !old(initialized) && ok ==>
                && Some(hash) == keyFor(topology.value.deploymentId) && BuiltFrom(ring, hash, topology.value)
                && generation == topology.value.generation
      ensures !ok ==> ring == old(ring) && generation == old(generation)
    {
      if initialized {
        return true;
      }
      if topology.None? {
        return false;
      }
      var key := keyFor(topology.value.deploymentId);
      if key.None? {
        return false;
      }
      hash := key.value;
      ok := BuildHashRing(topology);
      if ok {
        initialized := true;
      }
    }

    method Rebuild(topology: Option<Layout>) returns (ok: bool)
      requires Valid()
      modifies this`ring, this`generation
      ensures Valid()
      ensures ok == (initialized && topology.Some? && ActiveCount(topology.value, |topology.value.pools|) > 0)
      ensures ok ==> BuiltFrom(ring, hash, topology.value) && generation == topology.value.generation
      ensures !ok ==> unchanged(this)
    {
      if !initialized {
        return false;
      }
      ok := BuildHashRing(topology);
    }

    /** The set an object belongs to, by the ring as it stands, checked against the topology. */
    method Compute(bucket: string, object_: string, topology: Option<Layout>) returns (r: Option<SetId>)
      requires Valid()
      ensures r.Some? <==> initialized && topology.Some?
                           && var owner := Owner(ring, hash(bucket + "/" + object_));
                              InRange(topology.value, owner.0, owner.1)
      ensures r.Some? ==> r.value == Owner(ring, hash(bucket + "/" + object_))
    {
      if !initialized || |ring| == 0 || topology.None? {
        return None;
      }
      var i := FindVNode(ring, hash(bucket + "/" + object_));
      var (pool, set_) := ring[i].node;
      if pool >= |topology.value.pools| {
        return None;
      }
      if set_ >= |topology.value.pools[pool].sets| {
        return None;
      }
      return Some((pool, set_));
    }
  }
}
