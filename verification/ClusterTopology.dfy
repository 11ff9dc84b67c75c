/** The cluster topology: pools of erasure sets with a generation number, and the three ways
    the code changes it. */
module ClusterTopology {
  import opened Wrappers

  datatype SetState = Active | Draining | Removed

  datatype DiskInfo = DiskInfo(endpoint: string, uuid: string, capacity: nat)

  datatype ErasureSet = ErasureSet(idx: int, state: SetState, disks: seq<DiskInfo>)

  datatype Pool = Pool(idx: int, sets: seq<ErasureSet>)

  /** The contents of a topology structure. */
  datatype Layout = Layout(version: int, generation: int, deploymentId: string, vnodeFactor: int, pools: seq<Pool>)

  /** A change request, with the indices as the caller passes them. */
  datatype Change =
    | AddPool
    | AddSet(pool: int, disks: seq<DiskInfo>)
    | SetStateOf(pool: int, set_: int, state: SetState)

  predicate InRange(t: Layout, pool: int, set_: int) {
    0 <= pool < |t.pools| && 0 <= set_ < |t.pools[pool].sets|
  }

  /** Whether the request's arguments are accepted. */
  predicate Accepts(t: Layout, c: Change) {
    match c
    case AddPool => true
    case AddSet(p, disks) => 0 <= p < |t.pools| && |disks| > 0
    case SetStateOf(p, s, _) => InRange(t, p, s)
  }

  /** Whether an accepted request alters anything. */
  predicate Alters(t: Layout, c: Change)
    requires Accepts(t, c)
  {
    c.SetStateOf? ==> t.pools[c.pool].sets[c.set_].state != c.state
  }

  /** The layout after an accepted request. */
  function Changed(t: Layout, c: Change): Layout
    requires Accepts(t, c)
  {
    match c
    case AddPool => t.(pools := t.pools + [Pool(|t.pools|, [])], generation := t.generation + 1)
    case AddSet(p, disks) =>
      var pool := t.pools[p];
      var grown := pool.(sets := pool.sets + [ErasureSet(|pool.sets|, Active, disks)]);
      t.(pools := t.pools[p := grown], generation := t.generation + 1)
    case SetStateOf(p, s, state) =>
      var pool := t.pools[p];
      if pool.sets[s].state == state then t
      else t.(pools := t.pools[p := pool.(sets := pool.sets[s := pool.sets[s].(state := state)])],
              generation := t.generation + 1)
  }

  // ----- what every change keeps -----

  /** Pools and sets carry their own position. */
  ghost predicate Numbered(t: Layout) {
    && (forall p :: 0 <= p < |t.pools| ==> t.pools[p].idx == p)
    && (forall p, s :: InRange(t, p, s) ==> t.pools[p].sets[s].idx == s)
  }

  /** Set `s` of pool `p` is still there, with the same number and disks; once out of the active
      state it stays out. */
  ghost predicate SetKept(t: Layout, u: Layout, p: int, s: int)
    requires InRange(t, p, s)
  {
    && InRange(u, p, s)
    && u.pools[p].sets[s].idx == t.pools[p].sets[s].idx
    && u.pools[p].sets[s].disks == t.pools[p].sets[s].disks
    && (!t.pools[p].sets[s].state.Active? ==> !u.pools[p].sets[s].state.Active?)
  }

  /** `u` was reached from `t` by growth and state changes only. */
  ghost predicate Extends(t: Layout, u: Layout) {
    && u.version == t.version && u.deploymentId == t.deploymentId && u.vnodeFactor == t.vnodeFactor
    && |t.pools| <= |u.pools|
    && (forall p :: 0 <= p < |t.pools| ==> u.pools[p].idx == t.pools[p].idx && |t.pools[p].sets| <= |u.pools[p].sets|)
    && (forall p, s :: InRange(t, p, s) ==> SetKept(t, u, p, s))
  }

  lemma ExtendsReflexive(t: Layout)
    ensures Extends(t, t)
  {
  }

  lemma ExtendsTransitive(t: Layout, u: Layout, v: Layout)
    requires Extends(t, u) && Extends(u, v)
    ensures Extends(t, v)
  {
    forall p, s | InRange(t, p, s)
      ensures SetKept(t, v, p, s)
    {
      assert SetKept(t, u, p, s) && SetKept(u, v, p, s);
    }
  }

  /** Two neighbours in a sequence of layouts, the second extending the first. */
  ghost predicate Link(at: nat -> Option<Layout>, k: nat) {
    at(k).Some? && at(k + 1).Some? && Extends(at(k).value, at(k + 1).value)
  }

  lemma Linked(at: nat -> Option<Layout>, k: nat, t: Option<Layout>, u: Option<Layout>)
    requires at(k) == t && at(k + 1) == u && t.Some? && u.Some? && Extends(t.value, u.value)
    ensures Link(at, k)
  {}

  lemma {:induction false} ChainExtends(at: nat -> Option<Layout>, i: nat, j: nat)
    requires i <= j && at(i).Some? && forall k: nat :: i <= k < j ==> Link(at, k)
    ensures at(j).Some? && Extends(at(i).value, at(j).value)
    decreases j
  {
    if i == j {
      ExtendsReflexive(at(i).value);
    } else {
      ChainExtends(at, i, j - 1);
      assert Link(at, j - 1);
      ExtendsTransitive(at(i).value, at(j - 1).value, at(j).value);
    }
  }

  /** The manager never asks for the active state. */
  predicate Retiring(c: Change) {
    c.SetStateOf? ==> !c.state.Active?
  }

  /** A request for the active state names a set that is active already. */
  predicate RevivesNothing(t: Layout, c: Change)
    requires Accepts(t, c)
  {
    c.SetStateOf? && c.state.Active? ==> t.pools[c.pool].sets[c.set_].state.Active?
  }

  /** One accepted change.  It only grows the topology exactly when it revives no set; it keeps the
      numbering, and the generation counts exactly the requests that altered something. */
  lemma ChangeExtends(t: Layout, c: Change)
    requires Accepts(t, c)
    ensures Extends(t, Changed(t, c)) <==> RevivesNothing(t, c)
    ensures Numbered(t) ==> Numbered(Changed(t, c))
    ensures Changed(t, c).generation == t.generation + (if Alters(t, c) then 1 else 0)
    ensures Changed(t, c) == t <==> !Alters(t, c)
  {
    if !RevivesNothing(t, c) {
      assert !SetKept(t, Changed(t, c), c.pool, c.set_);
    }
  }

  /** Everything but the pools and the generation. */
  ghost predicate SameHeader(t: Layout, u: Layout) {
    u.version == t.version && u.deploymentId == t.deploymentId && u.vnodeFactor == t.vnodeFactor
  }

  /** A new set stands last in its pool, active, numbered by the old count, with the given disks; all
      other pools and the earlier sets are unchanged. */
  lemma AddSetExact(t: Layout, p: int, disks: seq<DiskInfo>)
    ensures Accepts(t, AddSet(p, disks)) <==> 0 <= p < |t.pools| && |disks| > 0
    ensures Accepts(t, AddSet(p, disks)) ==>
              var u := Changed(t, AddSet(p, disks));
              var n := |t.pools[p].sets|;
              && SameHeader(t, u) && u.generation == t.generation + 1 && |u.pools| == |t.pools|
              && (forall q :: 0 <= q < |t.pools| && q != p ==> u.pools[q] == t.pools[q])
              && u.pools[p].idx == t.pools[p].idx && |u.pools[p].sets| == n + 1
              && u.pools[p].sets[..n] == t.pools[p].sets
              && u.pools[p].sets[n].idx == n && u.pools[p].sets[n].state == Active && u.pools[p].sets[n].disks == disks
  {
  }

  /** A new pool stands last, empty, numbered by the old count. */
  lemma AddPoolExact(t: Layout)
    ensures Accepts(t, AddPool)
    ensures var u := Changed(t, AddPool);
            && SameHeader(t, u) && u.generation == t.generation + 1 && |u.pools| == |t.pools| + 1
            && u.pools[..|t.pools|] == t.pools
            && u.pools[|t.pools|].idx == |t.pools| && u.pools[|t.pools|].sets == []
  {
  }

  /** A state change touches the state of one set and nothing else. */
  lemma SetStateExact(t: Layout, p: int, s: int, state: SetState)
    ensures Accepts(t, SetStateOf(p, s, state)) <==> 0 <= p < |t.pools| && 0 <= s < |t.pools[p].sets|
    ensures Accepts(t, SetStateOf(p, s, state)) ==>
              var u := Changed(t, SetStateOf(p, s, state));
              && SameHeader(t, u) && |u.pools| == |t.pools|
              && (forall q :: 0 <= q < |t.pools| && q != p ==> u.pools[q] == t.pools[q])
              && u.pools[p].idx == t.pools[p].idx && |u.pools[p].sets| == |t.pools[p].sets|
              && (forall j :: 0 <= j < |t.pools[p].sets| && j != s ==> u.pools[p].sets[j] == t.pools[p].sets[j])
              && u.pools[p].sets[s].idx == t.pools[p].sets[s].idx
              && u.pools[p].sets[s].disks == t.pools[p].sets[s].disks
              && u.pools[p].sets[s].state == state
  {
  }

  /** The reason for Retiring: a request for the active state revives a drained or removed set. */
  lemma ReactivationPossible(t: Layout, p: int, s: int)
    requires InRange(t, p, s) && !t.pools[p].sets[s].state.Active?
    ensures Accepts(t, SetStateOf(p, s, Active)) && !Extends(t, Changed(t, SetStateOf(p, s, Active)))
    ensures Changed(t, SetStateOf(p, s, Active)).pools[p].sets[s].state.Active?
  {
    ChangeExtends(t, SetStateOf(p, s, Active));
  }

  /** The mutable structure the code works on. */
  class Topology {
    var version: int
    var generation: int
    var deploymentId: string
    var vnodeFactor: int
    var pools: seq<Pool>

    function Contents(): Layout
      reads this
    {
      Layout(version, generation, deploymentId, vnodeFactor, pools)
    }

    constructor (t: Layout)
      ensures Contents() == t
    {
      version, generation, deploymentId := t.version, t.generation, t.deploymentId;
      vnodeFactor, pools := t.vnodeFactor, t.pools;
    }

    /** Deep copy, pool by pool and set by set. */
    constructor Clone(source: Topology)
      ensures Contents() == source.Contents()
    {
      version, generation := source.version, source.generation;
      deploymentId, vnodeFactor := source.deploymentId, source.vnodeFactor;
      pools := [];
      new;
      for i := 0 to |source.pools|
        invariant pools == source.pools[..i]
        invariant (version, generation, deploymentId, vnodeFactor)
               == (source.version, source.generation, source.deploymentId, source.vnodeFactor)
        invariant source.Contents() == old(source.Contents())
      {
        var from := source.pools[i];
        var sets: seq<ErasureSet> := [];
        for j := 0 to |from.sets|
          invariant sets == from.sets[..j]
        {
          sets := sets + [ErasureSet(from.sets[j].idx, from.sets[j].state, from.sets[j].disks)];
        }
        assert sets == from.sets;
        pools := pools + [Pool(from.idx, sets)];
      }
    }

    method Apply(c: Change) returns (ok: bool)
      modifies this
      ensures ok <==> Accepts(old(Contents()), c)
      ensures Contents() == if ok then Changed(old(Contents()), c) else old(Contents())
    {
      match c
      case AddPool =>
        ok := AddEmptyPool();
      case AddSet(p, disks) =>
        ok := AddSetTo(p, disks);
      case SetStateOf(p, s, state) =>
        ok := SetStateAt(p, s, state);
    }

    method AddEmptyPool() returns (ok: bool)
      modifies this
      ensures ok && Contents() == Changed(old(Contents()), AddPool)
    {
      pools := pools + [Pool(|pools|, [])];
      generation := generation + 1;
      return true;
    }

    method AddSetTo(pool: int, disks: seq<DiskInfo>) returns (ok: bool)
      modifies this
      ensures ok <==> Accepts(old(Contents()), AddSet(pool, disks))
      ensures Contents() == if ok then Changed(old(Contents()), AddSet(pool, disks)) else old(Contents())
    {
      if pool < 0 || pool >= |pools| || |disks| == 0 {
        return false;
      }
      var target := pools[pool];
      pools := pools[pool := target.(sets := target.sets + [ErasureSet(|target.sets|, Active, disks)])];
      generation := generation + 1;
      return true;
    }

    method SetStateAt(pool: int, set_: int, state: SetState) returns (ok: bool)
      modifies this
      ensures ok <==> Accepts(old(Contents()), SetStateOf(pool, set_, state))
      ensures Contents() == if ok then Changed(old(Contents()), SetStateOf(pool, set_, state)) else old(Contents())
    {
      if pool < 0 || pool >= |pools| {
        return false;
      }
      var target := pools[pool];
      if set_ < 0 || set_ >= |target.sets| {
        return false;
      }
      if target.sets[set_].state == state {
        return true;
      }
      pools := pools[pool := target.(sets := target.sets[set_ := target.sets[set_].(state := state)])];
      generation := generation + 1;
      return true;
    }
  }
}
