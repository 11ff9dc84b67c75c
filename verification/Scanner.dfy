/** The migration scanner: two rings over all sets of the old and the new topology, one task for
    every object whose owner differs, and a merged queue with the smallest objects first. */
module Scanner {
  import opened Sequences
  import opened Wrappers
  import opened Text
  import opened ClusterTopology
  import opened HashRing
  import opened NodeRing
  import opened TopologyRing
  import Sorting

  const VNODES: nat := 150
  const KEY_BUFFER := 2047
  const BUCKET_BUFFER := 255
  const OBJECT_BUFFER := 1023

  // ----- node numbering -----

  function Encode(p: nat, s: nat): nat {
    p * 1000 + s
  }

  function DecodePool(id: nat): nat {
    id / 1000
  }

  function DecodeSet(id: nat): nat {
    id % 1000
  }

  /** Decoding gives the set back exactly for set numbers below 1000. */
  lemma DecodeExactly(p: nat, s: nat)
    ensures DecodePool(Encode(p, s)) == p && DecodeSet(Encode(p, s)) == s <==> s < 1000
  {
  }

  /** Two sets of different pools get the same node id. */
  ghost predicate Clash(t: Layout) {
    exists p, s, p', s' :: p < p' && InRange(t, p, s) && InRange(t, p', s') && Encode(p, s) == Encode(p', s')
  }

  /** That happens exactly when a pool has more than a thousand sets for every pool number up to a
      later one that is not empty. */
  lemma ClashExactly(t: Layout)
    ensures Clash(t) <==>
              exists p, q :: 0 <= p < q < |t.pools| && |t.pools[q].sets| > 0 && |t.pools[p].sets| > 1000 * (q - p)
  {
    if p, q :| 0 <= p < q < |t.pools| && |t.pools[q].sets| > 0 && |t.pools[p].sets| > 1000 * (q - p) {
      assert InRange(t, p, 1000 * (q - p)) && InRange(t, q, 0) && Encode(p, 1000 * (q - p)) == Encode(q, 0);
    }
  }

  // ----- the rings -----

  function NodeName(p: nat, s: nat): string {
    "pool" + Decimal(p) + "-set" + Decimal(s)
  }

  /** The virtual nodes of a set, whatever its state. */
  function SetVNodes(hash: string -> nat, p: nat, s: nat): (r: seq<VNode<int>>)
    ensures |r| == VNODES && forall v :: v in r ==> v.node == Encode(p, s)
  {
    VNodesOf(hash, Encode(p, s), NodeName(p, s), VNODES)
  }

  function AllSets(hash: string -> nat): PerSet<int> {
    (p: nat, s: nat, state: SetState) => SetVNodes(hash, p, s)
  }

  ghost predicate RingOf(ring: seq<VNode<int>>, hash: string -> nat, t: Layout) {
    Sorted(ring) && multiset(ring) == multiset(Contents(AllSets(hash), t))
  }

  /** What is on a scanner ring: for each set, whatever its state, the hashes of "pool<p>-set<s>:0" to
      "pool<p>-set<s>:149" under the number 1000 p + s. */
  lemma RingExactly(ring: seq<VNode<int>>, hash: string -> nat, t: Layout, h: nat, id: int)
    requires RingOf(ring, hash, t)
    ensures VNode(h, id) in ring <==> exists p: nat, s: nat :: PutBySet(hash, t, p, s, h, id)
  {
    var f := AllSets(hash);
    var node := VNode(h, id);
    assert node in ring <==> node in multiset(ring);
    assert node in Contents(f, t) <==> node in multiset(Contents(f, t));
    Member(f, t, node);
    if p, s :| Gives(f, t, p, s, node) {
      GivesExactly(hash, t, p, s, h, id);
    }
    if p: nat, s: nat :| PutBySet(hash, t, p, s, h, id) {
      GivesExactly(hash, t, p, s, h, id);
    }
  }

  ghost predicate PutBySet(hash: string -> nat, t: Layout, p: nat, s: nat, h: nat, id: int) {
    InRange(t, p, s) && id == 1000 * p + s && OnRingOfSet(hash, p, s, h)
  }

  lemma GivesExactly(hash: string -> nat, t: Layout, p: nat, s: nat, h: nat, id: int)
    ensures Gives(AllSets(hash), t, p, s, VNode(h, id)) <==> PutBySet(hash, t, p, s, h, id)
  {
    if InRange(t, p, s) {
      SetVNodesExactly(hash, p, s, h);
    }
  }

  ghost predicate FromKey(hash: string -> nat, p: nat, s: nat, v: nat, h: nat) {
    h == hash(Cut("pool" + Decimal(p) + "-set" + Decimal(s) + ":" + Decimal(v), 255))
  }

  ghost predicate OnRingOfSet(hash: string -> nat, p: nat, s: nat, h: nat) {
    exists v: nat :: v < 150 && FromKey(hash, p, s, v, h)
  }

  lemma SetVNodesExactly(hash: string -> nat, p: nat, s: nat, h: nat)
    ensures VNode(h, 1000 * p + s) in SetVNodes(hash, p, s) <==> OnRingOfSet(hash, p, s, h)
  {
    var nodes := SetVNodes(hash, p, s);
    var node := VNode(h, 1000 * p + s);
    if OnRingOfSet(hash, p, s, h) {
      var v: nat :| v < 150 && FromKey(hash, p, s, v, h);
      VNodesExactly(hash, Encode(p, s), NodeName(p, s), VNODES, v);
      assert nodes[v] == node;
    }
    if node in nodes {
      var v: nat :| v < |nodes| && nodes[v] == node;
      VNodesExactly(hash, Encode(p, s), NodeName(p, s), VNODES, v);
      assert FromKey(hash, p, s, v, h);
    }
  }

  /** Node ids of the first `n` sets of pool `p`, and of the first `n` pools. */
  ghost function PoolIds(p: nat, n: nat): set<int> {
    set s | 0 <= s < n :: Encode(p, s)
  }

  ghost function IdsUpTo(t: Layout, n: nat): set<int>
    requires n <= |t.pools|
  {
    if n == 0 then {} else IdsUpTo(t, n - 1) + PoolIds(n - 1, |t.pools[n - 1].sets|)
  }

  lemma {:induction false} IdMember(t: Layout, n: nat, p: nat, s: nat)
    requires n <= |t.pools| && p < n && InRange(t, p, s)
    ensures Encode(p, s) in IdsUpTo(t, n)
    decreases n
  {
    if p < n - 1 {
      IdMember(t, n - 1, p, s);
    }
  }

  lemma {:induction false} MemberId(t: Layout, n: nat, id: int)
    requires n <= |t.pools| && id in IdsUpTo(t, n)
    ensures exists p, s :: p < n && InRange(t, p, s) && Encode(p, s) == id
    decreases n
  {
    if id in PoolIds(n - 1, |t.pools[n - 1].sets|) {
      var s :| 0 <= s < |t.pools[n - 1].sets| && Encode(n - 1, s) == id;
      assert InRange(t, n - 1, s);
    } else {
      MemberId(t, n - 1, id);
    }
  }

  /** The ring after the first `p` pools and the first `n` sets of the next one. */
  ghost predicate Progress(ring: seq<VNode<int>>, hash: string -> nat, t: Layout, p: nat, n: nat)
    requires p < |t.pools| && n <= |t.pools[p].sets|
  {
    && multiset(ring) == multiset(ContentsUpTo(AllSets(hash), t, p) + PoolContents(AllSets(hash), t.pools[p], p, n))
    && Ids(ring) == IdsUpTo(t, p) + PoolIds(p, n)
    && forall q :: 0 <= q < n ==> Encode(p, q) !in IdsUpTo(t, p)
  }

  /** The ring after the first `p` pools. */
  ghost predicate PoolsDone(ring: seq<VNode<int>>, hash: string -> nat, t: Layout, p: nat)
    requires p <= |t.pools|
  {
    && multiset(ring) == multiset(ContentsUpTo(AllSets(hash), t, p))
    && Ids(ring) == IdsUpTo(t, p)
    && forall q, s :: q < p && InRange(t, q, s) ==> Encode(q, s) !in IdsUpTo(t, q)
  }

  lemma ProgressStarts(ring: seq<VNode<int>>, hash: string -> nat, t: Layout, p: nat)
    requires p < |t.pools| && PoolsDone(ring, hash, t, p)
    ensures Progress(ring, hash, t, p, 0)
  {
    var c := ContentsUpTo(AllSets(hash), t, p);
    assert c + PoolContents(AllSets(hash), t.pools[p], p, 0) == c;
    assert PoolIds(p, 0) == {};
  }

  lemma ProgressEnds(ring: seq<VNode<int>>, earlier: seq<VNode<int>>, hash: string -> nat, t: Layout, p: nat)
    requires p < |t.pools| && PoolsDone(earlier, hash, t, p) && Progress(ring, hash, t, p, |t.pools[p].sets|)
    ensures PoolsDone(ring, hash, t, p + 1)
  {
  }

  lemma ProgressAdds(ring: seq<VNode<int>>, next: seq<VNode<int>>, hash: string -> nat, t: Layout, p: nat, n: nat)
    requires p < |t.pools| && n < |t.pools[p].sets| && Progress(ring, hash, t, p, n) && Encode(p, n) !in Ids(ring)
    requires multiset(next) == multiset(ring) + multiset(SetVNodes(hash, p, n))
    requires Ids(next) == Ids(ring) + {Encode(p, n)}
    ensures Progress(next, hash, t, p, n + 1)
  {
    ContentsAdd(hash, t, p, n);
    IdsAdd(IdsUpTo(t, p), p, n);
  }

  lemma IdsAdd(known: set<int>, p: nat, n: nat)
    ensures known + PoolIds(p, n + 1) == known + PoolIds(p, n) + {Encode(p, n)}
  {
    assert PoolIds(p, n + 1) == PoolIds(p, n) + {Encode(p, n)};
  }

  lemma ContentsAdd(hash: string -> nat, t: Layout, p: nat, n: nat)
    requires p < |t.pools| && n < |t.pools[p].sets|
    ensures multiset(ContentsUpTo(AllSets(hash), t, p) + PoolContents(AllSets(hash), t.pools[p], p, n + 1))
         == multiset(ContentsUpTo(AllSets(hash), t, p) + PoolContents(AllSets(hash), t.pools[p], p, n))
            + multiset(SetVNodes(hash, p, n))
  {
    AppendThird(ContentsUpTo(AllSets(hash), t, p), PoolContents(AllSets(hash), t.pools[p], p, n),
                SetVNodes(hash, p, n));
  }

  lemma AppendThird<T>(c: seq<T>, d: seq<T>, e: seq<T>)
    ensures multiset(c + (d + e)) == multiset(c + d) + multiset(e)
  {
    ConcatAssociates(c, d, e);
  }

  /** Within a pool node ids differ, so a known id belongs to an earlier pool. */
  lemma KnownIdClashes(ring: seq<VNode<int>>, hash: string -> nat, t: Layout, p: nat, n: nat)
    requires p < |t.pools| && n < |t.pools[p].sets| && Progress(ring, hash, t, p, n) && Encode(p, n) in Ids(ring)
    ensures Clash(t)
  {
    MemberId(t, p, Encode(p, n));
    assert InRange(t, p, n);
  }

  lemma NoClash(t: Layout)
    requires forall q, s :: q < |t.pools| && InRange(t, q, s) ==> Encode(q, s) !in IdsUpTo(t, q)
    ensures !Clash(t)
  {
    forall p, s, p', s' | p < p' && InRange(t, p, s) && InRange(t, p', s')
      ensures Encode(p, s) != Encode(p', s')
    {
      IdMember(t, p', p, s);
    }
  }

  /** Adds every set as a node.  It gives up exactly when two sets clash. */
  method TopologyToRing(hash: string -> nat, t: Layout) returns (ring: Ring?)
    ensures ring == null <==> Clash(t)
    ensures ring != null ==> fresh(ring) && ring.Valid() && ring.hash == hash && RingOf(ring.vnodes, hash, t)
  {
    var built := new Ring(VNODES, hash);
    for p := 0 to |t.pools|
      invariant fresh(built) && built.Valid() && built.hash == hash && built.vnodesPerNode == VNODES
      invariant PoolsDone(built.vnodes, hash, t, p)
    {
      var ok := AddPoolSets(built, hash, t, p);
      if !ok {
        return null;
      }
    }
    NoClash(t);
    return built;
  }

  method AddPoolSets(ring: Ring, hash: string -> nat, t: Layout, p: nat) returns (ok: bool)
    requires p < |t.pools| && ring.Valid() && ring.hash == hash && ring.vnodesPerNode == VNODES
    requires PoolsDone(ring.vnodes, hash, t, p)
    modifies ring
    ensures ring.Valid()
    ensures if ok then PoolsDone(ring.vnodes, hash, t, p + 1) else Clash(t)
  {
    ghost var earlier := ring.vnodes;
    ProgressStarts(earlier, hash, t, p);
    for s := 0 to |t.pools[p].sets|
      invariant ring.Valid() && Progress(ring.vnodes, hash, t, p, s)
    {
      ghost var before := ring.vnodes;
      ok := ring.AddNode(Encode(p, s), NodeName(p, s));
      if !ok {
        KnownIdClashes(before, hash, t, p, s);
        return false;
      }
      ProgressAdds(before, ring.vnodes, hash, t, p, s);
    }
    ProgressEnds(ring.vnodes, earlier, hash, t, p);
    return true;
  }

  // ----- tasks -----

  /** An object met on a disk: an xl.meta file under a bucket. */
  datatype Found = Found(bucket: string, object_: string, size: int, modTime: int)

  datatype Task = Task(bucket: string, object_: string, oldPool: nat, oldSet: nat, newPool: nat, newSet: nat,
                       size: int, modTime: int, retries: nat)

  function ObjectKey(o: Found): string {
    Cut(o.bucket + "/" + o.object_, KEY_BUFFER)
  }

  /** What Ring.Lookup answers. */
  function OwnerOrNone(ring: seq<VNode<int>>, x: nat): int {
    if ring == [] then -1 else Owner(ring, x)
  }

  /** The task for an object, if its owner differs between the rings. */
  function TaskFor(hash: string -> nat, old_: seq<VNode<int>>, new_: seq<VNode<int>>, o: Found): Option<Task> {
    var a := OwnerOrNone(old_, hash(ObjectKey(o)));
    var b := OwnerOrNone(new_, hash(ObjectKey(o)));
    if a < 0 || b < 0 || a == b then None
    else Some(Task(Cut(o.bucket, BUCKET_BUFFER), Cut(o.object_, OBJECT_BUFFER), DecodePool(a), DecodeSet(a),
                   DecodePool(b), DecodeSet(b), o.size, o.modTime, 0))
  }

  /** The tasks of the objects met on one disk, in order. */
  function TasksOf(hash: string -> nat, old_: seq<VNode<int>>, new_: seq<VNode<int>>, objects: seq<Found>): seq<Task> {
    if objects == [] then []
    else
      var n := |objects| - 1;
      var last := TaskFor(hash, old_, new_, objects[n]);
      TasksOf(hash, old_, new_, objects[..n]) + if last.Some? then [last.value] else []
  }

  /** Every task comes from an object and every moving object has its task. */
  lemma {:induction false} TasksExactly(hash: string -> nat, old_: seq<VNode<int>>, new_: seq<VNode<int>>,
                                        objects: seq<Found>, task: Task)
    ensures task in TasksOf(hash, old_, new_, objects) <==>
              exists i :: 0 <= i < |objects| && TaskFor(hash, old_, new_, objects[i]) == Some(task)
    decreases |objects|
  {
    if objects != [] {
      var n := |objects| - 1;
      TasksExactly(hash, old_, new_, objects[..n], task);
      assert objects == objects[..n] + [objects[n]];
    }
  }

  /** The object's owner differs between the rings; its key is "bucket/object", cut to the buffer. */
  ghost predicate Moves(hash: string -> nat, old_: seq<VNode<int>>, new_: seq<VNode<int>>, o: Found) {
    var x := hash(Cut(o.bucket + "/" + o.object_, KEY_BUFFER));
    old_ != [] && new_ != [] && Owner(old_, x) != Owner(new_, x)
  }

  /** The objects that move, in order. */
  ghost function Moving(hash: string -> nat, old_: seq<VNode<int>>, new_: seq<VNode<int>>,
                        objects: seq<Found>): seq<Found>
  {
    if objects == [] then []
    else
      var n := |objects| - 1;
      Moving(hash, old_, new_, objects[..n]) + if Moves(hash, old_, new_, objects[n]) then [objects[n]] else []
  }

  /** A task says where an object is and where it goes: what was found, and both owners in base 1000. */
  ghost predicate Describes(task: Task, hash: string -> nat, old_: seq<VNode<int>>, new_: seq<VNode<int>>, o: Found)
    requires old_ != [] && new_ != []
  {
    var x := hash(Cut(o.bucket + "/" + o.object_, KEY_BUFFER));
    && task.bucket == Cut(o.bucket, BUCKET_BUFFER) && task.object_ == Cut(o.object_, OBJECT_BUFFER)
    && task.size == o.size && task.modTime == o.modTime && task.retries == 0
    && task.oldSet < 1000 && 1000 * task.oldPool + task.oldSet == Owner(old_, x)
    && task.newSet < 1000 && 1000 * task.newPool + task.newSet == Owner(new_, x)
  }

  /** The rings of topologies have no negative ids. */
  ghost predicate NonNegative(ring: seq<VNode<int>>) {
    forall i :: 0 <= i < |ring| ==> ring[i].node >= 0
  }

  lemma RingsNonNegative(ring: seq<VNode<int>>, hash: string -> nat, t: Layout)
    requires RingOf(ring, hash, t)
    ensures NonNegative(ring)
  {
    forall i | 0 <= i < |ring|
      ensures ring[i].node >= 0
    {
      RingIds(ring, hash, t, i);
    }
  }

  ghost predicate Matched(tasks: seq<Task>, moving: seq<Found>, hash: string -> nat, old_: seq<VNode<int>>,
                          new_: seq<VNode<int>>) {
    && |tasks| == |moving|
    && forall k :: 0 <= k < |tasks| ==> old_ != [] && new_ != [] && Describes(tasks[k], hash, old_, new_, moving[k])
  }

  lemma MatchedGrows(tasks: seq<Task>, moving: seq<Found>, task: Task, o: Found, hash: string -> nat,
                     old_: seq<VNode<int>>, new_: seq<VNode<int>>)
    requires Matched(tasks, moving, hash, old_, new_) && old_ != [] && new_ != []
    requires Describes(task, hash, old_, new_, o)
    ensures Matched(tasks + [task], moving + [o], hash, old_, new_)
  {
  }

  /** The task list holds one task for every object whose owner differs, and no other, in order, each saying
      what was found and both owners. */
  lemma {:induction false} TasksAreMoves(hash: string -> nat, old_: seq<VNode<int>>, new_: seq<VNode<int>>,
                                         objects: seq<Found>)
    requires NonNegative(old_) && NonNegative(new_)
    ensures Matched(TasksOf(hash, old_, new_, objects), Moving(hash, old_, new_, objects), hash, old_, new_)
    decreases |objects|
  {
    if objects != [] {
      var n := |objects| - 1;
      TasksAreMoves(hash, old_, new_, objects[..n]);
      OneTask(hash, old_, new_, objects[n]);
      var earlier, moved := TasksOf(hash, old_, new_, objects[..n]), Moving(hash, old_, new_, objects[..n]);
      if Moves(hash, old_, new_, objects[n]) {
        MatchedGrows(earlier, moved, TaskFor(hash, old_, new_, objects[n]).value, objects[n], hash, old_, new_);
      } else {
        assert earlier + [] == earlier && moved + [] == moved;
      }
    }
  }

  lemma OneTask(hash: string -> nat, old_: seq<VNode<int>>, new_: seq<VNode<int>>, o: Found)
    requires NonNegative(old_) && NonNegative(new_)
    ensures TaskFor(hash, old_, new_, o).Some? <==> Moves(hash, old_, new_, o)
    ensures Moves(hash, old_, new_, o) ==> Describes(TaskFor(hash, old_, new_, o).value, hash, old_, new_, o)
  {
  }

  /** The moving objects are exactly those of the list that move. */
  lemma {:induction false} MovingExactly(hash: string -> nat, old_: seq<VNode<int>>, new_: seq<VNode<int>>,
                                         objects: seq<Found>, o: Found)
    ensures o in Moving(hash, old_, new_, objects) <==> o in objects && Moves(hash, old_, new_, o)
    decreases |objects|
  {
    if objects != [] {
      var n := |objects| - 1;
      MovingExactly(hash, old_, new_, objects[..n], o);
      assert objects == objects[..n] + [objects[n]];
    }
  }

  /** For the rings of two topologies: the tasks are as many as the objects that move, and every object that
      moves has its own. */
  lemma MovedObjectsHaveTasks(hash: string -> nat, t: Layout, u: Layout, old_: seq<VNode<int>>, new_: seq<VNode<int>>,
                              objects: seq<Found>, o: Found)
    requires RingOf(old_, hash, t) && RingOf(new_, hash, u)
    ensures |TasksOf(hash, old_, new_, objects)| == |Moving(hash, old_, new_, objects)|
    ensures o in objects && Moves(hash, old_, new_, o) ==>
              exists k :: 0 <= k < |TasksOf(hash, old_, new_, objects)| && Moving(hash, old_, new_, objects)[k] == o
                          && Describes(TasksOf(hash, old_, new_, objects)[k], hash, old_, new_, o)
  {
    RingsNonNegative(old_, hash, t);
    RingsNonNegative(new_, hash, u);
    TasksAreMoves(hash, old_, new_, objects);
    MovingExactly(hash, old_, new_, objects, o);
    var moving := Moving(hash, old_, new_, objects);
    if o in moving {
      var k :| 0 <= k < |moving| && moving[k] == o;
      assert Describes(TasksOf(hash, old_, new_, objects)[k], hash, old_, new_, o);
    }
  }

  // ----- growing by one set -----

  lemma RingIds(ring: seq<VNode<int>>, hash: string -> nat, t: Layout, i: nat)
    requires RingOf(ring, hash, t) && i < |ring|
    ensures exists p, s :: InRange(t, p, s) && ring[i].node == Encode(p, s)
  {
    assert ring[i] in multiset(ring);
    assert ring[i] in Contents(AllSets(hash), t);
    Member(AllSets(hash), t, ring[i]);
    var p, s :| Gives(AllSets(hash), t, p, s, ring[i]);
    assert InRange(t, p, s);
  }

  /** If the new topology is the old one plus a set, and sets are numbered below 1000, every task
      moves its object to that set, from the set the old ring names, with both decoded correctly. */
  lemma GrowthTasks(hash: string -> nat, t: Layout, p: nat, disks: seq<DiskInfo>,
                    old_: seq<VNode<int>>, new_: seq<VNode<int>>, o: Found)
    requires Accepts(t, AddSet(p, disks)) && RingOf(old_, hash, t) && RingOf(new_, hash, Changed(t, AddSet(p, disks)))
    requires forall q :: 0 <= q < |t.pools| ==> |t.pools[q].sets| < 1000
    requires CollisionFree(old_)
    ensures var task := TaskFor(hash, old_, new_, o);
            task.Some? ==>
              && task.value.newPool == p && task.value.newSet == |t.pools[p].sets|
              && InRange(t, task.value.oldPool, task.value.oldSet)
              && Owner(old_, hash(ObjectKey(o))) == Encode(task.value.oldPool, task.value.oldSet)
  {
    var task := TaskFor(hash, old_, new_, o);
    if task.Some? {
      var x := hash(ObjectKey(o));
      var s := |t.pools[p].sets|;
      AddSetContents(AllSets(hash), t, p, disks);
      NewIdIsNew(old_, hash, t, p);
      AddMovesOnlyToNew(old_, SetVNodes(hash, p, s), new_, Encode(p, s), x);
      DecodeExactly(p, s);
      OwnerDecodes(old_, hash, t, x);
    }
  }

  lemma NewIdIsNew(ring: seq<VNode<int>>, hash: string -> nat, t: Layout, p: nat)
    requires RingOf(ring, hash, t) && p < |t.pools| && forall q :: 0 <= q < |t.pools| ==> |t.pools[q].sets| < 1000
    ensures forall v :: v in ring ==> v.node != Encode(p, |t.pools[p].sets|)
  {
    forall i | 0 <= i < |ring|
      ensures ring[i].node != Encode(p, |t.pools[p].sets|)
    {
      RingIds(ring, hash, t, i);
    }
  }

  lemma OwnerDecodes(ring: seq<VNode<int>>, hash: string -> nat, t: Layout, x: nat)
    requires RingOf(ring, hash, t) && ring != [] && forall q :: 0 <= q < |t.pools| ==> |t.pools[q].sets| < 1000
    ensures var id := Owner(ring, x);
            id >= 0 && InRange(t, DecodePool(id), DecodeSet(id)) && Encode(DecodePool(id), DecodeSet(id)) == id
  {
    RingIds(ring, hash, t, OwnerIndex(ring, x));
    var p, s :| InRange(t, p, s) && Owner(ring, x) == Encode(p, s);
    DecodeExactly(p, s);
  }

  /** The scanner ignores set states: draining or removing a set, which moves its objects on the
      placement ring, yields no task at all. */
  lemma RetiringYieldsNoTasks(hash: string -> nat, t: Layout, p: nat, s: nat, state: SetState,
                              old_: seq<VNode<int>>, new_: seq<VNode<int>>, o: Found)
    requires Accepts(t, SetStateOf(p, s, state)) && RingOf(old_, hash, t)
    requires RingOf(new_, hash, Changed(t, SetStateOf(p, s, state))) && CollisionFree(old_)
    ensures TaskFor(hash, old_, new_, o) == None
  {
    StateChangeContents(AllSets(hash), t, p, s, state);
    SameVNodes(multiset(old_), multiset(new_), multiset(SetVNodes(hash, p, s)));
    if old_ != [] {
      ArrangementIrrelevant(old_, new_, hash(ObjectKey(o)));
    }
  }

  lemma SameVNodes<T(!new)>(a: multiset<T>, b: multiset<T>, c: multiset<T>)
    requires a + c == b + c
    ensures a == b
  {
    forall x
      ensures a[x] == b[x]
    {
      assert (a + c)[x] == (b + c)[x];
    }
  }

  // ----- scanning and merging -----

  /** The per-disk context. */
  class DiskScan {
    const hash: string -> nat
    const oldRing: Ring
    const newRing: Ring
    var tasks: seq<Task>
    var scanned: nat
    var affected: nat
    var bytes: int

    ghost predicate Valid()
      reads this, oldRing, newRing
    {
      && oldRing.Valid() && newRing.Valid() && oldRing.hash == hash && newRing.hash == hash
      && affected == |tasks| && bytes == Sorting.Sum(SizeOf, tasks)
    }

    constructor (old_: Ring, new_: Ring)
      requires old_.Valid() && new_.Valid() && old_.hash == new_.hash
      ensures Valid() && oldRing == old_ && newRing == new_ && hash == old_.hash && tasks == [] && scanned == 0
    {
      hash, oldRing, newRing := old_.hash, old_, new_;
      tasks, scanned, affected, bytes := [], 0, 0, 0;
    }

    /** Compares the two owners of an object. */
    method NeedsMigration(o: Found) returns (r: Option<(nat, nat)>)
      requires Valid()
      ensures TaskFor(hash, oldRing.vnodes, newRing.vnodes, o).Some? <==> r.Some?
      ensures NonNegative(oldRing.vnodes) && NonNegative(newRing.vnodes) ==>
                (r.Some? <==> Moves(hash, oldRing.vnodes, newRing.vnodes, o))
      ensures r.Some? ==> r.value.0 == OwnerOrNone(oldRing.vnodes, hash(ObjectKey(o)))
                          && r.value.1 == OwnerOrNone(newRing.vnodes, hash(ObjectKey(o)))
    {
      var a := oldRing.Lookup(ObjectKey(o));
      if a < 0 {
        return None;
      }
      var b := newRing.Lookup(ObjectKey(o));
      if b < 0 {
        return None;
      }
      ghost var x := hash(ObjectKey(o));
      assert a == Owner(oldRing.vnodes, x) && b == Owner(newRing.vnodes, x);
      return if a != b then Some((a, b)) else None;
    }

    /** Visits the objects of a disk. */
    method Scan(objects: seq<Found>)
      requires Valid() && tasks == [] && scanned == 0
      modifies this
      ensures Valid() && scanned == |objects|
      ensures tasks == TasksOf(hash, oldRing.vnodes, newRing.vnodes, objects)
    {
      for i := 0 to |objects|
        invariant Valid() && scanned == i
        invariant tasks == TasksOf(hash, oldRing.vnodes, newRing.vnodes, objects[..i])
      {
        assert objects[..i + 1][..i] == objects[..i];
        Visit(objects[i]);
      }
      assert objects[..|objects|] == objects;
    }

    /** Counts one object and appends its task, if it has one. */
    method Visit(o: Found)
      requires Valid()
      modifies this
      ensures Valid() && scanned == old(scanned) + 1
      ensures var task := TaskFor(hash, oldRing.vnodes, newRing.vnodes, o);
              tasks == if task.Some? then old(tasks) + [task.value] else old(tasks)
    {
      scanned := scanned + 1;
      var moves := NeedsMigration(o);
      if moves.Some? {
        var (a, b) := moves.value;
        AddTask(Task(Cut(o.bucket, BUCKET_BUFFER), Cut(o.object_, OBJECT_BUFFER), DecodePool(a), DecodeSet(a),
                     DecodePool(b), DecodeSet(b), o.size, o.modTime, 0));
      }
    }

    method AddTask(task: Task)
      requires Valid()
      modifies this`tasks, this`affected, this`bytes
      ensures Valid() && tasks == old(tasks) + [task]
    {
      assert (tasks + [task])[..|tasks|] == tasks;
      tasks := tasks + [task];
      affected := affected + 1;
      bytes := bytes + task.size;
    }
  }

  function SizeOf(task: Task): int {
    task.size
  }

  /** Joins the per-disk results: the queue is a size-sorted permutation of all tasks, and the
      scanner's counters are its totals. */
  method Merge(lists: seq<seq<Task>>, affectedPerDisk: seq<nat>, bytesPerDisk: seq<int>)
    returns (queue: seq<Task>, affected: nat, bytes: int)
    requires |lists| == |affectedPerDisk| == |bytesPerDisk|
    requires forall i :: 0 <= i < |lists| ==>
               affectedPerDisk[i] == |lists[i]| && bytesPerDisk[i] == Sorting.Sum(SizeOf, lists[i])
    ensures forall i, j :: 0 <= i < j < |queue| ==> queue[i].size <= queue[j].size
    ensures Sorting.SortedBy(SizeOf, queue) && multiset(queue) == multiset(Flatten(lists))
    ensures affected == |queue| && bytes == Sorting.Sum(SizeOf, queue)
  {
    var merged: seq<Task> := [];
    affected, bytes := 0, 0;
    for i := 0 to |lists|
      invariant merged == Flatten(lists[..i])
      invariant affected == |merged| && bytes == Sorting.Sum(SizeOf, merged)
    {
      assert lists[..i + 1][..i] == lists[..i];
      Sorting.SumAppends(SizeOf, merged, lists[i]);
      merged := merged + lists[i];
      affected := affected + affectedPerDisk[i];
      bytes := bytes + bytesPerDisk[i];
    }
    assert lists[..|lists|] == lists;
    queue := Sorting.Sort(SizeOf, merged);
    Sorting.SumPermuted(SizeOf, queue, merged);
    SameSize(queue, merged);
  }
}
