/** The ring object of the hashing library: nodes are added with a number of virtual nodes each,
    removed, and looked up by object name. */
module NodeRing {
  import opened HashRing
  import opened Text

  const DEFAULT_VNODES := 150

  /** Room for a virtual node's key, not counting the terminator. */
  const KEY_ROOM := 255

  /** "name:index", cut to the key buffer. */
  function VNodeKey(name: string, i: nat): string {
    Cut(name + ":" + Decimal(i), KEY_ROOM)
  }

  /** The virtual nodes a node contributes, where `hash` is the seeded string hash. */
  function VNodesOf(hash: string -> nat, id: int, name: string, count: nat): (r: seq<VNode<int>>)
    ensures |r| == count && forall v :: v in r ==> v.node == id
  {
    seq(count, i requires 0 <= i < count => VNode(hash(VNodeKey(name, i)), id))
  }

  /** Keys that fit the buffer name both the node and the index. */
  lemma KeysDiffer(name: string, i: nat, other: string, j: nat)
    requires |name + ":" + Decimal(i)| <= 255 && |other + ":" + Decimal(j)| <= 255
    requires VNodeKey(name, i) == VNodeKey(other, j)
    ensures name == other && i == j
  {
    DecimalIsNumber(i);
    DecimalIsNumber(j);
    LastSeparator(name, other, Decimal(i), Decimal(j), ':');
    DecimalInjective(i, j);
  }

  /** A name that fills the buffer leaves no room for the index: all virtual nodes of the node get one key,
      and so one hash. */
  lemma LongNamesCollide(hash: string -> nat, id: int, name: string, count: nat, i: nat, j: nat)
    requires |name| >= 255 && i < count && j < count
    ensures VNodesOf(hash, id, name, count)[i] == VNodesOf(hash, id, name, count)[j] == VNode(hash(name[..255]), id)
  {
    forall k | 0 <= k < count
      ensures VNodeKey(name, k) == name[..255]
    {
      var text := name + ":" + Decimal(k);
      assert text[..255] == name[..255];
    }
  }

  /** Virtual node `i` sits at the hash of "name:i", cut to 255 characters. */
  lemma VNodesExactly(hash: string -> nat, id: int, name: string, count: nat, i: nat)
    requires i < count
    ensures var key := name + ":" + Decimal(i);
            VNodesOf(hash, id, name, count)[i] == VNode(hash(if |key| > 255 then key[..255] else key), id)
  {
    var key := name + ":" + Decimal(i);
    assert VNodeKey(name, i) == if |key| > 255 then key[..255] else key;
  }

  ghost function Ids(s: seq<VNode<int>>): set<int> {
    set v | v in s :: v.node
  }

  // ----- replicas -----

  function Nodes(s: seq<VNode<int>>): (r: seq<int>)
    ensures |r| == |s|
  {
    seq(|s|, i requires 0 <= i < |s| => s[i].node)
  }

  /** The ring read clockwise from `start`. */
  function Clockwise(s: seq<VNode<int>>, start: nat): (r: seq<int>)
    requires start < |s|
    ensures |r| == |s|
  {
    Nodes(s[start..] + s[..start])
  }

  /** The next slot of a ring of `n` slots. */
  function Successor(pos: nat, n: nat): (r: nat)
    requires pos < n
    ensures r == if pos + 1 < n then pos + 1 else 0
  {
    (pos + 1) % n
  }

  /** The distinct entries in order of first appearance. */
  function FirstAppearances(ids: seq<int>): seq<int> {
    if ids == [] then []
    else
      var before := FirstAppearances(ids[..|ids| - 1]);
      if ids[|ids| - 1] in before then before else before + [ids[|ids| - 1]]
  }

  lemma {:induction false} AppearancesGrow(ids: seq<int>, i: nat)
    requires i <= |ids|
    ensures FirstAppearances(ids[..i]) <= FirstAppearances(ids)
    decreases |ids| - i
  {
    if i == |ids| {
      assert ids[..i] == ids;
    } else {
      assert ids[..i + 1][..i] == ids[..i];
      AppearancesGrow(ids, i + 1);
    }
  }

  /** Nothing is repeated and nothing is left out. */
  lemma {:induction false} AppearancesAreDistinct(ids: seq<int>)
    ensures forall x :: x in FirstAppearances(ids) <==> x in ids
    ensures forall i, j :: 0 <= i < j < |FirstAppearances(ids)| ==> FirstAppearances(ids)[i] != FirstAppearances(ids)[j]
    decreases |ids|
  {
    if ids != [] {
      var n := |ids| - 1;
      AppearancesAreDistinct(ids[..n]);
      assert ids == ids[..n] + [ids[n]];
    }
  }

  lemma {:induction false} DistinctCount<T>(s: seq<T>, elements: set<T>)
    requires forall i, j :: 0 <= i < j < |s| ==> s[i] != s[j]
    requires (forall x :: x in elements ==> x in s) && (forall i :: 0 <= i < |s| ==> s[i] in elements)
    ensures |s| == |elements|
    decreases |s|
  {
    if s == [] {
      assert elements == {};
    } else {
      var n := |s| - 1;
      assert s == s[..n] + [s[n]];
      DistinctCount(s[..n], elements - {s[n]});
    }
  }

  lemma ClockwiseAt(s: seq<VNode<int>>, start: nat, i: nat)
    requires start < |s| && i < |s|
    ensures Clockwise(s, start)[i] == s[if start + i < |s| then start + i else start + i - |s|].node
  {}

  lemma ClockwiseIds(s: seq<VNode<int>>, start: nat, x: int)
    requires start < |s|
    ensures x in Clockwise(s, start) <==> x in Ids(s)
  {
    var turned := s[start..] + s[..start];
    if x in Ids(s) {
      var k :| 0 <= k < |s| && s[k].node == x;
      var i := if k >= start then k - start else k + |s| - start;
      assert turned[i] == s[k];
      assert Nodes(turned)[i] == x;
    }
  }

  /** The first `n` distinct nodes clockwise from a position. */
  function Replicas(s: seq<VNode<int>>, x: nat, n: nat): seq<int>
    requires s != []
  {
    var all := FirstAppearances(Clockwise(s, OwnerIndex(s, x)));
    if n < |all| then all[..n] else all
  }

  /** They are exactly min(n, number of nodes) pairwise different nodes of the ring, the first of
      them the owner. */
  lemma ReplicasAreDistinct(s: seq<VNode<int>>, x: nat, n: nat)
    requires s != [] && n > 0
    ensures var r := Replicas(s, x, n);
            && |r| == (if n < |Ids(s)| then n else |Ids(s)|)
            && (forall i, j :: 0 <= i < j < |r| ==> r[i] != r[j])
            && (forall i :: 0 <= i < |r| ==> r[i] in Ids(s))
            && r != [] && r[0] == Owner(s, x)
  {
    AllNodesAppear(s, OwnerIndex(s, x));
    OwnerAppearsFirst(s, OwnerIndex(s, x));
  }

  lemma AllNodesAppear(s: seq<VNode<int>>, start: nat)
    requires start < |s|
    ensures var all := FirstAppearances(Clockwise(s, start));
            && |all| == |Ids(s)|
            && (forall i, j :: 0 <= i < j < |all| ==> all[i] != all[j])
            && (forall i :: 0 <= i < |all| ==> all[i] in Ids(s))
  {
    var walk := Clockwise(s, start);
    var all := FirstAppearances(walk);
    AppearancesAreDistinct(walk);
    forall y
      ensures y in Ids(s) <==> y in all
    {
      ClockwiseIds(s, start, y);
    }
    DistinctCount(all, Ids(s));
  }

  lemma OwnerAppearsFirst(s: seq<VNode<int>>, start: nat)
    requires start < |s|
    ensures var all := FirstAppearances(Clockwise(s, start)); all != [] && all[0] == s[start].node
  {
    var walk := Clockwise(s, start);
    AppearancesGrow(walk, 1);
    assert walk[0] == s[start].node;
    assert walk[..1][..0] == [];
    assert FirstAppearances(walk[..1]) == [s[start].node];
  }

  // ----- the array of visited nodes -----

  /** Every id the walk for `n` nodes looks up is within an array of `count` + 1 entries. */
  ghost predicate SafeWalk(walk: seq<int>, n: nat, count: nat) {
    forall i :: 0 <= i < |walk| && |FirstAppearances(walk[..i])| < n ==> 0 <= walk[i] <= count
  }

  /** Ids no larger than their number. */
  ghost predicate Bounded(ids: set<int>) {
    forall x :: x in ids ==> 0 <= x <= |ids|
  }

  /** Walks for every number of nodes are safe exactly when the ring's ids are bounded. */
  lemma WalksSafeExactly(s: seq<VNode<int>>, start: nat)
    requires start < |s|
    ensures (forall n: nat :: SafeWalk(Clockwise(s, start), n, |Ids(s)|)) <==> Bounded(Ids(s))
  {
    var walk := Clockwise(s, start);
    if forall n: nat :: SafeWalk(walk, n, |Ids(s)|) {
      forall x | x in Ids(s)
        ensures 0 <= x <= |Ids(s)|
      {
        ClockwiseIds(s, start, x);
        var i :| 0 <= i < |walk| && walk[i] == x;
        assert SafeWalk(walk, |FirstAppearances(walk[..i])| + 1, |Ids(s)|);
      }
    }
    if Bounded(Ids(s)) {
      forall i | 0 <= i < |walk|
        ensures 0 <= walk[i] <= |Ids(s)|
      {
        ClockwiseIds(s, start, walk[i]);
      }
    }
  }

  datatype Op = Add(id: int) | Remove(id: int)

  /** The ids after an operation; adding a known id and removing an unknown one are refused. */
  ghost function Applied(ids: set<int>, op: Op): set<int> {
    match op
    case Add(id) => ids + {id}
    case Remove(id) => ids - {id}
  }

  /** What a caller must heed: a new id is at most the new count, and while the largest admissible id
      is in use no other node is removed. */
  ghost predicate Heeds(ids: set<int>, op: Op) {
    match op
    case Add(id) => id in ids || 0 <= id <= |ids| + 1
    case Remove(id) => id !in ids || id == |ids| || |ids| !in ids
  }

  lemma BoundKeptExactly(ids: set<int>, op: Op)
    requires Bounded(ids)
    ensures Bounded(Applied(ids, op)) <==> Heeds(ids, op)
  {
    var after := Applied(ids, op);
    if op.Add? {
      assert op.id in ids ==> after == ids;
      assert op.id in after;
    } else {
      assert op.id !in ids ==> after == ids;
      assert op.id in ids && op.id != |ids| && |ids| in ids ==> |ids| in after;
    }
  }

  ghost function AppliedAll(ids: set<int>, ops: seq<Op>, n: nat): set<int>
    requires n <= |ops|
  {
    if n == 0 then ids else Applied(AppliedAll(ids, ops, n - 1), ops[n - 1])
  }

  ghost predicate BoundedAt(ids: set<int>, ops: seq<Op>, k: int) {
    0 <= k <= |ops| ==> Bounded(AppliedAll(ids, ops, k))
  }

  ghost predicate HeedsAt(ids: set<int>, ops: seq<Op>, k: int) {
    0 <= k < |ops| ==> Heeds(AppliedAll(ids, ops, k), ops[k])
  }

  lemma BoundedNext(ids: set<int>, ops: seq<Op>, k: int)
    requires 0 <= k < |ops| && BoundedAt(ids, ops, k)
    ensures BoundedAt(ids, ops, k + 1) <==> HeedsAt(ids, ops, k)
  {
    BoundKeptExactly(AppliedAll(ids, ops, k), ops[k]);
  }

  /** A sequence of additions and removals keeps the bound throughout exactly when every one of them
      heeds it. */
  lemma RunBoundedExactly(ids: set<int>, ops: seq<Op>)
    requires Bounded(ids)
    ensures (forall k :: 0 <= k <= |ops| ==> BoundedAt(ids, ops, k))
       <==> (forall k :: 0 <= k < |ops| ==> HeedsAt(ids, ops, k))
  {
    var holds := (k: int) => BoundedAt(ids, ops, k);
    var heeds := (k: int) => HeedsAt(ids, ops, k);
    forall k | 0 <= k < |ops| && holds(k)
      ensures holds(k + 1) <==> heeds(k)
    {
      BoundedNext(ids, ops, k);
    }
    StepByStep(holds, heeds, |ops|);
    assert forall k :: holds(k) == BoundedAt(ids, ops, k);
    assert forall k :: heeds(k) == HeedsAt(ids, ops, k);
  }

  lemma {:induction false} StepByStep(holds: int -> bool, heeds: int -> bool, n: nat)
    requires holds(0) && forall k :: 0 <= k < n && holds(k) ==> (holds(k + 1) <==> heeds(k))
    ensures (forall k :: 0 <= k <= n ==> holds(k)) <==> (forall k :: 0 <= k < n ==> heeds(k))
    decreases n
  {
    if n > 0 {
      StepByStep(holds, heeds, n - 1);
      assert (forall k :: 0 <= k <= n ==> holds(k)) <==> (forall k :: 0 <= k <= n - 1 ==> holds(k)) && holds(n - 1 + 1);
      assert (forall k :: 0 <= k < n ==> heeds(k)) <==> (forall k :: 0 <= k < n - 1 ==> heeds(k)) && heeds(n - 1);
    }
  }

  /** Adding nodes 0 to 3 and removing 0 and 1 leaves id 3 on a ring of two. */
  lemma RemovalsBreakBound()
    ensures var ops := [Add(0), Add(1), Add(2), Add(3), Remove(0), Remove(1)];
            && AppliedAll({}, ops, 6) == {2, 3} && !Bounded({2, 3})
  {
    var ops := [Add(0), Add(1), Add(2), Add(3), Remove(0), Remove(1)];
    assert AppliedAll({}, ops, 2) == {0, 1};
    assert AppliedAll({}, ops, 4) == {0, 1, 2, 3};
    assert 3 in {2, 3} && |{2, 3}| == 2;
  }

  ghost predicate Marks(seen: seq<bool>, out: seq<int>) {
    forall x :: 0 <= x < |seen| ==> (seen[x] <==> x in out)
  }

  lemma AppearancesStep(ids: seq<int>, i: nat)
    requires i < |ids|
    ensures var before := FirstAppearances(ids[..i]);
            FirstAppearances(ids[..i + 1]) == if ids[i] in before then before else before + [ids[i]]
  {
    assert ids[..i + 1][..i] == ids[..i];
  }

  class Ring {
    const hash: string -> nat
    const vnodesPerNode: nat
    var vnodes: seq<VNode<int>>
    var nodeCount: nat

    ghost predicate Valid()
      reads this
    {
      Sorted(vnodes) && vnodesPerNode > 0 && nodeCount == |Ids(vnodes)|
    }

    /** A count of zero stands for the default. */
    constructor (perNode: nat, seededHash: string -> nat)
      ensures Valid() && vnodes == [] && hash == seededHash
      ensures vnodesPerNode == if perNode == 0 then DEFAULT_VNODES else perNode
    {
      hash := seededHash;
      vnodesPerNode := if perNode == 0 then DEFAULT_VNODES else perNode;
      vnodes, nodeCount := [], 0;
      new;
      assert Ids([]) == {};
    }

    predicate Contains(id: int)
      reads this
    {
      exists i :: 0 <= i < |vnodes| && vnodes[i].node == id
    }

    method AddNode(id: int, name: string) returns (ok: bool)
      requires Valid()
      modifies this
      ensures Valid() && ok == !old(Contains(id))
      ensures ok ==> multiset(vnodes) == multiset(old(vnodes)) + multiset(VNodesOf(hash, id, name, vnodesPerNode))
      ensures ok ==> nodeCount == old(nodeCount) + 1
      ensures Ids(vnodes) == Applied(Ids(old(vnodes)), Add(id))
      ensures !ok ==> unchanged(this)
    {
      for i := 0 to |vnodes|
        invariant forall j :: 0 <= j < i ==> vnodes[j].node != id
      {
        if vnodes[i].node == id {
          assert Ids(vnodes) + {id} == Ids(vnodes);
          return false;
        }
      }
      var grown := vnodes;
      for i := 0 to vnodesPerNode
        invariant grown == vnodes + VNodesOf(hash, id, name, i)
      {
        grown := grown + [VNode(hash(VNodeKey(name, i)), id)];
      }
      ghost var added := VNodesOf(hash, id, name, vnodesPerNode);
      var sorted := Sort(grown);
      IdsAfterAdd(vnodes, added, sorted, id);
      vnodes := sorted;
      nodeCount := nodeCount + 1;
      return true;
    }

    method RemoveNode(id: int) returns (ok: bool)
      requires Valid()
      modifies this
      ensures Valid() && ok == old(Contains(id))
      ensures ok ==> vnodes == Without(old(vnodes), id) && nodeCount == old(nodeCount) - 1
      ensures Ids(vnodes) == Applied(Ids(old(vnodes)), Remove(id))
      ensures !ok ==> unchanged(this)
    {
      var removeCount := 0;
      for i := 0 to |vnodes|
        modifies {}
        invariant removeCount == 0 <==> forall j :: 0 <= j < i ==> vnodes[j].node != id
      {
        if vnodes[i].node == id {
          removeCount := removeCount + 1;
        }
      }
      if removeCount == 0 {
        return false;
      }
      var kept := Keep(vnodes, id);
      WithoutSorted(vnodes, id);
      IdsAfterRemove(vnodes, id);
      vnodes := kept;
      nodeCount := nodeCount - 1;
      return true;
    }

    /** Copies the other nodes' virtual nodes, in order. */
    static method Keep(s: seq<VNode<int>>, id: int) returns (kept: seq<VNode<int>>)
      ensures kept == Without(s, id)
    {
      kept := [];
      for i := 0 to |s|
        invariant kept == Without(s[..i], id)
      {
        WithoutStep(s[..i], s[i], id);
        assert s[..i + 1] == s[..i] + [s[i]];
        if s[i].node != id {
          kept := kept + [s[i]];
        }
      }
      assert s[..|s|] == s;
    }

    /** The owner of an object, or -1 on an empty ring. */
    method Lookup(name: string) returns (id: int)
      requires Valid()
      ensures id == if vnodes == [] then -1 else Owner(vnodes, hash(name))
    {
      if |vnodes| == 0 {
        return -1;
      }
      var i := FindVNode(vnodes, hash(name));
      return vnodes[i].node;
    }

    /** The nodes for `n` replicas.  The ids met on the way must not exceed the node count: the code
        marks visited nodes in an array of that size. */
    method LookupN(name: string, n: nat) returns (out: seq<int>)
      requires Valid()
      requires vnodes != [] ==> SafeWalk(Clockwise(vnodes, OwnerIndex(vnodes, hash(name))), n, nodeCount)
      ensures vnodes == [] || n == 0 ==> out == []
      ensures vnodes != [] && n > 0 ==> out == Replicas(vnodes, hash(name), n)
    {
      out := [];
      if n == 0 || |vnodes| == 0 {
        return;
      }
      var start := FindVNode(vnodes, hash(name));
      out := Walk(vnodes, start, n, nodeCount);
    }

    /** Appends a node unless it is marked, and marks it. */
    static method Visit(seen: array<bool>, sofar: seq<int>, id: int) returns (out: seq<int>)
      requires Marks(seen[..], sofar) && 0 <= id < seen.Length
      modifies seen
      ensures Marks(seen[..], out) && out == if id in sofar then sofar else sofar + [id]
    {
      out := sofar;
      if !seen[id] {
        out := out + [id];
        seen[id] := true;
      }
    }

    /** Walks clockwise from `start`, marking visited nodes, until `n` are found. */
    static method Walk(s: seq<VNode<int>>, start: nat, n: nat, count: nat) returns (out: seq<int>)
      requires start < |s| && SafeWalk(Clockwise(s, start), n, count)
      ensures var all := FirstAppearances(Clockwise(s, start)); out == if n < |all| then all[..n] else all
    {
      ghost var walk := Clockwise(s, start);
      var seen := new bool[count + 1](_ => false);
      out := [];
      var pos, i := start, 0;
      while i < |s| && |out| < n
        invariant i <= |s| && |out| <= n && pos == if start + i < |s| then start + i else start + i - |s|
        invariant out == FirstAppearances(walk[..i])
        invariant Marks(seen[..], out)
      {
        ClockwiseAt(s, start, i);
        AppearancesStep(walk, i);
        out := Visit(seen, out, s[pos].node);
        pos := Successor(pos, |s|);
        i := i + 1;
      }
      AppearancesGrow(walk, i);
      assert walk[..|walk|] == walk;
    }
  }

  lemma IdsAfterAdd(s: seq<VNode<int>>, added: seq<VNode<int>>, t: seq<VNode<int>>, id: int)
    requires multiset(t) == multiset(s + added) && added != []
    requires (forall j :: 0 <= j < |s| ==> s[j].node != id) && (forall v :: v in added ==> v.node == id)
    ensures Ids(t) == Ids(s) + {id} && |Ids(t)| == |Ids(s)| + 1
  {
    SameMembers(s + added, t);
    SameMembers(t, s + added);
    assert added[0] in s + added;
    assert Ids(t) == Ids(s) + {id} by {
      forall x | x in Ids(s) + {id}
        ensures x in Ids(t)
      {
        if x == id {
          assert (s + added)[|s|] in t;
        } else {
          var k :| 0 <= k < |s| && s[k].node == x;
          assert (s + added)[k] in t;
        }
      }
    }
    assert id !in Ids(s);
  }

  lemma IdsAfterRemove(s: seq<VNode<int>>, id: int)
    requires exists j :: 0 <= j < |s| && s[j].node == id
    ensures Ids(Without(s, id)) == Ids(s) - {id} && |Ids(Without(s, id))| == |Ids(s)| - 1
  {
    WithoutMembers(s, id);
    assert Ids(Without(s, id)) == Ids(s) - {id} by {
      forall x | x in Ids(s) - {id}
        ensures x in Ids(Without(s, id))
      {
        var k :| 0 <= k < |s| && s[k].node == x;
        WithoutCounts(s, id, s[k]);
        assert s[k] in multiset(s);
        assert s[k] in multiset(Without(s, id));
        assert s[k] in Without(s, id);
      }
    }
    assert id in Ids(s);
  }

  lemma {:induction false} WithoutStep(s: seq<VNode<int>>, v: VNode<int>, id: int)
    ensures Without(s + [v], id) == Without(s, id) + if v.node == id then [] else [v]
    decreases |s|
  {
    if s == [] {
      assert s + [v] == [v];
    } else {
      assert (s + [v])[1..] == s[1..] + [v];
      WithoutStep(s[1..], v, id);
    }
  }
}
