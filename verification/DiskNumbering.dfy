/** Two places number the disks of a cluster: formatting, where every node writes UUIDs to its local
    disks, and endpoint resolution, which attaches a node's endpoint and disk path to every UUID of
    the topology. */
module DiskNumbering {
  import opened Sequences
  import opened Arithmetic
  import opened Wrappers
  import opened Text
  import opened ClusterTopology

  const ENTRY_BUFFER := 511
  const ENDPOINT_BUFFER := 255
  const VNODE_FACTOR := 150

  /** A node of the cluster configuration: its endpoint and the paths of its disks. */
  datatype Node = Node(endpoint: string, disks: seq<string>)

  /** The format structure: one UUID per set and position. */
  datatype Format = Format(deploymentId: string, perSet: nat, sets: seq<seq<string>>)

  ghost predicate ValidFormat(f: Format) {
    f.perSet > 0 && forall i :: 0 <= i < |f.sets| ==> |f.sets[i]| == f.perSet
  }

  /** Number of disks of the first `n` nodes. */
  function Offset(nodes: seq<Node>, n: nat): nat
    requires n <= |nodes|
  {
    if n == 0 then 0 else Offset(nodes, n - 1) + |nodes[n - 1].disks|
  }

  lemma {:induction false} OffsetsGrow(nodes: seq<Node>, a: nat, b: nat)
    requires a <= b <= |nodes|
    ensures Offset(nodes, a) <= Offset(nodes, b)
    decreases b
  {
    if a < b {
      OffsetsGrow(nodes, a, b - 1);
    }
  }

  // ----- formatting -----

  /** The UUID at a global disk number. */
  function UuidAt(f: Format, g: nat): string
    requires ValidFormat(f) && g / f.perSet < |f.sets|
  {
    f.sets[g / f.perSet][g % f.perSet]
  }

  predicate Fits(f: Format, g: nat)
    requires ValidFormat(f)
  {
    g / f.perSet < |f.sets|
  }

  lemma FitsExactly(f: Format, g: nat)
    requires ValidFormat(f)
    ensures Fits(f, g) <==> g < |f.sets| * f.perSet
  {
    assert g == g / f.perSet * f.perSet + g % f.perSet;
    if g / f.perSet < |f.sets| {
      assert (g / f.perSet + 1) * f.perSet <= |f.sets| * f.perSet by {
        var k := |f.sets| - (g / f.perSet + 1);
        assert k * f.perSet >= 0;
      }
    } else {
      var k := g / f.perSet - |f.sets|;
      assert k * f.perSet >= 0;
    }
  }

  /** The UUID for a global disk number, or None beyond the topology. */
  function UuidFor(f: Format, g: nat): Option<string>
    requires ValidFormat(f)
  {
    if Fits(f, g) then Some(UuidAt(f, g)) else None
  }

  /** Writes local disks in order until a number has no UUID. */
  method WriteLocal(pick: nat -> Option<string>, offset: nat, localDisks: nat) returns (ok: bool, written: seq<string>)
    ensures |written| <= localDisks && forall d :: 0 <= d < |written| ==> pick(offset + d) == Some(written[d])
    ensures if ok then |written| == localDisks else |written| < localDisks && pick(offset + |written|) == None
  {
    written := [];
    for local := 0 to localDisks
      invariant |written| == local && forall d :: 0 <= d < local ==> pick(offset + d) == Some(written[d])
    {
      var uuid := pick(offset + local);
      if uuid.None? {
        return false, written;
      }
      written := written + [uuid.value];
    }
    return true, written;
  }

  /** What node `n` with `localDisks` local disks writes: the UUIDs from its offset on, one per disk, as
      far as the topology reaches. */
  ghost predicate Formatted(f: Format, nodes: seq<Node>, n: nat, localDisks: nat, written: seq<string>)
    requires ValidFormat(f) && n < |nodes|
  {
    && |written| <= localDisks
    && (|written| < localDisks ==> Offset(nodes, n) + |written| >= |f.sets| * f.perSet)
    && forall d :: 0 <= d < |written| ==> UuidFor(f, Offset(nodes, n) + d) == Some(written[d])
  }

  /** Node `me` writes its local disks in order, and stops with an error at the first one beyond the
      topology. */
  method FormatDisks(f: Format, nodes: seq<Node>, me: nat, localDisks: nat) returns (ok: bool, written: seq<string>)
    requires ValidFormat(f) && me < |nodes|
    ensures Formatted(f, nodes, me, localDisks, written) && (ok <==> |written| == localDisks)
    ensures ok <==> localDisks == 0 || Offset(nodes, me) + localDisks <= |f.sets| * f.perSet
  {
    var offset := 0;
    for i := 0 to me
      invariant offset == Offset(nodes, i)
    {
      offset := offset + |nodes[i].disks|;
    }
    ok, written := WriteLocal((g: nat) => UuidFor(f, g), offset, localDisks);
    if ok {
      if localDisks > 0 {
        assert UuidFor(f, offset + (localDisks - 1)) == Some(written[localDisks - 1]);
        FitsExactly(f, offset + localDisks - 1);
      }
    } else {
      FitsExactly(f, offset + |written|);
    }
  }

  // ----- topology from format -----

  function FormattedSet(f: Format, i: nat): ErasureSet
    requires i < |f.sets|
  {
    ErasureSet(i, Active, seq(|f.sets[i]|, j requires 0 <= j < |f.sets[i]| => DiskInfo("", f.sets[i][j], 0)))
  }

  function FromFormat(f: Format): (t: Layout)
    ensures |t.pools| == 1 && |t.pools[0].sets| == |f.sets| && t.generation == 1 && Numbered(t)
  {
    Layout(1, 1, f.deploymentId, VNODE_FACTOR,
           [Pool(0, seq(|f.sets|, i requires 0 <= i < |f.sets| => FormattedSet(f, i)))])
  }

  /** The first topology: one pool of active sets in format order, with the format's UUIDs and deployment
      id, no endpoints and no capacities yet. */
  lemma FromFormatExactly(f: Format, i: nat)
    requires i < |f.sets|
    ensures var t := FromFormat(f);
            && t.version == 1 && t.generation == 1 && t.deploymentId == f.deploymentId && t.vnodeFactor == 150
            && t.pools[0].idx == 0 && |t.pools[0].sets| == |f.sets|
            && var s := t.pools[0].sets[i];
               && s.idx == i && s.state.Active? && |s.disks| == |f.sets[i]|
               && forall j :: 0 <= j < |s.disks| ==> s.disks[j] == DiskInfo("", f.sets[i][j], 0)
  {
  }

  // ----- endpoint resolution -----

  datatype Entry = Entry(uuid: string, endpoint: string)

  /** The node owning a global disk number, by searching the cumulative counts from node `n` on. */
  function OwnerFrom(nodes: seq<Node>, g: nat, n: nat): Option<nat>
    requires n <= |nodes|
    decreases |nodes| - n
  {
    if n == |nodes| then None
    else if Offset(nodes, n) <= g < Offset(nodes, n + 1) then Some(n)
    else OwnerFrom(nodes, g, n + 1)
  }

  /** The search inverts the offsets. */
  lemma {:induction false} OwnerFound(nodes: seq<Node>, n: nat, d: nat, k: nat)
    requires k <= n < |nodes| && d < |nodes[n].disks|
    ensures OwnerFrom(nodes, Offset(nodes, n) + d, k) == Some(n)
    decreases n - k
  {
    if k < n {
      OffsetsGrow(nodes, k + 1, n);
      OwnerFound(nodes, n, d, k + 1);
    }
  }

  function EndpointOf(nodes: seq<Node>, n: nat, d: nat): string
    requires n < |nodes| && d < |nodes[n].disks|
  {
    Cut(nodes[n].endpoint + nodes[n].disks[d], ENTRY_BUFFER)
  }

  /** The map entry for the disk with global number `g`, if some node owns it. */
  function EntryFor(nodes: seq<Node>, uuid: string, g: nat): seq<Entry> {
    var owner := OwnerFrom(nodes, g, 0);
    if owner.Some? && owner.value < |nodes| && 0 <= g - Offset(nodes, owner.value) < |nodes[owner.value].disks| then
      [Entry(uuid, EndpointOf(nodes, owner.value, g - Offset(nodes, owner.value)))]
    else []
  }

  type Maker = (string, nat) -> seq<Entry>

  function MakerFor(nodes: seq<Node>): Maker {
    (uuid: string, g: nat) => EntryFor(nodes, uuid, g)
  }

  lemma {:induction false} OwnerRange(nodes: seq<Node>, g: nat, n: nat)
    requires n <= |nodes|
    ensures var r := OwnerFrom(nodes, g, n);
            r.Some? ==>
              r.value < |nodes| && Offset(nodes, r.value) <= g < Offset(nodes, r.value) + |nodes[r.value].disks|
    decreases |nodes| - n
  {
    if n < |nodes| {
      OwnerRange(nodes, g, n + 1);
    }
  }

  /** Entries for a list of disks numbered from zero. */
  function Entries(make: Maker, disks: seq<DiskInfo>): seq<Entry> {
    if disks == [] then []
    else
      var g := |disks| - 1;
      Entries(make, disks[..g]) + make(disks[g].uuid, g)
  }

  function PoolDisks(pool: Pool, n: nat): seq<DiskInfo>
    requires n <= |pool.sets|
  {
    if n == 0 then [] else PoolDisks(pool, n - 1) + pool.sets[n - 1].disks
  }

  /** All disks of the first `n` pools in the order the code visits them. */
  function DisksUpTo(t: Layout, n: nat): seq<DiskInfo>
    requires n <= |t.pools|
  {
    if n == 0 then [] else DisksUpTo(t, n - 1) + PoolDisks(t.pools[n - 1], |t.pools[n - 1].sets|)
  }

  function AllDisks(t: Layout): seq<DiskInfo> {
    DisksUpTo(t, |t.pools|)
  }

  /** The first entry for a UUID. */
  function LookUp(entries: seq<Entry>, uuid: string): Option<string> {
    if entries == [] then None
    else if entries[0].uuid == uuid then Some(entries[0].endpoint)
    else LookUp(entries[1..], uuid)
  }

  function PopulatedDisk(entries: seq<Entry>, disk: DiskInfo): DiskInfo {
    var found := LookUp(entries, disk.uuid);
    if found.Some? then disk.(endpoint := Cut(found.value, ENDPOINT_BUFFER)) else disk
  }

  function PopulatedSet(entries: seq<Entry>, s: ErasureSet): (r: ErasureSet)
    ensures |r.disks| == |s.disks|
  {
    s.(disks := seq(|s.disks|, d requires 0 <= d < |s.disks| => PopulatedDisk(entries, s.disks[d])))
  }

  function PopulatedPool(entries: seq<Entry>, pool: Pool): (r: Pool)
    ensures |r.sets| == |pool.sets|
  {
    pool.(sets := seq(|pool.sets|, s requires 0 <= s < |pool.sets| => PopulatedSet(entries, pool.sets[s])))
  }

  function Populated(nodes: seq<Node>, t: Layout): (r: Layout)
    ensures |r.pools| == |t.pools|
  {
    var entries := Entries(MakerFor(nodes), AllDisks(t));
    t.(pools := seq(|t.pools|, p requires 0 <= p < |t.pools| => PopulatedPool(entries, t.pools[p])))
  }

  /** Resolution changes endpoints and nothing else, and leaves the disks no node owns as they were. */
  lemma PopulatedKeeps(nodes: seq<Node>, t: Layout, p: nat, s: nat, d: nat)
    requires p < |t.pools| && s < |t.pools[p].sets| && d < |t.pools[p].sets[s].disks|
    ensures var r := Populated(nodes, t);
            var was, now := t.pools[p].sets[s], r.pools[p].sets[s];
            && r == t.(pools := r.pools) && r.pools[p] == t.pools[p].(sets := r.pools[p].sets)
            && |r.pools[p].sets| == |t.pools[p].sets| && now == was.(disks := now.disks) && |now.disks| == |was.disks|
            && now.disks[d] == was.disks[d].(endpoint := now.disks[d].endpoint)
            && (LookUp(Entries(MakerFor(nodes), AllDisks(t)), was.disks[d].uuid).None? ==> now.disks[d] == was.disks[d])
  {
  }

  // ----- building the map and applying it -----

  method FindOwner(nodes: seq<Node>, cumulative: seq<nat>, g: nat) returns (r: Option<nat>)
    requires Cumulative(cumulative, nodes)
    ensures r == OwnerFrom(nodes, g, 0)
  {
    for n := 0 to |nodes|
      invariant OwnerFrom(nodes, g, 0) == OwnerFrom(nodes, g, n)
    {
      if g >= cumulative[n] && g < cumulative[n + 1] {
        return Some(n);
      }
    }
    return None;
  }

  lemma EntriesStep(make: Maker, done: seq<DiskInfo>, disk: DiskInfo)
    ensures Entries(make, done + [disk]) == Entries(make, done) + make(disk.uuid, |done|)
  {
    assert (done + [disk])[..|done|] == done;
  }

  ghost predicate Cumulative(cumulative: seq<nat>, nodes: seq<Node>) {
    |cumulative| == |nodes| + 1 && forall i :: 0 <= i <= |nodes| ==> cumulative[i] == Offset(nodes, i)
  }

  method MakeEntry(nodes: seq<Node>, cumulative: seq<nat>, uuid: string, g: nat,
                   ghost make: Maker) returns (r: seq<Entry>)
    requires Cumulative(cumulative, nodes) && make == MakerFor(nodes)
    ensures r == make(uuid, g)
  {
    var owner := FindOwner(nodes, cumulative, g);
    if owner.None? {
      return [];
    }
    OwnerRange(nodes, g, 0);
    var n := owner.value;
    return [Entry(uuid, Cut(nodes[n].endpoint + nodes[n].disks[g - cumulative[n]], ENTRY_BUFFER))];
  }

  method AddDiskEntry(nodes: seq<Node>, cumulative: seq<nat>, disk: DiskInfo, g: nat, sofar: seq<Entry>,
                      ghost make: Maker, ghost before: seq<DiskInfo>) returns (entries: seq<Entry>)
    requires Cumulative(cumulative, nodes) && make == MakerFor(nodes) && g == |before| && sofar == Entries(make, before)
    ensures entries == Entries(make, before + [disk])
  {
    var entry := MakeEntry(nodes, cumulative, disk.uuid, g, make);
    EntriesStep(make, before, disk);
    return sofar + entry;
  }

  method AddSetEntries(nodes: seq<Node>, cumulative: seq<nat>, disks: seq<DiskInfo>, start: nat, sofar: seq<Entry>,
                       ghost make: Maker, ghost before: seq<DiskInfo>) returns (entries: seq<Entry>)
    requires Cumulative(cumulative, nodes) && make == MakerFor(nodes) && start == |before|
    requires sofar == Entries(make, before)
    ensures entries == Entries(make, before + disks)
  {
    entries := sofar;
    ghost var done := before;
    assert before + disks[..0] == before;
    for d := 0 to |disks|
      invariant done == before + disks[..d] && entries == Entries(make, done)
    {
      entries := AddDiskEntry(nodes, cumulative, disks[d], start + d, entries, make, done);
      AppendNext(before, disks, d);
      done := done + [disks[d]];
    }
    assert disks[..|disks|] == disks;
  }

  method AddPoolEntries(nodes: seq<Node>, cumulative: seq<nat>, pool: Pool, start: nat, sofar: seq<Entry>,
                        ghost make: Maker, ghost before: seq<DiskInfo>) returns (entries: seq<Entry>, next: nat)
    requires Cumulative(cumulative, nodes) && make == MakerFor(nodes) && start == |before|
    requires sofar == Entries(make, before)
    ensures next == |before + PoolDisks(pool, |pool.sets|)|
    ensures entries == Entries(make, before + PoolDisks(pool, |pool.sets|))
  {
    entries, next := sofar, start;
    assert before + PoolDisks(pool, 0) == before;
    for s := 0 to |pool.sets|
      invariant next == |before + PoolDisks(pool, s)| && entries == Entries(make, before + PoolDisks(pool, s))
    {
      entries := AddSetEntries(nodes, cumulative, pool.sets[s].disks, next, entries, make, before + PoolDisks(pool, s));
      ConcatAssociates(before, PoolDisks(pool, s), pool.sets[s].disks);
      next := next + |pool.sets[s].disks|;
    }
  }

  lemma AppendNext<T>(a: seq<T>, b: seq<T>, i: nat)
    requires i < |b|
    ensures a + b[..i + 1] == (a + b[..i]) + [b[i]]
  {
  }

  method CumulativeCounts(nodes: seq<Node>) returns (cumulative: seq<nat>)
    ensures Cumulative(cumulative, nodes)
  {
    cumulative := [0];
    for i := 0 to |nodes|
      invariant |cumulative| == i + 1 && forall j :: 0 <= j <= i ==> cumulative[j] == Offset(nodes, j)
    {
      cumulative := cumulative + [cumulative[i] + |nodes[i].disks|];
    }
  }

  /** Visits pools, sets and disks in order, counting disks globally. */
  method BuildMap(nodes: seq<Node>, t: Layout) returns (entries: seq<Entry>)
    ensures entries == Entries(MakerFor(nodes), AllDisks(t))
  {
    var cumulative := CumulativeCounts(nodes);
    entries := [];
    var global := 0;
    ghost var make := MakerFor(nodes);
    for p := 0 to |t.pools|
      invariant global == |DisksUpTo(t, p)| && entries == Entries(make, DisksUpTo(t, p))
    {
      entries, global := AddPoolEntries(nodes, cumulative, t.pools[p], global, entries, make, DisksUpTo(t, p));
    }
  }

  lemma {:induction false} OwnerExists(nodes: seq<Node>, g: nat, n: nat)
    requires n <= |nodes| && Offset(nodes, n) <= g
    ensures OwnerFrom(nodes, g, n).Some? <==> g < Offset(nodes, |nodes|)
    decreases |nodes| - n
  {
    if n < |nodes| {
      OffsetsGrow(nodes, n + 1, |nodes|);
      if Offset(nodes, n + 1) <= g {
        OwnerExists(nodes, g, n + 1);
      }
    }
  }

  /** One entry for every disk some node owns. */
  lemma {:induction false} EntryCount(nodes: seq<Node>, disks: seq<DiskInfo>)
    ensures var owned := Offset(nodes, |nodes|);
            |Entries(MakerFor(nodes), disks)| == if |disks| < owned then |disks| else owned
    decreases |disks|
  {
    if disks != [] {
      var g := |disks| - 1;
      EntryCount(nodes, disks[..g]);
      OwnerExists(nodes, g, 0);
      OwnerRange(nodes, g, 0);
    }
  }

  /** The code's map has a fixed number of slots and is filled without a check.  It is not overrun
      exactly when the topology, or the cluster, has no more disks than slots. */
  lemma MapFitsExactly(nodes: seq<Node>, t: Layout, slots: nat)
    ensures |Entries(MakerFor(nodes), AllDisks(t))| <= slots
       <==> |AllDisks(t)| <= slots || Offset(nodes, |nodes|) <= slots
  {
    EntryCount(nodes, AllDisks(t));
  }

  method FindEndpoint(entries: seq<Entry>, uuid: string) returns (r: Option<string>)
    ensures r == LookUp(entries, uuid)
  {
    for i := 0 to |entries|
      invariant LookUp(entries, uuid) == LookUp(entries[i..], uuid)
    {
      if entries[i].uuid == uuid {
        return Some(entries[i].endpoint);
      }
      assert entries[i..][1..] == entries[i + 1..];
    }
    return None;
  }

  /** Sets the endpoint of every disk whose UUID is in the map; a cluster without nodes is left
      alone. */
  method Populate(nodes: seq<Node>, topology: Topology)
    modifies topology`pools
    ensures topology.Contents()
         == if nodes == [] then old(topology.Contents()) else Populated(nodes, old(topology.Contents()))
  {
    if |nodes| == 0 {
      return;
    }
    ghost var target := Populated(nodes, topology.Contents());
    var entries := BuildMap(nodes, topology.Contents());
    var pools: seq<Pool> := [];
    for p := 0 to |topology.pools|
      modifies {}
      invariant pools == target.pools[..p]
    {
      var pool := PopulatePool(entries, topology.pools[p]);
      pools := pools + [pool];
    }
    topology.pools := pools;
  }

  method PopulatePool(entries: seq<Entry>, pool: Pool) returns (r: Pool)
    ensures r == PopulatedPool(entries, pool)
  {
    var sets: seq<ErasureSet> := [];
    for s := 0 to |pool.sets|
      invariant sets == PopulatedPool(entries, pool).sets[..s]
    {
      var next := PopulateSet(entries, pool.sets[s]);
      sets := sets + [next];
    }
    return pool.(sets := sets);
  }

  method PopulateSet(entries: seq<Entry>, s: ErasureSet) returns (r: ErasureSet)
    ensures r == PopulatedSet(entries, s)
  {
    var disks: seq<DiskInfo> := [];
    for d := 0 to |s.disks|
      invariant disks == PopulatedSet(entries, s).disks[..d]
    {
      var disk := s.disks[d];
      var found := FindEndpoint(entries, disk.uuid);
      if found.Some? {
        disk := disk.(endpoint := Cut(found.value, ENDPOINT_BUFFER));
      }
      disks := disks + [disk];
    }
    return s.(disks := disks);
  }

  // ----- agreement -----

  ghost predicate DistinctUuids(disks: seq<DiskInfo>) {
    forall i, j :: 0 <= i < j < |disks| ==> disks[i].uuid != disks[j].uuid
  }

  /** An entry is made for the disk it is asked for. */
  ghost predicate Labelled(make: Maker) {
    forall uuid: string, g: nat, i :: 0 <= i < |make(uuid, g)| ==> make(uuid, g)[i].uuid == uuid
  }

  /** The map sends the UUID of global disk `g` to the entry made for `g`. */
  lemma {:induction false} EntriesLookUp(make: Maker, disks: seq<DiskInfo>, g: nat)
    requires Labelled(make) && DistinctUuids(disks) && g < |disks| && make(disks[g].uuid, g) != []
    ensures LookUp(Entries(make, disks), disks[g].uuid) == Some(make(disks[g].uuid, g)[0].endpoint)
    decreases |disks|
  {
    var n := |disks| - 1;
    LookUpAppends(Entries(make, disks[..n]), make(disks[n].uuid, n), disks[g].uuid);
    if g < n {
      EntriesLookUp(make, disks[..n], g);
    } else {
      NotListed(make, disks[..n], disks[g].uuid);
    }
  }

  lemma {:induction false} LookUpAppends(a: seq<Entry>, b: seq<Entry>, uuid: string)
    ensures LookUp(a + b, uuid) == if LookUp(a, uuid).Some? then LookUp(a, uuid) else LookUp(b, uuid)
    decreases |a|
  {
    if a == [] {
      assert a + b == b;
    } else {
      assert (a + b)[1..] == a[1..] + b;
      LookUpAppends(a[1..], b, uuid);
    }
  }

  lemma {:induction false} NotListed(make: Maker, disks: seq<DiskInfo>, uuid: string)
    requires Labelled(make) && forall i :: 0 <= i < |disks| ==> disks[i].uuid != uuid
    ensures LookUp(Entries(make, disks), uuid) == None
    decreases |disks|
  {
    if disks != [] {
      var n := |disks| - 1;
      NotListed(make, disks[..n], uuid);
      LookUpAppends(Entries(make, disks[..n]), make(disks[n].uuid, n), uuid);
      NoLabel(make(disks[n].uuid, n), uuid);
    }
  }

  lemma {:induction false} NoLabel(entries: seq<Entry>, uuid: string)
    requires forall i :: 0 <= i < |entries| ==> entries[i].uuid != uuid
    ensures LookUp(entries, uuid) == None
    decreases |entries|
  {
    if entries != [] {
      NoLabel(entries[1..], uuid);
    }
  }

  /** The visiting order of a formatted topology is the global numbering. */
  lemma {:induction false} VisitOrder(f: Format, n: nat, g: nat)
    requires ValidFormat(f) && n <= |f.sets| && g < n * f.perSet
    ensures |PoolDisks(FromFormat(f).pools[0], n)| == n * f.perSet && g / f.perSet < n
    ensures PoolDisks(FromFormat(f).pools[0], n)[g].uuid == UuidAt(f, g)
    decreases n
  {
    var m := n - 1;
    var pool := FromFormat(f).pools[0];
    VisitLength(f, n);
    VisitLength(f, m);
    assert n * f.perSet == m * f.perSet + f.perSet;
    if g < m * f.perSet {
      VisitOrder(f, m, g);
    } else {
      DivisionUnique(g, m, f.perSet, g - m * f.perSet);
      assert pool.sets[m] == FormattedSet(f, m);
    }
  }

  lemma {:induction false} VisitLength(f: Format, n: nat)
    requires ValidFormat(f) && n <= |f.sets|
    ensures |PoolDisks(FromFormat(f).pools[0], n)| == n * f.perSet
    decreases n
  {
    if n > 0 {
      VisitLength(f, n - 1);
      assert n * f.perSet == (n - 1) * f.perSet + f.perSet;
      assert FromFormat(f).pools[0].sets[n - 1] == FormattedSet(f, n - 1);
    }
  }

  lemma FormattedDisks(f: Format, g: nat)
    requires ValidFormat(f) && Fits(f, g)
    ensures g < |AllDisks(FromFormat(f))| && AllDisks(FromFormat(f))[g].uuid == UuidAt(f, g)
  {
    FitsExactly(f, g);
    VisitOrder(f, |f.sets|, g);
    var t := FromFormat(f);
    assert DisksUpTo(t, 1) == DisksUpTo(t, 0) + PoolDisks(t.pools[0], |f.sets|);
  }

  /** A topology just built from the format fits the map. */
  lemma FormattedMapFits(f: Format, nodes: seq<Node>)
    requires ValidFormat(f)
    ensures |Entries(MakerFor(nodes), AllDisks(FromFormat(f)))| <= Capacity(f)
  {
    var t := FromFormat(f);
    VisitLength(f, |f.sets|);
    assert DisksUpTo(t, 1) == DisksUpTo(t, 0) + PoolDisks(t.pools[0], |f.sets|);
    MapFitsExactly(nodes, t, Capacity(f));
  }

  /** Formatting and resolution agree, for any list of node disk counts: the set and position whose
      UUID node `n` wrote to its disk `d` gets node `n`'s endpoint and the path of disk `d`. */
  lemma NumberingsAgree(f: Format, nodes: seq<Node>, n: nat, localDisks: nat, written: seq<string>, d: nat, s: nat,
                        j: nat)
    requires ValidFormat(f) && n < |nodes| && Formatted(f, nodes, n, localDisks, written)
    requires d < |written| && d < |nodes[n].disks|
    requires DistinctUuids(AllDisks(FromFormat(f))) && s < |f.sets| && j < f.perSet && f.sets[s][j] == written[d]
    ensures var disk := Populated(nodes, FromFormat(f)).pools[0].sets[s].disks[j];
            && disk.uuid == written[d]
            && disk.endpoint == Cut(nodes[n].endpoint + nodes[n].disks[d], ENDPOINT_BUFFER)
  {
    var t := FromFormat(f);
    assert UuidFor(f, Offset(nodes, n) + d) == Some(written[d]);
    FormattedDisks(f, Offset(nodes, n) + d);
    NodeDiskFound(nodes, AllDisks(t), n, d);
    SlotPopulated(nodes, t, 0, s, j);
    assert t.pools[0].sets[s] == FormattedSet(f, s);
    CutTwice(nodes[n].endpoint + nodes[n].disks[d]);
  }

  /** The disk counts are two: a node writes as many UUIDs as it has local disks, but the map gives it
      only those of its configured disks, and exactly those. */
  lemma OwnedExactly(nodes: seq<Node>, n: nat, d: nat)
    requires n < |nodes|
    ensures OwnerFrom(nodes, Offset(nodes, n) + d, 0) == Some(n) <==> d < |nodes[n].disks|
  {
    if d < |nodes[n].disks| {
      OwnerFound(nodes, n, d, 0);
    } else {
      OwnerRange(nodes, Offset(nodes, n) + d, 0);
    }
  }

  lemma NumbersDiffer(f: Format, g: nat, h: nat)
    requires ValidFormat(f) && Fits(f, g) && Fits(f, h) && DistinctUuids(AllDisks(FromFormat(f)))
    requires UuidAt(f, g) == UuidAt(f, h)
    ensures g == h
  {
    FormattedDisks(f, g);
    FormattedDisks(f, h);
  }

  ghost predicate Share(x: seq<string>, y: seq<string>) {
    exists i, j :: 0 <= i < |x| && 0 <= j < |y| && x[i] == y[j]
  }

  /** Where numbers run out for a node. */
  function Capacity(f: Format): nat {
    |f.sets| * f.perSet
  }

  /** Two nodes write a common UUID exactly when the later one has a local disk to number and the earlier
      one has more of them than fit before it. */
  lemma SharedExactly(f: Format, nodes: seq<Node>, a: nat, b: nat, localA: nat, localB: nat, x: seq<string>,
                      y: seq<string>)
    requires ValidFormat(f) && a < b < |nodes| && DistinctUuids(AllDisks(FromFormat(f)))
    requires Formatted(f, nodes, a, localA, x) && Formatted(f, nodes, b, localB, y)
    ensures Share(x, y) <==>
              localB > 0 && Offset(nodes, b) < Capacity(f) && Offset(nodes, a) + localA > Offset(nodes, b)
  {
    OffsetsGrow(nodes, a, b);
    if y != [] {
      Reaches(f, nodes, b, localB, y);
    }
    var gap := Offset(nodes, b) - Offset(nodes, a);
    if i, j :| 0 <= i < |x| && 0 <= j < |y| && x[i] == y[j] {
      assert UuidFor(f, Offset(nodes, a) + i) == Some(x[i]) && UuidFor(f, Offset(nodes, b) + j) == Some(y[j]);
      NumbersDiffer(f, Offset(nodes, a) + i, Offset(nodes, b) + j);
    }
    if y != [] && gap < |x| {
      assert UuidFor(f, Offset(nodes, a) + gap) == Some(x[gap]) && UuidFor(f, Offset(nodes, b) + 0) == Some(y[0]);
    }
  }

  ghost predicate AllFormatted(f: Format, nodes: seq<Node>, locals: seq<nat>, written: seq<seq<string>>)
    requires ValidFormat(f)
  {
    |locals| == |written| == |nodes| && forall n :: 0 <= n < |nodes| ==> Formatted(f, nodes, n, locals[n], written[n])
  }

  /** Some UUID of a cluster is written by two nodes exactly when this happens for two of its nodes; the
      condition is on the configuration and the local disk counts alone. */
  lemma ClusterSharesExactly(f: Format, nodes: seq<Node>, locals: seq<nat>, written: seq<seq<string>>)
    requires ValidFormat(f) && AllFormatted(f, nodes, locals, written) && DistinctUuids(AllDisks(FromFormat(f)))
    ensures (exists a, b :: 0 <= a < b < |nodes| && Share(written[a], written[b]))
       <==> (exists a, b :: 0 <= a < b < |nodes| && Overlaps(f, nodes, locals, a, b))
  {
    forall a, b | 0 <= a < b < |nodes|
      ensures Share(written[a], written[b]) <==> Overlaps(f, nodes, locals, a, b)
    {
      SharedExactly(f, nodes, a, b, locals[a], locals[b], written[a], written[b]);
    }
  }

  ghost predicate Overlaps(f: Format, nodes: seq<Node>, locals: seq<nat>, a: int, b: int)
    requires |locals| == |nodes| && 0 <= a < b < |nodes|
  {
    locals[b] > 0 && Offset(nodes, b) < Capacity(f) && Offset(nodes, a) + locals[a] > Offset(nodes, b)
  }

  /** When every node has a local disk within the topology, that is: a node other than the last has more
      local disks than the configuration gives it. */
  lemma SharedExactlyWhenMiscounted(f: Format, nodes: seq<Node>, locals: seq<nat>, written: seq<seq<string>>)
    requires ValidFormat(f) && AllFormatted(f, nodes, locals, written) && DistinctUuids(AllDisks(FromFormat(f)))
    requires forall n :: 0 <= n < |nodes| ==> locals[n] > 0 && Offset(nodes, n) < Capacity(f)
    ensures (exists a, b :: 0 <= a < b < |nodes| && Share(written[a], written[b]))
       <==> (exists a :: 0 <= a < |nodes| - 1 && locals[a] > |nodes[a].disks|)
  {
    ClusterSharesExactly(f, nodes, locals, written);
    if a, b :| 0 <= a < b < |nodes| && Overlaps(f, nodes, locals, a, b) {
      OffsetsGrow(nodes, a + 1, b);
      assert 0 <= a < |nodes| - 1 && locals[a] > |nodes[a].disks|;
    }
    if a :| 0 <= a < |nodes| - 1 && locals[a] > |nodes[a].disks| {
      assert Overlaps(f, nodes, locals, a, a + 1);
    }
  }

  lemma Reaches(f: Format, nodes: seq<Node>, n: nat, localDisks: nat, written: seq<string>)
    requires ValidFormat(f) && n < |nodes| && Formatted(f, nodes, n, localDisks, written) && written != []
    ensures Offset(nodes, n) < |f.sets| * f.perSet
  {
    assert UuidFor(f, Offset(nodes, n) + 0) == Some(written[0]);
    FitsExactly(f, Offset(nodes, n));
  }

  /** The map sends the UUID of node `n`'s disk `d` to that node's endpoint. */
  lemma NodeDiskFound(nodes: seq<Node>, disks: seq<DiskInfo>, n: nat, d: nat)
    requires n < |nodes| && d < |nodes[n].disks| && DistinctUuids(disks) && Offset(nodes, n) + d < |disks|
    ensures LookUp(Entries(MakerFor(nodes), disks), disks[Offset(nodes, n) + d].uuid) == Some(EndpointOf(nodes, n, d))
  {
    OwnerFound(nodes, n, d, 0);
    assert Labelled(MakerFor(nodes));
    EntriesLookUp(MakerFor(nodes), disks, Offset(nodes, n) + d);
  }

  lemma SlotPopulated(nodes: seq<Node>, t: Layout, p: nat, s: nat, j: nat)
    requires p < |t.pools| && s < |t.pools[p].sets| && j < |t.pools[p].sets[s].disks|
    ensures Populated(nodes, t).pools[p].sets[s].disks[j]
            == PopulatedDisk(Entries(MakerFor(nodes), AllDisks(t)), t.pools[p].sets[s].disks[j])
  {
    var entries := Entries(MakerFor(nodes), AllDisks(t));
    assert Populated(nodes, t).pools[p] == PopulatedPool(entries, t.pools[p]);
    assert PopulatedPool(entries, t.pools[p]).sets[s] == PopulatedSet(entries, t.pools[p].sets[s]);
  }

  lemma CutTwice(s: string)
    ensures Cut(Cut(s, ENTRY_BUFFER), ENDPOINT_BUFFER) == Cut(s, ENDPOINT_BUFFER)
  {
  }
}
