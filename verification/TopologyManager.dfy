/** The topology manager: copy-on-write changes to a cached topology, persisted to a quorum of
    disks before the cache is replaced. */
module TopologyManager {
  import opened Wrappers
  import opened ClusterTopology
  import opened Quorum

  /** The manager's cache and the topology file on each disk. */
  datatype State = State(cache: Option<Layout>, disks: seq<Option<Layout>>)

  /** A manager call: the request and how each disk's save ends, should it come to that. */
  datatype Call = Call(change: Change, outcomes: seq<Outcome>)

  predicate Persisted(s: State, call: Call) {
    && s.cache.Some? && Accepts(s.cache.value, call.change)
    && |s.disks| > 0 && Writes(call.outcomes) >= WriteQuorum(|s.disks|)
  }

  /** One manager call.  A request without a cached topology or with bad arguments touches
      nothing; a failed save may touch disks but never the cache. */
  function Step(s: State, call: Call): State
    requires |call.outcomes| == |s.disks|
  {
    if s.cache.None? || !Accepts(s.cache.value, call.change) then s
    else
      var t := Changed(s.cache.value, call.change);
      State(if Persisted(s, call) then Some(t) else s.cache, AfterSave(s.disks, call.outcomes, t))
  }

  // ----- whole runs -----

  ghost predicate ValidRun(s: State, calls: seq<Call>) {
    forall i :: 0 <= i < |calls| ==> |calls[i].outcomes| == |s.disks| && Retiring(calls[i].change)
  }

  /** The state after the first `n` calls. */
  ghost function After(s: State, calls: seq<Call>, n: nat): (r: State)
    requires ValidRun(s, calls) && n <= |calls|
    ensures |r.disks| == |s.disks|
  {
    if n == 0 then s else Step(After(s, calls, n - 1), calls[n - 1])
  }

  /** Call number `i` succeeded and altered the topology. */
  ghost predicate RealChange(s: State, calls: seq<Call>, i: nat)
    requires ValidRun(s, calls) && i < |calls|
  {
    var before := After(s, calls, i);
    Persisted(before, calls[i]) && Alters(before.cache.value, calls[i].change)
  }

  ghost function RealChanges(s: State, calls: seq<Call>, n: nat): nat
    requires ValidRun(s, calls) && n <= |calls|
  {
    if n == 0 then 0 else RealChanges(s, calls, n - 1) + if RealChange(s, calls, n - 1) then 1 else 0
  }

  /** The cache changes only through a call whose save reached a write quorum, and right after
      such a call at least that many disks hold exactly the cached topology. */
  lemma CacheFollowsQuorum(s: State, call: Call)
    requires |call.outcomes| == |s.disks|
    ensures Step(s, call).cache != s.cache ==> Persisted(s, call)
    ensures Persisted(s, call) ==>
              && Step(s, call).cache == Some(Changed(s.cache.value, call.change))
              && Holds(Step(s, call).disks, Step(s, call).cache.value) >= WriteQuorum(|s.disks|)
  {
    if s.cache.Some? && Accepts(s.cache.value, call.change) {
      SaveReaches(s.disks, call.outcomes, Changed(s.cache.value, call.change));
    }
  }

  /** Every run: the cached topology only grows, keeps its numbering, never reactivates a set, and
      its generation has risen by exactly the number of real changes. */
  lemma {:induction false} RunExtends(s: State, calls: seq<Call>, n: nat)
    requires s.cache.Some? && ValidRun(s, calls) && n <= |calls|
    ensures After(s, calls, n).cache.Some?
    ensures Extends(s.cache.value, After(s, calls, n).cache.value)
    ensures Numbered(s.cache.value) ==> Numbered(After(s, calls, n).cache.value)
    ensures After(s, calls, n).cache.value.generation == s.cache.value.generation + RealChanges(s, calls, n)
    decreases n
  {
    if n == 0 {
      ExtendsReflexive(s.cache.value);
    } else {
      RunExtends(s, calls, n - 1);
      var before := After(s, calls, n - 1);
      if Persisted(before, calls[n - 1]) {
        ChangeExtends(before.cache.value, calls[n - 1].change);
        ExtendsTransitive(s.cache.value, before.cache.value, After(s, calls, n).cache.value);
      }
    }
  }

  /** The same between any two points of a run. */
  lemma {:induction false} RunExtendsBetween(s: State, calls: seq<Call>, i: nat, j: nat)
    requires s.cache.Some? && ValidRun(s, calls) && i <= j <= |calls|
    ensures After(s, calls, i).cache.Some? && After(s, calls, j).cache.Some?
    ensures Extends(After(s, calls, i).cache.value, After(s, calls, j).cache.value)
    decreases j
  {
    RunExtends(s, calls, i);
    if i == j {
      ExtendsReflexive(After(s, calls, i).cache.value);
    } else {
      RunExtendsBetween(s, calls, i, j - 1);
      var before := After(s, calls, j - 1);
      if Persisted(before, calls[j - 1]) {
        ChangeExtends(before.cache.value, calls[j - 1].change);
        ExtendsTransitive(After(s, calls, i).cache.value, before.cache.value, After(s, calls, j).cache.value);
      }
    }
  }

  /** Equal generations at two points of a run mean equal cached topologies. */
  lemma {:induction false} GenerationIdentifies(s: State, calls: seq<Call>, i: nat, j: nat)
    requires s.cache.Some? && ValidRun(s, calls) && i <= j <= |calls|
    ensures After(s, calls, i).cache.Some? && After(s, calls, j).cache.Some?
    ensures After(s, calls, i).cache.value.generation <= After(s, calls, j).cache.value.generation
    ensures After(s, calls, i).cache.value.generation == After(s, calls, j).cache.value.generation
        ==> After(s, calls, i).cache == After(s, calls, j).cache
    decreases j
  {
    RunExtends(s, calls, i);
    if i < j {
      GenerationIdentifies(s, calls, i, j - 1);
      var before := After(s, calls, j - 1);
      if Persisted(before, calls[j - 1]) {
        ChangeExtends(before.cache.value, calls[j - 1].change);
      }
    }
  }

  /** Call number `k` persisted and added set `s` of pool `p` with these disks. */
  ghost predicate AddedBy(start: State, calls: seq<Call>, k: int, p: int, s: int, disks: seq<DiskInfo>)
    requires ValidRun(start, calls) && 0 <= k < |calls|
  {
    var before := After(start, calls, k);
    && Persisted(before, calls[k]) && calls[k].change == AddSet(p, disks)
    && 0 <= p < |before.cache.value.pools| && s == |before.cache.value.pools[p].sets|
  }

  /** At every later moment a set has the disks of the call that added it. */
  lemma AddedSetKeepsDisks(start: State, calls: seq<Call>, k: nat, j: nat, p: int, s: int, disks: seq<DiskInfo>)
    requires start.cache.Some? && ValidRun(start, calls) && k < j <= |calls| && AddedBy(start, calls, k, p, s, disks)
    ensures After(start, calls, j).cache.Some? && InRange(After(start, calls, j).cache.value, p, s)
    ensures After(start, calls, j).cache.value.pools[p].sets[s].disks == disks
  {
    var before, after := After(start, calls, k), After(start, calls, k + 1);
    AddSetExact(before.cache.value, p, disks);
    assert InRange(after.cache.value, p, s) && after.cache.value.pools[p].sets[s].disks == disks;
    RunExtendsBetween(start, calls, k + 1, j);
    assert SetKept(after.cache.value, After(start, calls, j).cache.value, p, s);
  }

  /** And every set was there at the start or was added by a persisted call. */
  lemma {:induction false} EverySetWasAdded(start: State, calls: seq<Call>, j: nat, p: int, s: int)
    requires start.cache.Some? && ValidRun(start, calls) && j <= |calls|
    requires After(start, calls, j).cache.Some? && InRange(After(start, calls, j).cache.value, p, s)
    ensures InRange(start.cache.value, p, s) || exists k, disks :: 0 <= k < j && AddedBy(start, calls, k, p, s, disks)
    decreases j
  {
    if j > 0 {
      RunExtends(start, calls, j - 1);
      var before := After(start, calls, j - 1);
      if InRange(before.cache.value, p, s) {
        EverySetWasAdded(start, calls, j - 1, p, s);
      } else {
        NewSetIsAdded(before, calls[j - 1], p, s);
        assert AddedBy(start, calls, j - 1, p, s, calls[j - 1].change.disks);
      }
    }
  }

  lemma NewSetIsAdded(s: State, call: Call, p: int, n: int)
    requires s.cache.Some? && |call.outcomes| == |s.disks| && !InRange(s.cache.value, p, n)
    requires InRange(Step(s, call).cache.value, p, n)
    ensures Persisted(s, call) && call.change.AddSet? && call.change.pool == p
    ensures 0 <= p < |s.cache.value.pools| && n == |s.cache.value.pools[p].sets|
  {
    var t := s.cache.value;
    match call.change
    case AddPool => AddPoolExact(t);
    case AddSet(q, disks) => AddSetExact(t, q, disks);
    case SetStateOf(q, i, state) => SetStateExact(t, q, i, state);
  }

  /** After a call that succeeded, a reload with any set of unreadable disks returns the cached
      topology or nothing, for an even number of disks or one. */
  lemma ReloadAgreesWithCache(s: State, call: Call, readings: seq<Option<Layout>>, hash: Layout -> nat)
    requires |call.outcomes| == |s.disks| && Persisted(s, call) && Intersecting(|s.disks|)
    requires ReadingOf(readings, Step(s, call).disks) && NoCollision(s.disks, hash, Step(s, call).cache.value)
    ensures Winner(readings, hash) in {None, Step(s, call).cache}
    ensures Holds(readings, Step(s, call).cache.value) >= ReadQuorum(|s.disks|) ==>
              Winner(readings, hash) == Step(s, call).cache
  {
    SavedIsRead(s.disks, call.outcomes, readings, hash, Changed(s.cache.value, call.change));
  }

  // ----- generations on the disks -----

  /** Readable files of equal generation are equal. */
  ghost predicate GenerationsIdentify(disks: seq<Option<Layout>>) {
    forall i, j | 0 <= i < |disks| && 0 <= j < |disks| && disks[i].Some? && disks[j].Some? ::
      disks[i].value.generation == disks[j].value.generation ==> disks[i] == disks[j]
  }

  /** A file is not newer than the cache, and of the cache's generation only if it is the cache. */
  ghost predicate NotNewer(file: Layout, cache: Layout) {
    file.generation <= cache.generation && (file.generation == cache.generation ==> file == cache)
  }

  ghost predicate Identified(s: State) {
    && GenerationsIdentify(s.disks)
    && (s.cache.Some? ==>
          forall i :: 0 <= i < |s.disks| && s.disks[i].Some? ==> NotNewer(s.disks[i].value, s.cache.value))
  }

  /** The call does not leave behind a new file it did not commit: it was refused, altered nothing,
      persisted, or reached no disk at all. */
  predicate Clean(s: State, call: Call) {
    || s.cache.None? || !Accepts(s.cache.value, call.change) || !Alters(s.cache.value, call.change)
    || Persisted(s, call) || forall i :: 0 <= i < |call.outcomes| ==> call.outcomes[i].FailedKeepingOld?
  }

  /** One call on identified files: they stay so exactly if the call is clean, and even after a call
      that is not, equal generations still mean equal files. */
  lemma StepIdentified(s: State, call: Call)
    requires Identified(s) && |call.outcomes| == |s.disks|
    ensures Identified(Step(s, call)) <==> Clean(s, call)
    ensures GenerationsIdentify(Step(s, call).disks)
  {
    if s.cache.Some? && Accepts(s.cache.value, call.change) {
      ChangeExtends(s.cache.value, call.change);
      if !Clean(s, call) {
        var i :| 0 <= i < |call.outcomes| && !call.outcomes[i].FailedKeepingOld?;
        assert Step(s, call).disks[i] == Some(Changed(s.cache.value, call.change));
      }
    }
  }

  /** Every run: as long as all calls but the last one were clean, files of equal generation are
      equal. */
  lemma {:induction false} RunIdentified(s: State, calls: seq<Call>, n: nat)
    requires Identified(s) && ValidRun(s, calls) && n <= |calls|
    requires forall k :: 0 <= k < n - 1 ==> Clean(After(s, calls, k), calls[k])
    ensures GenerationsIdentify(After(s, calls, n).disks)
    ensures (n > 0 ==> Clean(After(s, calls, n - 1), calls[n - 1])) ==> Identified(After(s, calls, n))
    decreases n
  {
    if n > 0 {
      RunIdentified(s, calls, n - 1);
      StepIdentified(After(s, calls, n - 1), calls[n - 1]);
    }
  }

  /** Whatever the manager is asked next, equal generations mean equal files. */
  ghost predicate NextIdentifies(s: State) {
    forall next: Call ::
      |next.outcomes| == |s.disks| && Retiring(next.change) ==> GenerationsIdentify(Step(s, next).disks)
  }

  /** The condition is exact.  After one call on identified files, the generations identify the files
      through every next call exactly if the call was clean, or there is only one disk, or no pool, so
      that there is only one change to make. */
  lemma CleanExactly(s: State, call: Call)
    requires Identified(s) && |call.outcomes| == |s.disks| && Retiring(call.change)
    ensures NextIdentifies(Step(s, call)) <==>
              Clean(s, call) || |s.disks| <= 1 || s.cache.value.pools == []
  {
    var r := Step(s, call);
    if Clean(s, call) {
      StepIdentified(s, call);
      forall next: Call | |next.outcomes| == |r.disks| && Retiring(next.change)
        ensures GenerationsIdentify(Step(r, next).disks)
      {
        StepIdentified(r, next);
      }
    } else if |s.disks| > 1 && s.cache.value.pools == [] {
      forall next: Call | |next.outcomes| == |r.disks| && Retiring(next.change)
        ensures GenerationsIdentify(Step(r, next).disks)
      {
        StepIdentified(s, call);
        SameChangeAgain(s, call, next);
      }
    } else if |s.disks| > 1 {
      var next := Rival(s, call);
      assert !GenerationsIdentify(Step(r, next).disks);
    }
  }

  /** Without pools, adding one is the only change. */
  lemma SameChangeAgain(s: State, call: Call, next: Call)
    requires Identified(s) && |call.outcomes| == |next.outcomes| == |s.disks| && !Clean(s, call)
    requires s.cache.value.pools == []
    ensures GenerationsIdentify(Step(Step(s, call), next).disks)
  {
    StepIdentified(s, call);
  }

  /** A second change of the same generation, left on another disk. */
  lemma Rival(s: State, call: Call) returns (next: Call)
    requires Identified(s) && |call.outcomes| == |s.disks| > 1 && !Clean(s, call) && s.cache.value.pools != []
    ensures |next.outcomes| == |s.disks| && Retiring(next.change)
    ensures !GenerationsIdentify(Step(Step(s, call), next).disks)
  {
    var t := s.cache.value;
    var i :| 0 <= i < |call.outcomes| && !call.outcomes[i].FailedKeepingOld?;
    var j := if i == 0 then 1 else 0;
    var other := if call.change.AddPool? then AddSet(0, [DiskInfo("", "", 0)]) else AddPool;
    ChangeExtends(t, call.change);
    ChangeExtends(t, other);
    ChangesDiffer(t, call.change, other);
    next := Call(other, seq(|s.disks|, k => if k == j then FailedLeavingNew else FailedKeepingOld));
    var end := Step(Step(s, call), next).disks;
    assert end[i] == Some(Changed(t, call.change)) && end[j] == Some(Changed(t, other));
  }

  lemma ChangesDiffer(t: Layout, c: Change, d: Change)
    requires Accepts(t, c) && Accepts(t, d) && c.AddPool? != d.AddPool?
    ensures Changed(t, c) != Changed(t, d)
  {
    assert |Changed(t, c).pools| != |Changed(t, d).pools|;
  }

  /** A successful save that reaches every disk makes up for whatever was left behind. */
  lemma FullSaveRepairs(s: State, call: Call)
    requires |call.outcomes| == |s.disks| && Persisted(s, call)
    requires forall i :: 0 <= i < |call.outcomes| ==> !call.outcomes[i].FailedKeepingOld?
    ensures Identified(Step(s, call))
  {
    var t := Changed(s.cache.value, call.change);
    assert forall i :: 0 <= i < |s.disks| ==> Step(s, call).disks[i] == Some(t);
  }

  /** A run that ends with two different files of equal generation, on any two or more disks: a
      change left on one disk by a failed save, then another change saved to all the others, which
      succeeds with three disks or more. */
  lemma EqualGenerationsOnDisk(t: Layout, n: nat, disks: seq<DiskInfo>)
    requires n >= 2 && t.pools != [] && disks != []
    ensures var s := State(Some(t), All(n, t));
            var failed := Call(AddPool, Outcomes(n, 1, FailedLeavingNew, FailedKeepingOld));
            var second := Call(AddSet(0, disks), Outcomes(n, 1, FailedKeepingOld, Wrote));
            var end := Step(Step(s, failed), second);
            && !Persisted(s, failed) && (Persisted(Step(s, failed), second) <==> n >= 3)
            && end.disks[0] == Some(Changed(t, AddPool)) && end.disks[1] == Some(Changed(t, AddSet(0, disks)))
            && end.disks[0] != end.disks[1] && end.disks[0].value.generation == end.disks[1].value.generation
  {
    CountWrites(n, 1, FailedLeavingNew, FailedKeepingOld);
    CountWrites(n, 1, FailedKeepingOld, Wrote);
    ChangesDiffer(t, AddPool, AddSet(0, disks));
  }

  // ----- reloading -----

  /** What a load sees: the files on the disks that can be read. */
  function Visible(disks: seq<Option<Layout>>, readable: seq<bool>): (r: seq<Option<Layout>>)
    requires |readable| == |disks|
    ensures ReadingOf(r, disks)
  {
    seq(|disks|, i requires 0 <= i < |disks| => if readable[i] then disks[i] else None)
  }

  /** `v` is `t`, or `t` changed by one of the calls. */
  ghost predicate OneStepFrom(t: Layout, calls: seq<Call>, v: Layout) {
    v == t || exists k :: 0 <= k < |calls| && Accepts(t, calls[k].change) && v == Changed(t, calls[k].change)
  }

  lemma {:induction false} FailuresStayNear(s: State, calls: seq<Call>, n: nat)
    requires s.cache.Some? && ValidRun(s, calls) && n <= |calls|
    requires forall k :: 0 <= k < |calls| ==> !Persisted(s, calls[k])
    ensures After(s, calls, n).cache == s.cache
    ensures forall i :: 0 <= i < |s.disks| && s.disks[i] == s.cache ==>
              After(s, calls, n).disks[i].Some? && OneStepFrom(s.cache.value, calls, After(s, calls, n).disks[i].value)
    decreases n
  {
    if n > 0 {
      FailuresStayNear(s, calls, n - 1);
    }
  }

  /** After any number of failed calls, a load over any unreadable disks returns nothing, the last
      persisted topology, or what one of the failed calls made of it. */
  lemma LoadAfterFailures(s: State, calls: seq<Call>, readings: seq<Option<Layout>>, hash: Layout -> nat)
    requires Committed(s) && Intersecting(|s.disks|) && ValidRun(s, calls)
    requires forall k :: 0 <= k < |calls| ==> !Persisted(s, calls[k])
    requires var disks := After(s, calls, |calls|).disks; ReadingOf(readings, disks) && HashesIdentify(disks, hash)
    ensures var w := Winner(readings, hash); w.Some? ==> OneStepFrom(s.cache.value, calls, w.value)
  {
    var t, disks := s.cache.value, After(s, calls, |calls|).disks;
    var p := v => OneStepFrom(t, calls, v);
    FailuresStayNear(s, calls, |calls|);
    HoldersMeet(s.disks, disks, t, p);
    WinnerMeets(disks, readings, hash, p);
  }

  /** The cached topology is on a write quorum of the disks. */
  ghost predicate Committed(s: State) {
    s.cache.Some? && Holds(s.disks, s.cache.value) >= WriteQuorum(|s.disks|)
  }

  /** What happens to a manager: one of the four changing calls, or a load. */
  datatype Event = Change(call: Call) | Reload(readable: seq<bool>)

  ghost predicate Fits(s: State, e: Event) {
    match e
    case Change(call) => |call.outcomes| == |s.disks| && Retiring(call.change)
    case Reload(readable) => |readable| == |s.disks|
  }

  ghost function Next(s: State, e: Event, hash: Layout -> nat): (r: State)
    requires Fits(s, e)
    ensures |r.disks| == |s.disks|
  {
    match e
    case Change(call) => Step(s, call)
    case Reload(readable) =>
      var w := Winner(Visible(s.disks, readable), hash);
      if w.Some? then s.(cache := w) else s
  }

  ghost predicate ValidEvents(s: State, events: seq<Event>) {
    forall i :: 0 <= i < |events| ==> Fits(s, events[i])
  }

  ghost function AfterEvents(s: State, events: seq<Event>, hash: Layout -> nat, n: nat): (r: State)
    requires ValidEvents(s, events) && n <= |events|
    ensures |r.disks| == |s.disks|
  {
    if n == 0 then s else Next(AfterEvents(s, events, hash, n - 1), events[n - 1], hash)
  }

  /** No call leaves an uncommitted file behind, and no other file has the hash of the cached one
      when a load counts votes. */
  ghost predicate Tame(s: State, e: Event, hash: Layout -> nat) {
    match e
    case Change(call) => Clean(s, call)
    case Reload(_) => s.cache.Some? ==> NoCollision(s.disks, hash, s.cache.value)
  }

  /** A tame event keeps the cache committed and only extends it; a load does nothing. */
  lemma TameStep(s: State, e: Event, hash: Layout -> nat)
    requires Committed(s) && Intersecting(|s.disks|) && Fits(s, e) && Tame(s, e, hash)
    ensures Committed(Next(s, e, hash)) && Extends(s.cache.value, Next(s, e, hash).cache.value)
    ensures e.Reload? ==> Next(s, e, hash) == s
  {
    var t := s.cache.value;
    ExtendsReflexive(t);
    if e.Reload? {
      CommittedIsRead(s.disks, Visible(s.disks, e.readable), hash, t);
    } else if Accepts(t, e.call.change) {
      ChangeExtends(t, e.call.change);
      SaveReaches(s.disks, e.call.outcomes, Changed(t, e.call.change));
      SaveKeepsHolders(s.disks, e.call.outcomes, t);
      if !Persisted(s, e.call) && Alters(t, e.call.change) {
        assert AfterSave(s.disks, e.call.outcomes, Changed(t, e.call.change)) == s.disks;
      }
    }
  }

  ghost predicate TameRun(s: State, events: seq<Event>, hash: Layout -> nat) {
    && Committed(s) && Intersecting(|s.disks|) && ValidEvents(s, events)
    && forall k :: 0 <= k < |events| ==> Tame(AfterEvents(s, events, hash, k), events[k], hash)
  }

  lemma {:induction false} TameRunCommitted(s: State, events: seq<Event>, hash: Layout -> nat, n: nat)
    requires TameRun(s, events, hash) && n <= |events|
    ensures Committed(AfterEvents(s, events, hash, n))
    decreases n
  {
    if n > 0 {
      TameRunCommitted(s, events, hash, n - 1);
      TameStep(AfterEvents(s, events, hash, n - 1), events[n - 1], hash);
    }
  }

  ghost function CacheAt(s: State, events: seq<Event>, hash: Layout -> nat): nat -> Option<Layout>
    requires ValidEvents(s, events)
  {
    (k: nat) => if k <= |events| then AfterEvents(s, events, hash, k).cache else None
  }

  lemma TameLink(s: State, events: seq<Event>, hash: Layout -> nat, k: nat)
    requires TameRun(s, events, hash) && k < |events|
    ensures Link(CacheAt(s, events, hash), k)
  {
    var t := AfterEvents(s, events, hash, k);
    TameRunCommitted(s, events, hash, k);
    TameStep(t, events[k], hash);
    Linked(CacheAt(s, events, hash), k, t.cache, Next(t, events[k], hash).cache);
  }

  /** Every run of changing calls and loads from a committed topology, on an even number of disks or
      one: if no failed call leaves a file behind, the cache only grows, from any point to any later
      one. */
  lemma TameRunExtends(s: State, events: seq<Event>, hash: Layout -> nat, i: nat, j: nat)
    requires TameRun(s, events, hash) && i <= j <= |events|
    ensures var at := CacheAt(s, events, hash); at(i).Some? && at(j).Some? && Extends(at(i).value, at(j).value)
  {
    var at := CacheAt(s, events, hash);
    assert at(i).Some? by {
      TameRunCommitted(s, events, hash, i);
    }
    forall k: nat | i <= k < j
      ensures Link(at, k)
    {
      TameLink(s, events, hash, k);
    }
    ChainExtends(at, i, j);
  }

  /** Otherwise a load can take a change back: with any two or more disks, a change left on half of
      them by a failed save is adopted by one load and dropped by the next. */
  lemma LoadCanRetract(t: Layout, c: Change, n: nat, hash: Layout -> nat)
    returns (adopt: Event, drop: Event)
    requires n >= 2 && Accepts(t, c) && hash(Changed(t, c)) != hash(t)
    ensures var s := State(Some(t), All(n, t));
            var failed := Call(c, Outcomes(n, n / 2, Wrote, FailedKeepingOld));
            && Committed(s) && !Persisted(s, failed)
            && adopt.Reload? && drop.Reload? && Fits(s, adopt) && Fits(s, drop)
            && Next(Step(s, failed), adopt, hash).cache == Some(Changed(t, c))
            && Next(Next(Step(s, failed), adopt, hash), drop, hash).cache == Some(t)
  {
    var s := State(Some(t), All(n, t));
    var u := Changed(t, c);
    var outcomes := Outcomes(n, n / 2, Wrote, FailedKeepingOld);
    var disks := AfterSave(s.disks, outcomes, u);
    CountWrites(n, n / 2, Wrote, FailedKeepingOld);
    HoldsHalf(n, n / 2, t, u);
    adopt := ReloadFor(disks, hash, u);
    drop := ReloadFor(disks, hash, t);
  }

  lemma {:induction false} HoldsHalf(n: nat, a: nat, t: Layout, u: Layout)
    requires a <= n && t != u
    ensures Holds(All(n, t), t) == n
    ensures Holds(AfterSave(All(n, t), Outcomes(n, a, Wrote, FailedKeepingOld), u), u) == a
    ensures Holds(AfterSave(All(n, t), Outcomes(n, a, Wrote, FailedKeepingOld), u), t) == n - a
    decreases n
  {
    if n > 0 {
      var b := if a == n then n - 1 else a;
      assert All(n, t)[..n - 1] == All(n - 1, t);
      assert AfterSave(All(n, t), Outcomes(n, a, Wrote, FailedKeepingOld), u)[..n - 1]
          == AfterSave(All(n - 1, t), Outcomes(n - 1, b, Wrote, FailedKeepingOld), u);
      HoldsHalf(n - 1, b, t, u);
    }
  }

  /** A load that returns `v`, if a read quorum holds it. */
  lemma ReloadFor(disks: seq<Option<Layout>>, hash: Layout -> nat, v: Layout) returns (e: Event)
    requires NoCollision(disks, hash, v) && Holds(disks, v) >= ReadQuorum(|disks|)
    ensures e.Reload? && |e.readable| == |disks| && Winner(Visible(disks, e.readable), hash) == Some(v)
  {
    ReadExactlyFromQuorum(disks, hash, v);
    var readings: seq<Option<Layout>> :| ReadingOf(readings, disks) && Winner(readings, hash) == Some(v);
    e := Reload(seq(|disks|, i requires 0 <= i < |disks| => readings[i] == disks[i]));
    assert Visible(disks, e.readable) == readings;
  }

  lemma {:induction false} HeldSomewhere(disks: seq<Option<Layout>>, v: Layout)
    requires Holds(disks, v) > 0
    ensures Some(v) in disks
    decreases |disks|
  {
    var n := |disks| - 1;
    if disks[n] != Some(v) {
      HeldSomewhere(disks[..n], v);
      assert forall x :: x in disks[..n] ==> x in disks;
    }
  }

  /** A property of the cache survives every load, whichever disks can be read, exactly when it holds
      of the cache and of every topology on a read quorum of the disks. */
  lemma LoadGivesExactly(s: State, hash: Layout -> nat, p: Layout -> bool)
    requires s.cache.Some? && HashesIdentify(s.disks, hash)
    ensures (forall readable: seq<bool> :: |readable| == |s.disks| ==> p(Next(s, Reload(readable), hash).cache.value))
       <==> p(s.cache.value) && (forall v :: Holds(s.disks, v) >= ReadQuorum(|s.disks|) ==> p(v))
  {
    if forall readable: seq<bool> :: |readable| == |s.disks| ==> p(Next(s, Reload(readable), hash).cache.value) {
      var none := seq(|s.disks|, _ => false);
      NothingWins(Visible(s.disks, none), hash, ReadQuorum(|s.disks|), 0);
      assert Next(s, Reload(none), hash) == s;
      forall v | Holds(s.disks, v) >= ReadQuorum(|s.disks|)
        ensures p(v)
      {
        HeldSomewhere(s.disks, v);
        var e := ReloadFor(s.disks, hash, v);
        assert Next(s, Reload(e.readable), hash).cache == Some(v);
      }
    }
    if p(s.cache.value) && forall v :: Holds(s.disks, v) >= ReadQuorum(|s.disks|) ==> p(v) {
      forall readable: seq<bool> | |readable| == |s.disks|
        ensures p(Next(s, Reload(readable), hash).cache.value)
      {
        LoadedIsHeld(s.disks, readable, hash);
      }
    }
  }

  lemma {:induction false} NothingWins(readings: seq<Option<Layout>>, hash: Layout -> nat, quorum: nat, i: nat)
    requires i <= |readings| && forall j :: 0 <= j < |readings| ==> readings[j].None?
    ensures WinnerFrom(readings, hash, quorum, i).None?
    decreases |readings| - i
  {
    if i < |readings| {
      NothingWins(readings, hash, quorum, i + 1);
    }
  }

  /** Loads never take anything back, for whichever disks can be read, exactly when every topology on a
      read quorum of the disks extends the cached one. */
  lemma LoadExtendsExactly(s: State, hash: Layout -> nat)
    requires s.cache.Some? && HashesIdentify(s.disks, hash)
    ensures (forall readable: seq<bool> :: |readable| == |s.disks| ==>
               Extends(s.cache.value, Next(s, Reload(readable), hash).cache.value))
       <==> (forall v :: Holds(s.disks, v) >= ReadQuorum(|s.disks|) ==> Extends(s.cache.value, v))
  {
    var t := s.cache.value;
    ExtendsReflexive(t);
    var p := v => Extends(t, v);
    LoadGivesExactly(s, hash, p);
    assert forall v :: p(v) == Extends(t, v);
  }

  /** And they leave the cache as it is exactly when no other topology is on a read quorum. */
  lemma LoadKeepsExactly(s: State, hash: Layout -> nat)
    requires s.cache.Some? && HashesIdentify(s.disks, hash)
    ensures (forall readable: seq<bool> :: |readable| == |s.disks| ==> Next(s, Reload(readable), hash).cache == s.cache)
       <==> (forall v :: Holds(s.disks, v) >= ReadQuorum(|s.disks|) ==> Some(v) == s.cache)
  {
    var t := s.cache.value;
    var p := v => v == t;
    LoadGivesExactly(s, hash, p);
    assert forall v :: p(v) == (v == t);
  }

  lemma LoadedIsHeld(disks: seq<Option<Layout>>, readable: seq<bool>, hash: Layout -> nat)
    requires |readable| == |disks| && HashesIdentify(disks, hash)
    ensures var w := Winner(Visible(disks, readable), hash);
            w.Some? ==> Holds(disks, w.value) >= ReadQuorum(|disks|)
  {
    var readings := Visible(disks, readable);
    var w := Winner(readings, hash);
    WinnerHasQuorum(readings, hash, ReadQuorum(|disks|), 0);
    if w.Some? {
      var i :| 0 <= i < |readings| && readings[i] == w;
      VotersHold(readings, disks, hash, w.value);
    }
  }

  /** No load can take anything back, by the condition of LoadExtendsExactly. */
  ghost predicate LoadsExtend(s: State, hash: Layout -> nat) {
    && s.cache.Some? && HashesIdentify(s.disks, hash)
    && forall v :: Holds(s.disks, v) >= ReadQuorum(|s.disks|) ==> Extends(s.cache.value, v)
  }

  ghost predicate GrowingRun(s: State, events: seq<Event>, hash: Layout -> nat) {
    && s.cache.Some? && ValidEvents(s, events)
    && forall k :: 0 <= k < |events| && events[k].Reload? ==> LoadsExtend(AfterEvents(s, events, hash, k), hash)
  }

  lemma GrowingStep(s: State, e: Event, hash: Layout -> nat)
    requires s.cache.Some? && Fits(s, e) && (e.Reload? ==> LoadsExtend(s, hash))
    ensures Next(s, e, hash).cache.Some? && Extends(s.cache.value, Next(s, e, hash).cache.value)
  {
    ExtendsReflexive(s.cache.value);
    if e.Reload? {
      LoadedIsHeld(s.disks, e.readable, hash);
    } else if Accepts(s.cache.value, e.call.change) {
      ChangeExtends(s.cache.value, e.call.change);
    }
  }

  lemma {:induction false} GrowingLink(s: State, events: seq<Event>, hash: Layout -> nat, k: nat)
    requires GrowingRun(s, events, hash) && k <= |events|
    ensures CacheAt(s, events, hash)(k).Some?
    ensures k < |events| ==> Link(CacheAt(s, events, hash), k)
    decreases k
  {
    var t := AfterEvents(s, events, hash, k);
    if k > 0 {
      GrowingLink(s, events, hash, k - 1);
    }
    if k < |events| {
      GrowingStep(t, events[k], hash);
      Linked(CacheAt(s, events, hash), k, t.cache, Next(t, events[k], hash).cache);
    }
  }

  /** Every run of changing calls, clean or not, and loads, on any number of disks: if at each load every
      topology on a read quorum extends the cached one, the cache only grows, from any point to any
      later one. */
  lemma GrowingRunExtends(s: State, events: seq<Event>, hash: Layout -> nat, i: nat, j: nat)
    requires GrowingRun(s, events, hash) && i <= j <= |events|
    ensures var at := CacheAt(s, events, hash); at(i).Some? && at(j).Some? && Extends(at(i).value, at(j).value)
  {
    var at := CacheAt(s, events, hash);
    GrowingLink(s, events, hash, i);
    forall k: nat | i <= k < j
      ensures Link(at, k)
    {
      GrowingLink(s, events, hash, k);
    }
    ChainExtends(at, i, j);
  }

  /** The manager object.  The cache holds a topology structure it never modifies: changes are
      made to a clone. */
  class Manager {
    var cache: Topology?
    var disks: array<Option<Layout>>

    function Abstract(): State
      reads this, cache, disks
    {
      State(if cache == null then None else Some(cache.Contents()), disks[..])
    }

    constructor (initial: Topology?, files: array<Option<Layout>>)
      ensures cache == initial && disks == files
    {
      cache, disks := initial, files;
    }

    /** add_pool, add_set, mark_set_draining and mark_set_removed differ only in the change. */
    method Perform(call: Call) returns (ok: bool)
      requires |call.outcomes| == disks.Length
      modifies this`cache, disks
      ensures disks == old(disks)
      ensures ok <==> Persisted(old(Abstract()), call)
      ensures ok <==> old(cache) != null && Accepts(old(cache.Contents()), call.change) && disks.Length > 0
                      && Writes(call.outcomes) >= disks.Length / 2 + 1
      ensures Abstract() == Step(old(Abstract()), call)
      ensures cache == old(cache) || fresh(cache)
      ensures old(cache) != null ==> unchanged(old(cache))
    {
      if cache == null {
        return false;
      }
      var working := new Topology.Clone(cache);
      var accepted := working.Apply(call.change);
      if !accepted {
        return false;
      }
      ok := PersistAndCache(working, call.outcomes);
    }

    /** Saves with quorum and, only then, caches a clone. */
    method PersistAndCache(topology: Topology, outcomes: seq<Outcome>) returns (ok: bool)
      requires |outcomes| == disks.Length
      modifies this`cache, disks
      ensures disks == old(disks) && disks[..] == AfterSave(old(disks[..]), outcomes, topology.Contents())
      ensures ok <==> disks.Length > 0 && Writes(outcomes) >= WriteQuorum(disks.Length)
      ensures if ok then cache != null && fresh(cache) && cache.Contents() == topology.Contents()
              else cache == old(cache)
    {
      ok := SaveQuorum(disks, outcomes, topology.Contents());
      if ok {
        cache := new Topology.Clone(topology);
      }
    }

    /** Replaces the cache by the content that wins the read quorum; keeps it if none does. */
    method Load(readable: seq<bool>, hash: Layout -> nat) returns (ok: bool)
      requires |readable| == disks.Length
      modifies this`cache
      ensures var readings := Visible(disks[..], readable);
              && (ok <==> Winner(readings, hash).Some?)
              && Abstract().cache == (if ok then Winner(readings, hash) else old(Abstract().cache))
    {
      var loaded := LoadQuorum(Visible(disks[..], readable), hash);
      if loaded.None? {
        return false;
      }
      cache := new Topology(loaded.value);
      return true;
    }
  }
}
