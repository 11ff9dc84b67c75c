/** The connection pool.  Getting a connection takes two critical sections with the lock dropped in
    between while the socket connects; callers interleave at that point. */
module ConnPool {
  import opened Wrappers
  import opened Text

  /** Room for a host name in a connection. */
  const HOST_BUFFER := 255

  datatype Conn = Conn(id: nat, host: string, port: int, inUse: bool)

  predicate Matches(c: Conn, host: string, port: int) {
    !c.inUse && c.host == host && c.port == port
  }

  /** The scan of the first critical section: idle connections to the target are dropped while dead,
      and the first live one is taken.  Yields the list left and the connection taken. */
  function Scanned(conns: seq<Conn>, host: string, port: int, alive: set<nat>): (seq<Conn>, Option<nat>) {
    if conns == [] then ([], None)
    else if !Matches(conns[0], host, port) then
      var (rest, taken) := Scanned(conns[1..], host, port, alive);
      ([conns[0]] + rest, taken)
    else if conns[0].id in alive then ([conns[0].(inUse := true)] + conns[1..], Some(conns[0].id))
    else Scanned(conns[1..], host, port, alive)
  }

  ghost function InUse(conns: seq<Conn>): nat {
    if conns == [] then 0 else InUse(conns[1..]) + if conns[0].inUse then 1 else 0
  }

  ghost predicate Distinct(conns: seq<Conn>) {
    forall i, j :: 0 <= i < j < |conns| ==> conns[i].id != conns[j].id
  }

  /** Position of a connection in the list; the length if it is not there. */
  function Find(conns: seq<Conn>, id: nat): (r: nat)
    ensures r <= |conns| && (r < |conns| ==> conns[r].id == id) && forall j :: 0 <= j < r ==> conns[j].id != id
  {
    if conns == [] || conns[0].id == id then 0 else 1 + Find(conns[1..], id)
  }

  function Unlinked(conns: seq<Conn>, k: nat): seq<Conn>
    requires k < |conns|
  {
    conns[..k] + conns[k + 1..]
  }

  /** A scan that has kept `kept` and has `rest` before it. */
  function ScannedFrom(kept: seq<Conn>, rest: seq<Conn>, host: string, port: int, alive: set<nat>): (seq<Conn>,
                       Option<nat>) {
    var p := Scanned(rest, host, port, alive);
    (kept + p.0, p.1)
  }

  lemma Resume(kept: seq<Conn>, rest: seq<Conn>, host: string, port: int, alive: set<nat>)
    requires kept == []
    ensures ScannedFrom(kept, rest, host, port, alive) == Scanned(rest, host, port, alive)
  {
    assert kept + Scanned(rest, host, port, alive).0 == Scanned(rest, host, port, alive).0;
  }

  lemma KeepOne(conns: seq<Conn>, i: nat, host: string, port: int, alive: set<nat>)
    requires i < |conns| && !Matches(conns[i], host, port)
    ensures ScannedFrom(conns[..i], conns[i..], host, port, alive)
         == ScannedFrom(conns[..i + 1], conns[i + 1..], host, port, alive)
  {
    assert conns[i..][1..] == conns[i + 1..];
    var p := Scanned(conns[i + 1..], host, port, alive);
    assert conns[..i] + ([conns[i]] + p.0) == conns[..i + 1] + p.0;
  }

  // ----- what the scan does -----

  /** Where each connection of the scanned list comes from. */
  lemma {:induction false} ScanOrigin(conns: seq<Conn>, host: string, port: int, alive: set<nat>, i: nat)
    requires i < |Scanned(conns, host, port, alive).0|
    ensures var (rest, taken) := Scanned(conns, host, port, alive);
            rest[i] in conns || (taken == Some(rest[i].id) && rest[i].inUse && rest[i].(inUse := false) in conns)
    decreases |conns|
  {
    var (rest, taken) := Scanned(conns, host, port, alive);
    if !Matches(conns[0], host, port) {
      if i > 0 {
        ScanOrigin(conns[1..], host, port, alive, i - 1);
      }
    } else if conns[0].id in alive {
      if i == 0 {
        assert conns[0] == rest[0].(inUse := false);
      }
    } else {
      ScanOrigin(conns[1..], host, port, alive, i);
    }
  }

  /** No connection in use is dropped or altered. */
  lemma {:induction false} ScanKeepsUsed(conns: seq<Conn>, host: string, port: int, alive: set<nat>, c: Conn)
    requires c in conns && c.inUse
    ensures c in Scanned(conns, host, port, alive).0
    decreases |conns|
  {
    if c != conns[0] && !(Matches(conns[0], host, port) && conns[0].id in alive) {
      ScanKeepsUsed(conns[1..], host, port, alive, c);
    }
  }

  /** A connection is taken only if it was idle; it is then the one more in use. */
  lemma {:induction false} ScanCounts(conns: seq<Conn>, host: string, port: int, alive: set<nat>)
    ensures var (rest, taken) := Scanned(conns, host, port, alive);
            && |rest| <= |conns| && InUse(rest) == InUse(conns) + (if taken.Some? then 1 else 0)
            && (taken.Some? ==> exists c :: c in conns && c.id == taken.value && !c.inUse && c.(inUse := true) in rest)
    decreases |conns|
  {
    if conns != [] {
      var (rest, taken) := Scanned(conns, host, port, alive);
      if Matches(conns[0], host, port) && conns[0].id in alive {
        assert rest[1..] == conns[1..] && rest[0] == conns[0].(inUse := true);
        assert conns[0] in conns && rest[0] in rest;
      } else {
        ScanCounts(conns[1..], host, port, alive);
        var (rest', taken') := Scanned(conns[1..], host, port, alive);
        if !Matches(conns[0], host, port) {
          assert rest == [conns[0]] + rest' && rest[1..] == rest';
        }
        if taken.Some? {
          var c :| c in conns[1..] && c.id == taken.value && !c.inUse && c.(inUse := true) in rest';
          assert c in conns && c.(inUse := true) in rest;
        }
      }
    }
  }

  /** An idle connection to the given host and port. */
  ghost predicate IdleTo(c: Conn, host: string, port: int) {
    !c.inUse && c.host == host && c.port == port
  }

  /** A connection taken is a live idle one to that very host and port; if none is taken, there was none
      and no idle one to that target is left.  Only dead idle connections to the target are dropped. */
  lemma {:induction false} ScanExact(conns: seq<Conn>, host: string, port: int, alive: set<nat>)
    ensures var (rest, taken) := Scanned(conns, host, port, alive);
            && (taken.Some? ==> exists c :: c in conns && c.id == taken.value && IdleTo(c, host, port) && c.id in alive
                                            && c.(inUse := true) in rest)
            && (taken.None? ==> forall c :: c in conns ==> !(IdleTo(c, host, port) && c.id in alive))
            && (taken.None? ==> forall c :: c in rest ==> !IdleTo(c, host, port))
            && (forall c :: c in conns ==>
                  || c in rest || (taken == Some(c.id) && c.(inUse := true) in rest)
                  || (IdleTo(c, host, port) && c.id !in alive))
    decreases |conns|
  {
    if conns != [] {
      var (rest, taken) := Scanned(conns, host, port, alive);
      assert forall c :: c in conns ==> c == conns[0] || c in conns[1..];
      if IdleTo(conns[0], host, port) && conns[0].id in alive {
        assert conns[0] in conns && rest[0] == conns[0].(inUse := true) && rest[1..] == conns[1..];
        assert forall c :: c in conns[1..] ==> c in rest;
      } else {
        ScanExact(conns[1..], host, port, alive);
        var (rest', taken') := Scanned(conns[1..], host, port, alive);
        assert taken == taken' && forall c :: c in rest' ==> c in rest;
        assert !IdleTo(conns[0], host, port) ==> rest[0] == conns[0];
        assert forall c :: c in rest ==> (c == conns[0] && !IdleTo(c, host, port)) || c in rest';
        if taken.Some? {
          var c :| c in conns[1..] && c.id == taken.value && IdleTo(c, host, port) && c.id in alive
                   && c.(inUse := true) in rest';
          assert c in conns;
        }
      }
    }
  }

  lemma {:induction false} ScanDistinct(conns: seq<Conn>, host: string, port: int, alive: set<nat>)
    requires Distinct(conns)
    ensures Distinct(Scanned(conns, host, port, alive).0)
    decreases |conns|
  {
    if conns != [] {
      ScanDistinct(conns[1..], host, port, alive);
      var (rest, _) := Scanned(conns[1..], host, port, alive);
      forall i | 0 <= i < |rest|
        ensures rest[i].id != conns[0].id
      {
        ScanOrigin(conns[1..], host, port, alive, i);
        IdLater(conns, rest[i].id);
      }
    }
  }

  lemma IdLater(conns: seq<Conn>, id: nat)
    requires Distinct(conns) && conns != [] && exists c :: c in conns[1..] && c.id == id
    ensures id != conns[0].id
  {
    var c :| c in conns[1..] && c.id == id;
    var k :| 0 <= k < |conns[1..]| && conns[1..][k] == c;
    assert conns[k + 1] == c;
  }

  lemma {:induction false} UnlinkCounts(conns: seq<Conn>, k: nat)
    requires k < |conns|
    ensures InUse(Unlinked(conns, k)) + (if conns[k].inUse then 1 else 0) == InUse(conns)
    decreases |conns|
  {
    if k == 0 {
      assert Unlinked(conns, 0) == conns[1..];
    } else {
      assert Unlinked(conns, k)[1..] == Unlinked(conns[1..], k - 1);
      UnlinkCounts(conns[1..], k - 1);
    }
  }

  lemma {:induction false} SetFlagCounts(conns: seq<Conn>, k: nat, flag: bool)
    requires k < |conns|
    ensures InUse(conns[k := conns[k].(inUse := flag)]) + (if conns[k].inUse then 1 else 0)
         == InUse(conns) + (if flag then 1 else 0)
    decreases |conns|
  {
    var next := conns[k := conns[k].(inUse := flag)];
    if k == 0 {
      assert next[1..] == conns[1..];
    } else {
      assert next[1..] == conns[1..][k - 1 := conns[k].(inUse := flag)];
      SetFlagCounts(conns[1..], k - 1, flag);
    }
  }

  // ----- the critical sections, by value -----

  datatype Value = Value(conns: seq<Conn>, maxConns: int, total: int, active: int)

  /** How the first critical section of a get ends. */
  datatype Begun = Reused(id: nat) | LimitReached | MustConnect

  predicate AtLimit(v: Value) {
    v.maxConns > 0 && v.total >= v.maxConns
  }

  function BeginGet(v: Value, host: string, port: int, alive: set<nat>): (Value, Begun) {
    var (rest, taken) := Scanned(v.conns, host, port, alive);
    var v' := v.(conns := rest, total := v.total - (|v.conns| - |rest|));
    if taken.Some? then (v'.(active := v.active + 1), Reused(taken.value))
    else (v', if AtLimit(v') then LimitReached else MustConnect)
  }

  /** The second critical section: the limit is checked again before the connection is linked in. */
  function FinishGet(v: Value, id: nat, host: string, port: int): (Value, bool) {
    if AtLimit(v) then (v, false)
    else (v.(conns := [Conn(id, Cut(host, HOST_BUFFER), port, true)] + v.conns,
             total := v.total + 1, active := v.active + 1), true)
  }

  function Released(v: Value, id: nat): Value {
    var k := Find(v.conns, id);
    if k == |v.conns| || !v.conns[k].inUse then v
    else v.(conns := v.conns[k := v.conns[k].(inUse := false)], active := v.active - 1)
  }

  function Closed(v: Value, id: nat): (Value, bool) {
    var k := Find(v.conns, id);
    if k == |v.conns| then (v, false)
    else (v.(conns := Unlinked(v.conns, k), total := v.total - 1,
             active := if v.conns[k].inUse then v.active - 1 else v.active), true)
  }

  /** The counters describe the list, and a positive limit is respected. */
  ghost predicate Consistent(v: Value) {
    && Distinct(v.conns) && v.total == |v.conns| && v.active == InUse(v.conns)
    && (v.maxConns > 0 ==> v.total <= v.maxConns)
  }

  lemma BeginConsistent(v: Value, host: string, port: int, alive: set<nat>)
    requires Consistent(v)
    ensures Consistent(BeginGet(v, host, port, alive).0)
  {
    ScanCounts(v.conns, host, port, alive);
    ScanDistinct(v.conns, host, port, alive);
  }

  lemma FinishConsistent(v: Value, id: nat, host: string, port: int)
    requires Consistent(v) && forall c :: c in v.conns ==> c.id != id
    ensures Consistent(FinishGet(v, id, host, port).0)
  {
    var conns := [Conn(id, Cut(host, HOST_BUFFER), port, true)] + v.conns;
    assert conns[1..] == v.conns;
  }

  lemma ReleaseConsistent(v: Value, id: nat)
    requires Consistent(v)
    ensures Consistent(Released(v, id))
  {
    var k := Find(v.conns, id);
    if k < |v.conns| {
      SetFlagCounts(v.conns, k, false);
    }
  }

  lemma CloseConsistent(v: Value, id: nat)
    requires Consistent(v)
    ensures Consistent(Closed(v, id).0)
  {
    var k := Find(v.conns, id);
    if k < |v.conns| {
      UnlinkCounts(v.conns, k);
    }
  }

  /** Releasing a connection in use makes it idle, keeps its place and target, and touches no other; any
      other release does nothing. */
  lemma ReleaseExact(v: Value, id: nat)
    requires Distinct(v.conns)
    ensures var r := Released(v, id);
            && r.maxConns == v.maxConns && r.total == v.total && |r.conns| == |v.conns|
            && r.active == v.active - (if exists c :: c in v.conns && c.id == id && c.inUse then 1 else 0)
            && forall i :: 0 <= i < |v.conns| ==>
                 r.conns[i] == if v.conns[i].id == id then v.conns[i].(inUse := false) else v.conns[i]
  {
    var k := Find(v.conns, id);
    if k < |v.conns| {
      assert v.conns[k] in v.conns;
    }
  }

  /** Closing removes exactly the connection, and reports whether it was listed. */
  lemma CloseExact(v: Value, id: nat)
    requires Distinct(v.conns)
    ensures var (r, ok) := Closed(v, id);
            && (ok <==> exists c :: c in v.conns && c.id == id)
            && r.maxConns == v.maxConns && r.total == v.total - (if ok then 1 else 0)
            && forall c :: c in r.conns <==> c in v.conns && c.id != id
  {
    var k := Find(v.conns, id);
    if k < |v.conns| {
      assert v.conns[k] in v.conns;
      UnlinkMembers(v.conns, k);
    }
  }

  /** Number of dead idle connections to a target. */
  ghost function Dead(conns: seq<Conn>, host: string, port: int, alive: set<nat>): nat {
    if conns == [] then 0
    else Dead(conns[1..], host, port, alive) + if IdleTo(conns[0], host, port) && conns[0].id !in alive then 1 else 0
  }

  lemma {:induction false} DeadDropped(conns: seq<Conn>, host: string, port: int, alive: set<nat>)
    requires forall c :: c in conns ==> !(IdleTo(c, host, port) && c.id in alive)
    ensures |conns| - |Scanned(conns, host, port, alive).0| == Dead(conns, host, port, alive)
    decreases |conns|
  {
    if conns != [] {
      assert conns[0] in conns && forall c :: c in conns[1..] ==> c in conns;
      DeadDropped(conns[1..], host, port, alive);
    }
  }

  /** What a get answers.  It reuses a connection exactly when a live idle one to its target is listed,
      and then such a one; otherwise it gives up exactly when the list, without the dead ones to the
      target, is at a positive limit. */
  lemma BeginExact(v: Value, host: string, port: int, alive: set<nat>)
    ensures var (v', r) := BeginGet(v, host, port, alive);
            && (r.Reused? <==> exists c :: c in v.conns && IdleTo(c, host, port) && c.id in alive)
            && (r.Reused? ==> exists c :: c in v.conns && c.id == r.id && IdleTo(c, host, port) && c.id in alive)
            && (!r.Reused? ==>
                  (r.LimitReached? <==> v.maxConns > 0 && v.total - Dead(v.conns, host, port, alive) >= v.maxConns))
  {
    ScanExact(v.conns, host, port, alive);
    if Scanned(v.conns, host, port, alive).1.None? {
      DeadDropped(v.conns, host, port, alive);
    }
  }

  // ----- callers -----

  /** The pool, the callers in the middle of a get, who was handed which connection, and what target the
      last caller handed a connection had asked for. */
  datatype State = State(pool: Value, nextId: nat, connecting: map<nat, (string, int)>, holds: set<(nat, nat)>,
                         asked: map<nat, (string, int)>)

  /** Steps of caller `who`. */
  datatype Action =
    | Begin(who: nat, host: string, port: int, alive: set<nat>)
    | Finish(who: nat, connected: bool)
    | Release(who: nat, id: nat)
    | Close(who: nat, id: nat)

  /** Callers release and close what they were handed, and run one get at a time. */
  predicate Enabled(s: State, a: Action) {
    match a
    case Begin(who, _, port, _) => who !in s.connecting && port > 0
    case Finish(who, _) => who in s.connecting
    case Release(who, id) => (who, id) in s.holds
    case Close(who, id) => (who, id) in s.holds
  }

  function Step(s: State, a: Action): State
    requires Enabled(s, a)
  {
    match a
    case Begin(who, host, port, alive) =>
      var (pool, begun) := BeginGet(s.pool, host, port, alive);
      (match begun
       case Reused(id) => s.(pool := pool, holds := s.holds + {(who, id)}, asked := s.asked[id := (host, port)])
       case LimitReached => s.(pool := pool)
       case MustConnect => s.(pool := pool, connecting := s.connecting[who := (host, port)]))
    case Finish(who, connected) =>
      var (host, port) := s.connecting[who];
      var s' := s.(connecting := s.connecting - {who});
      if !connected then s'
      else
        var (pool, linked) := FinishGet(s.pool, s.nextId, host, port);
        s'.(pool := pool, nextId := s.nextId + 1, holds := if linked then s.holds + {(who, s.nextId)} else s.holds,
            asked := s.asked[s.nextId := (host, port)])
    case Release(who, id) =>
      s.(pool := Released(s.pool, id), holds := s.holds - {(who, id)})
    case Close(who, id) =>
      s.(pool := Closed(s.pool, id).0, holds := s.holds - {(who, id)})
  }

  function Start(maxConns: int): State {
    State(Value([], maxConns, 0, 0), 0, map[], {}, map[])
  }

  /** Connection `id` is in the list, in use. */
  ghost predicate Busy(conns: seq<Conn>, id: nat) {
    exists c :: c in conns && c.id == id && c.inUse
  }

  /** Every connection handed out is busy and was handed to one caller only. */
  ghost predicate Exclusive(s: State) {
    && (forall h :: h in s.holds ==> Busy(s.pool.conns, h.1))
    && (forall g, h :: g in s.holds && h in s.holds && g.1 == h.1 ==> g.0 == h.0)
  }

  ghost predicate Fresh(s: State) {
    forall c :: c in s.pool.conns ==> c.id < s.nextId
  }

  /** Every busy connection was handed to somebody. */
  ghost predicate NoLeak(s: State) {
    forall c :: c in s.pool.conns && c.inUse ==> exists h :: h in s.holds && h.1 == c.id
  }

  ghost predicate Inv(s: State) {
    Consistent(s.pool) && Exclusive(s) && Fresh(s) && NoLeak(s)
  }

  lemma BeginInv(s: State, who: nat, host: string, port: int, alive: set<nat>)
    requires Inv(s) && Enabled(s, Begin(who, host, port, alive))
    ensures Inv(Step(s, Begin(who, host, port, alive)))
  {
    var r := Step(s, Begin(who, host, port, alive));
    var (rest, taken) := Scanned(s.pool.conns, host, port, alive);
    BeginConsistent(s.pool, host, port, alive);
    UsedStayBusy(s, host, port, alive);
    ScannedKnown(s, host, port, alive);
    if taken.Some? {
      TakenWasIdle(s, host, port, alive);
      HandedExclusive(s, r, who, taken.value);
      HandedNoLeak(s, r, who, taken.value);
    }
  }

  lemma HandedExclusive(s: State, r: State, who: nat, id: nat)
    requires Exclusive(s) && r.holds == s.holds + {(who, id)} && Busy(r.pool.conns, id)
    requires forall h :: h in s.holds ==> Busy(r.pool.conns, h.1) && h.1 != id
    ensures Exclusive(r)
  {
  }

  lemma HandedNoLeak(s: State, r: State, who: nat, id: nat)
    requires r.holds == s.holds + {(who, id)}
    requires forall c :: c in r.pool.conns && c.inUse ==> c.id == id || exists h :: h in s.holds && h.1 == c.id
    ensures NoLeak(r)
  {
    forall c | c in r.pool.conns && c.inUse
      ensures exists h :: h in r.holds && h.1 == c.id
    {
      if c.id == id {
        assert (who, id) in r.holds;
      } else {
        var h :| h in s.holds && h.1 == c.id;
        assert h in r.holds;
      }
    }
  }

  lemma UsedStayBusy(s: State, host: string, port: int, alive: set<nat>)
    requires Exclusive(s)
    ensures forall h :: h in s.holds ==> Busy(Scanned(s.pool.conns, host, port, alive).0, h.1)
  {
    forall h | h in s.holds
      ensures Busy(Scanned(s.pool.conns, host, port, alive).0, h.1)
    {
      var c :| c in s.pool.conns && c.id == h.1 && c.inUse;
      ScanKeepsUsed(s.pool.conns, host, port, alive, c);
    }
  }

  lemma ScannedKnown(s: State, host: string, port: int, alive: set<nat>)
    requires Fresh(s) && NoLeak(s)
    ensures var (rest, taken) := Scanned(s.pool.conns, host, port, alive);
            forall c :: c in rest ==>
              && c.id < s.nextId
              && (c.inUse ==> taken == Some(c.id) || exists h :: h in s.holds && h.1 == c.id)
  {
    var (rest, taken) := Scanned(s.pool.conns, host, port, alive);
    forall c | c in rest
      ensures c.id < s.nextId && (c.inUse ==> taken == Some(c.id) || exists h :: h in s.holds && h.1 == c.id)
    {
      var i :| 0 <= i < |rest| && rest[i] == c;
      ScanOrigin(s.pool.conns, host, port, alive, i);
      if taken == Some(c.id) && c !in s.pool.conns {
        assert c.(inUse := false).id == c.id;
      }
    }
  }

  /** The connection a get reuses was held by nobody. */
  lemma TakenWasIdle(s: State, host: string, port: int, alive: set<nat>)
    requires Inv(s) && Scanned(s.pool.conns, host, port, alive).1.Some?
    ensures var (rest, taken) := Scanned(s.pool.conns, host, port, alive);
            Busy(rest, taken.value) && forall h :: h in s.holds ==> h.1 != taken.value
  {
    var (rest, taken) := Scanned(s.pool.conns, host, port, alive);
    ScanCounts(s.pool.conns, host, port, alive);
    var c :| c in s.pool.conns && c.id == taken.value && !c.inUse && c.(inUse := true) in rest;
    assert Busy(rest, taken.value);
    forall h | h in s.holds
      ensures h.1 != taken.value
    {
      var d :| d in s.pool.conns && d.id == h.1 && d.inUse;
      if h.1 == taken.value {
        SameConn(s.pool.conns, c, d);
        assert false;
      }
    }
  }

  lemma SameConn(conns: seq<Conn>, c: Conn, d: Conn)
    requires Distinct(conns) && c in conns && d in conns && c.id == d.id
    ensures c == d
  {
    var i :| 0 <= i < |conns| && conns[i] == c;
    var j :| 0 <= j < |conns| && conns[j] == d;
  }

  lemma FinishInv(s: State, who: nat, connected: bool)
    requires Inv(s) && Enabled(s, Finish(who, connected))
    ensures Inv(Step(s, Finish(who, connected)))
  {
    var (host, port) := s.connecting[who];
    if connected && !AtLimit(s.pool) {
      FinishConsistent(s.pool, s.nextId, host, port);
      LinkInv(s, Step(s, Finish(who, connected)), who, Conn(s.nextId, Cut(host, HOST_BUFFER), port, true));
    }
  }

  /** Linking in a connection under a new id, handed to its creator. */
  lemma LinkInv(s: State, r: State, who: nat, c: Conn)
    requires Inv(s) && c.id == s.nextId && c.inUse && r.pool.conns == [c] + s.pool.conns && Consistent(r.pool)
    requires r.nextId == s.nextId + 1 && r.holds == s.holds + {(who, c.id)}
    ensures Inv(r)
  {
    LinkExclusive(s, r, who, c);
    LinkNoLeak(s, r, who, c);
  }

  lemma LinkExclusive(s: State, r: State, who: nat, c: Conn)
    requires Exclusive(s) && Fresh(s) && c.id == s.nextId && c.inUse && r.pool.conns == [c] + s.pool.conns
    requires r.holds == s.holds + {(who, c.id)}
    ensures Exclusive(r)
  {
    assert r.pool.conns[0] == c;
    forall h | h in s.holds
      ensures Busy(r.pool.conns, h.1) && h.1 != c.id
    {
      var d :| d in s.pool.conns && d.id == h.1 && d.inUse;
      assert d in r.pool.conns;
    }
  }

  lemma LinkNoLeak(s: State, r: State, who: nat, c: Conn)
    requires NoLeak(s) && r.pool.conns == [c] + s.pool.conns && r.holds == s.holds + {(who, c.id)}
    ensures NoLeak(r)
  {
    forall d | d in r.pool.conns && d.inUse
      ensures exists h :: h in r.holds && h.1 == d.id
    {
      if d == c {
        assert (who, c.id) in r.holds;
      } else {
        var h :| h in s.holds && h.1 == d.id;
        assert h in r.holds;
      }
    }
  }

  /** Giving a connection up touches that connection only. */
  lemma GiveUpInv(s: State, r: State, who: nat, id: nat)
    requires Inv(s) && (who, id) in s.holds && Consistent(r.pool) && r.nextId == s.nextId
    requires r.holds == s.holds - {(who, id)}
    requires forall c :: c in s.pool.conns && c.id != id ==> c in r.pool.conns
    requires forall c :: c in r.pool.conns ==> (c in s.pool.conns && c.id != id) || (c.id == id && !c.inUse)
    ensures Inv(r)
  {
    var b :| b in s.pool.conns && b.id == id && b.inUse;
    forall h | h in r.holds
      ensures Busy(r.pool.conns, h.1)
    {
      var c :| c in s.pool.conns && c.id == h.1 && c.inUse;
      assert h.1 != id;
      assert c in r.pool.conns;
    }
    forall c | c in r.pool.conns && c.inUse
      ensures exists h :: h in r.holds && h.1 == c.id
    {
      var h :| h in s.holds && h.1 == c.id;
      assert h in r.holds;
    }
    forall c | c in r.pool.conns
      ensures c.id < r.nextId
    {
    }
  }

  lemma ReleaseInv(s: State, who: nat, id: nat)
    requires Inv(s) && Enabled(s, Release(who, id))
    ensures Inv(Step(s, Release(who, id)))
  {
    var conns := s.pool.conns;
    ReleaseConsistent(s.pool, id);
    BusyFound(conns, id);
    var k := Find(conns, id);
    var next := conns[k := conns[k].(inUse := false)];
    forall c | c in conns && c.id != id
      ensures c in next
    {
      var i :| 0 <= i < |conns| && conns[i] == c;
      assert next[i] == c;
    }
    GiveUpInv(s, Step(s, Release(who, id)), who, id);
  }

  lemma CloseInv(s: State, who: nat, id: nat)
    requires Inv(s) && Enabled(s, Close(who, id))
    ensures Inv(Step(s, Close(who, id)))
  {
    var conns := s.pool.conns;
    CloseConsistent(s.pool, id);
    BusyFound(conns, id);
    var k := Find(conns, id);
    UnlinkMembers(conns, k);
    GiveUpInv(s, Step(s, Close(who, id)), who, id);
  }

  lemma UnlinkMembers(conns: seq<Conn>, k: nat)
    requires Distinct(conns) && k < |conns|
    ensures forall c :: c in Unlinked(conns, k) <==> c in conns && c.id != conns[k].id
  {
    var next := Unlinked(conns, k);
    forall c | c in conns && c.id != conns[k].id
      ensures c in next
    {
      var i :| 0 <= i < |conns| && conns[i] == c;
      assert next[if i < k then i else i - 1] == c;
    }
  }

  lemma BusyFound(conns: seq<Conn>, id: nat)
    requires Distinct(conns) && Busy(conns, id)
    ensures Find(conns, id) < |conns| && conns[Find(conns, id)].inUse
  {
    var c :| c in conns && c.id == id && c.inUse;
    var i :| 0 <= i < |conns| && conns[i] == c;
  }

  lemma StepInv(s: State, a: Action)
    requires Inv(s) && Enabled(s, a)
    ensures Inv(Step(s, a))
  {
    match a
    case Begin(who, host, port, alive) => BeginInv(s, who, host, port, alive);
    case Finish(who, connected) => FinishInv(s, who, connected);
    case Release(who, id) => ReleaseInv(s, who, id);
    case Close(who, id) => CloseInv(s, who, id);
  }

  /** Connection `id` is in use and goes to the given host, as far as the buffer holds it, and port. */
  ghost predicate GoesTo(conns: seq<Conn>, id: nat, target: (string, int)) {
    exists c :: c in conns && c.id == id && c.inUse && c.host == Cut(target.0, HOST_BUFFER) && c.port == target.1
  }

  /** Every connection handed out goes where its holder asked. */
  ghost predicate Targeted(s: State) {
    && (forall c :: c in s.pool.conns ==> |c.host| <= HOST_BUFFER)
    && (forall h :: h in s.holds ==> h.1 in s.asked && GoesTo(s.pool.conns, h.1, s.asked[h.1]))
  }

  lemma BeginTargeted(s: State, who: nat, host: string, port: int, alive: set<nat>)
    requires Inv(s) && Targeted(s) && Enabled(s, Begin(who, host, port, alive))
    ensures Targeted(Step(s, Begin(who, host, port, alive)))
  {
    var r := Step(s, Begin(who, host, port, alive));
    var (rest, taken) := Scanned(s.pool.conns, host, port, alive);
    HostsStayCut(s.pool.conns, host, port, alive);
    if taken.Some? {
      TakenWasIdle(s, host, port, alive);
      TakenGoesThere(s.pool.conns, host, port, alive);
    }
    forall h | h in s.holds
      ensures h.1 in r.asked && GoesTo(rest, h.1, r.asked[h.1])
    {
      UsedStays(s.pool.conns, host, port, alive, h.1, s.asked[h.1]);
    }
  }

  lemma HostsStayCut(conns: seq<Conn>, host: string, port: int, alive: set<nat>)
    requires forall c :: c in conns ==> |c.host| <= HOST_BUFFER
    ensures forall c :: c in Scanned(conns, host, port, alive).0 ==> |c.host| <= HOST_BUFFER
  {
    var rest := Scanned(conns, host, port, alive).0;
    forall c | c in rest
      ensures |c.host| <= HOST_BUFFER
    {
      var i :| 0 <= i < |rest| && rest[i] == c;
      ScanOrigin(conns, host, port, alive, i);
      assert c.(inUse := false).host == c.host;
    }
  }

  lemma TakenGoesThere(conns: seq<Conn>, host: string, port: int, alive: set<nat>)
    requires Scanned(conns, host, port, alive).1.Some? && forall c :: c in conns ==> |c.host| <= HOST_BUFFER
    ensures var (rest, taken) := Scanned(conns, host, port, alive); GoesTo(rest, taken.value, (host, port))
  {
    var (rest, taken) := Scanned(conns, host, port, alive);
    ScanExact(conns, host, port, alive);
    var c :| c in conns && c.id == taken.value && IdleTo(c, host, port) && c.id in alive && c.(inUse := true) in rest;
    assert c.(inUse := true).host == host == Cut(host, HOST_BUFFER);
  }

  lemma UsedStays(conns: seq<Conn>, host: string, port: int, alive: set<nat>, id: nat, target: (string, int))
    requires GoesTo(conns, id, target)
    ensures GoesTo(Scanned(conns, host, port, alive).0, id, target)
  {
    var c :| c in conns && c.id == id && c.inUse && c.host == Cut(target.0, HOST_BUFFER) && c.port == target.1;
    ScanKeepsUsed(conns, host, port, alive, c);
  }

  lemma FinishTargeted(s: State, who: nat, connected: bool)
    requires Inv(s) && Targeted(s) && Enabled(s, Finish(who, connected))
    ensures Targeted(Step(s, Finish(who, connected)))
  {
    var r := Step(s, Finish(who, connected));
    var (host, port) := s.connecting[who];
    if connected {
      assert forall c :: c in s.pool.conns ==> c in r.pool.conns;
      if !AtLimit(s.pool) {
        var c := Conn(s.nextId, Cut(host, HOST_BUFFER), port, true);
        assert r.pool.conns[0] == c;
        assert GoesTo(r.pool.conns, s.nextId, (host, port));
      }
      forall h | h in s.holds
        ensures h.1 in r.asked && GoesTo(r.pool.conns, h.1, r.asked[h.1])
      {
        var d :| d in s.pool.conns && d.id == h.1 && d.inUse && d.host == Cut(s.asked[h.1].0, HOST_BUFFER)
                 && d.port == s.asked[h.1].1;
        assert d in r.pool.conns && d.id < s.nextId;
      }
    }
  }

  /** Giving connection `id` up leaves the others where they were. */
  lemma GiveUpTargeted(s: State, r: State, who: nat, id: nat)
    requires Inv(s) && Targeted(s) && (who, id) in s.holds && r.holds == s.holds - {(who, id)} && r.asked == s.asked
    requires forall c :: c in s.pool.conns && c.id != id ==> c in r.pool.conns
    requires forall c :: c in r.pool.conns ==> |c.host| <= HOST_BUFFER
    ensures Targeted(r)
  {
    forall h | h in r.holds
      ensures GoesTo(r.pool.conns, h.1, r.asked[h.1])
    {
      var d :| d in s.pool.conns && d.id == h.1 && d.inUse && d.host == Cut(s.asked[h.1].0, HOST_BUFFER)
               && d.port == s.asked[h.1].1;
      assert d.id != id;
    }
  }

  lemma StepTargeted(s: State, a: Action)
    requires Inv(s) && Targeted(s) && Enabled(s, a)
    ensures Targeted(Step(s, a))
  {
    match a
    case Begin(who, host, port, alive) => BeginTargeted(s, who, host, port, alive);
    case Finish(who, connected) => FinishTargeted(s, who, connected);
    case Release(who, id) =>
      var k := Find(s.pool.conns, id);
      BusyFound(s.pool.conns, id);
      OthersStay(s.pool.conns, k, s.pool.conns[k].(inUse := false));
      GiveUpTargeted(s, Step(s, a), who, id);
    case Close(who, id) =>
      BusyFound(s.pool.conns, id);
      UnlinkMembers(s.pool.conns, Find(s.pool.conns, id));
      GiveUpTargeted(s, Step(s, a), who, id);
  }

  lemma OthersStay(conns: seq<Conn>, k: nat, c: Conn)
    requires k < |conns| && c.id == conns[k].id && c.host == conns[k].host
    ensures forall d :: d in conns && d.id != c.id ==> d in conns[k := c]
    ensures forall d :: d in conns[k := c] ==> d in conns || d.host == conns[k].host
  {
    forall d | d in conns && d.id != c.id
      ensures d in conns[k := c]
    {
      var i :| 0 <= i < |conns| && conns[i] == d;
      assert conns[k := c][i] == d;
    }
  }

  ghost predicate IsRun(s: State, actions: seq<Action>)
    decreases |actions|
  {
    actions == [] || (Enabled(s, actions[0]) && IsRun(Step(s, actions[0]), actions[1..]))
  }

  ghost function End(s: State, actions: seq<Action>): State
    requires IsRun(s, actions)
    decreases |actions|
  {
    if actions == [] then s else End(Step(s, actions[0]), actions[1..])
  }

  lemma {:induction false} RunInv(s: State, actions: seq<Action>)
    requires Inv(s) && IsRun(s, actions)
    ensures Inv(End(s, actions)) && End(s, actions).pool.maxConns == s.pool.maxConns
    decreases |actions|
  {
    if actions != [] {
      StepInv(s, actions[0]);
      RunInv(Step(s, actions[0]), actions[1..]);
    }
  }

  lemma {:induction false} RunTargeted(s: State, actions: seq<Action>)
    requires Inv(s) && Targeted(s) && IsRun(s, actions)
    ensures Targeted(End(s, actions))
    decreases |actions|
  {
    if actions != [] {
      StepInv(s, actions[0]);
      StepTargeted(s, actions[0]);
      RunTargeted(Step(s, actions[0]), actions[1..]);
    }
  }

  /** In every interleaving each connection a caller holds goes to the host and port that caller asked
      for. */
  lemma HeldGoesWhereAsked(maxConns: int, actions: seq<Action>)
    requires IsRun(Start(maxConns), actions)
    ensures var s := End(Start(maxConns), actions);
            forall h :: h in s.holds ==> h.1 in s.asked && GoesTo(s.pool.conns, h.1, s.asked[h.1])
  {
    RunTargeted(Start(maxConns), actions);
  }

  /** In every interleaving the counters are the list's length and its number of connections in use,
      a positive limit is never exceeded, and no connection is held by two callers. */
  lemma PoolIsSafe(maxConns: int, actions: seq<Action>)
    requires IsRun(Start(maxConns), actions)
    ensures var s := End(Start(maxConns), actions);
            && s.pool.total == |s.pool.conns| && s.pool.active == InUse(s.pool.conns)
            && (maxConns > 0 ==> s.pool.total <= maxConns)
            && (forall g, h :: g in s.holds && h in s.holds && g.1 == h.1 ==> g == h)
            && (forall h :: h in s.holds ==> Busy(s.pool.conns, h.1))
  {
    RunInv(Start(maxConns), actions);
  }

  // ----- the pool object -----

  class Pool {
    var conns: seq<Conn>
    const maxConns: int
    var total: int
    var active: int

    function Contents(): Value
      reads this
    {
      Value(conns, maxConns, total, active)
    }

    constructor (max: int)
      ensures Contents() == Value([], max, 0, 0)
    {
      conns, maxConns, total, active := [], max, 0, 0;
    }

    method Begin(host: string, port: int, alive: set<nat>) returns (r: Begun)
      modifies this
      ensures (Contents(), r) == BeginGet(old(Contents()), host, port, alive)
    {
      ghost var before := conns;
      var i := 0;
      Resume(conns[..0], conns[0..], host, port, alive);
      assert conns[0..] == conns;
      while i < |conns|
        invariant i <= |conns| <= |before| && active == old(active) && total == old(total) - (|before| - |conns|)
        invariant Scanned(before, host, port, alive) == ScannedFrom(conns[..i], conns[i..], host, port, alive)
        decreases |conns| - i
      {
        if Matches(conns[i], host, port) {
          if conns[i].id in alive {
            var id := conns[i].id;
            assert conns[i..][1..] == conns[i + 1..];
            assert conns[i := conns[i].(inUse := true)] == conns[..i] + ([conns[i].(inUse := true)] + conns[i + 1..]);
            conns := conns[i := conns[i].(inUse := true)];
            active := active + 1;
            return Reused(id);
          }
          assert conns[i..][1..] == conns[i + 1..] == Unlinked(conns, i)[i..] && Unlinked(conns, i)[..i] == conns[..i];
          conns := Unlinked(conns, i);
          total := total - 1;
        } else {
          KeepOne(conns, i, host, port, alive);
          i := i + 1;
        }
      }
      assert conns[i..] == [] && conns[..i] + [] == conns;
      if maxConns > 0 && total >= maxConns {
        return LimitReached;
      }
      return MustConnect;
    }

    method Finish(id: nat, host: string, port: int) returns (linked: bool)
      modifies this
      ensures (Contents(), linked) == FinishGet(old(Contents()), id, host, port)
    {
      if maxConns > 0 && total >= maxConns {
        return false;
      }
      conns := [Conn(id, Cut(host, HOST_BUFFER), port, true)] + conns;
      total := total + 1;
      active := active + 1;
      return true;
    }

    /** Walks the list to the connection. */
    method Locate(id: nat) returns (k: nat)
      ensures k == Find(conns, id)
    {
      k := 0;
      while k < |conns|
        invariant k <= |conns| && Find(conns, id) == k + Find(conns[k..], id)
      {
        if conns[k].id == id {
          return;
        }
        assert conns[k..][1..] == conns[k + 1..];
        k := k + 1;
      }
    }

    method Release(id: nat)
      modifies this
      ensures Contents() == Released(old(Contents()), id)
    {
      var k := Locate(id);
      if k < |conns| && conns[k].inUse {
        conns := conns[k := conns[k].(inUse := false)];
        active := active - 1;
      }
    }

    method Close(id: nat) returns (ok: bool)
      modifies this
      ensures (Contents(), ok) == Closed(old(Contents()), id)
    {
      var k := Locate(id);
      if k == |conns| {
        return false;
      }
      if conns[k].inUse {
        active := active - 1;
      }
      conns := Unlinked(conns, k);
      total := total - 1;
      return true;
    }
  }
}
