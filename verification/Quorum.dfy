/** Replicated persistence: a write must reach N/2+1 disks, a read returns the first content that
    collects N/2 votes.  Contents have an arbitrary type V; votes are counted by hash. */
module Quorum {
  import opened Wrappers

  /** How saving to one disk ends.  A failed save may leave either content behind; a disk whose
      path is missing is skipped, which is a failure that keeps the old content. */
  datatype Outcome = Wrote | FailedKeepingOld | FailedLeavingNew

  function WriteQuorum(n: nat): nat {
    n / 2 + 1
  }

  function ReadQuorum(n: nat): nat {
    if n > 1 then n / 2 else 1
  }

  // ----- writing -----

  function AfterSave<V>(disks: seq<Option<V>>, outcomes: seq<Outcome>, t: V): (r: seq<Option<V>>)
    requires |outcomes| == |disks|
    ensures |r| == |disks|
  {
    seq(|disks|, i requires 0 <= i < |disks| => if outcomes[i].FailedKeepingOld? then disks[i] else Some(t))
  }

  function Writes(outcomes: seq<Outcome>): nat {
    if outcomes == [] then 0
    else Writes(outcomes[..|outcomes| - 1]) + if outcomes[|outcomes| - 1].Wrote? then 1 else 0
  }

  /** Tries every disk, then compares the successes with the quorum. */
  method SaveQuorum<V>(disks: array<Option<V>>, outcomes: seq<Outcome>, t: V) returns (ok: bool)
    requires |outcomes| == disks.Length
    modifies disks
    ensures ok <==> disks.Length > 0 && Writes(outcomes) >= WriteQuorum(disks.Length)
    ensures ok <==> disks.Length > 0 && Writes(outcomes) >= disks.Length / 2 + 1
    ensures disks[..] == AfterSave(old(disks[..]), outcomes, t)
  {
    if disks.Length == 0 {
      return false;
    }
    var successes := 0;
    for i := 0 to disks.Length
      invariant successes == Writes(outcomes[..i])
      invariant disks[..i] == AfterSave(old(disks[..]), outcomes, t)[..i]
      invariant disks[i..] == old(disks[i..])
    {
      assert outcomes[..i + 1][..i] == outcomes[..i];
      if !outcomes[i].FailedKeepingOld? {
        disks[i] := Some(t);
      }
      if outcomes[i].Wrote? {
        successes := successes + 1;
      }
    }
    assert outcomes[..|outcomes|] == outcomes;
    return successes >= WriteQuorum(disks.Length);
  }

  // ----- reading -----

  /** Number of readings whose content hashes to `x`. */
  function Tally<V>(readings: seq<Option<V>>, hash: V -> nat, x: nat): nat {
    if readings == [] then 0
    else
      var last := readings[|readings| - 1];
      Tally(readings[..|readings| - 1], hash, x) + if last.Some? && hash(last.value) == x then 1 else 0
  }

  /** The first content read with hash `x`. */
  function FirstWith<V>(readings: seq<Option<V>>, hash: V -> nat, x: nat): Option<V> {
    if readings == [] then None
    else if readings[0].Some? && hash(readings[0].value) == x then readings[0]
    else FirstWith(readings[1..], hash, x)
  }

  /** Reading `i` completes a quorum for its hash. */
  predicate Completes<V>(readings: seq<Option<V>>, hash: V -> nat, quorum: nat, i: nat)
    requires i < |readings|
  {
    readings[i].Some? && Tally(readings[..i + 1], hash, hash(readings[i].value)) >= quorum
  }

  /** The content that wins: the disks are read in order, and the first hash to collect `quorum`
      votes is represented by its first reading. */
  function WinnerFrom<V>(readings: seq<Option<V>>, hash: V -> nat, quorum: nat, i: nat): Option<V>
    requires i <= |readings|
    decreases |readings| - i
  {
    if i == |readings| then None
    else if Completes(readings, hash, quorum, i) then FirstWith(readings, hash, hash(readings[i].value))
    else WinnerFrom(readings, hash, quorum, i + 1)
  }

  function Winner<V>(readings: seq<Option<V>>, hash: V -> nat): Option<V> {
    WinnerFrom(readings, hash, ReadQuorum(|readings|), 0)
  }

  datatype Vote<V> = Vote(hash: nat, content: V, count: nat)

  /** The vote table after reading a prefix. */
  ghost predicate TableFor<V>(votes: seq<Vote<V>>, prefix: seq<Option<V>>, hash: V -> nat) {
    && (forall i, j :: 0 <= i < j < |votes| ==> votes[i].hash != votes[j].hash)
    && (forall j :: 0 <= j < |votes| ==>
          && votes[j].count == Tally(prefix, hash, votes[j].hash)
          && FirstWith(prefix, hash, votes[j].hash) == Some(votes[j].content))
    && (forall i :: 0 <= i < |prefix| && prefix[i].Some? ==>
          exists j :: 0 <= j < |votes| && votes[j].hash == hash(prefix[i].value))
  }

  lemma {:induction false} FirstWithAppend<V>(prefix: seq<Option<V>>, rest: seq<Option<V>>, hash: V -> nat, x: nat)
    ensures FirstWith(prefix + rest, hash, x)
         == if FirstWith(prefix, hash, x).Some? then FirstWith(prefix, hash, x) else FirstWith(rest, hash, x)
    decreases |prefix|
  {
    if prefix == [] {
      assert prefix + rest == rest;
    } else {
      assert (prefix + rest)[1..] == prefix[1..] + rest;
      FirstWithAppend(prefix[1..], rest, hash, x);
    }
  }

  lemma {:induction false} UnseenHash<V>(prefix: seq<Option<V>>, hash: V -> nat, x: nat)
    requires forall i :: 0 <= i < |prefix| && prefix[i].Some? ==> hash(prefix[i].value) != x
    ensures Tally(prefix, hash, x) == 0 && FirstWith(prefix, hash, x) == None
    decreases |prefix|
  {
    if prefix != [] {
      var n := |prefix| - 1;
      UnseenHash(prefix[..n], hash, x);
      assert prefix == prefix[..n] + [prefix[n]];
      FirstWithAppend(prefix[..n], [prefix[n]], hash, x);
      assert FirstWith([prefix[n]], hash, x) == None;
    }
  }

  lemma TallyStep<V>(prefix: seq<Option<V>>, last: Option<V>, hash: V -> nat, x: nat)
    ensures Tally(prefix + [last], hash, x)
         == Tally(prefix, hash, x) + if last.Some? && hash(last.value) == x then 1 else 0
  {
    assert (prefix + [last])[..|prefix|] == prefix;
  }

  /** The table stays right when a disk cannot be read. */
  lemma TableSkip<V>(votes: seq<Vote<V>>, prefix: seq<Option<V>>, hash: V -> nat)
    requires TableFor(votes, prefix, hash)
    ensures TableFor(votes, prefix + [None], hash)
  {
    forall j | 0 <= j < |votes|
      ensures votes[j].count == Tally(prefix + [None], hash, votes[j].hash)
      ensures FirstWith(prefix + [None], hash, votes[j].hash) == Some(votes[j].content)
    {
      TallyStep(prefix, None, hash, votes[j].hash);
      FirstWithAppend(prefix, [None], hash, votes[j].hash);
    }
  }

  /** ... when a content is seen again ... */
  lemma TableCount<V>(votes: seq<Vote<V>>, prefix: seq<Option<V>>, v: V, hash: V -> nat, k: nat)
    requires TableFor(votes, prefix, hash) && k < |votes| && votes[k].hash == hash(v)
    ensures TableFor(votes[k := votes[k].(count := votes[k].count + 1)], prefix + [Some(v)], hash)
  {
    var next := votes[k := votes[k].(count := votes[k].count + 1)];
    forall j | 0 <= j < |next|
      ensures next[j].count == Tally(prefix + [Some(v)], hash, next[j].hash)
      ensures FirstWith(prefix + [Some(v)], hash, next[j].hash) == Some(next[j].content)
    {
      TallyStep(prefix, Some(v), hash, votes[j].hash);
      FirstWithAppend(prefix, [Some(v)], hash, votes[j].hash);
    }
    TableCovers(votes, next, prefix, v, hash, k);
  }

  /** ... and when a content is new. */
  lemma TableAdd<V>(votes: seq<Vote<V>>, prefix: seq<Option<V>>, v: V, hash: V -> nat)
    requires TableFor(votes, prefix, hash) && forall j :: 0 <= j < |votes| ==> votes[j].hash != hash(v)
    ensures TableFor(votes + [Vote(hash(v), v, 1)], prefix + [Some(v)], hash)
  {
    var next := votes + [Vote(hash(v), v, 1)];
    UnseenHash(prefix, hash, hash(v));
    forall j | 0 <= j < |next|
      ensures next[j].count == Tally(prefix + [Some(v)], hash, next[j].hash)
      ensures FirstWith(prefix + [Some(v)], hash, next[j].hash) == Some(next[j].content)
    {
      TallyStep(prefix, Some(v), hash, next[j].hash);
      FirstWithAppend(prefix, [Some(v)], hash, next[j].hash);
    }
    TableCovers(votes, next, prefix, v, hash, |votes|);
  }

  lemma TableCovers<V>(votes: seq<Vote<V>>, next: seq<Vote<V>>, prefix: seq<Option<V>>, v: V, hash: V -> nat, k: nat)
    requires TableFor(votes, prefix, hash) && |votes| <= |next| && k < |next| && next[k].hash == hash(v)
    requires forall j :: 0 <= j < |votes| ==> next[j].hash == votes[j].hash
    ensures forall i :: 0 <= i < |prefix + [Some(v)]| && (prefix + [Some(v)])[i].Some? ==>
              exists j :: 0 <= j < |next| && next[j].hash == hash((prefix + [Some(v)])[i].value)
  {
    forall i | 0 <= i < |prefix + [Some(v)]| && (prefix + [Some(v)])[i].Some?
      ensures exists j :: 0 <= j < |next| && next[j].hash == hash((prefix + [Some(v)])[i].value)
    {
      if i < |prefix| {
        var j :| 0 <= j < |votes| && votes[j].hash == hash(prefix[i].value);
        assert next[j].hash == hash(prefix[i].value);
      } else {
        assert next[k].hash == hash(v);
      }
    }
  }

  /** Position of a hash in the vote table, or its length. */
  method FindVote<V>(votes: seq<Vote<V>>, x: nat) returns (k: nat)
    ensures k <= |votes| && (k < |votes| ==> votes[k].hash == x)
    ensures k == |votes| ==> forall j :: 0 <= j < |votes| ==> votes[j].hash != x
  {
    k := 0;
    while k < |votes|
      invariant k <= |votes| && forall j :: 0 <= j < k ==> votes[j].hash != x
    {
      if votes[k].hash == x {
        return;
      }
      k := k + 1;
    }
  }

  /** Reads the disks in order, counting votes in a table, and stops at the first quorum. */
  method LoadQuorum<V>(readings: seq<Option<V>>, hash: V -> nat) returns (r: Option<V>)
    ensures r == Winner(readings, hash)
  {
    if |readings| == 0 {
      return None;
    }
    var quorum := ReadQuorum(|readings|);
    var votes: seq<Vote<V>> := [];
    for i := 0 to |readings|
      invariant TableFor(votes, readings[..i], hash)
      invariant Winner(readings, hash) == WinnerFrom(readings, hash, quorum, i)
    {
      assert readings[..i + 1] == readings[..i] + [readings[i]];
      if readings[i].None? {
        TableSkip(votes, readings[..i], hash);
        continue;
      }
      var v := readings[i].value;
      var k := FindVote(votes, hash(v));
      if k < |votes| {
        TableCount(votes, readings[..i], v, hash, k);
        votes := votes[k := votes[k].(count := votes[k].count + 1)];
      } else {
        TableAdd(votes, readings[..i], v, hash);
        votes := votes + [Vote(hash(v), v, 1)];
      }
      if votes[k].count >= quorum {
        assert readings == readings[..i + 1] + readings[i + 1..];
        FirstWithAppend(readings[..i + 1], readings[i + 1..], hash, hash(v));
        return Some(votes[k].content);
      }
    }
    return None;
  }

  // ----- agreement between writes and reads -----

  /** Number of disks holding exactly `t`. */
  ghost function Holds<V>(disks: seq<Option<V>>, t: V): nat {
    if disks == [] then 0
    else Holds(disks[..|disks| - 1], t) + if disks[|disks| - 1] == Some(t) then 1 else 0
  }

  /** What a later reader may see: each disk's content, or nothing if it cannot be read. */
  ghost predicate ReadingOf<V>(readings: seq<Option<V>>, disks: seq<Option<V>>) {
    |readings| == |disks| && forall i :: 0 <= i < |disks| ==> readings[i].None? || readings[i] == disks[i]
  }

  /** No other content on the disks has the hash of `t`. */
  ghost predicate NoCollision<V>(disks: seq<Option<V>>, hash: V -> nat, t: V) {
    forall i :: 0 <= i < |disks| && disks[i].Some? && hash(disks[i].value) == hash(t) ==> disks[i].value == t
  }

  lemma {:induction false} SaveReaches<V>(disks: seq<Option<V>>, outcomes: seq<Outcome>, t: V)
    requires |outcomes| == |disks|
    ensures Holds(AfterSave(disks, outcomes, t), t) >= Writes(outcomes)
    decreases |disks|
  {
    if disks != [] {
      var n := |disks| - 1;
      SaveReaches(disks[..n], outcomes[..n], t);
      assert AfterSave(disks, outcomes, t)[..n] == AfterSave(disks[..n], outcomes[..n], t);
    }
  }

  /** Votes for another hash come only from disks without `t`. */
  lemma {:induction false} VotesDisjoint<V>(readings: seq<Option<V>>, disks: seq<Option<V>>, hash: V -> nat, t: V,
                                            x: nat)
    requires ReadingOf(readings, disks) && x != hash(t)
    ensures Tally(readings, hash, x) + Holds(disks, t) <= |disks|
    decreases |disks|
  {
    if disks != [] {
      var n := |disks| - 1;
      VotesDisjoint(readings[..n], disks[..n], hash, t, x);
    }
  }

  lemma {:induction false} TallyMonotone<V>(readings: seq<Option<V>>, i: nat, hash: V -> nat, x: nat)
    requires i <= |readings|
    ensures Tally(readings[..i], hash, x) <= Tally(readings, hash, x)
    decreases |readings| - i
  {
    if i == |readings| {
      assert readings[..i] == readings;
    } else {
      TallyMonotone(readings, i + 1, hash, x);
      assert readings[..i + 1] == readings[..i] + [readings[i]];
      TallyStep(readings[..i], readings[i], hash, x);
    }
  }

  lemma {:induction false} FirstWithIsRead<V>(readings: seq<Option<V>>, hash: V -> nat, x: nat)
    requires exists i :: 0 <= i < |readings| && readings[i].Some? && hash(readings[i].value) == x
    ensures var r := FirstWith(readings, hash, x); r.Some? && hash(r.value) == x && r in readings
    decreases |readings|
  {
    if !(readings[0].Some? && hash(readings[0].value) == x) {
      var i :| 0 <= i < |readings| && readings[i].Some? && hash(readings[i].value) == x;
      assert readings[1..][i - 1] == readings[i];
      FirstWithIsRead(readings[1..], hash, x);
    }
  }

  /** A winner was read from some disk and has a quorum of votes. */
  lemma {:induction false} WinnerHasQuorum<V>(readings: seq<Option<V>>, hash: V -> nat, quorum: nat, i: nat)
    requires i <= |readings|
    ensures var w := WinnerFrom(readings, hash, quorum, i);
            w.Some? ==> w in readings && Tally(readings, hash, hash(w.value)) >= quorum
    decreases |readings| - i
  {
    if i < |readings| {
      if Completes(readings, hash, quorum, i) {
        FirstWithIsRead(readings, hash, hash(readings[i].value));
        TallyMonotone(readings, i + 1, hash, hash(readings[i].value));
      } else {
        WinnerHasQuorum(readings, hash, quorum, i + 1);
      }
    }
  }

  /** If some hash has a quorum of votes, there is a winner. */
  lemma {:induction false} QuorumHasWinner<V>(readings: seq<Option<V>>, hash: V -> nat, quorum: nat, x: nat, i: nat)
    requires i <= |readings| && quorum > 0
    requires Tally(readings[..i], hash, x) < quorum <= Tally(readings, hash, x)
    ensures WinnerFrom(readings, hash, quorum, i).Some?
    decreases |readings| - i
  {
    assert readings[..|readings|] == readings;
    if Completes(readings, hash, quorum, i) {
      FirstWithIsRead(readings, hash, hash(readings[i].value));
    } else {
      assert readings[..i + 1] == readings[..i] + [readings[i]];
      TallyStep(readings[..i], readings[i], hash, x);
      QuorumHasWinner(readings, hash, quorum, x, i + 1);
    }
  }

  lemma {:induction false} ReadersOf<V>(readings: seq<Option<V>>, hash: V -> nat, t: V)
    ensures Holds(readings, t) <= Tally(readings, hash, hash(t))
    decreases |readings|
  {
    if readings != [] {
      ReadersOf(readings[..|readings| - 1], hash, t);
    }
  }

  /** The disk counts for which the two quorums always intersect. */
  predicate Intersecting(n: nat) {
    n % 2 == 0 || n == 1
  }

  /** Read your write.  Once `t` is on a write quorum of an even number of disks (or of one), no
      pattern of unreadable disks makes a read return anything else, and a read returns `t` as
      soon as a read quorum of the disks holding it can be read. */
  lemma CommittedIsRead<V>(disks: seq<Option<V>>, readings: seq<Option<V>>, hash: V -> nat, t: V)
    requires Intersecting(|disks|) && Holds(disks, t) >= WriteQuorum(|disks|)
    requires ReadingOf(readings, disks) && NoCollision(disks, hash, t)
    ensures Winner(readings, hash) in {None, Some(t)}
    ensures Holds(readings, t) >= ReadQuorum(|disks|) ==> Winner(readings, hash) == Some(t)
  {
    var quorum := ReadQuorum(|disks|);
    WinnerHasQuorum(readings, hash, quorum, 0);
    var w := Winner(readings, hash);
    if w.Some? {
      var i :| 0 <= i < |readings| && readings[i] == w;
      if hash(w.value) != hash(t) {
        VotesDisjoint(readings, disks, hash, t, hash(w.value));
        assert false;
      }
    }
    if Holds(readings, t) >= quorum {
      ReadersOf(readings, hash, t);
      assert readings[..0] == [];
      QuorumHasWinner(readings, hash, quorum, hash(t), 0);
    }
  }

  /** The same, from the save that reported success. */
  lemma SavedIsRead<V>(before: seq<Option<V>>, outcomes: seq<Outcome>, readings: seq<Option<V>>, hash: V -> nat, t: V)
    requires |outcomes| == |before| && Intersecting(|before|) && Writes(outcomes) >= WriteQuorum(|before|)
    requires ReadingOf(readings, AfterSave(before, outcomes, t)) && NoCollision(before, hash, t)
    ensures Winner(readings, hash) in {None, Some(t)}
    ensures Holds(readings, t) >= ReadQuorum(|before|) ==> Winner(readings, hash) == Some(t)
  {
    SaveReaches(before, outcomes, t);
    CommittedIsRead(AfterSave(before, outcomes, t), readings, hash, t);
  }

  lemma {:induction false} SaveKeepsHolders<V>(disks: seq<Option<V>>, outcomes: seq<Outcome>, t: V)
    requires |outcomes| == |disks|
    ensures Holds(AfterSave(disks, outcomes, t), t) >= Holds(disks, t)
    decreases |disks|
  {
    if disks != [] {
      var n := |disks| - 1;
      SaveKeepsHolders(disks[..n], outcomes[..n], t);
      assert AfterSave(disks, outcomes, t)[..n] == AfterSave(disks[..n], outcomes[..n], t);
    }
  }

  // ----- a property of a write quorum -----

  /** Number of disks whose content satisfies `p`. */
  ghost function Meeting<V>(disks: seq<Option<V>>, p: V -> bool): nat {
    if disks == [] then 0
    else
      var last := disks[|disks| - 1];
      Meeting(disks[..|disks| - 1], p) + if last.Some? && p(last.value) then 1 else 0
  }

  /** Contents of equal hash are equal. */
  ghost predicate HashesIdentify<V>(disks: seq<Option<V>>, hash: V -> nat) {
    forall i, j | 0 <= i < |disks| && 0 <= j < |disks| && disks[i].Some? && disks[j].Some? ::
      hash(disks[i].value) == hash(disks[j].value) ==> disks[i] == disks[j]
  }

  lemma {:induction false} VotersOutside<V>(readings: seq<Option<V>>, disks: seq<Option<V>>, hash: V -> nat,
                                            p: V -> bool, x: nat)
    requires ReadingOf(readings, disks)
    requires forall i :: 0 <= i < |disks| && disks[i].Some? && p(disks[i].value) ==> hash(disks[i].value) != x
    ensures Tally(readings, hash, x) + Meeting(disks, p) <= |disks|
    decreases |disks|
  {
    if disks != [] {
      var n := |disks| - 1;
      VotersOutside(readings[..n], disks[..n], hash, p, x);
    }
  }

  lemma {:induction false} HoldersMeet<V>(before: seq<Option<V>>, disks: seq<Option<V>>, t: V, p: V -> bool)
    requires |before| == |disks|
    requires forall i :: 0 <= i < |disks| && before[i] == Some(t) ==> disks[i].Some? && p(disks[i].value)
    ensures Holds(before, t) <= Meeting(disks, p)
    decreases |disks|
  {
    if disks != [] {
      var n := |disks| - 1;
      HoldersMeet(before[..n], disks[..n], t, p);
    }
  }

  /** What holds of the contents of a write quorum holds of everything a load can return. */
  lemma WinnerMeets<V>(disks: seq<Option<V>>, readings: seq<Option<V>>, hash: V -> nat, p: V -> bool)
    requires Intersecting(|disks|) && Meeting(disks, p) >= WriteQuorum(|disks|)
    requires ReadingOf(readings, disks) && HashesIdentify(disks, hash)
    ensures var w := Winner(readings, hash); w.Some? ==> p(w.value)
  {
    var w := Winner(readings, hash);
    WinnerHasQuorum(readings, hash, ReadQuorum(|disks|), 0);
    if w.Some? && !p(w.value) {
      var i :| 0 <= i < |readings| && readings[i] == w;
      VotersOutside(readings, disks, hash, p, hash(w.value));
      assert false;
    }
  }

  // ----- what can be read at all -----

  /** Some pattern of unreadable disks makes a load return `t`. */
  ghost predicate CanBeRead<V(!new)>(disks: seq<Option<V>>, hash: V -> nat, t: V) {
    exists readings: seq<Option<V>> :: ReadingOf(readings, disks) && Winner(readings, hash) == Some(t)
  }

  /** Votes for the hash of `t` come only from its holders. */
  lemma {:induction false} VotersHold<V>(readings: seq<Option<V>>, disks: seq<Option<V>>, hash: V -> nat, t: V)
    requires ReadingOf(readings, disks) && NoCollision(disks, hash, t)
    ensures Tally(readings, hash, hash(t)) <= Holds(disks, t)
    decreases |disks|
  {
    if disks != [] {
      var n := |disks| - 1;
      assert NoCollision(disks[..n], hash, t);
      VotersHold(readings[..n], disks[..n], hash, t);
    }
  }

  /** Only the holders of `t` can be read. */
  ghost function HoldersOnly<V>(disks: seq<Option<V>>, t: V): (r: seq<Option<V>>)
    ensures ReadingOf(r, disks)
  {
    seq(|disks|, i requires 0 <= i < |disks| => if disks[i] == Some(t) then disks[i] else None)
  }

  lemma {:induction false} HoldersVote<V>(disks: seq<Option<V>>, hash: V -> nat, t: V)
    ensures Tally(HoldersOnly(disks, t), hash, hash(t)) == Holds(disks, t)
    decreases |disks|
  {
    if disks != [] {
      var n := |disks| - 1;
      assert HoldersOnly(disks, t)[..n] == HoldersOnly(disks[..n], t);
      HoldersVote(disks[..n], hash, t);
    }
  }

  /** Whatever wrote it, `t` can be read exactly when a read quorum of the disks holds it. */
  lemma ReadExactlyFromQuorum<V(!new)>(disks: seq<Option<V>>, hash: V -> nat, t: V)
    requires NoCollision(disks, hash, t)
    ensures CanBeRead(disks, hash, t) <==> Holds(disks, t) >= ReadQuorum(|disks|)
  {
    var quorum := ReadQuorum(|disks|);
    if CanBeRead(disks, hash, t) {
      var readings: seq<Option<V>> :| ReadingOf(readings, disks) && Winner(readings, hash) == Some(t);
      WinnerHasQuorum(readings, hash, quorum, 0);
      VotersHold(readings, disks, hash, t);
    }
    if Holds(disks, t) >= quorum {
      var readings := HoldersOnly(disks, t);
      HoldersVote(disks, hash, t);
      assert readings[..0] == [];
      QuorumHasWinner(readings, hash, quorum, hash(t), 0);
      WinnerHasQuorum(readings, hash, quorum, 0);
    }
  }

  /** Number of disks on which a save leaves `t`: those it reached, and those that had it. */
  ghost function LeftBy<V>(before: seq<Option<V>>, outcomes: seq<Outcome>, t: V): nat
    requires |outcomes| == |before|
  {
    if before == [] then 0
    else
      var n := |before| - 1;
      LeftBy(before[..n], outcomes[..n], t) + if !outcomes[n].FailedKeepingOld? || before[n] == Some(t) then 1 else 0
  }

  lemma {:induction false} HoldsAfterSave<V>(before: seq<Option<V>>, outcomes: seq<Outcome>, t: V)
    requires |outcomes| == |before|
    ensures Holds(AfterSave(before, outcomes, t), t) == LeftBy(before, outcomes, t)
    decreases |before|
  {
    if before != [] {
      var n := |before| - 1;
      assert AfterSave(before, outcomes, t)[..n] == AfterSave(before[..n], outcomes[..n], t);
      HoldsAfterSave(before[..n], outcomes[..n], t);
    }
  }

  /** Whether it reported success or failure, a save can be read back exactly when it left its
      content on a read quorum of the disks. */
  lemma SaveReadExactly<V(!new)>(before: seq<Option<V>>, outcomes: seq<Outcome>, hash: V -> nat, t: V)
    requires |outcomes| == |before| && NoCollision(before, hash, t)
    ensures CanBeRead(AfterSave(before, outcomes, t), hash, t) <==> LeftBy(before, outcomes, t) >= ReadQuorum(|before|)
  {
    HoldsAfterSave(before, outcomes, t);
    ReadExactlyFromQuorum(AfterSave(before, outcomes, t), hash, t);
  }

  // ----- why the number of disks matters -----

  ghost function All<V>(n: nat, u: V): (r: seq<Option<V>>)
    ensures |r| == n
  {
    seq(n, _ => Some(u))
  }

  /** The first `a` saves of `n` end one way, the rest another. */
  ghost function Outcomes(n: nat, a: nat, first: Outcome, rest: Outcome): (r: seq<Outcome>)
    ensures |r| == n
  {
    seq(n, i => if i < a then first else rest)
  }

  lemma {:induction false} CountWrites(n: nat, a: nat, first: Outcome, rest: Outcome)
    requires a <= n
    ensures Writes(Outcomes(n, a, first, rest)) == (if first.Wrote? then a else 0) + if rest.Wrote? then n - a else 0
    decreases n
  {
    if n > 0 {
      var b := if a == n then n - 1 else a;
      assert Outcomes(n, a, first, rest)[..n - 1] == Outcomes(n - 1, b, first, rest);
      CountWrites(n - 1, b, first, rest);
    }
  }

  lemma {:induction false} TallyAll<V>(n: nat, u: V, hash: V -> nat)
    ensures Tally(All(n, u), hash, hash(u)) == n
    decreases n
  {
    if n > 0 {
      assert All(n, u)[..n - 1] == All(n - 1, u);
      TallyAll(n - 1, u, hash);
    }
  }

  /** A content at the head of the disks wins if it fills a read quorum of them. */
  lemma HeadWins<V>(disks: seq<Option<V>>, hash: V -> nat, u: V)
    requires disks != [] && forall j :: 0 <= j < ReadQuorum(|disks|) ==> disks[j] == Some(u)
    ensures Winner(disks, hash) == Some(u)
  {
    var a := ReadQuorum(|disks|);
    assert disks[..a] == All(a, u);
    TallyAll(a, u, hash);
    HeadWinsFrom(disks, hash, a, u, 0);
  }

  lemma {:induction false} HeadWinsFrom<V>(disks: seq<Option<V>>, hash: V -> nat, a: nat, u: V, i: nat)
    requires 0 < a <= |disks| && i < a && (forall j :: 0 <= j < a ==> disks[j] == Some(u))
    requires Tally(disks[..a], hash, hash(u)) >= a
    ensures WinnerFrom(disks, hash, a, i) == Some(u)
    decreases a - i
  {
    assert i + 1 == a ==> disks[..i + 1] == disks[..a];
    if !Completes(disks, hash, a, i) {
      HeadWinsFrom(disks, hash, a, u, i + 1);
    }
  }

  /** With an odd number of disks, three or more, the minority a successful save missed is itself a
      read quorum: a reader that meets it first gets the old content back. */
  lemma OddDisksReadStale<V>(n: nat, u: V, t: V, hash: V -> nat)
    requires !Intersecting(n)
    ensures var outcomes := Outcomes(n, n / 2, FailedKeepingOld, Wrote);
            && Writes(outcomes) >= WriteQuorum(n)
            && Winner(AfterSave(All(n, u), outcomes, t), hash) == Some(u)
  {
    CountWrites(n, n / 2, FailedKeepingOld, Wrote);
    HeadWins(AfterSave(All(n, u), Outcomes(n, n / 2, FailedKeepingOld, Wrote), t), hash, u);
  }

  /** Every load after a successful save, whatever was on the disks, which of them took the save and
      which can be read, returns the saved content or nothing. */
  ghost predicate ReadsAreSafe<V(!new)>(n: nat, hash: V -> nat) {
    forall before: seq<Option<V>>, outcomes: seq<Outcome>, readings: seq<Option<V>>, t: V ::
      |before| == |outcomes| == n && Writes(outcomes) >= WriteQuorum(n) && NoCollision(before, hash, t)
      && ReadingOf(readings, AfterSave(before, outcomes, t))
      ==> Winner(readings, hash) in {None, Some(t)}
  }

  /** The guarantee holds exactly for an even number of disks or a single one. */
  lemma SafeExactlyWhenIntersecting<V(!new)>(n: nat, hash: V -> nat, u: V, t: V)
    requires hash(u) != hash(t)
    ensures ReadsAreSafe(n, hash) <==> Intersecting(n)
  {
    if Intersecting(n) {
      forall before: seq<Option<V>>, outcomes: seq<Outcome>, readings: seq<Option<V>>, v: V
        | |before| == |outcomes| == n && Writes(outcomes) >= WriteQuorum(n) && NoCollision(before, hash, v)
          && ReadingOf(readings, AfterSave(before, outcomes, v))
        ensures Winner(readings, hash) in {None, Some(v)}
      {
        SavedIsRead(before, outcomes, readings, hash, v);
      }
    } else {
      OddDisksReadStale(n, u, t, hash);
      var after := AfterSave(All(n, u), Outcomes(n, n / 2, FailedKeepingOld, Wrote), t);
      assert ReadingOf(after, after);
      assert Winner(after, hash) !in {None, Some(t)};
    }
  }

  /** A save that failed can still be read, with any number of disks: half of them taking the write
      is no write quorum but is a read quorum; a single disk can report a failure and keep the new
      content. */
  lemma FailedSaveCanBeRead<V>(n: nat, u: V, t: V, hash: V -> nat)
    requires n > 0
    ensures var outcomes := Outcomes(n, ReadQuorum(n), if n == 1 then FailedLeavingNew else Wrote, FailedKeepingOld);
            && Writes(outcomes) < WriteQuorum(n)
            && Winner(AfterSave(All(n, u), outcomes, t), hash) == Some(t)
  {
    var first := if n == 1 then FailedLeavingNew else Wrote;
    CountWrites(n, ReadQuorum(n), first, FailedKeepingOld);
    HeadWins(AfterSave(All(n, u), Outcomes(n, ReadQuorum(n), first, FailedKeepingOld), t), hash, t);
  }
}
