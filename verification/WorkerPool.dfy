/** The migration worker pool: a bounded circular queue and N workers, as interleaved critical
    sections. */
module WorkerPool {
  import Sorting

  const MAX_ATTEMPTS: nat := 3
  const INITIAL_DELAY_MS := 100
  const MAX_DELAY_MS := 5000

  /** A task, identified within a run by its number. */
  datatype Task = Task(number: nat, size: int)

  function SizeOf(t: Task): int {
    t.size
  }

  // ----- the queue -----

  datatype PushResult = Pushed | Full | Refused
  datatype PopResult = Popped(task: Task) | Empty | Closed

  /** The slot `i` places after the head of a ring of `n` slots. */
  function Slot(head: nat, i: nat, n: nat): (r: nat)
    requires head < n && i <= n
    ensures r < n
  {
    if head + i < n then head + i else head + i - n
  }

  function NextSlot(i: nat, n: nat): (r: nat)
    requires i < n
    ensures r == Slot(i, 1, n)
  {
    (i + 1) % n
  }

  /** The `count` entries of a ring from its head on. */
  function Unrolled(slots: seq<Task>, head: nat, count: nat): (r: seq<Task>)
    requires head < |slots| && count <= |slots|
    ensures |r| == count
  {
    seq(count, i requires 0 <= i < count => slots[Slot(head, i, |slots|)])
  }

  lemma UnrolledPush(slots: seq<Task>, head: nat, count: nat, task: Task)
    requires head < |slots| && count < |slots|
    ensures Unrolled(slots[Slot(head, count, |slots|) := task], head, count + 1)
         == Unrolled(slots, head, count) + [task]
    ensures Slot(head, count + 1, |slots|) == NextSlot(Slot(head, count, |slots|), |slots|)
  {
  }

  lemma UnrolledPop(slots: seq<Task>, head: nat, count: nat)
    requires head < |slots| && 0 < count <= |slots|
    ensures Unrolled(slots, head, count) == [slots[head]] + Unrolled(slots, NextSlot(head, |slots|), count - 1)
    ensures Slot(head, count, |slots|) == Slot(NextSlot(head, |slots|), count - 1, |slots|)
  {
  }

  /** The circular buffer.  Each method is the part of the critical section after the waiting loop
      has examined the state; Full and Empty are the outcomes on which the caller goes on waiting. */
  class TaskQueue {
    const tasks: array<Task>
    var count: nat
    var head: nat
    var tail: nat
    var shutdown: bool

    ghost predicate Valid()
      reads this
    {
      head < tasks.Length && count <= tasks.Length && tail == Slot(head, count, tasks.Length)
    }

    /** The queued tasks, first in first. */
    ghost function Contents(): (r: seq<Task>)
      requires Valid()
      reads this, tasks
      ensures |r| == count
    {
      Unrolled(tasks[..], head, count)
    }

    constructor (capacity: nat)
      requires capacity > 0
      ensures Valid() && fresh(tasks) && tasks.Length == capacity && Contents() == [] && !shutdown
    {
      tasks := new Task[capacity](_ => Task(0, 0));
      count, head, tail, shutdown := 0, 0, 0, false;
    }

    method Push(task: Task) returns (r: PushResult)
      requires Valid()
      modifies this`tail, this`count, tasks
      ensures Valid()
      ensures r == if shutdown then Refused else if old(count) >= tasks.Length then Full else Pushed
      ensures Contents() == if r.Pushed? then old(Contents()) + [task] else old(Contents())
    {
      if count >= tasks.Length && !shutdown {
        return Full;
      }
      if shutdown {
        return Refused;
      }
      UnrolledPush(tasks[..], head, count, task);
      tasks[tail] := task;
      assert tasks[..] == old(tasks[..])[tail := task];
      tail := NextSlot(tail, tasks.Length);
      count := count + 1;
      return Pushed;
    }

    method Pop() returns (r: PopResult)
      requires Valid()
      modifies this`head, this`count
      ensures Valid()
      ensures r == if old(count) > 0 then Popped(old(Contents())[0]) else if shutdown then Closed else Empty
      ensures Contents() == if r.Popped? then old(Contents())[1..] else old(Contents())
    {
      if count == 0 && !shutdown {
        return Empty;
      }
      if count == 0 && shutdown {
        return Closed;
      }
      UnrolledPop(tasks[..], head, count);
      var task := tasks[head];
      head := NextSlot(head, tasks.Length);
      count := count - 1;
      return Popped(task);
    }

    method Shutdown()
      requires Valid()
      modifies this`shutdown
      ensures Valid() && shutdown && Contents() == old(Contents())
    {
      shutdown := true;
    }
  }

  // ----- retrying -----

  /** Delay before attempt number `n + 1`. */
  function DelayMs(n: nat): (d: nat)
    ensures INITIAL_DELAY_MS <= d <= MAX_DELAY_MS
  {
    if n == 0 then INITIAL_DELAY_MS
    else if 2 * DelayMs(n - 1) > MAX_DELAY_MS then MAX_DELAY_MS else 2 * DelayMs(n - 1)
  }

  function DoubledMs(n: nat): nat {
    if n == 0 then 100 else 2 * DoubledMs(n - 1)
  }

  /** The delay starts at 100 ms, doubles with every attempt and stops at 5000 ms. */
  lemma {:induction false} DelayDoubles(n: nat)
    ensures DelayMs(n) == if DoubledMs(n) > 5000 then 5000 else DoubledMs(n)
    decreases n
  {
    if n > 0 {
      DelayDoubles(n - 1);
    }
  }

  /** Attempts the migration until it succeeds or three attempts have failed; `attempt(i)` says
      whether attempt number i succeeds. */
  method ExecuteWithRetry(attempt: nat -> bool) returns (ok: bool, attempts: nat, sleeps: seq<nat>)
    ensures ok <==> exists i: nat :: i < MAX_ATTEMPTS && attempt(i)
    ensures ok ==> attempts < MAX_ATTEMPTS && attempt(attempts)
    ensures forall i: nat :: i < attempts ==> !attempt(i)
    ensures !ok ==> attempts == MAX_ATTEMPTS == 3
    ensures |sleeps| == (if ok then attempts else MAX_ATTEMPTS - 1)
    ensures forall i :: 0 <= i < |sleeps| ==> sleeps[i] == DelayMs(i)
    ensures sleeps <= [100, 200]
  {
    attempts := 0;
    sleeps := [];
    var delay := INITIAL_DELAY_MS;
    while attempts < MAX_ATTEMPTS
      invariant attempts <= MAX_ATTEMPTS && forall i: nat :: i < attempts ==> !attempt(i)
      invariant |sleeps| == (if attempts < MAX_ATTEMPTS then attempts else MAX_ATTEMPTS - 1)
      invariant forall i :: 0 <= i < |sleeps| ==> sleeps[i] == DelayMs(i)
      invariant attempts < MAX_ATTEMPTS ==> delay == DelayMs(attempts)
    {
      if attempt(attempts) {
        return true, attempts, sleeps;
      }
      attempts := attempts + 1;
      if attempts < MAX_ATTEMPTS {
        sleeps := sleeps + [delay];
        delay := delay * 2;
        if delay > MAX_DELAY_MS {
          delay := MAX_DELAY_MS;
        }
      }
    }
    return false, attempts, sleeps;
  }

  // ----- the pool as interleaved critical sections -----

  /** Where a worker thread is. */
  datatype Phase =
    | Idle                                   // before or inside task_queue_pop
    | Fetched(task: Task)                    // popped, not yet counted active
    | Running(task: Task, failures: nat)     // counted active, executing
    | Counted                                // result recorded, still counted active
    | Exited                                 // left its loop

  /** Shared state, with the history of the run: tasks accepted, popped, completed and failed, each
      in order. */
  datatype Pool = Pool(
    queue: seq<Task>, capacity: nat, shutdown: bool, workers: seq<Phase>,
    tasksCompleted: int, tasksFailed: int, bytesMigrated: int, activeWorkers: int,
    accepted: seq<Task>, popped: seq<Task>, completed: seq<Task>, failed: seq<Task>)

  datatype Action =
    | Submit(task: Task)
    | Fetch(worker: nat)
    | Activate(worker: nat)
    | Attempt(worker: nat, succeeds: bool)
    | GiveUp(worker: nat)
    | Deactivate(worker: nat)
    | Stop

  function Start(capacity: nat, workers: nat): Pool {
    Pool([], capacity, false, seq(workers, _ => Idle), 0, 0, 0, 0, [], [], [], [])
  }

  /** Whether a thread can take the step; a full queue blocks submitters, an empty one workers. */
  predicate Enabled(s: Pool, a: Action) {
    match a
    case Submit(_) => s.shutdown || |s.queue| < s.capacity
    case Fetch(w) => w < |s.workers| && s.workers[w].Idle? && (s.queue != [] || s.shutdown)
    case Activate(w) => w < |s.workers| && s.workers[w].Fetched?
    case Attempt(w, _) => w < |s.workers| && s.workers[w].Running? && s.workers[w].failures < MAX_ATTEMPTS
    case GiveUp(w) => w < |s.workers| && s.workers[w].Running? && s.workers[w].failures == MAX_ATTEMPTS
    case Deactivate(w) => w < |s.workers| && s.workers[w].Counted?
    case Stop => true
  }

  function Step(s: Pool, a: Action): Pool
    requires Enabled(s, a)
  {
    match a
    case Submit(t) =>
      if s.shutdown then s else s.(queue := s.queue + [t], accepted := s.accepted + [t])
    case Fetch(w) =>
      if s.queue == [] then s.(workers := s.workers[w := Exited])
      else s.(queue := s.queue[1..], workers := s.workers[w := Fetched(s.queue[0])], popped := s.popped + [s.queue[0]])
    case Activate(w) =>
      s.(workers := s.workers[w := Running(s.workers[w].task, 0)], activeWorkers := s.activeWorkers + 1)
    case Attempt(w, succeeds) =>
      var t := s.workers[w].task;
      if succeeds then
        s.(workers := s.workers[w := Counted], tasksCompleted := s.tasksCompleted + 1,
           bytesMigrated := s.bytesMigrated + t.size, completed := s.completed + [t])
      else s.(workers := s.workers[w := Running(t, s.workers[w].failures + 1)])
    case GiveUp(w) =>
      s.(workers := s.workers[w := Counted], tasksFailed := s.tasksFailed + 1, failed := s.failed + [s.workers[w].task])
    case Deactivate(w) =>
      s.(workers := s.workers[w := Idle], activeWorkers := s.activeWorkers - 1)
    case Stop =>
      s.(shutdown := true)
  }

  /** The task a worker holds. */
  ghost function TaskOf(p: Phase): multiset<Task> {
    if p.Fetched? || p.Running? then multiset{p.task} else multiset{}
  }

  ghost function Held(workers: seq<Phase>): multiset<Task> {
    if workers == [] then multiset{} else Held(workers[..|workers| - 1]) + TaskOf(workers[|workers| - 1])
  }

  ghost function Active(p: Phase): nat {
    if p.Running? || p.Counted? then 1 else 0
  }

  ghost function ActiveCount(workers: seq<Phase>): nat {
    if workers == [] then 0 else ActiveCount(workers[..|workers| - 1]) + Active(workers[|workers| - 1])
  }

  lemma {:induction false} ActiveMoves(workers: seq<Phase>, w: nat, p: Phase)
    requires w < |workers|
    ensures ActiveCount(workers[w := p]) + Active(workers[w]) == ActiveCount(workers) + Active(p)
    decreases |workers|
  {
    var n := |workers| - 1;
    if w == n {
      assert workers[w := p][..n] == workers[..n];
    } else {
      assert workers[w := p][..n] == workers[..n][w := p];
      ActiveMoves(workers[..n], w, p);
    }
  }

  /** How often worker `i` of a list holds `t`, summed. */
  ghost function HoldCount(holds: seq<nat>): nat {
    if holds == [] then 0 else HoldCount(holds[..|holds| - 1]) + holds[|holds| - 1]
  }

  lemma {:induction false} CountMoves(holds: seq<nat>, w: nat, k: nat)
    requires w < |holds|
    ensures HoldCount(holds[w := k]) + holds[w] == HoldCount(holds) + k
    decreases |holds|
  {
    var n := |holds| - 1;
    if w == n {
      assert holds[w := k][..n] == holds[..n];
    } else {
      assert holds[w := k][..n] == holds[..n][w := k];
      CountMoves(holds[..n], w, k);
    }
  }

  ghost function HoldsOf(workers: seq<Phase>, t: Task): (r: seq<nat>)
    ensures |r| == |workers|
  {
    seq(|workers|, i requires 0 <= i < |workers| => TaskOf(workers[i])[t])
  }

  lemma {:induction false} HeldIsCount(workers: seq<Phase>, t: Task)
    ensures Held(workers)[t] == HoldCount(HoldsOf(workers, t))
    decreases |workers|
  {
    if workers != [] {
      var n := |workers| - 1;
      HeldIsCount(workers[..n], t);
      assert HoldsOf(workers, t)[..n] == HoldsOf(workers[..n], t);
    }
  }

  lemma HoldsMove(workers: seq<Phase>, w: nat, p: Phase, t: Task)
    requires w < |workers|
    ensures HoldsOf(workers[w := p], t) == HoldsOf(workers, t)[w := TaskOf(p)[t]]
  {}

  lemma HeldMovesAt(workers: seq<Phase>, w: nat, p: Phase, t: Task)
    requires w < |workers|
    ensures Held(workers[w := p])[t] + TaskOf(workers[w])[t] == Held(workers)[t] + TaskOf(p)[t]
  {
    HeldIsCount(workers, t);
    HeldIsCount(workers[w := p], t);
    HoldsMove(workers, w, p, t);
    CountMoves(HoldsOf(workers, t), w, TaskOf(p)[t]);
  }

  lemma HeldMoves(workers: seq<Phase>, w: nat, p: Phase)
    requires w < |workers|
    ensures Held(workers[w := p]) + TaskOf(workers[w]) == Held(workers) + TaskOf(p)
  {
    forall t
      ensures (Held(workers[w := p]) + TaskOf(workers[w]))[t] == (Held(workers) + TaskOf(p))[t]
    {
      HeldMovesAt(workers, w, p, t);
    }
  }

  /** Tasks leave the queue in the order they were accepted. */
  ghost predicate InOrder(s: Pool) {
    |s.queue| <= s.capacity && s.accepted == s.popped + s.queue
  }

  /** Every popped task is held by a worker or was counted, exactly once. */
  ghost predicate Accounted(s: Pool) {
    && multiset(s.popped) == Held(s.workers) + multiset(s.completed) + multiset(s.failed)
    && s.activeWorkers == ActiveCount(s.workers)
  }

  ghost predicate StatsRight(s: Pool) {
    && s.tasksCompleted == |s.completed| && s.tasksFailed == |s.failed|
    && s.bytesMigrated == Sorting.Sum(SizeOf, s.completed)
  }

  /** A worker leaves its loop only after shutdown, when the queue is empty for good. */
  ghost predicate ExitsLate(s: Pool) {
    forall w :: 0 <= w < |s.workers| && s.workers[w].Exited? ==> s.shutdown && s.queue == []
  }

  ghost predicate RetriesBounded(s: Pool) {
    forall w :: 0 <= w < |s.workers| && s.workers[w].Running? ==> s.workers[w].failures <= MAX_ATTEMPTS
  }

  /** What every interleaving keeps. */
  ghost predicate Inv(s: Pool) {
    InOrder(s) && Accounted(s) && StatsRight(s) && ExitsLate(s) && RetriesBounded(s)
  }

  lemma {:induction false} AllIdle(n: nat)
    ensures Held(seq(n, _ => Idle)) == multiset{} && ActiveCount(seq(n, _ => Idle)) == 0
    decreases n
  {
    if n > 0 {
      assert seq(n, _ => Idle)[..n - 1] == seq(n - 1, _ => Idle);
      AllIdle(n - 1);
    }
  }

  lemma StartInv(capacity: nat, workers: nat)
    ensures Inv(Start(capacity, workers))
  {
    AllIdle(workers);
  }

  lemma StepInOrder(s: Pool, a: Action)
    requires InOrder(s) && Enabled(s, a)
    ensures InOrder(Step(s, a))
  {
    if a.Submit? && !s.shutdown {
      assert s.popped + (s.queue + [a.task]) == (s.popped + s.queue) + [a.task];
    } else if a.Fetch? && s.queue != [] {
      assert s.queue == [s.queue[0]] + s.queue[1..];
      assert (s.popped + [s.queue[0]]) + s.queue[1..] == s.popped + s.queue;
    }
  }

  lemma StepExitsLate(s: Pool, a: Action)
    requires ExitsLate(s) && RetriesBounded(s) && Enabled(s, a)
    ensures ExitsLate(Step(s, a)) && RetriesBounded(Step(s, a))
  {
  }

  lemma StepStatsRight(s: Pool, a: Action)
    requires StatsRight(s) && Enabled(s, a)
    ensures StatsRight(Step(s, a))
  {
    if a.Attempt? && a.succeeds {
      assert (s.completed + [s.workers[a.worker].task])[..|s.completed|] == s.completed;
    }
  }

  /** Tasks counted so far. */
  ghost function Done(s: Pool): multiset<Task> {
    multiset(s.completed) + multiset(s.failed)
  }

  /** Holding, popping and counting change in step with one another. */
  lemma Balance<T(!new)>(h: multiset<T>, h': multiset<T>, before: multiset<T>, after: multiset<T>, p: multiset<T>,
                         p': multiset<T>, d: multiset<T>, d': multiset<T>)
    requires h' + before == h + after && p == h + d && p' + before + d == p + after + d'
    ensures p' == h' + d'
  {
    forall x
      ensures p'[x] == (h' + d')[x]
    {
      assert (h' + before)[x] == (h + after)[x];
      assert (p' + before + d)[x] == (p + after + d')[x];
    }
  }

  /** A step of worker `w` keeps the account if what it pops and counts matches what it holds. */
  lemma WorkerStepAccounted(s: Pool, r: Pool, w: nat, p: Phase)
    requires Accounted(s) && w < |s.workers| && r.workers == s.workers[w := p]
    requires r.activeWorkers + Active(s.workers[w]) == s.activeWorkers + Active(p)
    requires multiset(r.popped) + TaskOf(s.workers[w]) + Done(s) == multiset(s.popped) + TaskOf(p) + Done(r)
    ensures Accounted(r)
  {
    ActiveMoves(s.workers, w, p);
    HeldMoves(s.workers, w, p);
    assert multiset(s.popped) == Held(s.workers) + Done(s);
    Balance(Held(s.workers), Held(r.workers), TaskOf(s.workers[w]), TaskOf(p),
            multiset(s.popped), multiset(r.popped), Done(s), Done(r));
    assert Held(r.workers) + Done(r) == Held(r.workers) + multiset(r.completed) + multiset(r.failed);
  }

  lemma FetchAccounted(s: Pool, w: nat)
    requires Accounted(s) && Enabled(s, Fetch(w))
    ensures Accounted(Step(s, Fetch(w)))
  {
    var r := Step(s, Fetch(w));
    WorkerStepAccounted(s, r, w, r.workers[w]);
  }

  lemma AttemptAccounted(s: Pool, w: nat, succeeds: bool)
    requires Accounted(s) && Enabled(s, Attempt(w, succeeds))
    ensures Accounted(Step(s, Attempt(w, succeeds)))
  {
    var r := Step(s, Attempt(w, succeeds));
    if succeeds {
      assert multiset(r.completed) == multiset(s.completed) + multiset{s.workers[w].task};
    }
    WorkerStepAccounted(s, r, w, r.workers[w]);
  }

  lemma GiveUpAccounted(s: Pool, w: nat)
    requires Accounted(s) && Enabled(s, GiveUp(w))
    ensures Accounted(Step(s, GiveUp(w)))
  {
    var r := Step(s, GiveUp(w));
    assert multiset(r.failed) == multiset(s.failed) + multiset{s.workers[w].task};
    WorkerStepAccounted(s, r, w, Counted);
  }

  lemma StepAccounted(s: Pool, a: Action)
    requires Accounted(s) && Enabled(s, a)
    ensures Accounted(Step(s, a))
  {
    match a
    case Submit(_) =>
    case Stop =>
    case Fetch(w) => FetchAccounted(s, w);
    case Activate(w) => WorkerStepAccounted(s, Step(s, a), w, Running(s.workers[w].task, 0));
    case Attempt(w, succeeds) => AttemptAccounted(s, w, succeeds);
    case GiveUp(w) => GiveUpAccounted(s, w);
    case Deactivate(w) => WorkerStepAccounted(s, Step(s, a), w, Idle);
  }

  lemma StepInv(s: Pool, a: Action)
    requires Inv(s) && Enabled(s, a)
    ensures Inv(Step(s, a))
  {
    StepInOrder(s, a);
    StepAccounted(s, a);
    StepStatsRight(s, a);
    StepExitsLate(s, a);
  }

  // ----- whole runs -----

  ghost predicate IsRun(s: Pool, actions: seq<Action>)
    decreases |actions|
  {
    actions == [] || (Enabled(s, actions[0]) && IsRun(Step(s, actions[0]), actions[1..]))
  }

  ghost function End(s: Pool, actions: seq<Action>): Pool
    requires IsRun(s, actions)
    decreases |actions|
  {
    if actions == [] then s else End(Step(s, actions[0]), actions[1..])
  }

  // ----- the objects take the machine's steps -----

  ghost predicate QueueOf(q: TaskQueue, s: Pool)
    reads q, q.tasks
  {
    q.Valid() && q.Contents() == s.queue && q.tasks.Length == s.capacity && q.shutdown == s.shutdown
  }

  /** A push goes on waiting exactly when the machine's submitter is blocked, and otherwise takes its
      step. */
  method SubmitStep(q: TaskQueue, ghost s: Pool, task: Task) returns (r: PushResult, ghost next: Pool)
    requires QueueOf(q, s)
    modifies q, q.tasks
    ensures r.Full? <==> !Enabled(s, Submit(task))
    ensures next == (if r.Full? then s else Step(s, Submit(task))) && QueueOf(q, next)
    ensures r.Pushed? <==> next.accepted == s.accepted + [task]
  {
    r := q.Push(task);
    next := if r.Full? then s else Step(s, Submit(task));
    assert |next.accepted| == |s.accepted| + if r.Pushed? then 1 else 0;
  }

  /** A pop goes on waiting exactly when worker `w` is blocked, and otherwise takes its step: the worker
      holds the task, or leaves its loop. */
  method FetchStep(q: TaskQueue, ghost s: Pool, w: nat) returns (r: PopResult, ghost next: Pool)
    requires QueueOf(q, s) && w < |s.workers| && s.workers[w].Idle?
    modifies q
    ensures r.Empty? <==> !Enabled(s, Fetch(w))
    ensures next == (if r.Empty? then s else Step(s, Fetch(w))) && QueueOf(q, next)
    ensures !r.Empty? ==> next.workers[w] == if r.Popped? then Fetched(r.task) else Exited
  {
    r := q.Pop();
    next := if r.Empty? then s else Step(s, Fetch(w));
  }

  method StopStep(q: TaskQueue, ghost s: Pool)
    requires QueueOf(q, s)
    modifies q
    ensures QueueOf(q, Step(s, Stop))
  {
    q.Shutdown();
  }

  /** The critical sections of one call of the retry loop. */
  ghost function RetryActions(w: nat, failures: nat, ok: bool): seq<Action> {
    if failures > 0 then [Attempt(w, false)] + RetryActions(w, failures - 1, ok)
    else [if ok then Attempt(w, true) else GiveUp(w)]
  }

  /** What a task's execution adds up to. */
  ghost function Executed(s: Pool, w: nat, ok: bool): Pool
    requires w < |s.workers| && s.workers[w].Running?
  {
    var t := s.workers[w].task;
    var r := s.(workers := s.workers[w := Counted]);
    if ok then
      r.(tasksCompleted := s.tasksCompleted + 1, bytesMigrated := s.bytesMigrated + t.size,
         completed := s.completed + [t])
    else r.(tasksFailed := s.tasksFailed + 1, failed := s.failed + [t])
  }

  /** The retry loop, with the number of failed attempts it reports, is a run of the machine that counts
      the task once. */
  lemma {:induction false} RetryIsRun(s: Pool, w: nat, failures: nat, ok: bool)
    requires w < |s.workers| && s.workers[w].Running?
    requires var total := s.workers[w].failures + failures; if ok then total < MAX_ATTEMPTS else total == MAX_ATTEMPTS
    ensures IsRun(s, RetryActions(w, failures, ok)) && End(s, RetryActions(w, failures, ok)) == Executed(s, w, ok)
    decreases failures
  {
    var actions := RetryActions(w, failures, ok);
    var next := Step(s, actions[0]);
    if failures > 0 {
      assert actions[1..] == RetryActions(w, failures - 1, ok);
      RetryIsRun(next, w, failures - 1, ok);
      assert next.workers[w := Counted] == s.workers[w := Counted];
    } else {
      assert actions[1..] == [];
    }
  }

  /** Worker `w`, counted active with a fresh task, runs the retry loop. */
  method ExecuteSteps(attempt: nat -> bool, ghost s: Pool, ghost w: nat) returns (ok: bool, ghost actions: seq<Action>)
    requires w < |s.workers| && s.workers[w].Running? && s.workers[w].failures == 0
    ensures ok <==> exists i: nat :: i < MAX_ATTEMPTS && attempt(i)
    ensures IsRun(s, actions) && End(s, actions) == Executed(s, w, ok)
  {
    var attempts, sleeps;
    ok, attempts, sleeps := ExecuteWithRetry(attempt);
    actions := RetryActions(w, attempts, ok);
    RetryIsRun(s, w, attempts, ok);
  }

  ghost predicate Keeps(p: Pool -> bool, s: Pool, a: Action) {
    p(s) && Enabled(s, a) ==> p(Step(s, a))
  }

  /** What every step keeps, every run keeps. */
  lemma {:induction false} RunKeeps(p: Pool -> bool, s: Pool, actions: seq<Action>)
    requires (forall t, a :: Keeps(p, t, a)) && p(s) && IsRun(s, actions)
    ensures p(End(s, actions))
    decreases |actions|
  {
    if actions != [] {
      assert Keeps(p, s, actions[0]);
      RunKeeps(p, Step(s, actions[0]), actions[1..]);
    }
  }

  lemma InvKept(s: Pool, a: Action)
    ensures Keeps(Inv, s, a)
  {
    if Inv(s) && Enabled(s, a) {
      StepInv(s, a);
    }
  }

  lemma RunInv(s: Pool, actions: seq<Action>)
    requires Inv(s) && IsRun(s, actions)
    ensures Inv(End(s, actions)) && |End(s, actions).workers| == |s.workers|
  {
    var workers := |s.workers|;
    var count := (t: Pool) => |t.workers| == workers;
    forall t, a
      ensures Keeps(Inv, t, a) && Keeps(count, t, a)
    {
      InvKept(t, a);
    }
    RunKeeps(Inv, s, actions);
    RunKeeps(count, s, actions);
  }

  /** In every interleaving: tasks leave the queue in the order they were accepted, and every
      accepted task is queued, held by a worker, completed or failed, exactly once. */
  lemma EveryTaskAccountedFor(capacity: nat, workers: nat, actions: seq<Action>)
    requires IsRun(Start(capacity, workers), actions)
    ensures var s := End(Start(capacity, workers), actions);
            && s.accepted == s.popped + s.queue
            && multiset(s.accepted) == multiset(s.queue) + Held(s.workers) + multiset(s.completed) + multiset(s.failed)
            && s.tasksCompleted == |s.completed| && s.tasksFailed == |s.failed|
            && s.bytesMigrated == Sorting.Sum(SizeOf, s.completed) && 0 <= s.activeWorkers <= workers
  {
    StartInv(capacity, workers);
    RunInv(Start(capacity, workers), actions);
    var s := End(Start(capacity, workers), actions);
    assert multiset(s.accepted) == multiset(s.popped) + multiset(s.queue);
    ActiveBound(s.workers);
  }

  lemma {:induction false} ActiveBound(workers: seq<Phase>)
    ensures ActiveCount(workers) <= |workers|
    decreases |workers|
  {
    if workers != [] {
      ActiveBound(workers[..|workers| - 1]);
    }
  }

  lemma {:induction false} NothingHeld(workers: seq<Phase>)
    requires forall w :: 0 <= w < |workers| ==> workers[w].Exited?
    ensures Held(workers) == multiset{} && ActiveCount(workers) == 0
    decreases |workers|
  {
    if workers != [] {
      NothingHeld(workers[..|workers| - 1]);
    }
  }

  /** Once stop has joined every thread, the queue is empty and every accepted task was counted
      exactly once, as completed or as failed. */
  lemma StopDrains(capacity: nat, workers: nat, actions: seq<Action>)
    requires workers > 0 && IsRun(Start(capacity, workers), actions)
    requires var s := End(Start(capacity, workers), actions); forall w :: 0 <= w < |s.workers| ==> s.workers[w].Exited?
    ensures var s := End(Start(capacity, workers), actions);
            && s.queue == [] && s.shutdown && s.activeWorkers == 0
            && multiset(s.accepted) == multiset(s.completed) + multiset(s.failed)
            && s.tasksCompleted + s.tasksFailed == |s.accepted|
            && s.bytesMigrated == Sorting.Sum(SizeOf, s.completed)
  {
    EveryTaskAccountedFor(capacity, workers, actions);
    StartInv(capacity, workers);
    RunInv(Start(capacity, workers), actions);
    var s := End(Start(capacity, workers), actions);
    NothingHeld(s.workers);
    assert s.workers[0].Exited?;
    assert multiset(s.accepted) == multiset(s.completed) + multiset(s.failed);
    assert |s.accepted| == |multiset(s.accepted)|;
  }

  // ----- stopping terminates -----

  /** Steps a worker may still take before exiting, not counting new fetches. */
  ghost function Rank(p: Phase): nat {
    match p
    case Exited => 0
    case Idle => 1
    case Counted => 2
    case Running(_, failures) => if failures <= MAX_ATTEMPTS then 3 + MAX_ATTEMPTS - failures else 3
    case Fetched(_) => 4 + MAX_ATTEMPTS
  }

  ghost function Ranks(workers: seq<Phase>): nat {
    if workers == [] then 0 else Ranks(workers[..|workers| - 1]) + Rank(workers[|workers| - 1])
  }

  ghost function Measure(s: Pool): nat {
    (4 + MAX_ATTEMPTS) * |s.queue| + Ranks(s.workers)
  }

  lemma {:induction false} RanksMove(workers: seq<Phase>, w: nat, p: Phase)
    requires w < |workers|
    ensures Ranks(workers[w := p]) + Rank(workers[w]) == Ranks(workers) + Rank(p)
    decreases |workers|
  {
    var n := |workers| - 1;
    if w == n {
      assert workers[w := p][..n] == workers[..n];
    } else {
      assert workers[w := p][..n] == workers[..n][w := p];
      RanksMove(workers[..n], w, p);
    }
  }

  predicate WorkerAction(a: Action) {
    !a.Submit? && !a.Stop?
  }

  lemma WorkerStepsDecrease(s: Pool, a: Action)
    requires WorkerAction(a) && Enabled(s, a)
    ensures Measure(Step(s, a)) < Measure(s)
  {
    RanksMove(s.workers, a.worker, Step(s, a).workers[a.worker]);
  }

  /** Every schedule of the workers alone is finite. */
  lemma {:induction false} WorkersFinish(s: Pool, actions: seq<Action>)
    requires IsRun(s, actions) && forall i :: 0 <= i < |actions| ==> WorkerAction(actions[i])
    ensures |actions| <= Measure(s)
    decreases |actions|
  {
    if actions != [] {
      WorkerStepsDecrease(s, actions[0]);
      WorkersFinish(Step(s, actions[0]), actions[1..]);
    }
  }

  lemma {:induction false} ShutdownLasts(s: Pool, actions: seq<Action>)
    requires IsRun(s, actions) && s.shutdown
    ensures End(s, actions).shutdown
    decreases |actions|
  {
    if actions != [] {
      ShutdownLasts(Step(s, actions[0]), actions[1..]);
    }
  }

  /** Joining the threads returns: after shutdown the workers can take only so many steps, and as
      long as one of them has not exited, it can take a step. */
  lemma StopTerminates(s: Pool, actions: seq<Action>, w: nat)
    requires Inv(s) && s.shutdown && IsRun(s, actions) && w < |s.workers|
    requires forall i :: 0 <= i < |actions| ==> WorkerAction(actions[i])
    ensures |actions| <= Measure(s) && |End(s, actions).workers| == |s.workers|
    ensures || End(s, actions).workers[w].Exited?
            || exists a :: WorkerAction(a) && a.worker == w && Enabled(End(s, actions), a)
  {
    WorkersFinish(s, actions);
    ShutdownLasts(s, actions);
    RunInv(s, actions);
    if !End(s, actions).workers[w].Exited? {
      WorkerCanMove(End(s, actions), w);
    }
  }

  lemma WorkerCanMove(s: Pool, w: nat)
    requires Inv(s) && s.shutdown && w < |s.workers| && !s.workers[w].Exited?
    ensures exists a :: WorkerAction(a) && a.worker == w && Enabled(s, a)
  {
    var a := match s.workers[w]
      case Idle => Fetch(w)
      case Fetched(_) => Activate(w)
      case Running(_, failures) => if failures < MAX_ATTEMPTS then Attempt(w, true) else GiveUp(w)
      case Counted => Deactivate(w)
      case Exited => Stop;
    assert WorkerAction(a) && Enabled(s, a);
  }

  // ----- waiting for the queue to drain -----

  ghost predicate NoSubmits(actions: seq<Action>) {
    forall i :: 0 <= i < |actions| ==> !actions[i].Submit?
  }

  lemma {:induction false} EmptyStaysEmpty(s: Pool, actions: seq<Action>)
    requires IsRun(s, actions) && NoSubmits(actions) && s.queue == []
    ensures End(s, actions).queue == []
    decreases |actions|
  {
    if actions != [] {
      EmptyStaysEmpty(Step(s, actions[0]), actions[1..]);
    }
  }

  /** The tasks of workers between their pop and being counted active. */
  ghost function FetchedTasks(workers: seq<Phase>): multiset<Task> {
    if workers == [] then multiset{}
    else
      var last := workers[|workers| - 1];
      FetchedTasks(workers[..|workers| - 1]) + if last.Fetched? then multiset{last.task} else multiset{}
  }

  lemma {:induction false} InactiveHoldsFetched(workers: seq<Phase>)
    requires ActiveCount(workers) == 0
    ensures Held(workers) == FetchedTasks(workers)
    decreases |workers|
  {
    if workers != [] {
      InactiveHoldsFetched(workers[..|workers| - 1]);
    }
  }

  /** Wait reads the queue length, then the number of active workers, and returns when both were
      zero.  With no submission in between, the tasks not yet counted are exactly those of workers
      that have popped a task and are not yet counted active; so "all tasks completed" is true
      exactly when there is no such worker. */
  lemma WaitReturns(s: Pool, between: seq<Action>)
    requires Inv(s) && s.queue == [] && IsRun(s, between) && NoSubmits(between) && End(s, between).activeWorkers == 0
    ensures var e := End(s, between);
            && multiset(e.accepted) == FetchedTasks(e.workers) + multiset(e.completed) + multiset(e.failed)
            && (e.tasksCompleted + e.tasksFailed == |e.accepted|
                <==> forall w :: 0 <= w < |e.workers| ==> !e.workers[w].Fetched?)
  {
    RunInv(s, between);
    EmptyStaysEmpty(s, between);
    var e := End(s, between);
    InactiveHoldsFetched(e.workers);
    FetchedNone(e.workers);
    assert e.popped + [] == e.popped;
    assert |multiset(e.accepted)| == |FetchedTasks(e.workers)| + |e.completed| + |e.failed|;
  }

  lemma {:induction false} FetchedNone(workers: seq<Phase>)
    ensures FetchedTasks(workers) == multiset{} <==> forall w :: 0 <= w < |workers| ==> !workers[w].Fetched?
    ensures |FetchedTasks(workers)| == 0 <==> forall w :: 0 <= w < |workers| ==> !workers[w].Fetched?
    decreases |workers|
  {
    if workers != [] {
      FetchedNone(workers[..|workers| - 1]);
    }
  }

  /** And such a worker is possible: wait may return with a task still to be done. */
  lemma WaitCanReturnEarly(capacity: nat, workers: nat, task: Task)
    requires capacity > 0 && workers > 0
    ensures var run := [Submit(task), Fetch(0)];
            && IsRun(Start(capacity, workers), run)
            && var s := End(Start(capacity, workers), run);
               s.queue == [] && s.activeWorkers == 0 && s.tasksCompleted + s.tasksFailed < |s.accepted|
  {
    var s0 := Start(capacity, workers);
    var run := [Submit(task), Fetch(0)];
    var s1 := Step(s0, run[0]);
    var s2 := Step(s1, run[1]);
    assert run[1..] == [Fetch(0)] && run[1..][1..] == [];
    assert IsRun(s2, []);
    assert IsRun(s1, [Fetch(0)]);
  }
}
