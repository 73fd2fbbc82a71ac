/** Core/Thread_Pool.cpp as a step system, one step per critical section.  Counters are unsigned
    32-bit and wrap. */
module Pools {
  import opened Bytes

  function Add32(a: nat, b: nat): nat { (a + b) % TWO_32 }

  function Sub32(a: nat, b: nat): nat { (a - b) % TWO_32 }

  /** Tasks are told apart by their place in commit order. */
  datatype Task = Task(n: nat, isIO: bool)

  /** Where a thread is in work_task: about to take the lock, waiting on the condition variable,
      running a task, or returned on stop and not yet joined. */
  datatype Worker = Ready | Waiting | Running(task: Task) | Returned

  datatype Limits = Limits(min: nat, max: nat, batch: nat, cores: nat)

  /** threads are the tracked ones; committed, started and finished are history. */
  datatype Pool = Pool(
    limits: Limits,
    isStop: bool,
    threadNum: nat,
    working: nat,
    io: nat,
    destroyed: nat,
    queue: seq<Task>,
    threads: map<nat, Worker>,
    nextThread: nat,
    committed: seq<Task>,
    started: seq<Task>,
    finished: seq<Task>)

  /** The most threads there can be. */
  function Ceiling(l: Limits): nat {
    if l.min <= l.max then l.max else l.min
  }

  /** The sum in the daemon's growth test fits 32 bits. */
  predicate Bounded(l: Limits) {
    Ceiling(l) + l.batch < TWO_32
  }

  predicate Sane(l: Limits) {
    l.batch <= l.min <= l.max && Bounded(l)
  }

  // ---------------------------------------------------------------------------------------
  // The critical sections

  function Spawn(s: Pool): Pool {
    s.(threads := s.threads[s.nextThread := Ready], nextThread := s.nextThread + 1,
       threadNum := Add32(s.threadNum, 1))
  }

  /** expend_thread_pool: n new threads. */
  function Expend(s: Pool, n: nat): Pool
    decreases n
  {
    if n == 0 then s else Spawn(Expend(s, n - 1))
  }

  function Vacant(l: Limits): Pool {
    Pool(l, false, 0, 0, 0, 0, [], map[], 0, [], [], [])
  }

  function Fresh(l: Limits): Pool {
    Expend(Vacant(l), l.min)
  }

  /** The daemon's round; many and few stand for its two fractions of the thread count. */
  function Daemon(s: Pool, many: nat, few: nat): Pool {
    if s.working > many && Sub32(s.working, s.io) < s.limits.cores
       && Add32(s.threadNum, s.limits.batch) <= s.limits.max then
      Expend(s, s.limits.batch)
    else if s.working < few && Sub32(s.threadNum, s.limits.batch) >= s.limits.min then
      s.(destroyed := s.limits.batch)
    else s
  }

  function Commit(s: Pool, isIO: bool): Pool {
    var task := Task(|s.committed|, isIO);
    s.(queue := s.queue + [task], committed := s.committed + [task])
  }

  function Stop(s: Pool): Pool {
    s.(isStop := true)
  }

  function Bit(b: bool): nat { if b then 1 else 0 }

  function Take(s: Pool, t: nat): Pool
    requires s.queue != []
  {
    var task := s.queue[0];
    s.(queue := s.queue[1..], threads := s.threads[t := Running(task)], started := s.started + [task],
       working := Add32(s.working, 1), io := if task.isIO then Add32(s.io, 1) else s.io)
  }

  /** A worker holding the lock at the head of its waiting loop. */
  function Proceed(s: Pool, t: nat): Pool {
    if s.queue == [] && !s.isStop then s.(threads := s.threads[t := Waiting])
    else if s.isStop then s.(threads := s.threads[t := Returned], threadNum := Sub32(s.threadNum, 1))
    else Take(s, t)
  }

  /** A worker woken from its wait. */
  function Wake(s: Pool, t: nat): Pool {
    if s.destroyed > 0 then
      s.(destroyed := s.destroyed - 1, threads := s.threads - {t}, threadNum := Sub32(s.threadNum, 1))
    else Proceed(s, t)
  }

  /** A worker back from its task. */
  function Finish(s: Pool, t: nat): Pool
    requires t in s.threads && s.threads[t].Running?
  {
    var task := s.threads[t].task;
    s.(io := if task.isIO then Sub32(s.io, 1) else s.io, working := Sub32(s.working, 1),
       threads := s.threads[t := Ready], finished := s.finished + [task])
  }

  datatype Step =
    | CommitStep(isIO: bool) | StopStep | DaemonStep(many: nat, few: nat)
    | EnterStep(t: nat) | WakeStep(t: nat) | FinishStep(t: nat)

  predicate Next(s: Pool, step: Step, after: Pool) {
    match step
    case CommitStep(isIO) => after == Commit(s, isIO)
    case StopStep => after == Stop(s)
    case DaemonStep(many, few) => after == Daemon(s, many, few)
    case EnterStep(t) => t in s.threads && s.threads[t] == Ready && after == Proceed(s, t)
    case WakeStep(t) => t in s.threads && s.threads[t] == Waiting && after == Wake(s, t)
    case FinishStep(t) => t in s.threads && s.threads[t].Running? && after == Finish(s, t)
  }

  ghost predicate Run(states: seq<Pool>, steps: seq<Step>, l: Limits) {
    && |states| == |steps| + 1 && states[0] == Fresh(l)
    && forall i :: 0 <= i < |steps| ==> Next(states[i], steps[i], states[i + 1])
  }

  // ---------------------------------------------------------------------------------------
  // The invariant

  function Alive(threads: map<nat, Worker>): set<nat> {
    set t | t in threads && threads[t] != Returned
  }

  function Busy(threads: map<nat, Worker>): set<nat> {
    set t | t in threads && threads[t].Running?
  }

  function BusyIO(threads: map<nat, Worker>): set<nat> {
    set t | t in threads && threads[t].Running? && threads[t].task.isIO
  }

  /** The counters count. */
  ghost predicate Counted(s: Pool) {
    && s.threadNum == |Alive(s.threads)| <= Ceiling(s.limits)
    && s.working == |Busy(s.threads)|
    && s.io == |BusyIO(s.threads)|
    && (forall t :: t in s.threads ==> t < s.nextThread)
  }

  /** The tasks being run, by thread. */
  function OnThreads(threads: map<nat, Worker>): map<nat, Task> {
    map t | t in threads && threads[t].Running? :: threads[t].task
  }

  /** Tasks start in commit order, and are then on exactly one thread or finished. */
  ghost predicate TasksOk(committed: seq<Task>, queue: seq<Task>, started: seq<Task>, finished: seq<Task>,
                          on: map<nat, Task>) {
    && committed == started + queue
    && (forall i :: 0 <= i < |committed| ==> committed[i].n == i)
    && (forall t :: t in on ==> on[t] in started && on[t] !in finished)
    && (forall t, u :: t in on && u in on && t != u ==> on[t] != on[u])
    && (forall k :: k in finished ==> k in started)
    && (forall i, j :: 0 <= i < j < |finished| ==> finished[i] != finished[j])
    && (forall k :: k in started && k !in finished ==> exists t :: t in on && on[t] == k)
  }

  ghost predicate Accounted(s: Pool) {
    TasksOk(s.committed, s.queue, s.started, s.finished, OnThreads(s.threads))
  }

  ghost predicate RunningSomewhere(s: Pool, k: Task) {
    var on := OnThreads(s.threads);
    exists t :: t in on && on[t] == k
  }

  ghost predicate Inv(s: Pool) {
    && Bounded(s.limits) && Counted(s) && Accounted(s)
    && (!s.isStop ==> forall t :: t in s.threads ==> s.threads[t] != Returned)
  }

  lemma BusyAreAlive(threads: map<nat, Worker>)
    ensures |BusyIO(threads)| <= |Busy(threads)| <= |Alive(threads)|
  {
    Fewer(BusyIO(threads), Busy(threads));
    Fewer(Busy(threads), Alive(threads));
  }

  lemma {:induction false} Fewer(a: set<nat>, b: set<nat>)
    requires a <= b
    ensures |a| <= |b|
  {
    assert b == a + (b - a);
    assert |b| == |a| + |b - a|;
  }

  lemma SmallMod(x: int)
    requires 0 <= x < TWO_32
    ensures x % TWO_32 == x
  {
  }

  // ---------------------------------------------------------------------------------------
  // Each step keeps it

  /** A thread that was absent or not running becomes one that does not run. */
  lemma IdleChange(threads: map<nat, Worker>, t: nat, w: Worker)
    requires t in threads ==> !threads[t].Running?
    requires !w.Running?
    ensures OnThreads(threads[t := w]) == OnThreads(threads)
    ensures Busy(threads[t := w]) == Busy(threads) && BusyIO(threads[t := w]) == BusyIO(threads)
    ensures Alive(threads[t := w]) == if w == Returned then Alive(threads) - {t} else Alive(threads) + {t}
  {
    IdleKeepsBusy(threads, t, w);
    IdleAlive(threads, t, w);
  }

  lemma IdleKeepsBusy(threads: map<nat, Worker>, t: nat, w: Worker)
    requires t in threads ==> !threads[t].Running?
    requires !w.Running?
    ensures OnThreads(threads[t := w]) == OnThreads(threads)
    ensures Busy(threads[t := w]) == Busy(threads) && BusyIO(threads[t := w]) == BusyIO(threads)
  {
    var after := threads[t := w];
    assert forall u :: u in OnThreads(after) <==> u in OnThreads(threads);
  }

  lemma IdleAlive(threads: map<nat, Worker>, t: nat, w: Worker)
    ensures Alive(threads[t := w]) == if w == Returned then Alive(threads) - {t} else Alive(threads) + {t}
  {
  }

  lemma SpawnKeeps(s: Pool)
    requires Inv(s) && s.threadNum < Ceiling(s.limits)
    ensures Inv(Spawn(s)) && Spawn(s).threadNum == s.threadNum + 1
  {
    SpawnCounted(s);
    IdleChange(s.threads, s.nextThread, Ready);
  }

  lemma SpawnCounted(s: Pool)
    requires Bounded(s.limits) && Counted(s) && s.threadNum < Ceiling(s.limits)
    ensures Counted(Spawn(s)) && Spawn(s).threadNum == s.threadNum + 1
  {
    SmallMod(s.threadNum + 1);
    IdleChange(s.threads, s.nextThread, Ready);
    assert s.nextThread !in Alive(s.threads);
  }

  lemma {:induction false} ExpendKeepsRest(s: Pool, n: nat)
    ensures var t := Expend(s, n);
            && t.limits == s.limits && t.isStop == s.isStop && t.destroyed == s.destroyed && t.started == s.started
            && t.committed == s.committed
  {
    if n > 0 { ExpendKeepsRest(s, n - 1); }
  }

  lemma {:induction false} ExpendKeeps(s: Pool, n: nat)
    requires Inv(s) && s.threadNum + n <= Ceiling(s.limits)
    ensures Inv(Expend(s, n)) && Expend(s, n).threadNum == s.threadNum + n
  {
    var t := s;
    for i := 0 to n
      invariant t == Expend(s, i) && Inv(t) && t.threadNum == s.threadNum + i
    {
      ExpendKeepsRest(s, i);
      SpawnKeeps(t);
      t := Spawn(t);
    }
  }

  lemma FreshInv(l: Limits)
    requires Bounded(l)
    ensures Inv(Fresh(l)) && Fresh(l).threadNum == l.min
    ensures Fresh(l).limits == l && Fresh(l).destroyed == 0 && !Fresh(l).isStop
  {
    var s := Vacant(l);
    assert Alive(s.threads) == {} && Busy(s.threads) == {} && BusyIO(s.threads) == {};
    ExpendKeeps(s, l.min);
    ExpendKeepsRest(s, l.min);
  }

  /** The daemon's sums never wrap, and its subtraction does not while a batch of threads is there. */
  lemma DaemonArithmetic(s: Pool)
    requires Inv(s)
    ensures Sub32(s.working, s.io) == s.working - s.io
    ensures Add32(s.threadNum, s.limits.batch) == s.threadNum + s.limits.batch
    ensures Sub32(s.threadNum, s.limits.batch) == s.threadNum - s.limits.batch <==> s.limits.batch <= s.threadNum
  {
    BusyAreAlive(s.threads);
    SmallMod(s.working - s.io);
    SmallMod(s.threadNum + s.limits.batch);
    if s.limits.batch <= s.threadNum { SmallMod(s.threadNum - s.limits.batch); }
  }

  lemma DaemonKeeps(s: Pool, many: nat, few: nat)
    requires Inv(s)
    ensures Inv(Daemon(s, many, few))
  {
    DaemonArithmetic(s);
    if s.threadNum + s.limits.batch <= s.limits.max {
      ExpendKeeps(s, s.limits.batch);
      ExpendKeepsRest(s, s.limits.batch);
    }
  }

  lemma CommitKeeps(s: Pool, isIO: bool)
    requires Inv(s)
    ensures Inv(Commit(s, isIO))
  {
    var after := Commit(s, isIO);
    assert after.committed == s.started + after.queue;
  }

  lemma WaitKeeps(s: Pool, t: nat)
    requires Inv(s) && t in s.threads && !s.threads[t].Running? && s.threads[t] != Returned
    ensures Inv(s.(threads := s.threads[t := Waiting]))
  {
    IdleChange(s.threads, t, Waiting);
    assert Alive(s.threads) + {t} == Alive(s.threads);
  }

  lemma LeaveKeeps(s: Pool, t: nat)
    requires Inv(s) && s.isStop && t in s.threads && !s.threads[t].Running? && s.threads[t] != Returned
    ensures Inv(s.(threads := s.threads[t := Returned], threadNum := Sub32(s.threadNum, 1)))
  {
    IdleChange(s.threads, t, Returned);
    assert t in Alive(s.threads);
    SmallMod(s.threadNum - 1);
  }

  lemma DropChange(threads: map<nat, Worker>, t: nat)
    requires t in threads && threads[t] == Waiting
    ensures OnThreads(threads - {t}) == OnThreads(threads)
    ensures Busy(threads - {t}) == Busy(threads) && BusyIO(threads - {t}) == BusyIO(threads)
    ensures |Alive(threads - {t})| == |Alive(threads)| - 1
  {
    assert t in Alive(threads);
    assert Alive(threads - {t}) == Alive(threads) - {t};
  }

  lemma DetachKeeps(s: Pool, t: nat)
    requires Inv(s) && t in s.threads && s.threads[t] == Waiting && s.destroyed > 0
    ensures Inv(s.(destroyed := s.destroyed - 1, threads := s.threads - {t}, threadNum := Sub32(s.threadNum, 1)))
  {
    DropChange(s.threads, t);
    SmallMod(s.threadNum - 1);
    assert forall u :: u in s.threads - {t} ==> u in s.threads;
  }

  /** The first queued task is new. */
  lemma QueuedIsNew(s: Pool)
    requires Accounted(s) && s.queue != []
    ensures s.queue[0] !in s.started
  {
    var n := |s.started|;
    assert s.committed[n] == s.queue[0];
    forall i | 0 <= i < n
      ensures s.started[i] != s.queue[0]
    {
      assert s.committed[i] == s.started[i];
    }
  }

  lemma TakeAccounted(s: Pool, t: nat)
    requires Accounted(s) && t in s.threads && !s.threads[t].Running? && s.queue != []
    ensures Accounted(Take(s, t))
  {
    var after, task := Take(s, t), s.queue[0];
    QueuedIsNew(s);
    assert after.committed == after.started + after.queue;
    var on, on' := OnThreads(s.threads), OnThreads(after.threads);
    assert on' == on[t := task];
    forall k | k in after.started && k !in after.finished
      ensures exists u :: u in on' && on'[u] == k
    {
      if k == task {
        assert t in on' && on'[t] == k;
      } else {
        var u :| u in on && on[u] == k;
        assert u in on' && on'[u] == k;
      }
    }
  }

  /** A worker that was not running starts a task. */
  lemma BusyChange(threads: map<nat, Worker>, t: nat, task: Task)
    requires t in threads && !threads[t].Running? && threads[t] != Returned
    ensures var after := threads[t := Running(task)];
            && |Alive(after)| == |Alive(threads)|
            && |Busy(after)| == |Busy(threads)| + 1
            && |BusyIO(after)| == |BusyIO(threads)| + Bit(task.isIO)
  {
    var after := threads[t := Running(task)];
    assert Alive(after) == Alive(threads);
    assert Busy(after) == Busy(threads) + {t};
    assert BusyIO(after) == if task.isIO then BusyIO(threads) + {t} else BusyIO(threads);
  }

  lemma TakeCounted(s: Pool, t: nat)
    requires Bounded(s.limits) && Counted(s) && t in s.threads && !s.threads[t].Running? && s.threads[t] != Returned
    requires s.queue != []
    ensures Counted(Take(s, t))
  {
    var task := s.queue[0];
    BusyChange(s.threads, t, task);
    BusyAreAlive(s.threads[t := Running(task)]);
    SmallMod(s.working + 1);
    if task.isIO { SmallMod(s.io + 1); }
  }

  lemma TakeKeeps(s: Pool, t: nat)
    requires Inv(s) && t in s.threads && !s.threads[t].Running? && s.threads[t] != Returned
    requires s.queue != [] && !s.isStop
    ensures Inv(Take(s, t))
  {
    TakeAccounted(s, t);
    TakeCounted(s, t);
  }

  lemma ProceedKeeps(s: Pool, t: nat)
    requires Inv(s) && t in s.threads && !s.threads[t].Running? && s.threads[t] != Returned
    ensures Inv(Proceed(s, t))
  {
    if s.queue == [] && !s.isStop {
      WaitKeeps(s, t);
    } else if s.isStop {
      LeaveKeeps(s, t);
    } else {
      TakeKeeps(s, t);
    }
  }

  lemma FinishAccounted(s: Pool, t: nat)
    requires Accounted(s) && t in s.threads && s.threads[t].Running?
    ensures Accounted(Finish(s, t))
  {
    var after, task := Finish(s, t), s.threads[t].task;
    var on, on' := OnThreads(s.threads), OnThreads(after.threads);
    assert t in on && on[t] == task;
    assert on' == on - {t};
    forall k | k in after.started && k !in after.finished
      ensures exists u :: u in on' && on'[u] == k
    {
      assert k != task by { assert task in after.finished; }
      var u :| u in on && on[u] == k;
      assert u in on' && on'[u] == k;
    }
    forall i, j | 0 <= i < j < |after.finished|
      ensures after.finished[i] != after.finished[j]
    {
      if j == |s.finished| { assert s.finished[i] in s.finished; }
    }
  }

  lemma FinishCounted(s: Pool, t: nat)
    requires Bounded(s.limits) && Counted(s) && t in s.threads && s.threads[t].Running?
    ensures Counted(Finish(s, t))
  {
    var after, task := s.threads[t := Ready], s.threads[t].task;
    BusyChange(after, t, task);
    assert after[t := Running(task)] == s.threads;
    BusyAreAlive(s.threads);
    SmallMod(s.working - 1);
    if task.isIO { SmallMod(s.io - 1); }
  }

  lemma FinishKeeps(s: Pool, t: nat)
    requires Inv(s) && t in s.threads && s.threads[t].Running?
    ensures Inv(Finish(s, t))
  {
    FinishAccounted(s, t);
    FinishCounted(s, t);
  }

  lemma StepKeeps(s: Pool, step: Step, after: Pool)
    requires Inv(s) && Next(s, step, after)
    ensures Inv(after)
  {
    match step {
      case CommitStep(isIO) => CommitKeeps(s, isIO);
      case StopStep =>
      case DaemonStep(many, few) => DaemonKeeps(s, many, few);
      case EnterStep(t) => ProceedKeeps(s, t);
      case WakeStep(t) => if s.destroyed > 0 { DetachKeeps(s, t); } else { ProceedKeeps(s, t); }
      case FinishStep(t) => FinishKeeps(s, t);
    }
  }

  lemma StepKeepsLimits(s: Pool, step: Step, after: Pool)
    requires Next(s, step, after)
    ensures after.limits == s.limits
  {
    ExpendKeepsRest(s, s.limits.batch);
  }

  lemma StopStays(s: Pool, step: Step, after: Pool)
    requires Next(s, step, after) && s.isStop
    ensures after.isStop && after.started == s.started
  {
    ExpendKeepsRest(s, s.limits.batch);
  }

  lemma {:induction false} RunKeeps(states: seq<Pool>, steps: seq<Step>, l: Limits, i: nat)
    requires Bounded(l) && Run(states, steps, l) && i < |states|
    ensures Inv(states[i]) && states[i].limits == l
  {
    if i == 0 {
      FreshInv(l);
    } else {
      RunKeeps(states, steps, l, i - 1);
      StepKeeps(states[i - 1], steps[i - 1], states[i]);
      StepKeepsLimits(states[i - 1], steps[i - 1], states[i]);
    }
  }

  // ---------------------------------------------------------------------------------------
  // What holds in every run

  /** Room for every exit still owed. */
  predicate Owing(s: Pool) {
    s.limits.min + s.destroyed <= s.threadNum
  }

  /** Before stop a thread leaves only to pay an exit. */
  lemma OthersPay(s: Pool, step: Step, after: Pool)
    requires Bounded(s.limits) && Counted(s) && Next(s, step, after) && !step.DaemonStep? && !after.isStop
    ensures after.threadNum <= s.threadNum && after.threadNum - after.destroyed == s.threadNum - s.destroyed
  {
    match step {
      case CommitStep(_) =>
      case StopStep =>
      case DaemonStep(_, _) =>
      case EnterStep(t) =>
      case WakeStep(t) => WakePays(s, t);
      case FinishStep(t) =>
    }
  }

  lemma WakePays(s: Pool, t: nat)
    requires Bounded(s.limits) && Counted(s) && t in s.threads && s.threads[t] == Waiting && !s.isStop
    ensures var after := Wake(s, t);
            after.threadNum <= s.threadNum && after.threadNum - after.destroyed == s.threadNum - s.destroyed
  {
    assert t in Alive(s.threads);
    SmallMod(s.threadNum - 1);
  }

  /** The daemon owes exits only for threads beyond the minimum, given a batch of them. */
  lemma DaemonOwes(s: Pool, many: nat, few: nat)
    requires Inv(s) && Owing(s)
    requires s.working < few ==> s.limits.batch <= s.threadNum
    ensures Owing(Daemon(s, many, few))
  {
    DaemonArithmetic(s);
    ExpendKeepsRest(s, s.limits.batch);
    if s.threadNum + s.limits.batch <= s.limits.max { ExpendKeeps(s, s.limits.batch); }
  }

  /** Each step before stop keeps it, unless the daemon owes exits with less than a batch of threads. */
  lemma StepOwes(s: Pool, step: Step, after: Pool)
    requires Inv(s) && Owing(s) && Next(s, step, after) && !after.isStop
    requires step.DaemonStep? && s.working < step.few ==> s.limits.batch <= s.threadNum
    ensures Owing(after)
  {
    StepKeepsLimits(s, step, after);
    if step.DaemonStep? {
      DaemonOwes(s, step.many, step.few);
    } else {
      OthersPay(s, step, after);
    }
  }

  lemma {:induction false} RunOwes(states: seq<Pool>, steps: seq<Step>, l: Limits, i: nat)
    requires Bounded(l) && l.batch <= l.min && Run(states, steps, l) && i < |states| && !states[i].isStop
    ensures Owing(states[i])
  {
    if i == 0 {
      FreshInv(l);
    } else {
      RunKeeps(states, steps, l, i - 1);
      if states[i - 1].isStop { StopStays(states[i - 1], steps[i - 1], states[i]); }
      RunOwes(states, steps, l, i - 1);
      StepOwes(states[i - 1], steps[i - 1], states[i]);
    }
  }

  /** Before stop the thread count is that of the tracked threads, between the limits, with room
      for every exit still owed, so that the daemon's subtraction never wraps. */
  lemma ThreadsWithinLimits(states: seq<Pool>, steps: seq<Step>, l: Limits, i: nat)
    requires Sane(l) && Run(states, steps, l) && i < |states| && !states[i].isStop
    ensures var s := states[i];
            && l.min + s.destroyed <= s.threadNum <= l.max
            && s.threadNum == |s.threads|
            && Sub32(s.threadNum, l.batch) == s.threadNum - l.batch
  {
    RunKeeps(states, steps, l, i);
    RunOwes(states, steps, l, i);
    var s := states[i];
    DaemonArithmetic(s);
    assert Alive(s.threads) == s.threads.Keys;
  }

  /** Always, the counters are the numbers of busy threads, and their difference never wraps. */
  lemma CountersCount(states: seq<Pool>, steps: seq<Step>, l: Limits, i: nat)
    requires Bounded(l) && Run(states, steps, l) && i < |states|
    ensures var s := states[i];
            && s.working == |Busy(s.threads)| && s.io == |BusyIO(s.threads)|
            && s.threadNum == |Alive(s.threads)|
            && s.io <= s.working <= s.threadNum <= Ceiling(l)
            && Sub32(s.working, s.io) == s.working - s.io
  {
    RunKeeps(states, steps, l, i);
    BusyAreAlive(states[i].threads);
    DaemonArithmetic(states[i]);
  }

  /** Every committed task is queued, on one thread, or finished; tasks start in commit order and
      at most once, and finish at most once. */
  lemma TasksAccountedFor(states: seq<Pool>, steps: seq<Step>, l: Limits, i: nat)
    requires Bounded(l) && Run(states, steps, l) && i < |states|
    ensures var s := states[i];
            && s.committed == s.started + s.queue
            && (forall a, b :: 0 <= a < b < |s.started| ==> s.started[a] != s.started[b])
            && (forall a, b :: 0 <= a < b < |s.finished| ==> s.finished[a] != s.finished[b])
            && (forall k :: k in s.started <==> k in s.finished || RunningSomewhere(s, k))
            && (forall k :: !(k in s.finished && RunningSomewhere(s, k)))
            && |s.started| == |s.finished| + s.working
  {
    RunKeeps(states, steps, l, i);
    var s := states[i];
    forall a, b | 0 <= a < b < |s.started|
      ensures s.started[a] != s.started[b]
    {
      assert s.committed[a] == s.started[a] && s.committed[b] == s.started[b];
    }
    StartedCount(s);
  }

  lemma {:induction false} DistinctCount(ks: seq<Task>)
    requires forall a, b :: 0 <= a < b < |ks| ==> ks[a] != ks[b]
    ensures |(set k | k in ks)| == |ks|
  {
    if ks != [] {
      var n := |ks| - 1;
      var front := ks[..n];
      DistinctCount(front);
      assert ks == front + [ks[n]];
      assert (set k | k in ks) == (set k | k in front) + {ks[n]};
    }
  }

  function TasksOf(on: map<nat, Task>): set<Task> {
    set t | t in on :: on[t]
  }

  lemma {:induction false} OneTaskEach(on: map<nat, Task>)
    requires forall t, u :: t in on && u in on && t != u ==> on[t] != on[u]
    ensures |TasksOf(on)| == |on|
    decreases |on|
  {
    if |on| == 0 {
      assert TasksOf(on) == {};
    } else {
      SomeThread(on);
      var t :| t in on;
      var rest := on - {t};
      assert rest.Keys == on.Keys - {t};
      assert |rest| == |rest.Keys| == |on| - 1;
      OneTaskEach(rest);
      assert on == rest[t := on[t]];
      TasksWith(rest, t, on[t]);
      assert on[t] !in TasksOf(rest);
    }
  }

  lemma TasksWith(on: map<nat, Task>, t: nat, k: Task)
    requires t !in on
    ensures TasksOf(on[t := k]) == TasksOf(on) + {k}
  {
    var more := on[t := k];
    forall x | x in TasksOf(on) + {k}
      ensures x in TasksOf(more)
    {
      if x == k {
        assert t in more && more[t] == x;
      } else {
        var u :| u in on && on[u] == x;
        assert u in more && more[u] == x;
      }
    }
  }

  lemma SomeThread(on: map<nat, Task>)
    requires |on| > 0
    ensures exists t :: t in on
  {
    if !exists t :: t in on {
    }
  }

  lemma StartedSplit(s: Pool)
    requires Inv(s)
    ensures (set k | k in s.started) == (set k | k in s.finished) + TasksOf(OnThreads(s.threads))
    ensures (set k | k in s.finished) !! TasksOf(OnThreads(s.threads))
  {
    var on := OnThreads(s.threads);
    forall k | k in TasksOf(on)
      ensures k in s.started && k !in s.finished
    {
      var t :| t in on && on[t] == k;
    }
  }

  lemma StartedCount(s: Pool)
    requires Inv(s)
    requires forall a, b :: 0 <= a < b < |s.started| ==> s.started[a] != s.started[b]
    ensures |s.started| == |s.finished| + s.working
  {
    var on := OnThreads(s.threads);
    assert on.Keys == Busy(s.threads);
    assert |on| == |on.Keys|;
    OneTaskEach(on);
    StartedSplit(s);
    DistinctCount(s.started);
    DistinctCount(s.finished);
  }

  /** No task starts once stop is set. */
  lemma StopStopsWork(states: seq<Pool>, steps: seq<Step>, l: Limits, k: nat, j: nat)
    requires Run(states, steps, l) && k < |steps| && steps[k] == StopStep && k < j < |states|
    ensures states[j].isStop && states[j].started == states[k].started
  {
    assert Next(states[k], steps[k], states[k + 1]);
    NoneStartsAfterStop(states, steps, l, k + 1, j);
  }

  lemma {:induction false} NoneStartsAfterStop(states: seq<Pool>, steps: seq<Step>, l: Limits, i: nat, j: nat)
    requires Run(states, steps, l) && i <= j < |states| && states[i].isStop
    ensures states[j].isStop && states[j].started == states[i].started
    decreases j
  {
    if i < j {
      NoneStartsAfterStop(states, steps, l, i, j - 1);
      StopStays(states[j - 1], steps[j - 1], states[j]);
    }
  }

  // ---------------------------------------------------------------------------------------
  // When the minimum is kept

  /** The shrink test protects the minimum for every thread count exactly when a batch is no more
      than the minimum; otherwise the subtraction wraps and the test passes. */
  lemma ShrinkTestSoundIff(min: nat, batch: nat)
    requires min < TWO_32 && batch < TWO_32
    ensures (forall n: nat :: min <= n < TWO_32 && Sub32(n, batch) >= min ==> n >= min + batch) <==> batch <= min
  {
    if batch > min {
      assert Sub32(min, batch) == min - batch + TWO_32;
      assert Sub32(min, batch) >= min && !(min >= min + batch);
    } else {
      forall n: nat | min <= n < TWO_32 && Sub32(n, batch) >= min
        ensures n >= min + batch
      {
        SmallMod(n - batch);
      }
    }
  }

  lemma WrapsAbove(n: nat, batch: nat, min: nat)
    requires n < batch && min + batch < TWO_32
    ensures Sub32(n, batch) >= min
  {
    assert Sub32(n, batch) == n - batch + TWO_32;
  }

  /** The daemon's own thresholds, four fifths and one fifth of the threads rounded down. */
  function Round(s: Pool): Step {
    DaemonStep(s.threadNum * 4 / 5, s.threadNum / 5)
  }

  predicate Coded(s: Pool, step: Step) {
    step.DaemonStep? ==> step == Round(s)
  }

  ghost predicate CodedRun(states: seq<Pool>, steps: seq<Step>, l: Limits) {
    Run(states, steps, l) && forall i :: 0 <= i < |steps| ==> Coded(states[i], steps[i])
  }

  /** No run takes the pool below its minimum before stop. */
  ghost predicate KeepsMinimum(l: Limits) {
    forall states: seq<Pool>, steps: seq<Step>, i: int ::
      CodedRun(states, steps, l) && 0 <= i < |states| && !states[i].isStop ==> states[i].threadNum >= l.min
  }

  /** The pool never grows: no cores were reported, or a batch does not fit under the maximum. */
  predicate NeverGrows(l: Limits) {
    l.cores == 0 || l.min + l.batch > l.max
  }

  /** With fewer than five threads the shrink test fails at its first half, and with five it does
      not wrap for a batch of at most five. */
  predicate SafeLimits(l: Limits) {
    l.batch <= l.min || l.min == 0 || (l.min <= 4 && (l.batch <= 5 || NeverGrows(l)))
  }

  /** So the shrink branch is taken only with a batch of threads there. */
  lemma SafeShrink(s: Pool)
    requires SafeLimits(s.limits) && s.limits.min > 0 && Owing(s)
    requires NeverGrows(s.limits) ==> s.threadNum <= s.limits.min
    requires s.working < s.threadNum / 5
    ensures s.limits.batch <= s.threadNum
  {
    assert s.threadNum >= 5;
  }

  lemma StepNeverGrows(s: Pool, step: Step, after: Pool)
    requires Inv(s) && NeverGrows(s.limits) && s.threadNum >= s.limits.min && Next(s, step, after) && !after.isStop
    ensures after.threadNum <= s.threadNum
  {
    if step.DaemonStep? {
      DaemonArithmetic(s);
    } else {
      OthersPay(s, step, after);
    }
  }

  /** Owing, and no larger than at first if it never grows. */
  predicate Kept(s: Pool) {
    Owing(s) && (NeverGrows(s.limits) ==> s.threadNum <= s.limits.min)
  }

  lemma SafeStepKeeps(s: Pool, step: Step, after: Pool)
    requires Inv(s) && SafeLimits(s.limits) && s.limits.min > 0 && Kept(s)
    requires Next(s, step, after) && Coded(s, step) && !after.isStop
    ensures Kept(after)
  {
    if step.DaemonStep? && s.working < step.few { SafeShrink(s); }
    StepOwes(s, step, after);
    StepKeepsLimits(s, step, after);
    if NeverGrows(s.limits) { StepNeverGrows(s, step, after); }
  }

  lemma {:induction false} SafeLimitsKeep(states: seq<Pool>, steps: seq<Step>, l: Limits, i: nat)
    requires Bounded(l) && SafeLimits(l) && l.min > 0
    requires CodedRun(states, steps, l) && i < |states| && !states[i].isStop
    ensures Kept(states[i])
  {
    if i == 0 {
      FreshInv(l);
    } else {
      RunKeeps(states, steps, l, i - 1);
      if states[i - 1].isStop { StopStays(states[i - 1], steps[i - 1], states[i]); }
      SafeLimitsKeep(states, steps, l, i - 1);
      SafeStepKeeps(states[i - 1], steps[i - 1], states[i]);
    }
  }

  /** A pool in formation: threads up to left are gone, up to parked wait, up to busy and from idle
      on are ready, and those between run io tasks. */
  ghost predicate Formed(s: Pool, l: Limits, left: nat, parked: nat, busy: nat, idle: nat, n: nat) {
    && s.limits == l && !s.isStop && s.queue == []
    && left <= parked <= busy <= idle <= n == s.nextThread
    && s.threadNum == n - left && s.working == s.io == idle - busy
    && (forall t: nat :: left <= t < n ==> t in s.threads && InPlace(s.threads[t], t, parked, busy, idle))
  }

  predicate InPlace(w: Worker, t: nat, parked: nat, busy: nat, idle: nat) {
    if t < parked then w == Waiting
    else if busy <= t < idle then w.Running? && w.task.isIO
    else w == Ready
  }

  ghost predicate Reachable(l: Limits, s: Pool) {
    exists states: seq<Pool>, steps: seq<Step> :: CodedRun(states, steps, l) && states[|steps|] == s
  }

  lemma ReachNext(l: Limits, s: Pool, step: Step, after: Pool)
    requires Reachable(l, s) && Next(s, step, after) && Coded(s, step)
    ensures Reachable(l, after)
  {
    var states: seq<Pool>, steps: seq<Step> :| CodedRun(states, steps, l) && states[|steps|] == s;
    assert CodedRun(states + [after], steps + [step], l);
    assert (states + [after])[|steps + [step]|] == after;
  }

  lemma ReachableInv(l: Limits, s: Pool)
    requires Bounded(l) && Reachable(l, s)
    ensures Inv(s) && s.limits == l
  {
    var states: seq<Pool>, steps: seq<Step> :| CodedRun(states, steps, l) && states[|steps|] == s;
    RunKeeps(states, steps, l, |steps|);
  }

  lemma FreshReachable(l: Limits)
    ensures Reachable(l, Fresh(l))
  {
    var states, steps: seq<Step> := [Fresh(l)], [];
    assert CodedRun(states, steps, l) && states[|steps|] == Fresh(l);
  }

  lemma {:induction false} ExpendForms(s: Pool, l: Limits, n: nat, k: nat)
    requires Formed(s, l, 0, 0, 0, n, n) || Formed(s, l, 0, 0, n, n, n)
    requires n + k < TWO_32
    ensures Formed(s, l, 0, 0, 0, n, n) ==> Formed(Expend(s, k), l, 0, 0, 0, n, n + k)
    ensures Formed(s, l, 0, 0, n, n, n) ==> Formed(Expend(s, k), l, 0, 0, n + k, n + k, n + k)
    ensures Expend(s, k).destroyed == s.destroyed
  {
    if k > 0 {
      ExpendForms(s, l, n, k - 1);
      SmallMod(n + k);
    }
  }

  lemma FreshFormed(l: Limits)
    requires Bounded(l)
    ensures Reachable(l, Fresh(l)) && Formed(Fresh(l), l, 0, 0, l.min, l.min, l.min) && Fresh(l).destroyed == 0
  {
    ExpendForms(Vacant(l), l, 0, l.min);
    FreshReachable(l);
  }

  /** The next ready thread takes an io task. */
  lemma Employ(l: Limits, s: Pool, k: nat, n: nat) returns (t: Pool)
    requires Reachable(l, s) && Formed(s, l, 0, 0, 0, k, n) && k < n < TWO_32
    ensures Reachable(l, t) && Formed(t, l, 0, 0, 0, k + 1, n) && t.destroyed == s.destroyed
  {
    var c := Commit(s, true);
    t := Proceed(c, k);
    ReachNext(l, s, CommitStep(true), c);
    ReachNext(l, c, EnterStep(k), t);
    SmallMod(k + 1);
  }

  /** The first busy thread finishes. */
  lemma Release(l: Limits, s: Pool, k: nat, m: nat, n: nat) returns (t: Pool)
    requires Reachable(l, s) && Formed(s, l, 0, 0, k, m, n) && k < m && n < TWO_32
    ensures Reachable(l, t) && Formed(t, l, 0, 0, k + 1, m, n) && t.destroyed == s.destroyed
  {
    t := Finish(s, k);
    ReachNext(l, s, FinishStep(k), t);
    SmallMod(m - k - 1);
  }

  /** The first ready thread finds nothing to do. */
  lemma Park(l: Limits, s: Pool, k: nat, n: nat) returns (t: Pool)
    requires Reachable(l, s) && Formed(s, l, 0, k, n, n, n) && k < n
    ensures Reachable(l, t) && Formed(t, l, 0, k + 1, n, n, n) && t.destroyed == s.destroyed
  {
    t := Proceed(s, k);
    ReachNext(l, s, EnterStep(k), t);
  }

  /** The first waiting thread pays an exit. */
  lemma Dismiss(l: Limits, s: Pool, k: nat, n: nat) returns (t: Pool)
    requires Reachable(l, s) && Formed(s, l, k, n, n, n, n) && k < n < TWO_32 && s.destroyed > 0
    ensures Reachable(l, t) && Formed(t, l, k + 1, n, n, n, n) && t.destroyed == s.destroyed - 1
  {
    t := Wake(s, k);
    ReachNext(l, s, WakeStep(k), t);
    SmallMod(n - k - 1);
  }

  /** The daemon owes a batch of exits, its test wrapping if there are fewer threads than that. */
  lemma Shrink(l: Limits, s: Pool, k: nat, n: nat) returns (t: Pool)
    requires Reachable(l, s) && Formed(s, l, k, n, n, n, n) && n - k >= 5 && Bounded(l)
    requires n - k < l.batch || n - k >= l.batch + l.min
    requires n < TWO_32
    ensures Reachable(l, t) && Formed(t, l, k, n, n, n, n) && t.destroyed == l.batch
  {
    var threads := n - k;
    if threads < l.batch {
      assert Sub32(threads, l.batch) == threads - l.batch + TWO_32 >= l.min;
    } else {
      SmallMod(threads - l.batch);
    }
    t := Daemon(s, Round(s).many, Round(s).few);
    ReachNext(l, s, Round(s), t);
  }

  /** All of n ready threads wait. */
  lemma ParkAll(l: Limits, s: Pool, n: nat) returns (t: Pool)
    requires Reachable(l, s) && Formed(s, l, 0, 0, n, n, n)
    ensures Reachable(l, t) && Formed(t, l, 0, n, n, n, n)
  {
    t := s;
    for k := 0 to n
      invariant Reachable(l, t) && Formed(t, l, 0, k, n, n, n)
    {
      t := Park(l, t, k, n);
    }
  }

  /** Threads up to m pay their exits. */
  lemma DismissTo(l: Limits, s: Pool, k: nat, m: nat, n: nat) returns (t: Pool)
    requires Reachable(l, s) && Formed(s, l, k, n, n, n, n) && k <= m <= n < TWO_32 && s.destroyed >= m - k
    ensures Reachable(l, t) && Formed(t, l, m, n, n, n, n)
  {
    t := s;
    for i := k to m
      invariant Reachable(l, t) && Formed(t, l, i, n, n, n, n) && t.destroyed == s.destroyed - (i - k)
    {
      t := Dismiss(l, t, i, n);
    }
  }

  /** A pool of min threads, all on io tasks, grows by a batch and falls idle again. */
  lemma GrowAndRest(l: Limits) returns (t: Pool)
    requires Bounded(l) && l.min > 0 && l.cores > 0 && l.min + l.batch <= l.max
    ensures Reachable(l, t) && Formed(t, l, 0, 0, l.min + l.batch, l.min + l.batch, l.min + l.batch)
  {
    var m, n := l.min, l.min + l.batch;
    t := Fresh(l);
    FreshFormed(l);
    for k := 0 to m
      invariant Reachable(l, t) && Formed(t, l, 0, 0, 0, k, m)
    {
      t := Employ(l, t, k, m);
    }
    SmallMod(n);
    ExpendForms(t, l, m, l.batch);
    ReachNext(l, t, Round(t), Expend(t, l.batch));
    t := Expend(t, l.batch);
    for k := 0 to m
      invariant Reachable(l, t) && Formed(t, l, 0, 0, k, m, n)
    {
      t := Release(l, t, k, m, n);
    }
  }

  /** An idle pool of at least five threads whose batch exceeds its minimum: the workers wait, the
      daemon's test wraps, one leaves. */
  lemma LargeBatchShrinks(l: Limits) returns (t: Pool)
    requires Bounded(l) && 5 <= l.min < l.batch
    ensures Reachable(l, t) && !t.isStop && t.threadNum < l.min
  {
    FreshFormed(l);
    t := ParkAll(l, Fresh(l), l.min);
    t := Shrink(l, t, 0, l.min);
    t := Dismiss(l, t, 0, l.min);
  }

  /** A smaller pool has to grow first: then it shrinks by less than a batch, to five threads or
      more, and the next round's test wraps. */
  lemma SmallPoolShrinks(l: Limits) returns (t: Pool)
    requires Bounded(l) && 1 <= l.min <= 4 && 6 <= l.batch && l.cores > 0 && l.min + l.batch <= l.max
    ensures Reachable(l, t) && !t.isStop && t.threadNum < l.min
  {
    var n := l.min + l.batch;
    t := GrowAndRest(l);
    t := ParkAll(l, t, n);
    t := Shrink(l, t, 0, n);
    t := DismissTo(l, t, 0, l.min + 1, n);
    t := Shrink(l, t, l.min + 1, n);
    t := DismissTo(l, t, l.min + 1, l.batch + 1, n);
  }

  /** For every pool the constructor makes, the minimum is kept in every run exactly under these
      limits. */
  lemma MinimumKeptIff(l: Limits)
    requires Bounded(l)
    ensures KeepsMinimum(l) <==> SafeLimits(l)
  {
    if SafeLimits(l) {
      forall states: seq<Pool>, steps: seq<Step>, i: int |
        CodedRun(states, steps, l) && 0 <= i < |states| && !states[i].isStop
        ensures states[i].threadNum >= l.min
      {
        RunKeeps(states, steps, l, i);
        if l.min > 0 { SafeLimitsKeep(states, steps, l, i); }
      }
    } else {
      var t;
      if l.min >= 5 {
        t := LargeBatchShrinks(l);
      } else {
        t := SmallPoolShrinks(l);
      }
      var states: seq<Pool>, steps: seq<Step> :| CodedRun(states, steps, l) && states[|steps|] == t;
      assert !(states[|steps|].threadNum >= l.min);
    }
  }

  // ---------------------------------------------------------------------------------------
  // Tasks are not left lying

  /** A ready worker before stop: it waits exactly when nothing is queued, and otherwise starts the
      oldest task, whatever its kind. */
  lemma ReadyWorker(s: Pool, t: nat)
    requires Inv(s) && !s.isStop && t in s.threads && !s.threads[t].Running?
    ensures var after := Proceed(s, t);
            if s.queue == [] then after == s.(threads := s.threads[t := Waiting])
            else
              && after.threads == s.threads[t := Running(s.queue[0])] && after.queue == s.queue[1..]
              && after.started == s.started + [s.queue[0]] && after.working == s.working + 1
              && after.io == s.io + (if s.queue[0].isIO then 1 else 0)
              && after == s.(threads := after.threads, queue := after.queue, started := after.started,
                             working := after.working, io := after.io)
  {
    if s.queue != [] {
      TakeCounted(s, t);
      BusyChange(s.threads, t, s.queue[0]);
    }
  }

  /** What is still to be done: tasks queued, tasks running, exits owed. */
  datatype Work = Work(queued: nat, running: nat, owed: nat)

  predicate Lower(a: Work, b: Work) {
    || a.queued < b.queued
    || (a.queued == b.queued && (a.running < b.running || (a.running == b.running && a.owed < b.owed)))
  }

  function WorkOf(s: Pool): Work { Work(|s.queue|, s.working, s.destroyed) }

  /** A step of a worker. */
  predicate Works(step: Step) { step.EnterStep? || step.WakeStep? || step.FinishStep? }

  ghost predicate OneOn(s: Pool, t: Pool) {
    exists step :: Works(step) && Next(s, step, t)
  }

  /** n steps of workers go from s to t. */
  ghost predicate LeadsIn(s: Pool, t: Pool, n: nat)
    decreases n
  {
    if n == 0 then s == t else exists m :: OneOn(s, m) && LeadsIn(m, t, n - 1)
  }

  ghost predicate Leads(s: Pool, t: Pool) {
    exists n: nat :: LeadsIn(s, t, n)
  }

  lemma LeadsCons(s: Pool, step: Step, t: Pool, u: Pool)
    requires Works(step) && Next(s, step, t) && Leads(t, u)
    ensures Leads(s, u)
  {
    var n: nat :| LeadsIn(t, u, n);
    assert OneOn(s, t);
    assert LeadsIn(s, u, n + 1);
  }

  /** Not stopped, and with more threads than exits owed. */
  ghost predicate Able(s: Pool) {
    Inv(s) && !s.isStop && s.destroyed < s.threadNum
  }

  lemma SomeMember(ts: set<nat>) returns (t: nat)
    requires ts != {}
    ensures t in ts
  {
    HasMember(ts);
    t :| t in ts;
  }

  lemma HasMember(ts: set<nat>)
    requires ts != {}
    ensures exists t :: t in ts
  {
    if !exists t :: t in ts {
    }
  }

  lemma FinishedOne(s: Pool, t: nat)
    requires Inv(s) && t in s.threads && s.threads[t].Running?
    ensures Finish(s, t).working == s.working - 1
  {
    assert t in Busy(s.threads);
    BusyAreAlive(s.threads);
    SmallMod(s.working - 1);
  }

  lemma CanFinish(s: Pool) returns (step: Step, after: Pool)
    requires Able(s) && s.working > 0
    ensures Works(step) && Next(s, step, after) && Able(after) && Lower(WorkOf(after), WorkOf(s))
    ensures after.committed == s.committed
  {
    var t := SomeMember(Busy(s.threads));
    step, after := FinishStep(t), Finish(s, t);
    FinishKeeps(s, t);
    FinishedOne(s, t);
  }

  lemma CanStart(s: Pool) returns (step: Step, after: Pool)
    requires Able(s) && s.working == 0 && s.queue != []
    ensures Works(step) && Next(s, step, after) && Able(after) && Lower(WorkOf(after), WorkOf(s))
    ensures after.committed == s.committed
  {
    var t := SomeMember(Alive(s.threads));
    assert s.threads[t].Running? ==> t in Busy(s.threads);
    if s.threads[t] == Ready {
      step, after := EnterStep(t), Proceed(s, t);
    } else {
      step, after := WakeStep(t), Wake(s, t);
    }
    StepKeeps(s, step, after);
    if s.threads[t] == Ready || s.destroyed == 0 { ReadyWorker(s, t); } else { WakePays(s, t); }
  }

  /** While a task is queued or running, some worker can take a step that brings the end nearer. */
  lemma CanWork(s: Pool) returns (step: Step, after: Pool)
    requires Able(s) && (s.queue != [] || s.working > 0)
    ensures Works(step) && Next(s, step, after) && Able(after) && Lower(WorkOf(after), WorkOf(s))
    ensures after.committed == s.committed
  {
    if s.working > 0 {
      step, after := CanFinish(s);
    } else {
      step, after := CanStart(s);
    }
  }

  lemma {:induction false} WorkOn(s: Pool, w: Work) returns (u: Pool)
    requires Able(s) && w == WorkOf(s)
    ensures Leads(s, u) && Able(u) && u.queue == [] && u.working == 0 && u.committed == s.committed
    decreases w.queued, w.running, w.owed
  {
    if s.queue == [] && s.working == 0 {
      u := s;
      assert LeadsIn(s, u, 0);
    } else {
      var step, t := CanWork(s);
      u := WorkOn(t, WorkOf(t));
      LeadsCons(s, step, t, u);
    }
  }

  /** From every state of every run before stop in which more threads are there than exits owed, the
      workers alone can bring every task committed so far to its end. */
  lemma TasksCanFinish(states: seq<Pool>, steps: seq<Step>, l: Limits, i: nat) returns (u: Pool)
    requires Bounded(l) && Run(states, steps, l) && i < |states|
    requires !states[i].isStop && states[i].destroyed < states[i].threadNum
    ensures Leads(states[i], u) && u.committed == states[i].committed
    ensures u.queue == [] && forall k :: k in u.committed ==> k in u.finished
  {
    RunKeeps(states, steps, l, i);
    u := WorkOn(states[i], WorkOf(states[i]));
    NoneRunning(u);
  }

  lemma NoneRunning(s: Pool)
    requires Inv(s) && s.queue == [] && s.working == 0
    ensures forall k :: k in s.committed ==> k in s.finished
  {
    var on := OnThreads(s.threads);
    assert forall t :: t in on ==> t in Busy(s.threads);
    assert Busy(s.threads) == {};
    assert forall k :: k in s.committed ==> k in s.started;
  }

  /** Which is so in every run that keeps its minimum of at least one thread. */
  lemma SafePoolsCanFinish(states: seq<Pool>, steps: seq<Step>, l: Limits, i: nat) returns (u: Pool)
    requires Bounded(l) && SafeLimits(l) && l.min > 0
    requires CodedRun(states, steps, l) && i < |states| && !states[i].isStop
    ensures Leads(states[i], u) && u.committed == states[i].committed
    ensures u.queue == [] && forall k :: k in u.committed ==> k in u.finished
  {
    RunKeeps(states, steps, l, i);
    SafeLimitsKeep(states, steps, l, i);
    u := TasksCanFinish(states, steps, l, i);
  }
}
