/** The thread pool object of Core/Thread_Pool.cpp, each critical section a method and a step of the
    pool's runs, so that what holds in every run holds of the object. */
module PoolObject {
  import opened Bytes
  import opened Pools

  /** n new threads, ready, numbered from first on. */
  ghost predicate Grown(before: map<nat, Worker>, after: map<nat, Worker>, first: nat, n: nat) {
    && (forall t: nat :: t in after <==> t in before || first <= t < first + n)
    && (forall t: nat :: t in after ==> after[t] == if first <= t < first + n then Ready else before[t])
  }

  lemma GrownMore(before: map<nat, Worker>, after: map<nat, Worker>, first: nat, n: nat, next: nat)
    requires Grown(before, after, first, n) && next == first + n
    ensures Grown(before, after[next := Ready], first, n + 1)
  {
  }

  class ThreadPool {
    var isStop: bool
    const limits: Limits
    var threadNum: nat
    var workingThreadNum: nat
    var ioTaskNum: nat
    var destroyedThreadNum: nat
    var taskQueue: seq<Task>
    /** The tracked threads and where each is in work_task. */
    var threads: map<nat, Worker>
    /** The system gives every thread an id of its own. */
    var nextThread: nat
    var commits: nat
    ghost var committed: seq<Task>
    ghost var started: seq<Task>
    ghost var finished: seq<Task>

    ghost function View(): Pool
      reads this
    {
      Pool(limits, isStop, threadNum, workingThreadNum, ioTaskNum, destroyedThreadNum, taskQueue, threads,
           nextThread, committed, started, finished)
    }

    ghost predicate Valid()
      reads this
    {
      Bounded(limits) && Reachable(limits, View()) && commits == |committed|
    }

    /** What every run promises, of the fields. */
    lemma Promises()
      requires Valid()
      ensures threadNum == |Alive(threads)| && workingThreadNum == |Busy(threads)| && ioTaskNum == |BusyIO(threads)|
      ensures threadNum <= Ceiling(limits)
      ensures SafeLimits(limits) && !isStop ==> limits.min <= threadNum
      ensures committed == started + taskQueue && |started| == |finished| + workingThreadNum
    {
      var states: seq<Pool>, steps: seq<Step> :| CodedRun(states, steps, limits) && states[|steps|] == View();
      CountersCount(states, steps, limits, |steps|);
      TasksAccountedFor(states, steps, limits, |steps|);
      MinimumKeptIff(limits);
    }

    constructor (limits: Limits)
      requires Bounded(limits)
      ensures Valid() && View() == Fresh(limits)
      ensures threadNum == limits.min && Grown(map[], threads, 0, limits.min)
      ensures !isStop && taskQueue == [] && workingThreadNum == ioTaskNum == destroyedThreadNum == 0
    {
      this.limits := limits;
      isStop := false;
      threadNum, workingThreadNum, ioTaskNum, destroyedThreadNum := 0, 0, 0, 0;
      taskQueue, threads, nextThread, commits := [], map[], 0, 0;
      committed, started, finished := [], [], [];
      new;
      FreshReachable(limits);
      ExpendThreadPool(limits.min);
      ExpendKeepsRest(Vacant(limits), limits.min);
    }

    method ExpendThreadPool(expendNum: nat)
      modifies this`threads, this`nextThread, this`threadNum
      ensures View() == Expend(old(View()), expendNum)
      ensures nextThread == old(nextThread) + expendNum && Grown(old(threads), threads, old(nextThread), expendNum)
      ensures old(threadNum) + expendNum < TWO_32 ==> threadNum == old(threadNum) + expendNum
    {
      var i := 0;
      while i < expendNum
        invariant i <= expendNum && View() == Expend(old(View()), i)
        invariant nextThread == old(nextThread) + i && Grown(old(threads), threads, old(nextThread), i)
        invariant old(threadNum) + expendNum < TWO_32 ==> threadNum == old(threadNum) + i
      {
        GrownMore(old(threads), threads, old(nextThread), i, nextThread);
        if old(threadNum) + expendNum < TWO_32 { SmallMod(threadNum + 1); }
        threads := threads[nextThread := Ready];
        nextThread := nextThread + 1;
        threadNum := Add32(threadNum, 1);
        i := i + 1;
      }
    }

    method ReduceThreadPool(reduceNum: nat)
      modifies this`destroyedThreadNum
      ensures destroyedThreadNum == reduceNum
    {
      destroyedThreadNum := reduceNum;
    }

    /** The daemon's sums are exact, and its difference wraps with less than a batch of threads. */
    lemma RoundArithmetic()
      requires Valid()
      ensures Sub32(workingThreadNum, ioTaskNum) == workingThreadNum - ioTaskNum
      ensures Add32(threadNum, limits.batch) == threadNum + limits.batch < TWO_32
      ensures Sub32(threadNum, limits.batch) >= limits.min
              <==> threadNum < limits.batch || threadNum >= limits.min + limits.batch
    {
      ReachableInv(limits, View());
      DaemonArithmetic(View());
      if threadNum < limits.batch { WrapsAbove(threadNum, limits.batch, limits.min); }
    }

    /** One round of the daemon. */
    method DaemonTask()
      requires Valid()
      modifies this
      ensures Valid() && Next(old(View()), Round(old(View())), View())
      ensures var grows := old(workingThreadNum) > old(threadNum) * 4 / 5
                           && old(workingThreadNum) - old(ioTaskNum) < limits.cores
                           && old(threadNum) + limits.batch <= limits.max;
              var shrinks := !grows && old(workingThreadNum) < old(threadNum) / 5
                             && (old(threadNum) < limits.batch || old(threadNum) >= limits.min + limits.batch);
              && threadNum == old(threadNum) + (if grows then limits.batch else 0)
              && Grown(old(threads), threads, old(nextThread), if grows then limits.batch else 0)
              && destroyedThreadNum == (if shrinks then limits.batch else old(destroyedThreadNum))
      ensures isStop == old(isStop) && taskQueue == old(taskQueue) && started == old(started)
      ensures workingThreadNum == old(workingThreadNum) && ioTaskNum == old(ioTaskNum)
    {
      ghost var s := View();
      ReachNext(limits, s, Round(s), Daemon(s, Round(s).many, Round(s).few));
      RoundArithmetic();
      var cpuTaskNum := Sub32(workingThreadNum, ioTaskNum);
      if workingThreadNum > threadNum * 4 / 5 && cpuTaskNum < limits.cores
         && Add32(threadNum, limits.batch) <= limits.max {
        ExpendThreadPool(limits.batch);
      } else if workingThreadNum < threadNum / 5 && Sub32(threadNum, limits.batch) >= limits.min {
        ReduceThreadPool(limits.batch);
      }
    }

    method CommitTask(isIOTask: bool) returns (task: Task)
      requires Valid()
      modifies this
      ensures Valid() && Next(old(View()), CommitStep(isIOTask), View())
      ensures task == Task(|old(committed)|, isIOTask)
      ensures taskQueue == old(taskQueue) + [Task(|old(committed)|, isIOTask)]
      ensures committed == old(committed) + [Task(|old(committed)|, isIOTask)]
      ensures threads == old(threads) && started == old(started) && isStop == old(isStop)
      ensures destroyedThreadNum == old(destroyedThreadNum) && finished == old(finished)
    {
      ReachNext(limits, View(), CommitStep(isIOTask), Commit(View(), isIOTask));
      task := Task(commits, isIOTask);
      commits := commits + 1;
      committed := committed + [task];
      taskQueue := taskQueue + [task];
    }

    method StopPool()
      requires Valid()
      modifies this
      ensures Valid() && Next(old(View()), StopStep, View())
      ensures isStop && taskQueue == old(taskQueue) && threads == old(threads) && started == old(started)
      ensures destroyedThreadNum == old(destroyedThreadNum) && finished == old(finished)
    {
      ReachNext(limits, View(), StopStep, Stop(View()));
      isStop := true;
    }

    /** work_task from the top of its loop, holding the lock: waits, leaves, or takes a task. */
    method EnterWork(t: nat) returns (task: seq<Task>)
      requires Valid() && t in threads && threads[t] == Ready
      modifies this
      ensures Valid() && Next(old(View()), EnterStep(t), View())
      ensures old(isStop) ==>
                && task == [] && threads == old(threads)[t := Returned] && taskQueue == old(taskQueue)
                && threadNum == (old(threadNum) - 1) % TWO_32
      ensures !old(isStop) && old(taskQueue) == [] ==>
                && task == [] && threads == old(threads)[t := Waiting] && taskQueue == []
                && threadNum == old(threadNum) && workingThreadNum == old(workingThreadNum)
      ensures !old(isStop) && old(taskQueue) != [] ==>
                && task == [old(taskQueue)[0]] && taskQueue == old(taskQueue)[1..]
                && threads == old(threads)[t := Running(old(taskQueue)[0])]
                && threadNum == old(threadNum) && workingThreadNum == (old(workingThreadNum) + 1) % TWO_32
                && ioTaskNum == (if old(taskQueue)[0].isIO then (old(ioTaskNum) + 1) % TWO_32 else old(ioTaskNum))
      ensures destroyedThreadNum == old(destroyedThreadNum)
      ensures started == old(started) + task && isStop == old(isStop)
    {
      ReachNext(limits, View(), EnterStep(t), Proceed(View(), t));
      task := WaitOrTake(t);
    }

    /** The same, woken from the condition variable. */
    method WakeWork(t: nat) returns (task: seq<Task>)
      requires Valid() && t in threads && threads[t] == Waiting
      modifies this
      ensures Valid() && Next(old(View()), WakeStep(t), View())
      ensures old(destroyedThreadNum) > 0 ==>
                && task == [] && threads == old(threads) - {t} && threadNum == (old(threadNum) - 1) % TWO_32
                && destroyedThreadNum == old(destroyedThreadNum) - 1 && taskQueue == old(taskQueue)
      ensures old(destroyedThreadNum) == 0 && old(isStop) ==>
                && task == [] && threads == old(threads)[t := Returned] && taskQueue == old(taskQueue)
                && threadNum == (old(threadNum) - 1) % TWO_32
      ensures old(destroyedThreadNum) == 0 && !old(isStop) && old(taskQueue) == [] ==>
                && task == [] && threads == old(threads)[t := Waiting] && taskQueue == []
                && threadNum == old(threadNum) && workingThreadNum == old(workingThreadNum)
      ensures old(destroyedThreadNum) == 0 && !old(isStop) && old(taskQueue) != [] ==>
                && task == [old(taskQueue)[0]] && taskQueue == old(taskQueue)[1..]
                && threads == old(threads)[t := Running(old(taskQueue)[0])]
                && threadNum == old(threadNum) && workingThreadNum == (old(workingThreadNum) + 1) % TWO_32
                && ioTaskNum == (if old(taskQueue)[0].isIO then (old(ioTaskNum) + 1) % TWO_32 else old(ioTaskNum))
      ensures started == old(started) + task && isStop == old(isStop)
    {
      ReachNext(limits, View(), WakeStep(t), Wake(View(), t));
      if destroyedThreadNum > 0 {
        Detach(t);
        return [];
      }
      task := WaitOrTake(t);
    }

    method Detach(t: nat)
      requires t in threads && destroyedThreadNum > 0
      modifies this
      ensures View() == Wake(old(View()), t) && commits == old(commits)
      ensures threads == old(threads) - {t} && threadNum == (old(threadNum) - 1) % TWO_32
      ensures destroyedThreadNum == old(destroyedThreadNum) - 1 && taskQueue == old(taskQueue)
      ensures started == old(started) && isStop == old(isStop)
    {
      destroyedThreadNum := destroyedThreadNum - 1;
      threads := threads - {t};
      threadNum := Sub32(threadNum, 1);
    }

    method WaitOrTake(t: nat) returns (task: seq<Task>)
      requires t in threads
      modifies this
      ensures View() == Proceed(old(View()), t) && commits == old(commits)
      ensures old(isStop) ==>
                && task == [] && threads == old(threads)[t := Returned] && taskQueue == old(taskQueue)
                && threadNum == (old(threadNum) - 1) % TWO_32
      ensures !old(isStop) && old(taskQueue) == [] ==>
                && task == [] && threads == old(threads)[t := Waiting] && taskQueue == []
                && threadNum == old(threadNum) && workingThreadNum == old(workingThreadNum)
      ensures !old(isStop) && old(taskQueue) != [] ==>
                && task == [old(taskQueue)[0]] && taskQueue == old(taskQueue)[1..]
                && threads == old(threads)[t := Running(old(taskQueue)[0])]
                && threadNum == old(threadNum) && workingThreadNum == (old(workingThreadNum) + 1) % TWO_32
                && ioTaskNum == (if old(taskQueue)[0].isIO then (old(ioTaskNum) + 1) % TWO_32 else old(ioTaskNum))
      ensures destroyedThreadNum == old(destroyedThreadNum)
      ensures started == old(started) + task && isStop == old(isStop)
    {
      if taskQueue == [] && !isStop {
        threads := threads[t := Waiting];
        return [];
      }
      if isStop {
        threadNum := Sub32(threadNum, 1);
        threads := threads[t := Returned];
        return [];
      }
      var front := taskQueue[0];
      taskQueue := taskQueue[1..];
      workingThreadNum := Add32(workingThreadNum, 1);
      if front.isIO {
        ioTaskNum := Add32(ioTaskNum, 1);
      }
      threads := threads[t := Running(front)];
      started := started + [front];
      task := [front];
    }

    /** work_task after its task has run. */
    method FinishWork(t: nat)
      requires Valid() && t in threads && threads[t].Running?
      modifies this
      ensures Valid() && Next(old(View()), FinishStep(t), View())
      ensures var task := old(threads[t]).task;
              && threads == old(threads)[t := Ready] && finished == old(finished) + [task]
              && workingThreadNum == (old(workingThreadNum) - 1) % TWO_32
              && ioTaskNum == (if task.isIO then (old(ioTaskNum) - 1) % TWO_32 else old(ioTaskNum))
      ensures taskQueue == old(taskQueue) && started == old(started) && isStop == old(isStop)
      ensures destroyedThreadNum == old(destroyedThreadNum) && threadNum == old(threadNum)
    {
      ReachNext(limits, View(), FinishStep(t), Finish(View(), t));
      GiveBack(t);
    }

    method GiveBack(t: nat)
      requires t in threads && threads[t].Running?
      modifies this
      ensures View() == Finish(old(View()), t) && commits == old(commits)
      ensures var task := old(threads[t]).task;
              && threads == old(threads)[t := Ready] && finished == old(finished) + [task]
              && workingThreadNum == (old(workingThreadNum) - 1) % TWO_32
              && ioTaskNum == (if task.isIO then (old(ioTaskNum) - 1) % TWO_32 else old(ioTaskNum))
      ensures taskQueue == old(taskQueue) && started == old(started) && isStop == old(isStop)
      ensures destroyedThreadNum == old(destroyedThreadNum) && threadNum == old(threadNum)
    {
      var task := threads[t].task;
      if task.isIO {
        ioTaskNum := Sub32(ioTaskNum, 1);
      }
      workingThreadNum := Sub32(workingThreadNum, 1);
      threads := threads[t := Ready];
      finished := finished + [task];
    }
  }
}
