/** The timer's firings over whole runs against the schedule it is asked to keep. */
module Schedule {
  import opened Timers

  /** The due instants at which id fired, in order. */
  function Fired(log: seq<Firing>, id: nat): seq<int> {
    if log == [] then []
    else
      var n := |log| - 1;
      Fired(log[..n], id) + if log[n].id == id then [log[n].due] else []
  }

  function FirstDues(r: Request, n: nat): seq<int> {
    seq(n, k requires 0 <= k < n => Due(r, k))
  }

  /** Waits are not negative, periods positive. */
  predicate Sensible(r: Request) {
    r.wait >= 0 && (r.periodic ==> r.wait > 0)
  }

  /** n is the number of the timer's due instants that are not after upto. */
  ghost predicate ExactlyDue(r: Request, upto: int, n: nat) {
    && (forall k: nat :: k < n ==> Due(r, k) <= upto)
    && (if r.periodic then Due(r, n) > upto else n <= 1 && (n == 0 ==> Due(r, 0) > upto))
  }

  lemma DueNext(r: Request, k: nat)
    ensures Due(r, k + 1) == Due(r, k) + r.wait * MILLISECOND
  {
    var p := r.wait * MILLISECOND;
    assert (k + 1) * p == k * p + p;
  }

  /** There is only one such number. */
  lemma ExactlyDueUnique(r: Request, upto: int, m: nat, n: nat)
    requires Sensible(r) && ExactlyDue(r, upto, m) && ExactlyDue(r, upto, n)
    ensures m == n
  {
    assert m < n ==> Due(r, m) <= upto;
    assert n < m ==> Due(r, n) <= upto;
  }

  // ---------------------------------------------------------------------------------------
  // The invariant

  ghost predicate Queued(h: Handler, id: nat, r: Request, n: nat) {
    && h.id == id && h.waitTime == r.wait && h.isPeriodic == r.periodic
    && h.nextTime == Due(r, n) && (!r.periodic ==> n == 0)
  }

  ghost predicate TimerOk(s: State, id: nat)
    requires id in s.made && s.removed == s.cut.Keys
  {
    var r := s.made[id];
    var n := |Fired(s.log, id)|;
    && Sensible(r)
    && Fired(s.log, id) == FirstDues(r, n)
    && (!r.periodic ==> n <= 1)
    && (id in s.queue ==> Queued(s.queue[id], id, r, n))
    && (id !in s.queue && id !in s.removed ==> !r.periodic && n == 1)
    && (id in s.removed ==> ExactlyDue(r, s.cut[id], n))
  }

  ghost predicate Ordered(log: seq<Firing>) {
    forall i, j :: 0 <= i < j < |log| ==> log[i].due <= log[j].due
  }

  /** Nothing fired is due later than the last pass, or than anything queued. */
  ghost predicate LogOk(s: State) {
    && Ordered(s.log)
    && (forall f :: f in s.log ==> f.id in s.made && f.due <= s.passed)
    && (forall f, g :: f in s.log && g in s.queue ==> f.due <= s.queue[g].nextTime)
  }

  ghost predicate Inv(s: State) {
    && s.queue.Keys <= s.made.Keys
    && (forall id :: id in s.made ==> id < s.nextId)
    && s.removed == s.cut.Keys
    && (forall id :: id in s.cut ==> s.cut[id] <= s.passed)
    && (forall id :: id in s.made ==> TimerOk(s, id))
    && LogOk(s)
  }

  lemma FiredSnoc(log: seq<Firing>, f: Firing, id: nat)
    ensures Fired(log + [f], id) == Fired(log, id) + if f.id == id then [f.due] else []
  {
    assert (log + [f])[..|log|] == log;
  }

  lemma {:induction false} FiredNone(log: seq<Firing>, id: nat)
    requires forall f :: f in log ==> f.id != id
    ensures Fired(log, id) == []
  {
    if log != [] { FiredNone(log[..|log| - 1], id); }
  }

  lemma {:induction false} FiredBefore(log: seq<Firing>, id: nat, upto: int)
    requires forall f :: f in log ==> f.due <= upto
    ensures forall d :: d in Fired(log, id) ==> d <= upto
  {
    if log != [] { FiredBefore(log[..|log| - 1], id, upto); }
  }

  lemma OrderedSnoc(log: seq<Firing>, f: Firing)
    requires Ordered(log) && forall g :: g in log ==> g.due <= f.due
    ensures Ordered(log + [f])
  {
    forall i, j | 0 <= i < j < |log + [f]|
      ensures (log + [f])[i].due <= (log + [f])[j].due
    {
      if j == |log| { assert log[i] in log; }
    }
  }

  /** What is queued after a firing is due no earlier than what fired. */
  lemma FireQueueLater(s: State, id: nat)
    requires Inv(s) && Top(s, s.passed, id) && id !in s.removed
    ensures forall g :: g in Fire(s, id).queue ==> s.queue[id].nextTime <= Fire(s, id).queue[g].nextTime
  {
    assert TimerOk(s, id);
  }

  lemma FireLogOk(s: State, id: nat)
    requires Inv(s) && Top(s, s.passed, id) && id !in s.removed
    ensures LogOk(Fire(s, id))
  {
    var due, t := s.queue[id].nextTime, Fire(s, id);
    assert forall f :: f in s.log ==> f.due <= due;
    FireQueueLater(s, id);
    OrderedSnoc(s.log, Firing(id, due));
    assert forall f :: f in t.log ==> f in s.log || f == Firing(id, due);
  }

  lemma FireTimerOk(s: State, id: nat)
    requires Inv(s) && Top(s, s.passed, id) && id !in s.removed
    ensures TimerOk(Fire(s, id), id)
  {
    assert TimerOk(s, id);
    var r, n := s.made[id], |Fired(s.log, id)|;
    FiredSnoc(s.log, Firing(id, s.queue[id].nextTime), id);
    assert FirstDues(r, n + 1) == FirstDues(r, n) + [Due(r, n)];
    DueNext(r, n);
  }

  lemma FireKeeps(s: State, id: nat)
    requires Inv(s) && Top(s, s.passed, id)
    ensures Inv(Fire(s, id))
  {
    if id in s.removed {
      DropKeeps(s, id);
    } else {
      FireLogOk(s, id);
      FireTimersOk(s, id);
    }
  }

  lemma DropKeeps(s: State, id: nat)
    requires Inv(s) && Top(s, s.passed, id) && id in s.removed
    ensures Inv(Fire(s, id))
  {
    var t := Fire(s, id);
    forall g | g in t.made ensures TimerOk(t, g) { assert TimerOk(s, g); }
    assert t.queue.Keys <= s.queue.Keys;
  }

  lemma FireTimersOk(s: State, id: nat)
    requires Inv(s) && Top(s, s.passed, id) && id !in s.removed
    ensures forall g :: g in Fire(s, id).made ==> TimerOk(Fire(s, id), g)
  {
    var t := Fire(s, id);
    forall g | g in t.made
      ensures TimerOk(t, g)
    {
      if g == id {
        FireTimerOk(s, id);
      } else {
        assert TimerOk(s, g);
        FiredSnoc(s.log, Firing(id, s.queue[id].nextTime), g);
      }
    }
  }

  lemma CreateKeeps(s: State, now: int, wait: int, periodic: bool)
    requires Inv(s) && now >= s.passed && Sensible(Request(now, wait, periodic))
    ensures Inv(Create(s, now, wait, periodic))
  {
    var t := Create(s, now, wait, periodic);
    var id := s.nextId;
    FiredNone(s.log, id);
    assert FirstDues(t.made[id], 0) == [];
    forall g | g in t.made
      ensures TimerOk(t, g)
    {
      if g != id { assert TimerOk(s, g); }
    }
  }

  /** Between passes, a timer that was never removed has fired for every due instant so far. */
  lemma LiveExact(s: State, id: nat)
    requires Inv(s) && Idle(s, s.passed) && id in s.made && id !in s.removed
    ensures ExactlyDue(s.made[id], s.passed, |Fired(s.log, id)|)
  {
    assert TimerOk(s, id);
    var r, n := s.made[id], |Fired(s.log, id)|;
    FiredBefore(s.log, id, s.passed);
    forall k: nat | k < n
      ensures Due(r, k) <= s.passed
    {
      assert Fired(s.log, id)[k] == Due(r, k) && Fired(s.log, id)[k] in Fired(s.log, id);
    }
  }

  lemma RemoveKeeps(s: State, id: nat)
    requires Inv(s) && Idle(s, s.passed)
    ensures Inv(Remove(s, id))
  {
    var t := Remove(s, id);
    forall g | g in t.made
      ensures TimerOk(t, g)
    {
      assert TimerOk(s, g);
      if g !in s.removed { LiveExact(s, g); }
    }
  }

  lemma {:induction false} PathKeeps(path: seq<State>, now: int, i: nat)
    requires PopPath(path, now) && i < |path| && Inv(path[0]) && path[0].passed == now
    ensures Inv(path[i]) && path[i].passed == now
  {
    if i > 0 {
      PathKeeps(path, now, i - 1);
      assert Pop(path[i - 1], now, path[i]);
      var id :| Top(path[i - 1], now, id) && path[i] == Fire(path[i - 1], id);
      FireKeeps(path[i - 1], id);
    }
  }

  lemma BeginPassKeeps(s: State, now: int)
    requires Inv(s) && now >= s.passed
    ensures Inv(s.(passed := now))
  {
    var t := s.(passed := now);
    forall g | g in t.made ensures TimerOk(t, g) { assert TimerOk(s, g); }
  }

  // ---------------------------------------------------------------------------------------
  // Runs

  /** A pass at time now goes through the states of path, one firing or dropping at a time. */
  datatype Step =
    | CreateStep(now: int, wait: int, periodic: bool)
    | RemoveStep(id: nat)
    | PassStep(now: int, path: seq<State>)

  ghost predicate Next(s: State, step: Step, t: State) {
    match step
    case CreateStep(now, wait, periodic) =>
      now >= s.passed && Sensible(Request(now, wait, periodic)) && t == Create(s, now, wait, periodic)
    case RemoveStep(id) => t == Remove(s, id)
    case PassStep(now, path) =>
      && now >= s.passed
      && PopPath(path, now) && path[0] == s.(passed := now)
      && path[|path| - 1] == t && Idle(t, now)
  }

  ghost predicate Run(states: seq<State>, steps: seq<Step>, start: int) {
    && |states| == |steps| + 1 && states[0] == Start(start)
    && forall i :: 0 <= i < |steps| ==> Next(states[i], steps[i], states[i + 1])
  }

  lemma {:induction false} RunKeeps(states: seq<State>, steps: seq<Step>, start: int, i: nat)
    requires Run(states, steps, start) && i < |states|
    ensures Inv(states[i]) && Idle(states[i], states[i].passed)
  {
    if i > 0 {
      RunKeeps(states, steps, start, i - 1);
      var s := states[i - 1];
      assert Next(s, steps[i - 1], states[i]);
      match steps[i - 1] {
        case CreateStep(now, wait, periodic) => CreateKeeps(s, now, wait, periodic);
        case RemoveStep(id) => RemoveKeeps(s, id);
        case PassStep(now, path) =>
          BeginPassKeeps(s, now);
          PathKeeps(path, now, |path| - 1);
      }
    }
  }

  /** In every run, after every step: a timer has fired for exactly its due instants, in order and
      without drift, up to the last pass, or up to the last pass before it was removed; and
      firings never go back in due time. */
  lemma FiresExactlyWhenDue(states: seq<State>, steps: seq<Step>, start: int, i: nat, id: nat)
    requires Run(states, steps, start) && i < |states| && id in states[i].made
    ensures var s := states[i];
            var upto := if id in s.cut then s.cut[id] else s.passed;
            var n := |Fired(s.log, id)|;
            && Fired(s.log, id) == FirstDues(s.made[id], n)
            && ExactlyDue(s.made[id], upto, n)
            && Ordered(s.log)
  {
    RunKeeps(states, steps, start, i);
    var s := states[i];
    assert TimerOk(s, id);
    if id !in s.removed { LiveExact(s, id); }
  }

  lemma {:induction false} PathLeavesRemoved(path: seq<State>, now: int, id: nat, i: nat)
    requires PopPath(path, now) && i < |path| && id in path[0].removed
    ensures id in path[i].removed && Fired(path[i].log, id) == Fired(path[0].log, id)
  {
    if i > 0 {
      PathLeavesRemoved(path, now, id, i - 1);
      assert Pop(path[i - 1], now, path[i]);
      var g :| Top(path[i - 1], now, g) && path[i] == Fire(path[i - 1], g);
      FiredSnoc(path[i - 1].log, Firing(g, path[i - 1].queue[g].nextTime), id);
    }
  }

  /** A removed id never fires again, whether removed before or after its timer is made. */
  lemma {:induction false} RemovedNeverFires(states: seq<State>, steps: seq<Step>, start: int, i: nat, j: nat, id: nat)
    requires Run(states, steps, start) && i <= j < |states| && id in states[i].removed
    ensures id in states[j].removed && Fired(states[j].log, id) == Fired(states[i].log, id)
    decreases j
  {
    if i < j {
      RemovedNeverFires(states, steps, start, i, j - 1, id);
      assert Next(states[j - 1], steps[j - 1], states[j]);
      if steps[j - 1].PassStep? {
        var path := steps[j - 1].path;
        PathLeavesRemoved(path, steps[j - 1].now, id, |path| - 1);
      }
    }
  }

  // ---------------------------------------------------------------------------------------
  // What the calls of a run promise

  lemma PassKeepsRest(path: seq<State>, now: int, i: nat)
    requires PopPath(path, now) && i < |path|
    ensures path[i].made == path[0].made && path[i].removed == path[0].removed && path[i].cut == path[0].cut
    ensures path[i].nextId == path[0].nextId
  {
    if i > 0 {
      PassKeepsRest(path, now, i - 1);
      assert Pop(path[i - 1], now, path[i]);
    }
  }

  /** Nothing made or removed is forgotten. */
  lemma StepRemembers(s: State, step: Step, t: State)
    requires Next(s, step, t) && forall id :: id in s.made ==> id < s.nextId
    ensures forall id :: id in s.made ==> id in t.made && t.made[id] == s.made[id]
    ensures s.removed <= t.removed && s.nextId <= t.nextId
    ensures forall id :: id in s.cut ==> id in t.cut && t.cut[id] == s.cut[id]
    ensures forall id :: id in t.cut && id !in s.cut ==> step == RemoveStep(id)
  {
    if step.PassStep? { PassKeepsRest(step.path, step.now, |step.path| - 1); }
  }

  lemma {:induction false} RunRemembers(states: seq<State>, steps: seq<Step>, start: int, i: nat, j: nat, id: nat)
    requires Run(states, steps, start) && i <= j < |states|
    ensures id in states[i].made ==> id in states[j].made && states[j].made[id] == states[i].made[id]
    ensures id in states[i].removed ==> id in states[j].removed
    ensures id in states[j].cut && id !in states[i].cut ==>
              exists k :: i <= k < j && steps[k] == RemoveStep(id)
    decreases j - i
  {
    if i < j {
      RunRemembers(states, steps, start, i, j - 1, id);
      RunKeeps(states, steps, start, j - 1);
      assert Next(states[j - 1], steps[j - 1], states[j]);
      StepRemembers(states[j - 1], steps[j - 1], states[j]);
    }
  }

  /** The instant at which a timer asked for at time now is due for the n-th time. */
  function Asked(now: int, wait: int, n: nat): int {
    now + wait * MILLISECOND + MILLISECOND + n * (wait * MILLISECOND)
  }

  /** A timer asked for in step k, and removed in no step so far, has fired at exactly the instants
      asked for, up to the last pass: a periodic one for each, another once. */
  lemma FiresAsAsked(states: seq<State>, steps: seq<Step>, start: int, k: nat, j: nat,
                     now: int, wait: int, periodic: bool)
    requires Run(states, steps, start) && k < j < |states| && steps[k] == CreateStep(now, wait, periodic)
    requires forall m :: 0 <= m < j ==> steps[m] != RemoveStep(states[k].nextId)
    ensures var fired := Fired(states[j].log, states[k].nextId);
            && (forall n :: 0 <= n < |fired| ==> fired[n] == Asked(now, wait, n) <= states[j].passed)
            && (if periodic then Asked(now, wait, |fired|) > states[j].passed
                else |fired| == if Asked(now, wait, 0) <= states[j].passed then 1 else 0)
  {
    var id := states[k].nextId;
    assert Next(states[k], steps[k], states[k + 1]);
    RunRemembers(states, steps, start, k + 1, j, id);
    RunRemembers(states, steps, start, 0, j, id);
    FiresExactlyWhenDue(states, steps, start, j, id);
    var r := Request(now, wait, periodic);
    assert states[j].made[id] == r;
    assert forall n: nat {:trigger Asked(now, wait, n)} :: Asked(now, wait, n) == Due(r, n);
    assert forall n: nat {:trigger Due(r, n)} :: Asked(now, wait, n) == Due(r, n);
  }

  /** From the step that removes it on, a timer fires no more. */
  lemma RemovalStopsFiring(states: seq<State>, steps: seq<Step>, start: int, k: nat, j: nat, id: nat)
    requires Run(states, steps, start) && k < j < |states| && steps[k] == RemoveStep(id)
    ensures Fired(states[j].log, id) == Fired(states[k].log, id)
  {
    assert Next(states[k], steps[k], states[k + 1]);
    RemovedNeverFires(states, steps, start, k + 1, j, id);
  }
}
