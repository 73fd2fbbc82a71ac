/** The timer object of Core/Timer.cpp, its methods steps of the runs that keep the schedule. */
module TimerLoop {
  import opened Timers
  import S = Schedule

  predicate Distinct(ts: seq<Handler>) {
    forall i, j :: 0 <= i < j < |ts| ==> ts[i].id != ts[j].id
  }

  /** The queued timers by id. */
  ghost function ById(ts: seq<Handler>): map<nat, Handler>
    requires Distinct(ts)
  {
    map i | 0 <= i < |ts| :: ts[i].id := ts[i]
  }

  function Without(ts: seq<Handler>, i: nat): seq<Handler>
    requires i < |ts|
  {
    ts[..i] + ts[i + 1..]
  }

  lemma AtId(ts: seq<Handler>, i: nat)
    requires Distinct(ts) && i < |ts|
    ensures ts[i].id in ById(ts) && ById(ts)[ts[i].id] == ts[i]
  {
  }

  lemma IndexOf(ts: seq<Handler>, id: nat) returns (k: nat)
    requires Distinct(ts) && id in ById(ts)
    ensures k < |ts| && ts[k].id == id && ById(ts)[id] == ts[k]
  {
    k :| 0 <= k < |ts| && ts[k].id == id;
  }

  lemma WithoutDistinct(ts: seq<Handler>, i: nat)
    requires Distinct(ts) && i < |ts|
    ensures Distinct(Without(ts, i))
    ensures forall j :: 0 <= j < |ts| - 1 ==> Without(ts, i)[j] == ts[if j < i then j else j + 1]
  {
  }

  lemma WithoutById(ts: seq<Handler>, i: nat)
    requires Distinct(ts) && i < |ts|
    ensures Distinct(Without(ts, i)) && ById(Without(ts, i)) == ById(ts) - {ts[i].id}
  {
    WithoutDistinct(ts, i);
    var rest, less := Without(ts, i), ById(ts) - {ts[i].id};
    forall id | id in less
      ensures id in ById(rest) && ById(rest)[id] == less[id]
    {
      KeptById(ts, i, id);
    }
    forall id | id in ById(rest)
      ensures id in less
    {
      var j := IndexOf(rest, id);
      AtId(ts, if j < i then j else j + 1);
    }
  }

  lemma KeptById(ts: seq<Handler>, i: nat, id: nat)
    requires Distinct(ts) && i < |ts| && Distinct(Without(ts, i)) && id in ById(ts) && id != ts[i].id
    ensures id in ById(Without(ts, i)) && ById(Without(ts, i))[id] == ById(ts)[id]
  {
    var rest := Without(ts, i);
    var k := IndexOf(ts, id);
    var j := if k < i then k else k - 1;
    assert rest[j] == ts[k];
    AtId(rest, j);
  }

  lemma FreshId(ts: seq<Handler>, id: nat)
    requires Distinct(ts) && forall h :: h in ts ==> h.id < id
    ensures id !in ById(ts)
  {
    forall i | 0 <= i < |ts| ensures ts[i].id != id { assert ts[i] in ts; }
  }

  lemma PushById(ts: seq<Handler>, h: Handler)
    requires Distinct(ts) && h.id !in ById(ts)
    ensures Distinct(ts + [h]) && ById(ts + [h]) == ById(ts)[h.id := h]
  {
    var all := ts + [h];
    forall i, j | 0 <= i < j < |all|
      ensures all[i].id != all[j].id
    {
      if j == |ts| { assert ts[i].id in ById(ts); }
    }
    forall id | id in ById(ts)[h.id := h]
      ensures id in ById(all) && ById(all)[id] == ById(ts)[h.id := h][id]
    {
      if id == h.id {
        assert all[|ts|].id == id;
      } else {
        var k :| 0 <= k < |ts| && ts[k].id == id;
        assert all[k] == ts[k];
      }
    }
    forall id | id in ById(all)
      ensures id in ById(ts)[h.id := h]
    {
      var k :| 0 <= k < |all| && all[k].id == id;
      if k < |ts| { assert ts[k].id == id; }
    }
  }

  lemma PutBack(m: map<nat, Handler>, id: nat, h: Handler)
    ensures (m - {id})[id := h] == m[id := h]
  {
  }

  class Timer {
    var timers: seq<Handler>
    var removedTimerID: set<nat>
    var nextID: nat
    /** What the executor was given, and the history the schedule speaks of. */
    ghost var log: seq<Firing>
    ghost var made: map<nat, Request>
    ghost var cut: map<nat, int>
    ghost var passed: int

    /** Each id is queued at most once. */
    ghost predicate Valid()
      reads this
    {
      Distinct(timers) && forall h :: h in timers ==> h.id < nextID
    }

    ghost function View(): State
      requires Valid()
      reads this
    {
      State(ById(timers), removedTimerID, nextID, log, made, cut, passed)
    }

    constructor (now: int)
      ensures Valid() && View() == Start(now)
    {
      timers, removedTimerID, nextID := [], {}, 1;
      log, made, cut, passed := [], map[], map[], now;
    }

    /** Handler::create_timer. */
    static method NewHandler(id: nat, now: int, waitTime: int, isPeriodic: bool) returns (handler: Handler)
      ensures handler == CreateHandler(id, now, waitTime, isPeriodic)
      ensures handler == Handler(id, now, now + waitTime * MILLISECOND + MILLISECOND, waitTime, isPeriodic)
    {
      handler := Handler(id, now, now + (waitTime + 1) * MILLISECOND, waitTime, isPeriodic);
    }

    method CreateTimer(now: int, waitTime: int, isPeriodic: bool) returns (id: nat)
      requires Valid()
      modifies this
      ensures Valid() && View() == Create(old(View()), now, waitTime, isPeriodic)
      ensures id == old(nextID) && nextID == old(nextID) + 1
      ensures timers == old(timers)
                        + [Handler(id, now, now + waitTime * MILLISECOND + MILLISECOND, waitTime, isPeriodic)]
      ensures made == old(made)[id := Request(now, waitTime, isPeriodic)]
      ensures removedTimerID == old(removedTimerID) && log == old(log)
      ensures now >= old(passed) && waitTime >= 0 && (isPeriodic ==> waitTime > 0) ==>
                S.Next(old(View()), S.CreateStep(now, waitTime, isPeriodic), View())
    {
      id := nextID;
      FreshId(timers, id);
      var handler := NewHandler(id, now, waitTime, isPeriodic);
      PushById(timers, handler);
      timers := timers + [handler];
      nextID := nextID + 1;
      made := made[id := Request(now, waitTime, isPeriodic)];
    }

    method RemoveTimer(id: nat)
      requires Valid()
      modifies this
      ensures Valid() && View() == Remove(old(View()), id)
      ensures removedTimerID == old(removedTimerID) + {id}
      ensures timers == old(timers) && nextID == old(nextID) && log == old(log) && made == old(made)
      ensures S.Next(old(View()), S.RemoveStep(id), View())
    {
      removedTimerID := removedTimerID + {id};
      if id !in cut {
        cut := cut[id := passed];
      }
    }

    /** A timer that comes first in the queue's order; which one of several is left open. */
    method TopIndex() returns (top: nat)
      requires timers != []
      ensures top < |timers|
      ensures forall i :: 0 <= i < |timers| ==> timers[top].nextTime <= timers[i].nextTime
    {
      top := 0;
      var i := 1;
      while i < |timers|
        invariant 1 <= i <= |timers| && top < i
        invariant forall j :: 0 <= j < i ==> timers[top].nextTime <= timers[j].nextTime
      {
        if timers[i].nextTime < timers[top].nextTime { top := i; }
        i := i + 1;
      }
    }

    /** top followed by pop. */
    method TakeTop(top: nat) returns (timer: Handler)
      requires Valid() && top < |timers|
      modifies this`timers
      ensures Valid() && timer == old(timers[top])
      ensures timer.id < nextID && timer.id in old(View()).queue && old(View()).queue[timer.id] == timer
      ensures View() == old(View()).(queue := old(View()).queue - {timer.id})
    {
      timer := timers[top];
      assert timer in timers;
      WithoutById(timers, top);
      AtId(timers, top);
      assert forall h :: h in Without(timers, top) ==> h in timers;
      timers := Without(timers, top);
    }

    method Push(handler: Handler)
      requires Valid() && handler.id !in View().queue && handler.id < nextID
      modifies this`timers
      ensures Valid() && View() == old(View()).(queue := old(View()).queue[handler.id := handler])
      ensures timers == old(timers) + [handler]
    {
      PushById(timers, handler);
      timers := timers + [handler];
    }

    lemma TopIsTop(now: int, top: nat)
      requires Valid() && top < |timers| && timers[top].nextTime <= now
      requires forall i :: 0 <= i < |timers| ==> timers[top].nextTime <= timers[i].nextTime
      ensures Top(View(), now, timers[top].id)
    {
      AtId(timers, top);
      forall g | g in View().queue
        ensures timers[top].nextTime <= View().queue[g].nextTime
      {
        var k := IndexOf(timers, g);
      }
    }

    /** One turn of the inner loop for the timer at index top. */
    method FireTop(now: int, top: nat)
      requires Valid() && top < |timers| && timers[top].nextTime <= now
      requires forall i :: 0 <= i < |timers| ==> timers[top].nextTime <= timers[i].nextTime
      modifies this
      ensures Valid() && Top(old(View()), now, old(timers[top].id))
      ensures View() == Fire(old(View()), old(timers[top].id))
      ensures var timer := old(timers[top]);
              log == if timer.id in old(removedTimerID) then old(log) else old(log) + [Firing(timer.id, timer.nextTime)]
      ensures removedTimerID == old(removedTimerID) && made == old(made)
    {
      TopIsTop(now, top);
      ghost var before := View().queue;
      var timer := TakeTop(top);
      if timer.id !in removedTimerID {
        log := log + [Firing(timer.id, timer.nextTime)];
        if timer.isPeriodic {
          timer := UpdateHandler(timer);
          Push(timer);
          PutBack(before, timer.id, timer);
        }
      }
    }

    /** One pass of run under the lock.  It is only entered when it ends. */
    method RunPass(now: int) returns (ghost path: seq<State>)
      requires Valid() && !Spins(View().(passed := now), now)
      modifies this
      ensures Valid() && PopPath(path, now)
      ensures path[0] == old(View()).(passed := now) && path[|path| - 1] == View()
      ensures Idle(View(), now) && forall h :: h in timers ==> h.nextTime > now
      ensures now >= old(passed) ==> S.Next(old(View()), S.PassStep(now, path), View())
    {
      passed := now;
      path := [View()];
      while timers != []
        invariant Valid() && PopPath(path, now) && !Spins(View(), now)
        invariant path[0] == old(View()).(passed := now) && path[|path| - 1] == View()
        decreases Measure(View().queue, now)
      {
        var top := TopIndex();
        if timers[top].nextTime > now {
          break;
        }
        ghost var s := View();
        ghost var id := timers[top].id;
        FireTop(now, top);
        assert !SpinsAt(s, now, id);
        FireDecreases(s, now, id);
        FireKeepsCalm(s, now, id);
        LongerPath(path, now, View());
        path := path + [View()];
      }
      AllLater(now);
    }

    lemma AllLater(now: int)
      requires Valid() && Idle(View(), now)
      ensures forall h :: h in timers ==> h.nextTime > now
    {
      forall h | h in timers ensures h.nextTime > now {
        var i :| 0 <= i < |timers| && timers[i] == h;
        AtId(timers, i);
      }
    }
  }

  lemma LongerPath(path: seq<State>, now: int, t: State)
    requires PopPath(path, now) && Pop(path[|path| - 1], now, t)
    ensures PopPath(path + [t], now)
  {
    var longer := path + [t];
    forall i | 0 <= i < |longer| - 1
      ensures Pop(longer[i], now, longer[i + 1])
    {
      if i < |path| - 1 { assert Pop(path[i], now, path[i + 1]); }
    }
  }
}
