/** The eviction of silent clients under the timers that drive it: the client's heartbeat timer
    (RPC/Rpc_Client.cpp) and the server's check timer (RPC/Rpc_Server.cpp), both as Core/Timer.cpp
    fires them. */
module Eviction {
  import H = Heartbeat
  import S = Schedule
  import T = Timers

  /** In milliseconds, as timers are asked for. */
  const HEARTBEAT_REPEAT: int := 5_000
  const CHECK_REPEAT: int := 15_000

  // ---------------------------------------------------------------------------------------
  // A timer that keeps its schedule

  function Period(r: T.Request): int { r.wait * T.MILLISECOND }

  /** In the state a run of timers has come to, id is a periodic timer never removed. */
  ghost predicate Ticking(timers: seq<T.State>, steps: seq<S.Step>, start: int, id: nat, r: T.Request) {
    && S.Run(timers, steps, start)
    && var s := timers[|steps|];
       id in s.made && s.made[id] == r && id !in s.cut && r.periodic && r.wait > 0
  }

  lemma {:induction false} DueMonotone(r: T.Request, m: nat, n: nat)
    requires r.wait > 0 && m <= n
    ensures T.Due(r, m) <= T.Due(r, n)
    decreases n
  {
    if m < n {
      DueMonotone(r, m, n - 1);
      S.DueNext(r, n - 1);
    }
  }

  /** The first due instant after a time; it comes within a period, unless it is the very first. */
  lemma NextDue(r: T.Request, time: int) returns (k: nat)
    requires r.wait > 0
    ensures T.Due(r, k) > time && (k == 0 || T.Due(r, k) <= time + Period(r))
  {
    k := 0;
    while T.Due(r, k) <= time
      invariant k == 0 || T.Due(r, k) <= time + Period(r)
      decreases time - T.Due(r, k)
    {
      S.DueNext(r, k);
      k := k + 1;
    }
  }

  lemma {:induction false} FiredMember(log: seq<T.Firing>, id: nat, due: int)
    requires due in S.Fired(log, id)
    ensures T.Firing(id, due) in log
  {
    var n := |log| - 1;
    if due in S.Fired(log[..n], id) {
      FiredMember(log[..n], id, due);
    } else {
      assert log[n] in log;
    }
  }

  /** Every due instant up to the last pass has fired. */
  lemma DueFired(timers: seq<T.State>, steps: seq<S.Step>, start: int, id: nat, r: T.Request, k: nat)
    requires Ticking(timers, steps, start, id, r) && T.Due(r, k) <= timers[|steps|].passed
    ensures T.Firing(id, T.Due(r, k)) in timers[|steps|].log
  {
    var s := timers[|steps|];
    S.FiresExactlyWhenDue(timers, steps, start, |steps|, id);
    var n := |S.Fired(s.log, id)|;
    if n <= k { DueMonotone(r, n, k); }
    assert S.Fired(s.log, id)[k] == T.Due(r, k);
    FiredMember(s.log, id, T.Due(r, k));
  }

  // ---------------------------------------------------------------------------------------
  // A client whose heartbeats are served in time

  /** Event k serves what fell due at that time, or ends the connection, at most lag later. */
  predicate ServedAt(events: seq<H.Event>, fd: int, k: nat, due: int, lag: int) {
    && k < |events| && events[k].time <= due + lag
    && ((H.Heard(events, fd, k) && due <= events[k].time) || events[k] == H.Close(fd, events[k].time))
  }

  /** Every heartbeat fired after the client connected at event c is served so, if the run lasts
      that long. */
  ghost predicate BeatsServed(events: seq<H.Event>, fd: int, c: nat, log: seq<T.Firing>, id: nat, lag: int)
    requires c < |events|
  {
    forall f :: f in log && f.id == id && events[c].time < f.due && f.due + lag < events[|events| - 1].time ==>
      exists k: nat :: ServedAt(events, fd, k, f.due, lag)
  }

  /** The client connects once, at event c, and is not heard of after it has left. */
  ghost predicate OneConnection(events: seq<H.Event>, fd: int, c: nat) {
    && c < |events| && events[c] == H.Connect(fd, events[c].time)
    && (forall i: nat :: H.Heard(events, fd, i) ==> c <= i)
    && (forall i: nat, k: nat :: H.Heard(events, fd, i) && k < |events| && events[k] == H.Close(fd, events[k].time)
          ==> i < k)
  }

  /** After each event that was heard, the next heartbeat falls due, fires and is served before the
      timeout has passed. */
  lemma BeatInTime(events: seq<H.Event>, fd: int, c: nat, i: nat, j: nat,
                   timers: seq<T.State>, steps: seq<S.Step>, start: int, id: nat, r: T.Request, lag: int)
    returns (k: nat)
    requires Ticking(timers, steps, start, id, r) && lag >= 0
    requires forall a, b :: 0 <= a < b < |events| ==> events[a].time <= events[b].time
    requires OneConnection(events, fd, c) && BeatsServed(events, fd, c, timers[|steps|].log, id, lag)
    requires Period(r) + lag <= H.HEARTBEAT_TIMEOUT
    requires T.Due(r, 0) + lag <= events[c].time + H.HEARTBEAT_TIMEOUT
    requires timers[|steps|].passed >= events[|events| - 1].time
    requires i < j < |events| && H.Heard(events, fd, i)
    requires events[j].time - events[i].time > H.HEARTBEAT_TIMEOUT
    ensures i < k < j && H.HeardOrClosed(events, fd, k)
    ensures events[k].time - events[i].time <= H.HEARTBEAT_TIMEOUT
  {
    var n := NextDue(r, events[i].time);
    var due := T.Due(r, n);
    assert due + lag <= events[i].time + H.HEARTBEAT_TIMEOUT;
    DueFired(timers, steps, start, id, r, n);
    assert T.Firing(id, due) in timers[|steps|].log;
    k :| ServedAt(events, fd, k, due, lag);
  }

  /** So a client whose heartbeat timer keeps firing, and whose heartbeats are each served within
      lag of falling due, is never returned for closing, if period and lag come to at most the
      timeout and the first heartbeat does not come too late for the connection. */
  lemma BeatingStays(events: seq<H.Event>, states: seq<map<int, int>>, fd: int, c: nat,
                     timers: seq<T.State>, steps: seq<S.Step>, start: int, id: nat, r: T.Request, lag: int, j: nat)
    requires H.Run(events, states) && Ticking(timers, steps, start, id, r) && lag >= 0
    requires OneConnection(events, fd, c) && BeatsServed(events, fd, c, timers[|steps|].log, id, lag)
    requires Period(r) + lag <= H.HEARTBEAT_TIMEOUT
    requires T.Due(r, 0) + lag <= events[c].time + H.HEARTBEAT_TIMEOUT
    requires timers[|steps|].passed >= events[|events| - 1].time
    ensures !H.Evicted(events, states, fd, j)
  {
    forall i: nat, m: nat | i < m < |events| && H.Heard(events, fd, i)
                            && events[m].time - events[i].time > H.HEARTBEAT_TIMEOUT
      ensures exists k: nat :: i < k < m && H.HeardOrClosed(events, fd, k)
                               && events[k].time - events[i].time <= H.HEARTBEAT_TIMEOUT
    {
      var k := BeatInTime(events, fd, c, i, m, timers, steps, start, id, r, lag);
    }
    H.PunctualStays(events, states, fd, j);
  }

  /** The program's client sets a timer of five seconds before it connects: it stays if every
      heartbeat is served a millisecond less than ten seconds after falling due. */
  lemma FiveSecondBeatsStay(events: seq<H.Event>, states: seq<map<int, int>>, fd: int, c: nat, timers: seq<T.State>,
                            steps: seq<S.Step>, start: int, id: nat, r: T.Request, j: nat)
    requires H.Run(events, states) && Ticking(timers, steps, start, id, r)
    requires r.wait == HEARTBEAT_REPEAT && OneConnection(events, fd, c) && r.created <= events[c].time
    requires BeatsServed(events, fd, c, timers[|steps|].log, id, 10 * H.SECOND - T.MILLISECOND)
    requires timers[|steps|].passed >= events[|events| - 1].time
    ensures !H.Evicted(events, states, fd, j)
  {
    BeatingStays(events, states, fd, c, timers, steps, start, id, r, 10 * H.SECOND - T.MILLISECOND, j);
  }

  // ---------------------------------------------------------------------------------------
  // A client that falls silent, under a check timer that may be late

  ghost predicate ChecksFollow(events: seq<H.Event>, log: seq<T.Firing>, id: nat, lag: int)
    requires events != []
  {
    forall f :: f in log && f.id == id && f.due + lag <= events[|events| - 1].time ==>
      exists k: nat :: CheckedBy(events, k, f.due, lag)
  }

  predicate CheckedBy(events: seq<H.Event>, k: nat, due: int, lag: int) {
    k < |events| && events[k].Check? && due <= events[k].time <= due + lag
  }

  /** By a check at which a client would be returned, it is. */
  lemma FirstEviction(events: seq<H.Event>, states: seq<map<int, int>>, fd: int, i: nat, c: nat) returns (j: nat)
    requires H.Run(events, states) && H.Heard(events, fd, i) && H.SilentAfter(events, fd, i)
    requires i < c < |events| && events[c].Check? && events[c].time > events[i].time + H.HEARTBEAT_TIMEOUT
    ensures i < j <= c && H.Evicted(events, states, fd, j)
  {
    j := i + 1;
    while j < c && !H.Evicted(events, states, fd, j)
      invariant i < j <= c
      invariant forall k :: i < k < j ==> !H.Evicted(events, states, fd, k)
    {
      j := j + 1;
    }
    H.SilentKept(events, states, fd, i, j);
  }

  /** Under a check timer of any period, each of whose firings is followed by its check within lag,
      a client that falls silent is returned for closing within timeout, period and lag. */
  lemma SilentEvictedLate(events: seq<H.Event>, states: seq<map<int, int>>, fd: int, i: nat,
                          timers: seq<T.State>, steps: seq<S.Step>, start: int, id: nat, r: T.Request, lag: int)
    returns (j: nat)
    requires H.Run(events, states) && Ticking(timers, steps, start, id, r) && lag >= 0
    requires H.Heard(events, fd, i) && H.SilentAfter(events, fd, i)
    requires ChecksFollow(events, timers[|steps|].log, id, lag)
    requires timers[|steps|].passed >= events[|events| - 1].time
    requires var last := events[i].time + H.HEARTBEAT_TIMEOUT + Period(r);
             T.Due(r, 0) <= last && last + lag <= events[|events| - 1].time
    ensures i < j && H.Evicted(events, states, fd, j)
    ensures events[j].time <= events[i].time + H.HEARTBEAT_TIMEOUT + Period(r) + lag
  {
    var silent := events[i].time + H.HEARTBEAT_TIMEOUT;
    var n := NextDue(r, silent);
    DueFired(timers, steps, start, id, r, n);
    assert T.Firing(id, T.Due(r, n)) in timers[|steps|].log;
    var c: nat :| CheckedBy(events, c, T.Due(r, n), lag);
    assert c > i;
    j := FirstEviction(events, states, fd, i, c);
  }

  /** The program's checks come every fifteen seconds from when the server was built: thirty seconds
      and the lag, for every client it ever heard of. */
  lemma FifteenSecondChecksEvict(events: seq<H.Event>, states: seq<map<int, int>>, fd: int, i: nat,
                                 timers: seq<T.State>, steps: seq<S.Step>, start: int, id: nat, r: T.Request,
                                 lag: int)
    returns (j: nat)
    requires H.Run(events, states) && Ticking(timers, steps, start, id, r) && lag >= 0
    requires H.Heard(events, fd, i) && H.SilentAfter(events, fd, i)
    requires r.wait == CHECK_REPEAT && r.created <= events[i].time
    requires ChecksFollow(events, timers[|steps|].log, id, lag)
    requires timers[|steps|].passed >= events[|events| - 1].time >= events[i].time + 30 * H.SECOND + lag
    ensures i < j && H.Evicted(events, states, fd, j)
    ensures events[j].time <= events[i].time + 30 * H.SECOND + lag
  {
    j := SilentEvictedLate(events, states, fd, i, timers, steps, start, id, r, lag);
  }
}
