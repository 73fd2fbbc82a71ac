/** Core/Timer.cpp: a priority queue of timers, a set of cancelled ids, and the loop that fires
    what is due.  Times are in nanoseconds, waits in milliseconds. */
module Timers {

  const MILLISECOND: int := 1_000_000

  datatype Handler = Handler(id: nat, lastTime: int, nextTime: int, waitTime: int, isPeriodic: bool)

  function CreateHandler(id: nat, createTime: int, waitTime: int, isPeriodic: bool): Handler {
    Handler(id, createTime, createTime + (waitTime + 1) * MILLISECOND, waitTime, isPeriodic)
  }

  function UpdateHandler(h: Handler): Handler {
    h.(lastTime := h.nextTime, nextTime := h.nextTime + h.waitTime * MILLISECOND)
  }

  datatype Firing = Firing(id: nat, due: int)

  /** How a timer was asked for. */
  datatype Request = Request(created: int, wait: int, periodic: bool)

  /** The k-th instant at which the timer is due. */
  function Due(r: Request, k: nat): int {
    r.created + (r.wait + 1) * MILLISECOND + k * (r.wait * MILLISECOND)
  }

  /** queue and removed are the timer's own; the rest is history: firings in order, every timer
      asked for, for each removed id the time of the last pass before its removal, and the time
      of the last pass. */
  datatype State = State(
    queue: map<nat, Handler>,
    removed: set<nat>,
    nextId: nat,
    log: seq<Firing>,
    made: map<nat, Request>,
    cut: map<nat, int>,
    passed: int)

  function Start(now: int): State {
    State(map[], {}, 1, [], map[], map[], now)
  }

  function Create(s: State, now: int, wait: int, periodic: bool): State {
    s.(queue := s.queue[s.nextId := CreateHandler(s.nextId, now, wait, periodic)],
       made := s.made[s.nextId := Request(now, wait, periodic)],
       nextId := s.nextId + 1)
  }

  function Remove(s: State, id: nat): State {
    s.(removed := s.removed + {id}, cut := if id in s.cut then s.cut else s.cut[id := s.passed])
  }

  /** id is at the top of the queue and due. */
  ghost predicate Top(s: State, now: int, id: nat) {
    && id in s.queue && s.queue[id].nextTime <= now
    && forall g :: g in s.queue ==> s.queue[id].nextTime <= s.queue[g].nextTime
  }

  /** One turn of the inner loop. */
  function Fire(s: State, id: nat): State
    requires id in s.queue
  {
    var h := s.queue[id];
    if id in s.removed then s.(queue := s.queue - {id})
    else s.(queue := if h.isPeriodic then s.queue[id := UpdateHandler(h)] else s.queue - {id},
            log := s.log + [Firing(id, h.nextTime)])
  }

  ghost predicate Pop(s: State, now: int, t: State) {
    exists id :: Top(s, now, id) && t == Fire(s, id)
  }

  ghost predicate PopPath(path: seq<State>, now: int) {
    path != [] && forall i :: 0 <= i < |path| - 1 ==> Pop(path[i], now, path[i + 1])
  }

  predicate Idle(s: State, now: int) {
    forall g :: g in s.queue ==> s.queue[g].nextTime > now
  }

  // ---------------------------------------------------------------------------------------
  // Termination of the inner loop

  /** Due instants from next on, period apart, up to now. */
  function Instants(next: int, period: int, now: int): nat
    requires period > 0
    decreases now - next
  {
    if next > now then 0 else 1 + Instants(next + period, period, now)
  }

  /** Due instants of a queued timer up to now; a timer without a positive wait counts once. */
  function Remaining(h: Handler, now: int): nat {
    if h.nextTime > now then 0
    else if h.isPeriodic && h.waitTime > 0 then Instants(h.nextTime, h.waitTime * MILLISECOND, now)
    else 1
  }

  ghost function Pick(m: map<nat, nat>): (k: nat)
    requires |m| > 0
    ensures k in m
  {
    HasKey(m);
    var k :| k in m;
    k
  }

  ghost function Total(m: map<nat, nat>): nat
    decreases |m|
  {
    if |m| == 0 then 0
    else
      var k := Pick(m);
      SmallerWithout(m, k);
      m[k] + Total(m - {k})
  }

  lemma SmallerWithout<V>(q: map<nat, V>, k: nat)
    requires k in q
    ensures |q - {k}| == |q| - 1
  {
    assert (q - {k}).Keys == q.Keys - {k};
    assert |q - {k}| == |(q - {k}).Keys|;
    assert |q| == |q.Keys|;
  }

  lemma HasKey<V>(q: map<nat, V>)
    requires |q| > 0
    ensures exists k :: k in q
  {
    if !exists k :: k in q {
    }
  }

  lemma {:induction false} TotalWithout(m: map<nat, nat>, k: nat)
    requires k in m
    ensures Total(m) == m[k] + Total(m - {k})
    decreases |m|
  {
    SmallerWithout(m, k);
    var c := Pick(m);
    if c != k {
      SmallerWithout(m, c);
      var noC, noK := m - {c}, m - {k};
      TotalWithout(noC, k);
      TotalWithout(noK, c);
      assert noC - {k} == noK - {c};
    }
  }

  /** The due instants still to come up to now, over all queued timers. */
  ghost function Measure(q: map<nat, Handler>, now: int): nat {
    Total(Weights(q, now))
  }

  function Weights(q: map<nat, Handler>, now: int): map<nat, nat> {
    map k | k in q :: Remaining(q[k], now)
  }

  lemma MeasureWithout(q: map<nat, Handler>, now: int, k: nat)
    requires k in q
    ensures Measure(q, now) == Remaining(q[k], now) + Measure(q - {k}, now)
  {
    TotalWithout(Weights(q, now), k);
    assert Weights(q - {k}, now) == Weights(q, now) - {k};
  }

  lemma MeasureWith(q: map<nat, Handler>, now: int, k: nat, h: Handler)
    requires k in q
    ensures Measure(q[k := h], now) == Measure(q, now) - Remaining(q[k], now) + Remaining(h, now)
  {
    MeasureWithout(q, now, k);
    MeasureWithout(q[k := h], now, k);
    assert q[k := h] - {k} == q - {k};
  }

  /** A periodic timer that is due, not removed, and never gets past now. */
  ghost predicate Spins(s: State, now: int) {
    exists id :: SpinsAt(s, now, id)
  }

  predicate SpinsAt(s: State, now: int, id: nat) {
    && id in s.queue && id !in s.removed
    && s.queue[id].isPeriodic && s.queue[id].waitTime <= 0 && s.queue[id].nextTime <= now
  }

  lemma NextRemaining(h: Handler, now: int)
    requires h.isPeriodic && h.waitTime > 0 && h.nextTime <= now
    ensures Remaining(UpdateHandler(h), now) == Remaining(h, now) - 1
  {
    var p := h.waitTime * MILLISECOND;
    assert Instants(h.nextTime, p, now) == 1 + Instants(h.nextTime + p, p, now);
  }

  lemma FireDecreases(s: State, now: int, id: nat)
    requires Top(s, now, id) && !SpinsAt(s, now, id)
    ensures Measure(Fire(s, id).queue, now) < Measure(s.queue, now)
  {
    var h := s.queue[id];
    if id !in s.removed && h.isPeriodic {
      MeasureWith(s.queue, now, id, UpdateHandler(h));
      NextRemaining(h, now);
    } else {
      MeasureWithout(s.queue, now, id);
    }
  }

  /** Firing starts no spinning timer. */
  lemma FireKeepsCalm(s: State, now: int, id: nat)
    requires Top(s, now, id) && !Spins(s, now)
    ensures !Spins(Fire(s, id), now)
  {
    var t := Fire(s, id);
    forall g
      ensures !SpinsAt(t, now, g)
    {
      assert !SpinsAt(s, now, g);
    }
  }

  lemma FireKeepsSpinning(s: State, now: int, id: nat)
    requires Top(s, now, id) && Spins(s, now)
    ensures Spins(Fire(s, id), now)
  {
    var g :| SpinsAt(s, now, g);
    assert SpinsAt(Fire(s, id), now, g);
  }

  lemma {:induction false} SomeTop(s: State, q: map<nat, Handler>) returns (id: nat)
    requires q.Keys <= s.queue.Keys && |q| > 0
    requires forall g :: g in q ==> q[g] == s.queue[g]
    ensures id in q && forall g :: g in q ==> q[id].nextTime <= q[g].nextTime
    decreases |q|
  {
    HasKey(q);
    var k :| k in q;
    SmallerWithout(q, k);
    id := k;
    if |q - {k}| > 0 {
      var other := SomeTop(s, q - {k});
      if q[other].nextTime < q[k].nextTime { id := other; }
      assert forall g :: g in q && g != k ==> g in q - {k};
    } else {
      assert forall g :: g in q && g != k ==> g in q - {k};
    }
  }

  lemma {:induction false} PopsBounded(path: seq<State>, now: int)
    requires PopPath(path, now) && !Spins(path[0], now)
    ensures |path| - 1 <= Measure(path[0].queue, now)
  {
    if |path| > 1 {
      assert Pop(path[0], now, path[1]);
      var id :| Top(path[0], now, id) && path[1] == Fire(path[0], id);
      FireDecreases(path[0], now, id);
      FireKeepsCalm(path[0], now, id);
      var rest := path[1..];
      assert PopPath(rest, now) by {
        forall i | 0 <= i < |rest| - 1 ensures Pop(rest[i], now, rest[i + 1]) {
          assert Pop(path[i + 1], now, path[i + 2]);
        }
      }
      PopsBounded(rest, now);
    }
  }

  lemma {:induction false} PopsForever(s: State, now: int, n: nat) returns (path: seq<State>)
    requires Spins(s, now)
    ensures PopPath(path, now) && path[0] == s && |path| == n + 1 && Spins(path[n], now)
  {
    if n == 0 {
      path := [s];
    } else {
      path := PopsForever(s, now, n - 1);
      var last := path[n - 1];
      var g :| SpinsAt(last, now, g);
      assert |last.queue| > 0;
      var id := SomeTop(last, last.queue);
      assert Top(last, now, id);
      FireKeepsSpinning(last, now, id);
      var next := Fire(last, id);
      assert Pop(last, now, next);
      var longer := path + [next];
      forall i | 0 <= i < |longer| - 1 ensures Pop(longer[i], now, longer[i + 1]) {
        if i < n - 1 { assert Pop(path[i], now, path[i + 1]); }
      }
      path := longer;
    }
  }

  ghost predicate EndsWithin(s: State, now: int, bound: nat) {
    forall path :: PopPath(path, now) && path[0] == s ==> |path| <= bound
  }

  /** The inner loop ends, whichever of several top timers it takes, exactly when no queued timer
      that is due, periodic and not removed has a wait of zero or less. */
  lemma PassEndsIff(s: State, now: int)
    ensures (exists bound: nat :: EndsWithin(s, now, bound)) <==> !Spins(s, now)
  {
    if Spins(s, now) {
      forall bound: nat
        ensures !EndsWithin(s, now, bound)
      {
        var path := PopsForever(s, now, bound);
      }
    } else {
      var bound := Measure(s.queue, now) + 1;
      forall path | PopPath(path, now) && path[0] == s
        ensures |path| <= bound
      {
        PopsBounded(path, now);
      }
      assert EndsWithin(s, now, bound);
    }
  }
}
