/** RPC/Rpc_User.cpp, RPC/Rpc_User_Manager.cpp, the eviction timer of RPC/Rpc_Server.cpp and the
    connection tables of Core/Tcp_Server.cpp: silent clients are closed, others are not. */
module Heartbeat {

  const SECOND: int := 1_000_000_000
  const HEARTBEAT_TIMEOUT: int := 15 * SECOND

  /** is_active, for a user last heard of at last. */
  predicate Active(last: int, now: int) {
    now - last <= HEARTBEAT_TIMEOUT
  }

  // ---------------------------------------------------------------------------------------
  // The objects

  class RpcUser {
    const fd: int
    var lastUpdateTime: int

    constructor (fd: int)
      ensures this.fd == fd
    {
      this.fd := fd;
      lastUpdateTime := 0;
    }

    method UpdateHeartbeat(now: int)
      modifies this
      ensures lastUpdateTime == now
    {
      lastUpdateTime := now;
    }

    method IsActive(now: int) returns (b: bool)
      ensures b == Active(lastUpdateTime, now)
    {
      b := now - lastUpdateTime <= HEARTBEAT_TIMEOUT;
    }
  }

  lemma HasMember(s: set<int>)
    requires s != {}
    ensures exists x :: x in s
  {
    if !exists x :: x in s {
    }
  }

  ghost predicate Distinct(fds: seq<int>) {
    forall i, j :: 0 <= i < j < |fds| ==> fds[i] != fds[j]
  }

  /** The users looked at, in order, and among them those found silent, each at its own reading of
      the clock. */
  ghost predicate Listing(seen: map<int, int>, clock: nat -> int, ret: seq<int>, order: seq<int>) {
    && Distinct(order) && (forall fd :: fd in ret ==> fd in order)
    && forall k :: 0 <= k < |order| ==> order[k] in seen && (order[k] in ret <==> !Active(seen[order[k]], clock(k)))
  }

  ghost predicate Complete(seen: map<int, int>, order: seq<int>) {
    forall fd :: fd in seen ==> fd in order
  }

  lemma ListingNext(seen: map<int, int>, clock: nat -> int, ret: seq<int>, order: seq<int>, fd: int)
    requires Listing(seen, clock, ret, order) && fd in seen && fd !in order
    ensures Listing(seen, clock, if Active(seen[fd], clock(|order|)) then ret else ret + [fd], order + [fd])
  {
    var n, more := |order|, order + [fd];
    assert forall k :: 0 <= k < n ==> more[k] == order[k] && more[k] in order;
  }

  class RpcUserManager {
    var userStore: map<int, RpcUser>

    ghost predicate Valid()
      reads this
    {
      forall fd :: fd in userStore ==> userStore[fd].fd == fd
    }

    /** When each user was last heard of. */
    ghost function LastSeen(): map<int, int>
      reads this, userStore.Values
    {
      map fd | fd in userStore :: userStore[fd].lastUpdateTime
    }

    constructor ()
      ensures Valid() && userStore == map[]
    {
      userStore := map[];
    }

    method CreateUser(fd: int, now: int)
      requires Valid()
      modifies this
      ensures Valid() && LastSeen() == old(LastSeen())[fd := now]
      ensures fd !in old(userStore) ==> Step(old(LastSeen()), Connect(fd, now), LastSeen())
      ensures userStore.Keys == old(userStore.Keys) + {fd}
      ensures fresh(userStore.Values - old(userStore.Values))
    {
      var user := new RpcUser(fd);
      user.UpdateHeartbeat(now);
      userStore := userStore[fd := user];
    }

    /** The caller's connection has a user; the program would dereference null otherwise. */
    method UpdateHeartbeat(fd: int, now: int)
      requires Valid() && fd in userStore
      modifies userStore.Values
      ensures Valid() && userStore == old(userStore)
      ensures LastSeen() == old(LastSeen())[fd := now]
      ensures Step(old(LastSeen()), Request(fd, now), LastSeen())
    {
      assert forall g :: g in userStore && g != fd ==> userStore[g] != userStore[fd];
      userStore[fd].UpdateHeartbeat(now);
    }

    /** Lists the users that have gone silent, in the order of the store's iteration.  The clock is
        read afresh for each. */
    method CheckInvalidUser(clock: nat -> int) returns (ret: seq<int>, ghost order: seq<int>)
      requires Valid()
      ensures Listing(LastSeen(), clock, ret, order) && Distinct(ret)
      ensures Complete(LastSeen(), order)
    {
      ret, order := [], [];
      var left := userStore.Keys;
      var read := 0;
      ghost var seen := LastSeen();
      while left != {}
        invariant left <= userStore.Keys && read == |order|
        invariant forall g :: g in order <==> g in userStore && g !in left
        invariant Listing(seen, clock, ret, order) && Distinct(ret)
        decreases |left|
      {
        HasMember(left);
        var fd :| fd in left;
        ListingNext(seen, clock, ret, order, fd);
        left := left - {fd};
        var active := userStore[fd].IsActive(clock(read));
        if !active {
          ret := ret + [fd];
        }
        order := order + [fd];
        read := read + 1;
      }
    }

    method RemoveUser(fd: int)
      requires Valid()
      modifies this
      ensures Valid() && LastSeen() == old(LastSeen()) - {fd}
      ensures forall now :: fd in old(userStore) ==> Step(old(LastSeen()), Close(fd, now), LastSeen())
      ensures userStore == old(userStore) - {fd}
    {
      if fd in userStore {
        userStore := userStore - {fd};
      }
    }
  }

  /** The connection tables of the server, with the users behind its callbacks. */
  class Connections {
    var channels: set<int>
    var fdLocation: map<int, nat>
    const users: RpcUserManager
    const reactors: nat

    /** The three tables speak about the same connections. */
    ghost predicate Valid()
      reads this, users
    {
      && reactors > 0 && users.Valid()
      && channels == fdLocation.Keys == users.userStore.Keys
      && (forall fd :: fd in fdLocation ==> fdLocation[fd] < reactors)
    }

    constructor (reactors: nat)
      requires reactors > 0
      ensures Valid() && fresh(users) && channels == {}
    {
      this.reactors := reactors;
      channels, fdLocation := {}, map[];
      users := new RpcUserManager();
    }

    /** One turn of handle_new_connections; an accepted descriptor is not in use. */
    method Accept(fd: nat, now: int)
      requires Valid() && fd !in channels
      modifies this, users
      ensures Valid() && channels == old(channels) + {fd}
      ensures fdLocation == old(fdLocation)[fd := fd % reactors]
      ensures users.LastSeen() == old(users.LastSeen())[fd := now]
      ensures fresh(users.userStore.Values - old(users.userStore.Values))
    {
      fdLocation := fdLocation[fd := fd % reactors];
      channels := channels + {fd};
      users.CreateUser(fd, now);
    }

    /** For a descriptor already gone the lookup inserts a location of its own accord, and taking
        the descriptor off that reactor throws before anything else is done. */
    method CloseConnection(fd: int) returns (thrown: bool)
      requires Valid()
      modifies this, users
      ensures thrown <==> fd !in old(channels)
      ensures channels == old(channels) - {fd}
      ensures fdLocation == if thrown then old(fdLocation)[fd := 0] else old(fdLocation) - {fd}
      ensures users.userStore == old(users.userStore) - {fd}
      ensures users.LastSeen() == old(users.LastSeen()) - {fd}
      ensures !thrown ==> Valid()
    {
      if fd !in fdLocation {
        fdLocation := fdLocation[fd := 0];
        return true;
      }
      fdLocation := fdLocation - {fd};
      channels := channels - {fd};
      users.RemoveUser(fd);
      thrown := false;
    }

    /** The eviction timer's callback. */
    method Evict(clock: nat -> int) returns (closed: seq<int>)
      requires Valid() && Goes(clock)
      modifies this, users
      ensures Valid() && users.LastSeen() == Without(old(users.LastSeen()), closed)
      ensures var seen := old(users.LastSeen());
              && (forall fd :: fd in closed ==> fd in seen && !Active(seen[fd], clock(|seen|)))
              && (forall fd :: fd in seen && !Active(seen[fd], clock(0)) ==> fd in closed)
              && (clock(0) == clock(|seen|) ==> Step(seen, Check(clock(0)), users.LastSeen()))
    {
      ghost var order;
      ghost var seen := users.LastSeen();
      closed, order := users.CheckInvalidUser(clock);
      SilentListed(seen, clock, closed, order);
      CloseAll(closed);
    }

    method CloseAll(closed: seq<int>)
      requires Valid() && Distinct(closed) && (forall fd :: fd in closed ==> fd in users.LastSeen())
      modifies this, users
      ensures Valid() && users.LastSeen() == Without(old(users.LastSeen()), closed)
    {
      ghost var seen := users.LastSeen();
      assert forall fd :: fd in closed ==> fd in seen;
      var i := 0;
      while i < |closed|
        invariant i <= |closed| && Valid()
        invariant users.LastSeen() == Without(seen, closed[..i])
      {
        assert closed[i] in closed && closed[i] in seen;
        WithoutNext(seen, closed, i);
        var thrown := CloseConnection(closed[i]);
        i := i + 1;
      }
      assert closed[..i] == closed;
    }
  }

  ghost predicate Goes(clock: nat -> int) {
    forall i: nat, j: nat :: i <= j ==> clock(i) <= clock(j)
  }

  /** Listed while the clock went on: whoever was silent at the first reading is listed, and whoever
      is listed was silent by the last. */
  lemma SilentListed(seen: map<int, int>, clock: nat -> int, ret: seq<int>, order: seq<int>)
    requires Listing(seen, clock, ret, order) && Complete(seen, order) && Goes(clock)
    ensures forall fd :: fd in ret ==> fd in seen && !Active(seen[fd], clock(|seen|))
    ensures forall fd :: fd in seen && !Active(seen[fd], clock(0)) ==> fd in ret
    ensures clock(0) == clock(|seen|) ==> Without(seen, ret) == AfterCheck(seen, clock(0))
  {
    DistinctSize(order);
    var listed := set fd | fd in order;
    assert forall fd :: fd in listed <==> fd in seen.Keys;
    assert listed == seen.Keys;
    assert |seen| == |seen.Keys| == |order|;
    forall fd | fd in seen
      ensures fd in ret ==> !Active(seen[fd], clock(|seen|))
      ensures !Active(seen[fd], clock(0)) ==> fd in ret
    {
      var k :| 0 <= k < |order| && order[k] == fd;
      assert clock(0) <= clock(k) <= clock(|order|);
    }
    if clock(0) == clock(|seen|) { OneReading(seen, ret, clock(0)); }
  }

  /** With one reading for all, what is left is what a check of the runs below leaves. */
  lemma OneReading(seen: map<int, int>, ret: seq<int>, now: int)
    requires forall fd :: fd in ret ==> fd in seen && !Active(seen[fd], now)
    requires forall fd :: fd in seen && !Active(seen[fd], now) ==> fd in ret
    ensures Without(seen, ret) == AfterCheck(seen, now)
  {
    assert forall fd :: fd in Without(seen, ret) <==> fd in AfterCheck(seen, now);
  }

  lemma {:induction false} DistinctSize(fds: seq<int>)
    requires Distinct(fds)
    ensures |(set fd | fd in fds)| == |fds|
  {
    if fds != [] {
      var n := |fds| - 1;
      DistinctSize(fds[..n]);
      assert fds == fds[..n] + [fds[n]];
      assert (set fd | fd in fds) == (set fd | fd in fds[..n]) + {fds[n]};
    }
  }

  function AfterCheck(seen: map<int, int>, now: int): map<int, int> {
    map fd | fd in seen && Active(seen[fd], now) :: seen[fd]
  }

  /** What is left of a table once some descriptors are closed. */
  function Without(seen: map<int, int>, fds: seq<int>): map<int, int> {
    map fd | fd in seen && fd !in fds :: seen[fd]
  }

  lemma WithoutNext(seen: map<int, int>, fds: seq<int>, i: nat)
    requires i < |fds| && fds[i] in seen && fds[i] !in fds[..i]
    ensures fds[i] in Without(seen, fds[..i])
    ensures Without(seen, fds[..i + 1]) == Without(seen, fds[..i]) - {fds[i]}
  {
    assert fds[..i + 1] == fds[..i] + [fds[i]];
  }

  // ---------------------------------------------------------------------------------------
  // Runs

  datatype Event =
    | Connect(fd: int, time: int)
    | Request(fd: int, time: int)
    | Close(fd: int, time: int)
    | Check(time: int)

  /** One step on when each user was last heard of.  A request comes from a connected client. */
  ghost predicate Step(seen: map<int, int>, e: Event, after: map<int, int>) {
    match e
    case Connect(fd, t) => fd !in seen && after == seen[fd := t]
    case Request(fd, t) => fd in seen && after == seen[fd := t]
    case Close(fd, _) => fd in seen && after == seen - {fd}
    case Check(t) => after == AfterCheck(seen, t)
  }

  ghost predicate Run(events: seq<Event>, states: seq<map<int, int>>) {
    && |states| == |events| + 1 && states[0] == map[]
    && (forall i :: 0 <= i < |events| ==> Step(states[i], events[i], states[i + 1]))
    && (forall i, j :: 0 <= i < j < |events| ==> events[i].time <= events[j].time)
  }

  /** The client was heard of at event i. */
  predicate Heard(events: seq<Event>, fd: int, i: nat) {
    i < |events| && (events[i] == Connect(fd, events[i].time) || events[i] == Request(fd, events[i].time))
  }

  /** Event i returns the user for closing. */
  ghost predicate Evicted(events: seq<Event>, states: seq<map<int, int>>, fd: int, i: nat) {
    && i < |events| <= |states|
    && events[i].Check? && fd in states[i] && !Active(states[i][fd], events[i].time)
  }

  /** A user in the table was last heard of at some event, and nothing about it came since. */
  lemma {:induction false} LastHeard(events: seq<Event>, states: seq<map<int, int>>, fd: int, j: nat) returns (i: nat)
    requires Run(events, states) && j <= |events| && fd in states[j]
    ensures i < j && Heard(events, fd, i) && states[j][fd] == events[i].time
    ensures forall k :: i < k < j ==> !Heard(events, fd, k) && events[k] != Close(fd, events[k].time)
  {
    i := j - 1;
    assert Step(states[i], events[i], states[j]);
    if !Heard(events, fd, i) {
      i := LastHeard(events, states, fd, i);
    }
  }

  /** The client was heard of at event i, or its connection was closed there. */
  predicate HeardOrClosed(events: seq<Event>, fd: int, i: nat) {
    Heard(events, fd, i) || (i < |events| && events[i] == Close(fd, events[i].time))
  }

  /** While connected, the client never lets more than the timeout pass: after every event at which
      it was heard of, it is heard of again, or leaves, within the timeout. */
  ghost predicate Punctual(events: seq<Event>, fd: int) {
    forall i: nat, j: nat ::
      i < j < |events| && Heard(events, fd, i) && events[j].time - events[i].time > HEARTBEAT_TIMEOUT ==>
        exists k: nat ::
          i < k < j && HeardOrClosed(events, fd, k) && events[k].time - events[i].time <= HEARTBEAT_TIMEOUT
  }

  /** Such a client is never returned for closing, however often its descriptor is used again. */
  lemma PunctualStays(events: seq<Event>, states: seq<map<int, int>>, fd: int, j: nat)
    requires Run(events, states) && Punctual(events, fd)
    ensures !Evicted(events, states, fd, j)
  {
    if Evicted(events, states, fd, j) {
      var i := LastHeard(events, states, fd, j);
    }
  }

  /** Checks happen exactly at base, base + 15s, base + 30s ... up to the end of the run. */
  ghost predicate RegularChecks(events: seq<Event>, base: int) {
    && (forall i :: 0 <= i < |events| && events[i].Check? ==> (events[i].time - base) % HEARTBEAT_TIMEOUT == 0)
    && (forall n: nat :: events != [] && Tick(base, n) <= events[|events| - 1].time ==>
          CheckedAt(events, Tick(base, n)))
  }

  function Tick(base: int, n: nat): int { base + n * HEARTBEAT_TIMEOUT }

  ghost predicate CheckedAt(events: seq<Event>, time: int) {
    exists i :: 0 <= i < |events| && events[i] == Check(time)
  }

  /** Nothing more comes from or about the client after event i. */
  ghost predicate SilentAfter(events: seq<Event>, fd: int, i: nat) {
    forall k :: i < k < |events| ==> !Heard(events, fd, k) && events[k] != Close(fd, events[k].time)
  }

  lemma {:induction false} SilentKept(events: seq<Event>, states: seq<map<int, int>>, fd: int, i: nat, j: nat)
    requires Run(events, states) && Heard(events, fd, i) && SilentAfter(events, fd, i)
    requires i < j <= |events|
    requires forall k :: i < k < j ==> !Evicted(events, states, fd, k)
    ensures fd in states[j] && states[j][fd] == events[i].time
  {
    if j > i + 1 {
      SilentKept(events, states, fd, i, j - 1);
      assert !Heard(events, fd, j - 1) && !Evicted(events, states, fd, j - 1);
    }
    assert Step(states[j - 1], events[j - 1], states[j]);
  }

  /** The first check more than the timeout after a time. */
  function Deadline(base: int, heard: int): (t: int)
    requires heard >= base - 2 * HEARTBEAT_TIMEOUT
    ensures heard + HEARTBEAT_TIMEOUT < t <= heard + 2 * HEARTBEAT_TIMEOUT
  {
    Tick(base, (heard - base) / HEARTBEAT_TIMEOUT + 2)
  }

  /** A client that falls silent is returned for closing at exactly that check, at most 30
      seconds later, in every run that lasts so long.  The first check comes at base, one timeout
      and a millisecond after the timer was set, so no client of the server is left out. */
  lemma SilentEvicted(events: seq<Event>, states: seq<map<int, int>>, fd: int, i: nat, base: int) returns (j: nat)
    requires Run(events, states) && RegularChecks(events, base)
    requires Heard(events, fd, i) && SilentAfter(events, fd, i)
    requires events[i].time >= base - 2 * HEARTBEAT_TIMEOUT
    requires events[|events| - 1].time >= events[i].time + 2 * HEARTBEAT_TIMEOUT
    ensures i < j && Evicted(events, states, fd, j) && events[j].time == Deadline(base, events[i].time)
    ensures events[j].time <= events[i].time + 30 * SECOND
  {
    var r := events[i].time;
    var n := (r - base) / HEARTBEAT_TIMEOUT + 2;
    assert CheckedAt(events, Tick(base, n));
    var c :| 0 <= c < |events| && events[c] == Check(Tick(base, n));
    assert c > i;
    j := i + 1;
    while j < c && !Evicted(events, states, fd, j)
      invariant i < j <= c
      invariant forall k :: i < k < j ==> !Evicted(events, states, fd, k)
    {
      j := j + 1;
    }
    SilentKept(events, states, fd, i, j);
    assert Evicted(events, states, fd, j);
    if j < c {
      NoTickBetween(base, r, events[j].time);
    }
  }

  lemma NoTickBetween(base: int, heard: int, t: int)
    requires heard >= base - 2 * HEARTBEAT_TIMEOUT && (t - base) % HEARTBEAT_TIMEOUT == 0
    requires heard + HEARTBEAT_TIMEOUT < t <= Deadline(base, heard)
    ensures t == Deadline(base, heard)
  {
  }
}
