/** The client and server objects joined by messages in flight: their methods are steps of the
    protocol, and each promise ends up with what the one execution of its own call came to. */
module Session {
  import opened Bytes
  import opened Codec
  import opened Package
  import opened Rpc
  import P = Protocol
  import H = Heartbeat

  /** A state some run of the protocol comes to. */
  ghost predicate Reached(sigs: Signatures, s: P.Net) {
    exists states, steps :: P.Run(sigs, states, steps) && states[|steps|] == s
  }

  lemma ReachNext(sigs: Signatures, s: P.Net, step: P.Step, t: P.Net)
    requires Reached(sigs, s) && P.Next(sigs, s, step, t)
    ensures Reached(sigs, t)
  {
    var states, steps :| P.Run(sigs, states, steps) && states[|steps|] == s;
    assert P.Run(sigs, states + [t], steps + [step]);
    assert (states + [t])[|steps + [step]|] == t;
  }

  lemma QuietReached(sigs: Signatures)
    ensures Reached(sigs, P.QUIET)
  {
    var states, steps: seq<P.Step> := [P.QUIET], [];
    assert P.Run(sigs, states, steps) && states[|steps|] == P.QUIET;
  }

  lemma ReachedInv(sigs: Signatures, s: P.Net)
    requires Reached(sigs, s)
    ensures P.Inv(sigs, s) && P.NothingLost(s) && P.ResolvedRightly(s)
  {
    var states, steps :| P.Run(sigs, states, steps) && states[|steps|] == s;
    P.RunKeeps(sigs, states, steps, |steps|);
    P.InvNothingLost(sigs, s);
    P.InvResolvedRightly(sigs, s);
  }

  lemma ReachedServable(sigs: Signatures, s: P.Net, i: nat)
    requires Reached(sigs, s) && i < |s.toServer|
    ensures P.Servable(s.table, s.toServer[i])
  {
    ReachedInv(sigs, s);
  }

  // ---------------------------------------------------------------------------------------
  // The four steps on values

  lemma RegisteredNext(sigs: Signatures, s: P.Net, name: seq<byte>)
    requires Reached(sigs, s) && name in sigs
    ensures var t := s.(table := s.table[name := sigs[name]]);
            P.Next(sigs, s, P.Register(name), t) && Reached(sigs, t)
  {
    ReachNext(sigs, s, P.Register(name), s.(table := s.table[name := sigs[name]]));
  }

  lemma BegunNext(sigs: Signatures, s: P.Net, id: P.Id, c: P.Call)
    requires Reached(sigs, s) && id !in s.called && Callable(sigs, id, c.name, c.args)
    ensures P.Next(sigs, s, P.Begin(id, c), P.Begun(s, id, c)) && Reached(sigs, P.Begun(s, id, c))
  {
    ReachNext(sigs, s, P.Begin(id, c), P.Begun(s, id, c));
  }

  lemma TransmittedNext(sigs: Signatures, s: P.Net, id: P.Id, request: seq<byte>)
    requires Reached(sigs, s) && id in s.unsent && id in s.called
    requires request == P.RequestBytes(id, s.called[id])
    ensures P.Next(sigs, s, P.Transmit(id), P.Transmitted(s, id, request))
    ensures Reached(sigs, P.Transmitted(s, id, request))
  {
    ReachNext(sigs, s, P.Transmit(id), P.Transmitted(s, id, request));
  }

  /** The request is its call's, and the function is run on the call's own arguments. */
  lemma ServedAs(sigs: Signatures, s: P.Net, i: nat, o: Outcome)
    requires Reached(sigs, s) && i < |s.toServer| && P.Servable(s.table, s.toServer[i])
    ensures var id := P.RequestId(s.toServer[i]);
            && id in s.called
            && var c := s.called[id];
               && DecRequest(s.toServer[i]).value.name == c.name
               && (c.name in s.table ==> ArgsOf(s.table, DecRequest(s.toServer[i]).value) == MeaningAll(c.args))
               && DispatchOf(s.table, DecRequest(s.toServer[i]).value, o)
                  == if c.name in s.table then Ran(id, c.name, MeaningAll(c.args), o) else Missed(id, c.name)
  {
    ReachedInv(sigs, s);
    P.ServeRight(sigs, s, i, o);
    var id := P.RequestId(s.toServer[i]);
    var c := s.called[id];
    RequestComesBack(sigs, s.table, id, c.name, c.args);
  }

  lemma ServedNext(sigs: Signatures, s: P.Net, i: nat, o: Outcome)
    requires Reached(sigs, s) && i < |s.toServer| && P.Servable(s.table, s.toServer[i])
    requires Obliging(s.table, DecRequest(s.toServer[i]).value, o)
    ensures var t := P.Served(s, i, DispatchOf(s.table, DecRequest(s.toServer[i]).value, o));
            P.Next(sigs, s, P.Serve(i, o), t) && Reached(sigs, t)
    ensures var id := P.RequestId(s.toServer[i]);
            && id in s.called
            && var c := s.called[id];
               DispatchOf(s.table, DecRequest(s.toServer[i]).value, o)
               == if c.name in s.table then Ran(id, c.name, MeaningAll(c.args), o) else Missed(id, c.name)
  {
    ServedAs(sigs, s, i, o);
    ReachNext(sigs, s, P.Serve(i, o), P.Served(s, i, DispatchOf(s.table, DecRequest(s.toServer[i]).value, o)));
  }

  lemma ReceivedNext(sigs: Signatures, s: P.Net, i: nat) returns (r: Response)
    requires Reached(sigs, s) && i < |s.toClient|
    ensures DecResponse(s.toClient[i]) == Some(r)
    ensures P.Next(sigs, s, P.Receive(i), P.Received(s, i, r)) && Reached(sigs, P.Received(s, i, r))
    ensures r.id in s.pending && r.id in s.called
  {
    ReachedInv(sigs, s);
    r := DecResponse(s.toClient[i]).value;
    ReachNext(sigs, s, P.Receive(i), P.Received(s, i, r));
  }

  /** requests holds the encoded request of each unsent call. */
  ghost predicate Encoded(requests: map<P.Id, seq<byte>>, s: P.Net) {
    && requests.Keys == s.unsent
    && forall id :: id in requests ==> id in s.called && requests[id] == P.RequestBytes(id, s.called[id])
  }

  lemma EncodedMore(requests: map<P.Id, seq<byte>>, s: P.Net, id: P.Id, c: P.Call)
    requires Encoded(requests, s)
    ensures Encoded(requests[id := P.RequestBytes(id, c)], P.Begun(s, id, c))
  {
  }

  lemma EncodedLess(requests: map<P.Id, seq<byte>>, s: P.Net, id: P.Id, request: seq<byte>)
    requires Encoded(requests, s)
    ensures Encoded(requests - {id}, P.Transmitted(s, id, request))
  {
  }

  lemma KeysMore<K, V>(m: map<K, V>, k: K, v: V)
    ensures m[k := v].Keys == m.Keys + {k}
  {
  }

  // ---------------------------------------------------------------------------------------
  // The objects

  class RpcSession {
    const client: RpcClient
    const server: RpcServer
    /** Requests of registered calls, not yet handed to the channel. */
    var unsent: map<P.Id, seq<byte>>
    var toServer: seq<seq<byte>>
    var toClient: seq<seq<byte>>
    ghost const sigs: Signatures
    ghost var net: P.Net
    /** Every promise ever handed to a caller. */
    ghost var promises: map<P.Id, Promise>

    /** The objects and the encoded requests are those of a protocol state and its promises. */
    ghost predicate Matches(s: P.Net, kept: map<P.Id, Promise>, requests: map<P.Id, seq<byte>>)
      reads client, client.pendingRequest.Values, kept.Values, server.manager, server.users
    {
      && client.Valid() && server.users.Valid() && server.manager.handlers == s.table
      && Reached(sigs, s) && Encoded(requests, s)
      && client.pendingRequest.Keys == s.pending && kept.Keys == s.called.Keys
      && PromisesKept(s, kept)
    }

    /** A promise is unresolved while its call is pending, and then holds what the call resolved to. */
    ghost predicate PromisesKept(s: P.Net, kept: map<P.Id, Promise>)
      requires kept.Keys == s.called.Keys
      reads client, kept.Values
    {
      && (forall id :: id in client.pendingRequest ==> id in kept && client.pendingRequest[id] == kept[id])
      && (forall id :: id in kept ==> if id in client.pendingRequest then kept[id].outcome == None
                                      else Settled(s, id, kept[id].outcome))
    }

    ghost predicate Settled(s: P.Net, id: P.Id, outcome: Option<Resolution>) {
      outcome.Some? && P.Entry(id, outcome.value) in s.log
    }

    ghost predicate Valid()
      reads this, client, client.pendingRequest.Values, promises.Values, server.manager, server.users
    {
      Matches(net, promises, unsent) && toServer == net.toServer && toClient == net.toClient
    }

    /** A server knows its heartbeat from the start. */
    constructor (users: H.RpcUserManager, ghost sigs: Signatures)
      requires users.Valid() && HEARTBEAT_SIG in sigs && sigs[HEARTBEAT_SIG] == HEARTBEAT
      ensures Valid() && this.sigs == sigs && server.users == users
      ensures net == P.QUIET.(table := map[HEARTBEAT_SIG := HEARTBEAT])
    {
      var s := new RpcServer(users);
      client := new RpcClient();
      server := s;
      this.sigs := sigs;
      unsent, toServer, toClient := map[], [], [];
      net, promises := P.QUIET.(table := map[HEARTBEAT_SIG := HEARTBEAT]), map[];
      new;
      QuietReached(sigs);
      RegisteredNext(sigs, P.QUIET, HEARTBEAT_SIG);
      assert P.QUIET.table[HEARTBEAT_SIG := HEARTBEAT] == map[HEARTBEAT_SIG := HEARTBEAT];
    }

    /** The new state of the session. */
    method Record(ghost s: P.Net, ghost kept: map<P.Id, Promise>, requests: map<P.Id, seq<byte>>,
                  up: seq<seq<byte>>, down: seq<seq<byte>>)
      requires Matches(s, kept, requests) && up == s.toServer && down == s.toClient
      modifies this
      ensures Valid() && net == s && promises == kept
      ensures unsent == requests && toServer == up && toClient == down
    {
      net, promises, unsent, toServer, toClient := s, kept, requests, up, down;
    }

    /** Rpc_Server::register_method, at any time. */
    method Register(name: seq<byte>, sig: Signature)
      requires Valid() && name in sigs && sigs[name] == sig
      modifies this, server.manager
      ensures Valid() && promises == old(promises)
      ensures P.Next(sigs, old(net), P.Register(name), net)
      ensures server.manager.handlers == old(server.manager.handlers)[name := sig] == net.table
    {
      RegisteredNext(sigs, net, name);
      server.manager.RegisterHandler(name, sig);
      Record(net.(table := net.table[name := sig]), promises, unsent, toServer, toClient);
    }

    /** Rpc_Client::call up to the sending: the promise is registered. */
    method Begin(id: P.Id, name: seq<byte>, args: seq<Doc>, ghost tys: seq<Ty>) returns (promise: Promise)
      requires Valid() && id !in net.called
      requires Callable(sigs, id, name, args) && HaveTys(args, tys)
      modifies this, client
      ensures Valid() && fresh(promise) && promises == old(promises)[id := promise]
      ensures P.Next(sigs, old(net), P.Begin(id, P.Call(name, args)), net)
      ensures client.pendingRequest == old(client.pendingRequest)[id := promise] && promise.outcome == None
      ensures unsent == old(unsent)[id := EncRequest(Request(id, name, Snapshot(EncArgs(args), 0)))]
      ensures net.called == old(net).called[id := P.Call(name, args)]
      ensures name in old(server.manager.handlers) ==> id in net.known
    {
      ghost var c := P.Call(name, args);
      BegunNext(sigs, net, id, c);
      EncodedMore(unsent, net, id, c);
      assert id !in client.pendingRequest && id !in promises;
      var request;
      request, promise := client.StartCall(id, name, args, tys);
      KeysMore(old(client.pendingRequest), id, promise);
      Record(P.Begun(net, id, c), promises[id := promise], unsent[id := request], toServer, toClient);
    }

    /** The request is written to the client's channel. */
    method Transmit(id: P.Id)
      requires Valid() && id in unsent
      modifies this
      ensures Valid() && promises == old(promises)
      ensures P.Next(sigs, old(net), P.Transmit(id), net)
      ensures unsent == old(unsent) - {id} && toServer == old(toServer) + [old(unsent)[id]]
      ensures toClient == old(toClient)
    {
      var request := unsent[id];
      TransmittedNext(sigs, net, id, request);
      EncodedLess(unsent, net, id, request);
      Record(P.Transmitted(net, id, request), promises, unsent - {id}, toServer + [request], toClient);
    }

    /** The server handles a request, on whichever connection it came; act is what the function
        asked for does this time. */
    method Serve(i: nat, fd: int, now: int, act: seq<Val> -> Outcome)
      requires Valid() && i < |toServer| && |toServer[i]| < TWO_31 && fd in server.users.userStore
      requires P.Servable(net.table, toServer[i]) ==>
                 var q := DecRequest(toServer[i]).value; Obliging(net.table, q, OutcomeOf(net.table, q, act))
      modifies this, server.users.userStore.Values
      ensures Valid() && promises == old(promises)
      ensures P.Servable(old(net).table, old(toServer)[i])
      ensures var o := OutcomeOf(old(net).table, DecRequest(old(toServer)[i]).value, act);
              P.Next(sigs, old(net), P.Serve(i, o), net)
      ensures var id := P.RequestId(old(toServer)[i]);
              && id in old(net).called
              && var c := old(net).called[id];
                 net.runs == old(net).runs
                             + [if c.name in old(net).table
                                then Ran(id, c.name, MeaningAll(c.args), act(MeaningAll(c.args)))
                                else Missed(id, c.name)]
      ensures toServer == old(toServer)[..i] + old(toServer)[i + 1..]
      ensures |toClient| == |old(toClient)| + 1 && toClient[..|old(toClient)|] == old(toClient)
      ensures server.users.LastSeen() == old(server.users.LastSeen())[fd := now]
    {
      ReachedServable(sigs, net, i);
      ghost var q := DecRequest(toServer[i]).value;
      ghost var o := OutcomeOf(net.table, q, act);
      ServedAs(sigs, net, i, o);
      ServedNext(sigs, net, i, o);
      var reply := server.OnReadMessage(fd, toServer[i], now, act);
      Record(P.Served(net, i, DispatchOf(net.table, q, o)), promises, unsent,
             P.RemoveAt(toServer, i), toClient + [reply]);
    }

    /** The client handles a response: the promise of its call is resolved. */
    method Receive(i: nat)
      requires Valid() && i < |toClient| && |toClient[i]| < TWO_31
      modifies this, client, client.pendingRequest.Values
      ensures Valid() && promises == old(promises)
      ensures P.Next(sigs, old(net), P.Receive(i), net)
      ensures toClient == old(toClient)[..i] + old(toClient)[i + 1..] && toServer == old(toServer)
      ensures DecResponse(old(toClient)[i]).Some?
      ensures var r := DecResponse(old(toClient)[i]).value;
              && client.pendingRequest == old(client.pendingRequest) - {r.id}
              && r.id in promises
              && promises[r.id].outcome == Some(if r.error == [] then Value(r.result) else Failed(r.error))
    {
      ghost var r := ReceivedNext(sigs, net, i);
      client.OnReadMessage(toClient[i]);
      Record(P.Received(net, i, r), promises, unsent, toServer, P.RemoveAt(toClient, i));
    }

    /** At every moment each resolved promise holds what the one execution of its call came to; and
        once nothing is unsent or in flight, every promise ever made is resolved. */
    lemma AllKept()
      requires Valid()
      ensures P.ResolvedRightly(net) && promises.Keys == net.called.Keys
      ensures forall id :: id in promises && promises[id].outcome.Some? ==>
                P.Answered(net.runs, id, promises[id].outcome.value)
      ensures unsent == map[] && toServer == [] && toClient == [] ==>
                forall id :: id in promises ==> promises[id].outcome.Some?
    {
      ReachedInv(sigs, net);
    }
  }
}
