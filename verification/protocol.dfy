/** The call protocol between a client and a server as a step system over the encoded messages in
    flight.  Messages may overtake one another in both directions. */
module Protocol {
  import opened Bytes
  import opened Codec
  import opened Package
  import opened Rpc

  type Id = seq<byte>

  datatype Call = Call(name: seq<byte>, args: seq<Doc>)

  datatype Entry = Entry(id: Id, outcome: Resolution)

  /** called: every call ever begun; known: those whose function was registered by then; pending:
      the client's table of promises; unsent: calls whose promise is registered and whose request
      is not yet sent; log: promises resolved, in order; table: the functions registered; runs:
      how the server dealt with each request, in order. */
  datatype Net = Net(
    called: map<Id, Call>,
    known: set<Id>,
    pending: set<Id>,
    unsent: set<Id>,
    toServer: seq<seq<byte>>,
    toClient: seq<seq<byte>>,
    log: seq<Entry>,
    table: Signatures,
    runs: seq<Dispatch>)

  /** Serve(i, o): the i-th request in flight, whose function comes to o this time. */
  datatype Step =
    | Register(name: seq<byte>)
    | Begin(id: Id, call: Call)
    | Transmit(id: Id)
    | Serve(i: nat, o: Outcome)
    | Receive(i: nat)

  const QUIET := Net(map[], {}, {}, {}, [], [], [], map[], [])

  function RequestBytes(id: Id, c: Call): seq<byte> {
    EncRequest(RequestFor(id, c.name, c.args))
  }

  function RemoveAt<T>(s: seq<T>, i: nat): seq<T>
    requires i < |s|
  {
    s[..i] + s[i + 1..]
  }

  function Begun(s: Net, id: Id, c: Call): Net {
    s.(called := s.called[id := c], known := if c.name in s.table then s.known + {id} else s.known,
       pending := s.pending + {id}, unsent := s.unsent + {id})
  }

  function Transmitted(s: Net, id: Id, request: seq<byte>): Net {
    s.(unsent := s.unsent - {id}, toServer := s.toServer + [request])
  }

  function Served(s: Net, i: nat, d: Dispatch): Net
    requires i < |s.toServer|
  {
    s.(toServer := RemoveAt(s.toServer, i), toClient := s.toClient + [EncResponse(Answer(d))], runs := s.runs + [d])
  }

  function Received(s: Net, i: nat, r: Response): Net
    requires i < |s.toClient|
  {
    var rest := s.(toClient := RemoveAt(s.toClient, i));
    if r.id in s.pending
    then rest.(pending := s.pending - {r.id}, log := s.log + [Entry(r.id, Resolve(r))])
    else rest
  }

  predicate Servable(table: Signatures, data: seq<byte>) {
    DecRequest(data).Some? && Acceptable(table, DecRequest(data).value)
  }

  /** sigs: what the two sides agree on for each name.  A function may be registered at any time. */
  ghost predicate Next(sigs: Signatures, s: Net, step: Step, t: Net) {
    match step
    case Register(name) => name in sigs && t == s.(table := s.table[name := sigs[name]])
    case Begin(id, c) => id !in s.called && Callable(sigs, id, c.name, c.args) && t == Begun(s, id, c)
    case Transmit(id) =>
      id in s.unsent && id in s.called && t == Transmitted(s, id, RequestBytes(id, s.called[id]))
    case Serve(i, o) =>
      && i < |s.toServer| && Servable(s.table, s.toServer[i])
      && var q := DecRequest(s.toServer[i]).value;
         Obliging(s.table, q, o) && t == Served(s, i, DispatchOf(s.table, q, o))
    case Receive(i) =>
      && i < |s.toClient| && DecResponse(s.toClient[i]).Some?
      && t == Received(s, i, DecResponse(s.toClient[i]).value)
  }

  ghost predicate Run(sigs: Signatures, states: seq<Net>, steps: seq<Step>) {
    && |states| == |steps| + 1 && states[0] == QUIET
    && forall i :: 0 <= i < |steps| ==> Next(sigs, states[i], steps[i], states[i + 1])
  }

  // ---------------------------------------------------------------------------------------
  // The invariant

  function RequestId(data: seq<byte>): Id {
    match DecRequest(data) case None => [] case Some(r) => r.id
  }

  function ResponseId(data: seq<byte>): Id {
    match DecResponse(data) case None => [] case Some(r) => r.id
  }

  function Ids<T>(s: seq<T>, id: T -> Id): (ids: seq<Id>)
    ensures |ids| == |s|
  {
    seq(|s|, i requires 0 <= i < |s| => id(s[i]))
  }

  function LogId(e: Entry): Id { e.id }

  function RunId(d: Dispatch): Id { d.id }

  /** data is the request of the call of its id. */
  ghost predicate RequestInFlight(s: Net, data: seq<byte>) {
    var id := RequestId(data);
    id in s.called && data == RequestBytes(id, s.called[id])
  }

  /** The server's dealing with the call of that id came to this. */
  ghost predicate Answered(runs: seq<Dispatch>, id: Id, outcome: Resolution) {
    exists d :: d in runs && d.id == id && Seen(d) == outcome
  }

  ghost predicate ResponseInFlight(s: Net, data: seq<byte>) {
    var r := DecResponse(data);
    r.Some? && Answered(s.runs, r.value.id, Resolve(r.value))
  }

  /** A dispatch is of a call begun: its function, run on the call's own arguments; or none was
      found, and then none was registered when the call was begun. */
  ghost predicate Faithful(s: Net, d: Dispatch) {
    && d.id in s.called && d.name == s.called[d.id].name
    && match d
       case Ran(_, name, args, o) =>
         name in s.table && args == MeaningAll(s.called[d.id].args) && Behaves(s.table[name], o)
       case Missed(_, _) => d.id !in s.known
  }

  /** Where each call's single message, or resolution, is. */
  ghost function Whereabouts(s: Net): multiset<Id> {
    multiset(s.unsent) + multiset(Ids(s.toServer, RequestId)) + multiset(Ids(s.toClient, ResponseId))
    + multiset(Ids(s.log, LogId))
  }

  /** Each call's message is in one place, and the table of promises holds the unresolved ones. */
  ghost predicate Placed(s: Net) {
    && Whereabouts(s) == multiset(s.called.Keys)
    && s.pending == s.called.Keys - Resolved(s)
  }

  ghost function Resolved(s: Net): set<Id> {
    set e | e in s.log :: e.id
  }

  /** The calls dealt with are those whose response is in flight or taken. */
  ghost predicate RunsPlaced(s: Net) {
    multiset(Ids(s.runs, RunId)) == multiset(Ids(s.toClient, ResponseId)) + multiset(Ids(s.log, LogId))
  }

  /** Calls are well-typed, and what is known stays registered. */
  ghost predicate CallsOk(sigs: Signatures, s: Net) {
    && Agrees(sigs, s.table)
    && (forall id :: id in s.called ==> Callable(sigs, id, s.called[id].name, s.called[id].args))
    && (forall id :: id in s.known ==> id in s.called && s.called[id].name in s.table)
  }

  ghost predicate MessagesOk(s: Net) {
    && (forall d :: d in s.toServer ==> RequestInFlight(s, d))
    && (forall d :: d in s.toClient ==> ResponseInFlight(s, d))
    && (forall e :: e in s.log ==> Answered(s.runs, e.id, e.outcome))
    && (forall d :: d in s.runs ==> Faithful(s, d))
  }

  ghost predicate Inv(sigs: Signatures, s: Net) {
    CallsOk(sigs, s) && MessagesOk(s) && Placed(s) && RunsPlaced(s)
  }

  lemma IdsAt<T>(s: seq<T>, i: nat, id: T -> Id)
    requires i < |s|
    ensures Ids(s, id)[i] == id(s[i])
  {
  }

  lemma IdsAppend<T>(s: seq<T>, x: T, id: T -> Id)
    ensures multiset(Ids(s + [x], id)) == multiset(Ids(s, id)) + multiset{id(x)}
  {
    assert Ids(s + [x], id) == Ids(s, id) + [id(x)];
  }

  lemma IdsRemove<T>(s: seq<T>, i: nat, id: T -> Id)
    requires i < |s|
    ensures multiset(Ids(s, id)) == multiset(Ids(RemoveAt(s, i), id)) + multiset{id(s[i])}
  {
    var a, b := Ids(s[..i], id), Ids(s[i + 1..], id);
    assert Ids(s, id) == a + [id(s[i])] + b;
    assert Ids(RemoveAt(s, i), id) == a + b;
  }

  lemma BegunId(s: Net, id: Id)
    requires Placed(s) && id !in s.called
    ensures multiset(s.called.Keys)[id] == 0 && Whereabouts(s)[id] == 0 && id !in s.unsent
  {
    assert multiset(s.called.Keys)[id] == 0;
  }

  lemma BeginPlaced(s: Net, id: Id, c: Call)
    requires Placed(s) && id !in s.called
    ensures Placed(Begun(s, id, c))
  {
    var t := Begun(s, id, c);
    BegunId(s, id);
    BegunWhereabouts(s, id, c);
    assert t.called.Keys == s.called.Keys + {id};
    InsertOne(s.called.Keys, id);
    BegunPending(s, id, c);
  }

  lemma BegunWhereabouts(s: Net, id: Id, c: Call)
    requires id !in s.unsent
    ensures Whereabouts(Begun(s, id, c)) == Whereabouts(s) + multiset{id}
  {
    InsertOne(s.unsent, id);
    MoveOut(multiset(s.unsent), multiset(Ids(s.toServer, RequestId)), multiset(Ids(s.toClient, ResponseId)),
            multiset(Ids(s.log, LogId)), multiset{id});
  }

  lemma BegunPending(s: Net, id: Id, c: Call)
    requires s.pending == s.called.Keys - Resolved(s) && Whereabouts(s)[id] == 0
    ensures Begun(s, id, c).pending == Begun(s, id, c).called.Keys - Resolved(Begun(s, id, c))
  {
    assert multiset(Ids(s.log, LogId))[id] == 0;
    NotResolved(s, id);
    assert Begun(s, id, c).called.Keys == s.called.Keys + {id};
    AddUnresolved(s.called.Keys, Resolved(s), id);
  }

  lemma AddUnresolved(called: set<Id>, resolved: set<Id>, id: Id)
    requires id !in resolved
    ensures (called - resolved) + {id} == (called + {id}) - resolved
  {
  }

  lemma MoveOut(a: multiset<Id>, b: multiset<Id>, c: multiset<Id>, d: multiset<Id>, x: multiset<Id>)
    ensures (a + x) + b + c + d == (a + b + c + d) + x
  {
  }

  lemma InsertOne(s: set<Id>, x: Id)
    requires x !in s
    ensures multiset(s + {x}) == multiset(s) + multiset{x}
  {
  }

  lemma NotResolved(s: Net, id: Id)
    requires id !in multiset(Ids(s.log, LogId))
    ensures id !in Resolved(s) && id !in Ids(s.log, LogId)
  {
    forall e | e in s.log ensures e.id != id {
      var k :| 0 <= k < |s.log| && s.log[k] == e;
      IdsAt(s.log, k, LogId);
    }
  }

  lemma RegisterKeeps(sigs: Signatures, s: Net, name: seq<byte>, t: Net)
    requires Inv(sigs, s) && Next(sigs, s, Register(name), t)
    ensures Inv(sigs, t)
  {
    forall d | d in t.toServer ensures RequestInFlight(t, d) { assert RequestInFlight(s, d); }
    forall d | d in t.toClient ensures ResponseInFlight(t, d) { assert ResponseInFlight(s, d); }
    forall d | d in t.runs ensures Faithful(t, d) { assert Faithful(s, d); }
  }

  lemma BeginMessagesOk(s: Net, id: Id, c: Call)
    requires MessagesOk(s) && id !in s.called
    ensures MessagesOk(Begun(s, id, c))
  {
    var t := Begun(s, id, c);
    forall d | d in t.toServer ensures RequestInFlight(t, d) { assert RequestInFlight(s, d); }
    forall d | d in t.toClient ensures ResponseInFlight(t, d) { assert ResponseInFlight(s, d); }
    forall d | d in t.runs ensures Faithful(t, d) { assert Faithful(s, d); }
  }

  lemma BeginKeeps(sigs: Signatures, s: Net, id: Id, c: Call, t: Net)
    requires Inv(sigs, s) && Next(sigs, s, Begin(id, c), t)
    ensures Inv(sigs, t)
  {
    BeginPlaced(s, id, c);
    BeginMessagesOk(s, id, c);
  }

  lemma TransmitKeeps(sigs: Signatures, s: Net, id: Id, t: Net)
    requires Inv(sigs, s) && Next(sigs, s, Transmit(id), t)
    ensures Inv(sigs, t)
  {
    var c := s.called[id];
    RequestComesBack(sigs, s.table, id, c.name, c.args);
    IdsAppend(s.toServer, RequestBytes(id, c), RequestId);
    assert multiset(s.unsent) == multiset(t.unsent) + multiset{id};
    forall d | d in t.toServer ensures RequestInFlight(t, d) {
      if d in s.toServer { assert RequestInFlight(s, d); }
    }
    forall d | d in t.toClient ensures ResponseInFlight(t, d) { assert ResponseInFlight(s, d); }
    forall d | d in t.runs ensures Faithful(t, d) { assert Faithful(s, d); }
  }

  lemma AnsweredMore(runs: seq<Dispatch>, d: Dispatch, id: Id, outcome: Resolution)
    requires Answered(runs, id, outcome)
    ensures Answered(runs + [d], id, outcome)
  {
    var was :| was in runs && was.id == id && Seen(was) == outcome;
    assert was in runs + [d];
  }

  /** A request in flight is served as its call asks. */
  lemma ServeRight(sigs: Signatures, s: Net, i: nat, o: Outcome)
    requires CallsOk(sigs, s) && MessagesOk(s) && i < |s.toServer|
    ensures Servable(s.table, s.toServer[i])
    ensures var q := DecRequest(s.toServer[i]).value;
            && q.id == RequestId(s.toServer[i]) && q.id in s.called
            && q == RequestFor(q.id, s.called[q.id].name, s.called[q.id].args)
            && (Obliging(s.table, q, o) ==>
                  var d := DispatchOf(s.table, q, o);
                  && d.id == q.id && Faithful(s, d)
                  && DecResponse(EncResponse(Answer(d))) == Some(Answer(d))
                  && Answer(d).id == q.id && Resolve(Answer(d)) == Seen(d))
  {
    var data := s.toServer[i];
    assert RequestInFlight(s, data);
    var id := RequestId(data);
    var c := s.called[id];
    RequestComesBack(sigs, s.table, id, c.name, c.args);
    var q := DecRequest(data).value;
    if Obliging(s.table, q, o) { CallComesBack(sigs, s.table, id, c.name, c.args, o); }
  }

  lemma ServeMessagesOk(sigs: Signatures, s: Net, i: nat, o: Outcome, t: Net)
    requires Inv(sigs, s) && Next(sigs, s, Serve(i, o), t)
    ensures MessagesOk(t)
  {
    ServeRight(sigs, s, i, o);
    var d := DispatchOf(s.table, DecRequest(s.toServer[i]).value, o);
    forall x | x in t.toServer ensures RequestInFlight(t, x) {
      assert x in s.toServer;
      assert RequestInFlight(s, x);
    }
    forall x | x in t.toClient ensures ResponseInFlight(t, x) {
      if x in s.toClient {
        assert ResponseInFlight(s, x);
        AnsweredMore(s.runs, d, DecResponse(x).value.id, Resolve(DecResponse(x).value));
      } else {
        assert d in t.runs;
      }
    }
    forall e | e in t.log ensures Answered(t.runs, e.id, e.outcome) { AnsweredMore(s.runs, d, e.id, e.outcome); }
    forall x | x in t.runs ensures Faithful(t, x) {
      if x in s.runs { assert Faithful(s, x); }
    }
  }

  lemma ServePlaced(sigs: Signatures, s: Net, i: nat, o: Outcome, t: Net)
    requires Inv(sigs, s) && Next(sigs, s, Serve(i, o), t)
    ensures Placed(t) && RunsPlaced(t)
  {
    ServeRight(sigs, s, i, o);
    var d := DispatchOf(s.table, DecRequest(s.toServer[i]).value, o);
    IdsRemove(s.toServer, i, RequestId);
    IdsAppend(s.toClient, EncResponse(Answer(d)), ResponseId);
    IdsAppend(s.runs, d, RunId);
  }

  lemma ServeKeeps(sigs: Signatures, s: Net, i: nat, o: Outcome, t: Net)
    requires Inv(sigs, s) && Next(sigs, s, Serve(i, o), t)
    ensures Inv(sigs, t)
  {
    ServeMessagesOk(sigs, s, i, o, t);
    ServePlaced(sigs, s, i, o, t);
  }

  /** No call in flight is already resolved. */
  lemma InFlightIsPending(sigs: Signatures, s: Net, id: Id)
    requires Inv(sigs, s)
    requires id in s.unsent || id in Ids(s.toServer, RequestId) || id in Ids(s.toClient, ResponseId)
    ensures id in s.pending && id !in Ids(s.log, LogId)
  {
    assert Whereabouts(s)[id] <= 1;
    assert multiset(Ids(s.log, LogId))[id] == 0;
    assert id in Whereabouts(s);
    NotResolved(s, id);
  }

  lemma ReceiveMessagesOk(sigs: Signatures, s: Net, i: nat, t: Net)
    requires Inv(sigs, s) && Next(sigs, s, Receive(i), t)
    ensures MessagesOk(t)
  {
    assert ResponseInFlight(s, s.toClient[i]);
    forall d | d in t.toServer ensures RequestInFlight(t, d) { assert RequestInFlight(s, d); }
    forall d | d in t.toClient ensures ResponseInFlight(t, d) {
      assert d in s.toClient;
      assert ResponseInFlight(s, d);
    }
    forall d | d in t.runs ensures Faithful(t, d) { assert Faithful(s, d); }
  }

  lemma ReceivePlaced(sigs: Signatures, s: Net, i: nat, t: Net)
    requires Inv(sigs, s) && Next(sigs, s, Receive(i), t)
    ensures Placed(t) && RunsPlaced(t)
  {
    var r := DecResponse(s.toClient[i]).value;
    IdsAt(s.toClient, i, ResponseId);
    InFlightIsPending(sigs, s, r.id);
    IdsRemove(s.toClient, i, ResponseId);
    IdsAppend(s.log, Entry(r.id, Resolve(r)), LogId);
    assert Resolved(t) == Resolved(s) + {r.id};
  }

  lemma ReceiveKeeps(sigs: Signatures, s: Net, i: nat, t: Net)
    requires Inv(sigs, s) && Next(sigs, s, Receive(i), t)
    ensures Inv(sigs, t)
  {
    assert CallsOk(sigs, t);
    ReceiveMessagesOk(sigs, s, i, t);
    ReceivePlaced(sigs, s, i, t);
  }

  lemma StepKeeps(sigs: Signatures, s: Net, step: Step, t: Net)
    requires Inv(sigs, s) && Next(sigs, s, step, t)
    ensures Inv(sigs, t)
  {
    match step
    case Register(name) => RegisterKeeps(sigs, s, name, t);
    case Begin(id, c) => BeginKeeps(sigs, s, id, c, t);
    case Transmit(id) => TransmitKeeps(sigs, s, id, t);
    case Serve(k, o) => ServeKeeps(sigs, s, k, o, t);
    case Receive(k) => ReceiveKeeps(sigs, s, k, t);
  }

  lemma QuietInv(sigs: Signatures)
    ensures Inv(sigs, QUIET)
  {
  }

  lemma StepKeepsAt(sigs: Signatures, states: seq<Net>, steps: seq<Step>, k: nat, i: nat)
    requires Run(sigs, states, steps) && k + 1 == i < |states| && Inv(sigs, states[k])
    ensures Inv(sigs, states[i])
  {
    StepKeeps(sigs, states[k], steps[k], states[i]);
  }

  lemma {:induction false} RunKeeps(sigs: Signatures, states: seq<Net>, steps: seq<Step>, i: nat)
    requires Run(sigs, states, steps) && i < |states|
    ensures Inv(sigs, states[i])
  {
    if i == 0 {
      QuietInv(sigs);
    } else {
      var k := i - 1;
      RunKeeps(sigs, states, steps, k);
      StepKeepsAt(sigs, states, steps, k, i);
    }
  }

  // ---------------------------------------------------------------------------------------
  // What holds in every run

  lemma TwiceInSeq(ids: seq<Id>, a: nat, b: nat)
    requires a < b < |ids| && ids[a] == ids[b]
    ensures multiset(ids)[ids[a]] >= 2
  {
    var front, back := ids[..b], ids[b..];
    assert ids == front + back;
    assert front[a] in front && back[0] in back;
  }

  lemma ResolvedOnce(sigs: Signatures, s: Net, a: nat, b: nat)
    requires Inv(sigs, s) && a < b < |s.log|
    ensures s.log[a].id != s.log[b].id
  {
    var ids := Ids(s.log, LogId);
    IdsAt(s.log, a, LogId);
    IdsAt(s.log, b, LogId);
    assert Whereabouts(s)[ids[a]] <= 1;
    if ids[a] == ids[b] {
      TwiceInSeq(ids, a, b);
    }
  }

  lemma RunOnce(sigs: Signatures, s: Net, a: nat, b: nat)
    requires Inv(sigs, s) && a < b < |s.runs|
    ensures s.runs[a].id != s.runs[b].id
  {
    var ids := Ids(s.runs, RunId);
    IdsAt(s.runs, a, RunId);
    IdsAt(s.runs, b, RunId);
    assert Whereabouts(s)[ids[a]] <= 1;
    assert multiset(ids)[ids[a]] <= Whereabouts(s)[ids[a]];
    if ids[a] == ids[b] {
      TwiceInSeq(ids, a, b);
    }
  }

  /** Each call is dealt with at most once, by its own function on its own arguments; it is resolved
      at most once, and with what that one execution came to; the pending calls are the begun ones
      not yet resolved. */
  ghost predicate ResolvedRightly(s: Net) {
    && (forall a, b :: 0 <= a < b < |s.runs| ==> s.runs[a].id != s.runs[b].id)
    && (forall d :: d in s.runs ==> Faithful(s, d))
    && (forall a, b :: 0 <= a < b < |s.log| ==> s.log[a].id != s.log[b].id)
    && (forall e :: e in s.log ==> Answered(s.runs, e.id, e.outcome))
    && s.pending == s.called.Keys - Resolved(s)
  }

  lemma NonePending(s: Net)
    requires ResolvedRightly(s) && s.pending == {}
    ensures Resolved(s) == s.called.Keys
  {
    forall id | id in Resolved(s) ensures id in s.called {
      var e :| e in s.log && e.id == id;
      var d :| d in s.runs && d.id == id && Seen(d) == e.outcome;
      assert Faithful(s, d);
    }
    forall id | id in s.called ensures id in Resolved(s) {
      assert id !in s.pending;
    }
  }

  /** Every request in flight can be served, every response finds its pending entry, and when
      nothing is left to send or in flight every call has been resolved. */
  ghost predicate NothingLost(s: Net) {
    && (forall k :: 0 <= k < |s.toServer| ==> Servable(s.table, s.toServer[k]))
    && (forall k :: 0 <= k < |s.toClient| ==>
          DecResponse(s.toClient[k]).Some? && DecResponse(s.toClient[k]).value.id in s.pending)
    && (s.unsent == {} && s.toServer == [] && s.toClient == [] ==> s.pending == {})
  }

  lemma InvResolvedRightly(sigs: Signatures, s: Net)
    requires Inv(sigs, s)
    ensures ResolvedRightly(s)
  {
    forall a, b | 0 <= a < b < |s.runs|
      ensures s.runs[a].id != s.runs[b].id
    {
      RunOnce(sigs, s, a, b);
    }
    forall a, b | 0 <= a < b < |s.log|
      ensures s.log[a].id != s.log[b].id
    {
      ResolvedOnce(sigs, s, a, b);
    }
  }

  lemma InvNothingLost(sigs: Signatures, s: Net)
    requires Inv(sigs, s)
    ensures NothingLost(s)
  {
    forall k | 0 <= k < |s.toServer|
      ensures Servable(s.table, s.toServer[k])
    {
      ServeRight(sigs, s, k, Nothing);
    }
    forall k | 0 <= k < |s.toClient|
      ensures DecResponse(s.toClient[k]).Some? && DecResponse(s.toClient[k]).value.id in s.pending
    {
      var d := s.toClient[k];
      assert ResponseInFlight(s, d);
      IdsAt(s.toClient, k, ResponseId);
      InFlightIsPending(sigs, s, ResponseId(d));
    }
    if s.unsent == {} && s.toServer == [] && s.toClient == [] {
      AllResolved(sigs, s);
    }
  }

  lemma AllResolved(sigs: Signatures, s: Net)
    requires Inv(sigs, s) && s.unsent == {} && s.toServer == [] && s.toClient == []
    ensures s.pending == {}
  {
    var ids := Ids(s.log, LogId);
    assert Whereabouts(s) == multiset(ids);
    forall id | id in s.called
      ensures id in Resolved(s)
    {
      assert id in multiset(s.called.Keys);
      assert id in ids;
      var k :| 0 <= k < |s.log| && ids[k] == id;
      IdsAt(s.log, k, LogId);
      assert s.log[k] in s.log && s.log[k].id == id;
    }
  }

  lemma CallsResolveRightly(sigs: Signatures, states: seq<Net>, steps: seq<Step>, i: nat)
    requires Run(sigs, states, steps) && i < |states|
    ensures ResolvedRightly(states[i]) && NothingLost(states[i])
  {
    RunKeeps(sigs, states, steps, i);
    InvResolvedRightly(sigs, states[i]);
    InvNothingLost(sigs, states[i]);
  }

  /** Calls begun and functions registered are never forgotten. */
  lemma StepRemembers(sigs: Signatures, s: Net, step: Step, t: Net)
    requires Next(sigs, s, step, t)
    ensures forall id :: id in s.called ==> id in t.called && t.called[id] == s.called[id]
    ensures s.known <= t.known && s.table.Keys <= t.table.Keys
  {
  }

  lemma {:induction false} RunRemembers(sigs: Signatures, states: seq<Net>, steps: seq<Step>, i: nat, j: nat)
    requires Run(sigs, states, steps) && i <= j < |states|
    ensures forall id :: id in states[i].called ==>
              id in states[j].called && states[j].called[id] == states[i].called[id]
    ensures states[i].known <= states[j].known && states[i].table.Keys <= states[j].table.Keys
    decreases j - i
  {
    if i < j {
      var k := j - 1;
      RunRemembers(sigs, states, steps, i, k);
      assert Next(sigs, states[k], steps[k], states[k + 1]);
      StepRemembers(sigs, states[k], steps[k], states[j]);
    }
  }

  /** A call begun after its function was registered is, once dealt with, one execution of that
      function on the call's own arguments. */
  lemma RegisteredCallsRun(sigs: Signatures, states: seq<Net>, steps: seq<Step>, r: nat, k: nat, j: nat,
                           id: Id, c: Call, d: Dispatch)
    requires Run(sigs, states, steps) && r < k < j < |states|
    requires steps[r] == Register(c.name) && steps[k] == Begin(id, c)
    requires d in states[j].runs && d.id == id
    ensures d.Ran? && d.name == c.name && d.args == MeaningAll(c.args)
  {
    assert Next(sigs, states[r], steps[r], states[r + 1]);
    RunRemembers(sigs, states, steps, r + 1, k);
    assert Next(sigs, states[k], steps[k], states[k + 1]);
    RunRemembers(sigs, states, steps, k + 1, j);
    RunKeeps(sigs, states, steps, j);
    assert Faithful(states[j], d);
  }

  // ---------------------------------------------------------------------------------------
  // Particular functions

  /** The one execution behind a resolved call of a function registered in time. */
  lemma ItsRun(s: Net, e: Entry) returns (k: nat)
    requires ResolvedRightly(s) && e in s.log && e.id in s.known
    ensures k < |s.runs| && s.runs[k].id == e.id && s.runs[k].Ran? && Seen(s.runs[k]) == e.outcome
    ensures Faithful(s, s.runs[k])
  {
    var d :| d in s.runs && d.id == e.id && Seen(d) == e.outcome;
    assert Faithful(s, d);
    k :| 0 <= k < |s.runs| && s.runs[k] == d;
  }

  /** Calls of functions without state resolve to what the function makes of their arguments. */
  lemma PureCallsResolve(s: Net, name: seq<byte>, f: seq<Val> -> Outcome, e: Entry)
    requires ResolvedRightly(s)
    requires forall d :: d in s.runs && RanAs(d, name) ==> d.outcome == f(d.args)
    requires e in s.log && e.id in s.known && s.called[e.id].name == name
    ensures e.outcome == SeenOutcome(f(MeaningAll(s.called[e.id].args)))
  {
    var k := ItsRun(s, e);
    assert s.runs[k] in s.runs;
  }

  /** No two executions of the function came to the same. */
  ghost predicate NeverTwice(runs: seq<Dispatch>, name: seq<byte>) {
    forall j, k :: 0 <= j < k < |runs| && RanAs(runs[j], name) && RanAs(runs[k], name) ==>
      Seen(runs[j]) != Seen(runs[k])
  }

  predicate RanAs(d: Dispatch, name: seq<byte>) {
    d.Ran? && d.name == name
  }

  /** A function that never comes to the same twice, as one that counts, gives no two calls the
      same, even on equal arguments. */
  lemma DistinctStayDistinct(s: Net, name: seq<byte>, a: Entry, b: Entry)
    requires ResolvedRightly(s) && NeverTwice(s.runs, name)
    requires a in s.log && b in s.log && a.id != b.id && a.id in s.known && b.id in s.known
    requires s.called[a.id].name == s.called[b.id].name == name
    ensures a.outcome != b.outcome
  {
    var j := ItsRun(s, a);
    var k := ItsRun(s, b);
    assert j < k || k < j;
  }
}
