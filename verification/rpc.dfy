/** RPC/Rpc_Client, RPC/Rpc_Server.cpp and RPC/Function_Handler.hpp: making a call, dispatching
    it, answering it and resolving its promise. */
module Rpc {
  import opened Bytes
  import opened Codec
  import opened Streams
  import opened Package
  import H = Heartbeat

  function Ascii(s: string): seq<byte> {
    seq(|s|, i requires 0 <= i < |s| => s[i] as int % 256)
  }

  const HANDLER_NOT_FOUND := Ascii("Handler not found")
  const HEARTBEAT_SIG := Ascii("HEARTBEAT")

  // ---------------------------------------------------------------------------------------
  // Functions and what they do

  /** What one execution of a function comes to: it returns a value, returns nothing, or throws.
      A function may keep state of its own, so two executions on equal arguments may differ. */
  datatype Outcome = Returned(d: Doc) | Nothing | Threw(what: seq<byte>)

  datatype Signature = Signature(args: seq<Ty>, ret: Option<Ty>)

  /** By name: what the two sides agree on, or what the server has registered so far. */
  type Signatures = map<seq<byte>, Signature>

  /** The execution keeps to the declared result type, within the stream's size limit. */
  predicate Behaves(sig: Signature, o: Outcome) {
    match o
    case Returned(d) => sig.ret.Some? && HasTy(d, sig.ret.value) && |Enc(d)| < TWO_31
    case Nothing => sig.ret.None?
    case Threw(what) => |what| < TWO_31
  }

  const EMPTY := Snapshot([], 0)

  /** How the server dealt with a request: it ran the function of that name on those arguments,
      or found none. */
  datatype Dispatch =
    | Ran(id: seq<byte>, name: seq<byte>, args: seq<Val>, outcome: Outcome)
    | Missed(id: seq<byte>, name: seq<byte>)

  /** The arguments can be read as the function's. */
  predicate Acceptable(table: Signatures, r: Request) {
    && SmallRequest(r)
    && (r.name in table ==> DecArgs(table[r.name].args, r.params.buf[r.params.pos..]).Some?)
  }

  function ArgsOf(table: Signatures, r: Request): seq<Val>
    requires Acceptable(table, r) && r.name in table
  {
    DecArgs(table[r.name].args, r.params.buf[r.params.pos..]).value.0
  }

  /** The function, if there is one, comes to o. */
  function DispatchOf(table: Signatures, r: Request, o: Outcome): Dispatch
    requires Acceptable(table, r)
  {
    if r.name in table then Ran(r.id, r.name, ArgsOf(table, r), o) else Missed(r.id, r.name)
  }

  predicate Obliging(table: Signatures, r: Request, o: Outcome) {
    r.name in table ==> Behaves(table[r.name], o)
  }

  /** The server's answer. */
  function Answer(d: Dispatch): Response {
    match d
    case Missed(id, _) => Response(EMPTY, HANDLER_NOT_FOUND, id)
    case Ran(id, _, _, Returned(v)) => Response(Snapshot(Enc(v), 0), [], id)
    case Ran(id, _, _, Nothing) => Response(EMPTY, [], id)
    case Ran(id, _, _, Threw(what)) => Response(EMPTY, what, id)
  }

  // ---------------------------------------------------------------------------------------
  // What a call comes to

  datatype Resolution = Value(result: Snapshot) | Failed(error: seq<byte>)

  function Resolve(r: Response): Resolution {
    if r.error != [] then Failed(r.error) else Value(r.result)
  }

  function RequestFor(id: seq<byte>, name: seq<byte>, args: seq<Doc>): Request {
    Request(id, name, Snapshot(EncArgs(args), 0))
  }

  /** What a caller is to see of it. */
  function Seen(d: Dispatch): Resolution {
    match d
    case Missed(_, _) => Failed(HANDLER_NOT_FOUND)
    case Ran(_, _, _, o) => SeenOutcome(o)
  }

  function SeenOutcome(o: Outcome): Resolution {
    match o
    case Returned(d) => Value(Snapshot(Enc(d), 0))
    case Nothing => Value(EMPTY)
    case Threw(what) => if what == [] then Value(EMPTY) else Failed(what)
  }

  ghost predicate Callable(sigs: Signatures, id: seq<byte>, name: seq<byte>, args: seq<Doc>) {
    && |id| < TWO_31 && |name| < TWO_31 && |EncArgs(args)| < TWO_31
    && (name in sigs ==> HaveTys(args, sigs[name].args))
  }

  /** What is registered has the agreed signature. */
  predicate Agrees(sigs: Signatures, table: Signatures) {
    forall name :: name in table ==> name in sigs && table[name] == sigs[name]
  }

  /** Through encoding, dispatch, decoding, the function, encoding and decoding, a call resolves
      to what this execution of its function came to, on its own arguments. */
  lemma CallComesBack(sigs: Signatures, table: Signatures, id: seq<byte>, name: seq<byte>, args: seq<Doc>, o: Outcome)
    requires Agrees(sigs, table) && Callable(sigs, id, name, args)
    requires name in table ==> Behaves(table[name], o)
    ensures var q := RequestFor(id, name, args);
            && DecRequest(EncRequest(q)) == Some(q) && Acceptable(table, q)
            && var d := DispatchOf(table, q, o);
               && d == (if name in table then Ran(id, name, MeaningAll(args), o) else Missed(id, name))
               && SmallResponse(Answer(d))
               && DecResponse(EncResponse(Answer(d))) == Some(Answer(d))
               && Answer(d).id == id && Resolve(Answer(d)) == Seen(d)
  {
    var q := RequestFor(id, name, args);
    RequestComesBack(sigs, table, id, name, args);
    AnswerSmall(table, q, o);
    ResponseRoundTrip(Answer(DispatchOf(table, q, o)));
  }

  lemma RequestComesBack(sigs: Signatures, table: Signatures, id: seq<byte>, name: seq<byte>, args: seq<Doc>)
    requires Agrees(sigs, table) && Callable(sigs, id, name, args)
    ensures var q := RequestFor(id, name, args);
            && DecRequest(EncRequest(q)) == Some(q) && Acceptable(table, q)
            && (name in table ==> ArgsOf(table, q) == MeaningAll(args))
  {
    var q := RequestFor(id, name, args);
    RequestRoundTrip(q);
    assert q.params.buf[0..] == EncArgs(args) + [];
    if name in table { ArgsRoundTrip(table[name].args, args, []); }
  }

  lemma AnswerSmall(table: Signatures, r: Request, o: Outcome)
    requires Acceptable(table, r) && Obliging(table, r, o)
    ensures SmallResponse(Answer(DispatchOf(table, r, o)))
  {
  }

  /** The caller reads exactly the returned value out of the result. */
  lemma ResultReadBack(sig: Signature, o: Outcome)
    requires Behaves(sig, o) && o.Returned?
    ensures var r := SeenOutcome(o);
            && r.Value? && r.result.pos == 0
            && sig.ret.Some?
            && Decode(sig.ret.value, r.result.buf) == Some((Meaning(o.d), []))
  {
    RoundTrip(sig.ret.value, o.d, []);
    assert Enc(o.d) + [] == Enc(o.d);
  }

  /** The caller sees an exception exactly when there is no such function or this execution threw
      with a non-empty text; an empty text reaches the caller as an empty result. */
  lemma FailureSeenIff(sigs: Signatures, table: Signatures, id: seq<byte>, name: seq<byte>, args: seq<Doc>, o: Outcome)
    requires Agrees(sigs, table) && Callable(sigs, id, name, args)
    requires name in table ==> Behaves(table[name], o)
    ensures var q := RequestFor(id, name, args);
            && Acceptable(table, q)
            && var r := DecResponse(EncResponse(Answer(DispatchOf(table, q, o))));
               && r.Some?
               && (Resolve(r.value).Failed? <==> name !in table || (o.Threw? && o.what != []))
               && (name !in table ==> Resolve(r.value) == Failed(HANDLER_NOT_FOUND))
               && (name in table && o.Threw? && o.what != [] ==> Resolve(r.value) == Failed(o.what))
               && (name in table && (o == Threw([]) || o == Nothing) ==> Resolve(r.value) == Value(EMPTY))
  {
    CallComesBack(sigs, table, id, name, args, o);
  }

  // ---------------------------------------------------------------------------------------
  // The server

  class HandlerManager {
    /** The functions themselves are not seen; what one does when called is given with the call. */
    var handlers: Signatures

    constructor ()
      ensures handlers == map[]
    {
      handlers := map[];
    }

    method RegisterHandler(name: seq<byte>, sig: Signature)
      modifies this
      ensures handlers == old(handlers)[name := sig]
    {
      handlers := handlers[name := sig];
    }

    /** Looks the function up, reads its arguments, runs it and writes its result.  act is what it
        does this time. */
    method Call(name: seq<byte>, params: Snapshot, act: seq<Val> -> Outcome)
      returns (result: Snapshot, thrown: Option<seq<byte>>)
      requires SmallStream(params)
      requires name in handlers ==>
                 && DecArgs(handlers[name].args, params.buf[params.pos..]).Some?
                 && Behaves(handlers[name], act(DecArgs(handlers[name].args, params.buf[params.pos..]).value.0))
      ensures match thrown
              case Some(what) =>
                if name in handlers then
                  act(DecArgs(handlers[name].args, params.buf[params.pos..]).value.0) == Threw(what)
                else what == HANDLER_NOT_FOUND
              case None =>
                name in handlers &&
                match act(DecArgs(handlers[name].args, params.buf[params.pos..]).value.0)
                case Returned(d) => result == Snapshot(Enc(d), 0)
                case Nothing => result == EMPTY
                case Threw(_) => false
    {
      if name !in handlers {
        return EMPTY, Some(HANDLER_NOT_FOUND);
      }
      var sig := handlers[name];
      var inArgs := new DataStream.Copy(params.buf, params.pos);
      var args := inArgs.GetArgs(sig.args);
      match act(args) {
        case Threw(what) =>
          return EMPTY, Some(what);
        case Nothing =>
          return EMPTY, None;
        case Returned(d) =>
          var out := new DataStream();
          out.Write(d, sig.ret.value);
          assert [] + Enc(d) == Enc(d);
          return Snapshot(out.buf, out.pos), None;
      }
    }
  }

  const HEARTBEAT := Signature([], None)

  /** What the function of the request, if there is one, does this time. */
  function OutcomeOf(table: Signatures, r: Request, act: seq<Val> -> Outcome): Outcome
    requires Acceptable(table, r)
  {
    if r.name in table then act(ArgsOf(table, r)) else Nothing
  }

  class RpcServer {
    const manager: HandlerManager
    const users: H.RpcUserManager

    constructor (users: H.RpcUserManager)
      ensures this.users == users && fresh(manager)
      ensures manager.handlers == map[HEARTBEAT_SIG := HEARTBEAT]
    {
      this.users := users;
      manager := new HandlerManager();
      new;
      manager.RegisterHandler(HEARTBEAT_SIG, HEARTBEAT);
    }

    /** The read-message callback: decode, refresh the heartbeat, dispatch, encode the answer. */
    method OnReadMessage(fd: int, data: seq<byte>, now: int, act: seq<Val> -> Outcome) returns (reply: seq<byte>)
      requires users.Valid() && fd in users.userStore && |data| < TWO_31
      requires DecRequest(data).Some? && Acceptable(manager.handlers, DecRequest(data).value)
      requires var q := DecRequest(data).value; Obliging(manager.handlers, q, OutcomeOf(manager.handlers, q, act))
      modifies users.userStore.Values
      ensures users.Valid() && users.LastSeen() == old(users.LastSeen())[fd := now]
      ensures var q := DecRequest(data).value;
              reply == EncResponse(Answer(DispatchOf(manager.handlers, q, OutcomeOf(manager.handlers, q, act))))
      ensures var q := DecRequest(data).value;
              reply == EncResponse(
                if q.name !in manager.handlers then Response(EMPTY, HANDLER_NOT_FOUND, q.id)
                else
                  match act(DecArgs(manager.handlers[q.name].args, q.params.buf[q.params.pos..]).value.0)
                  case Returned(d) => Response(Snapshot(Enc(d), 0), [], q.id)
                  case Nothing => Response(EMPTY, [], q.id)
                  case Threw(what) => Response(EMPTY, what, q.id))
    {
      var value := new DataStream();
      value.Load(data);
      assert value.Unread() == data;
      var v := value.Get(REQUEST);
      var request := RequestOf(v).value;

      users.UpdateHeartbeat(fd, now);
      var result, thrown := manager.Call(request.name, request.params, act);
      var response: Response;
      match thrown {
        case None => response := Response(result, [], request.id);
        case Some(what) => response := Response(EMPTY, what, request.id);
      }
      ghost var o := OutcomeOf(manager.handlers, request, act);
      assert response == Answer(DispatchOf(manager.handlers, request, o));
      AnswerSmall(manager.handlers, request, o);
      reply := EncodeResponse(response);
    }
  }

  method EncodeResponse(r: Response) returns (b: seq<byte>)
    requires SmallResponse(r)
    ensures b == EncResponse(r)
  {
    ResponseRoundTrip(r);
    var buf := new DataStream();
    buf.Write(ResponseDoc(r), RESPONSE);
    assert [] + EncResponse(r) == EncResponse(r);
    b := buf.buf;
  }

  method EncodeRequest(r: Request) returns (b: seq<byte>)
    requires SmallRequest(r)
    ensures b == EncRequest(r)
  {
    RequestRoundTrip(r);
    var buf := new DataStream();
    buf.Write(RequestDoc(r), REQUEST);
    assert [] + EncRequest(r) == EncRequest(r);
    b := buf.buf;
  }

  // ---------------------------------------------------------------------------------------
  // The client

  class Promise {
    var outcome: Option<Resolution>

    constructor ()
      ensures outcome == None
    {
      outcome := None;
    }
  }

  class RpcClient {
    var pendingRequest: map<seq<byte>, Promise>

    /** Pending promises are distinct and unresolved. */
    ghost predicate Valid()
      reads this, pendingRequest.Values
    {
      && (forall id :: id in pendingRequest ==> pendingRequest[id].outcome == None)
      && (forall a, b :: a in pendingRequest && b in pendingRequest && a != b ==>
            pendingRequest[a] != pendingRequest[b])
    }

    constructor ()
      ensures Valid() && pendingRequest == map[]
    {
      pendingRequest := map[];
    }

    /** call, up to the sending of the request: the promise is registered first.  The id is fresh. */
    method StartCall(id: seq<byte>, name: seq<byte>, args: seq<Doc>, ghost tys: seq<Ty>)
      returns (request: seq<byte>, promise: Promise)
      requires Valid() && id !in pendingRequest
      requires HaveTys(args, tys) && |EncArgs(args)| < TWO_31 && |id| < TWO_31 && |name| < TWO_31
      modifies this
      ensures Valid() && fresh(promise) && promise.outcome == None
      ensures pendingRequest == old(pendingRequest)[id := promise]
      ensures request == EncRequest(RequestFor(id, name, args))
      ensures request == EncRequest(Request(id, name, Snapshot(EncArgs(args), 0)))
    {
      var ds := new DataStream();
      ds.WriteArgs(args, tys);
      assert ds.buf == EncArgs(args);
      request := EncodeRequest(Request(id, name, Snapshot(ds.buf, ds.pos)));
      promise := new Promise();
      pendingRequest := pendingRequest[id := promise];
    }

    /** The read-message callback: resolves and forgets the promise of the response's id, if any. */
    method OnReadMessage(data: seq<byte>)
      requires Valid() && |data| < TWO_31 && DecResponse(data).Some?
      modifies this, pendingRequest.Values
      ensures Valid()
      ensures var r := DecResponse(data).value;
              && pendingRequest == old(pendingRequest) - {r.id}
              && (forall id :: id in old(pendingRequest) ==>
                    old(pendingRequest)[id].outcome == if id == r.id then Some(Resolve(r)) else None)
              && (r.id in old(pendingRequest) ==>
                    old(pendingRequest)[r.id].outcome ==
                    Some(if r.error == [] then Value(r.result) else Failed(r.error)))
    {
      var responseBuf := new DataStream();
      responseBuf.Load(data);
      assert responseBuf.Unread() == data;
      var v := responseBuf.Get(RESPONSE);
      var response := ResponseOf(v).value;
      if response.id in pendingRequest {
        var promise := pendingRequest[response.id];
        if response.error != [] {
          promise.outcome := Some(Failed(response.error));
        } else {
          promise.outcome := Some(Value(response.result));
        }
        pendingRequest := pendingRequest - {response.id};
      }
    }

    /** call, after its promise was given a value: reads the result. */
    method FinishCall(ret: Ty, result: Snapshot) returns (v: Val)
      requires result.pos <= |result.buf| && Decode(ret, result.buf[result.pos..]).Some?
      ensures v == Decode(ret, result.buf[result.pos..]).value.0
    {
      var resultBuf := new DataStream.Copy(result.buf, result.pos);
      v := resultBuf.Get(ret);
    }
  }
}
