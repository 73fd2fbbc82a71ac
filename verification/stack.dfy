/** One client and one server with everything between them: the call protocol run over two byte
    pipelines, one in each direction. */
module Stack {
  import opened Bytes
  import opened Rpc
  import F = Framing
  import L = Pipeline
  import P = Protocol
  import Package

  /** up and down carry requests and responses; served and received count the payloads delivered
      by them that have been handled.  calls is the client's bookkeeping. */
  datatype System = System(calls: P.Net, up: L.Link, down: L.Link, served: nat, received: nat)

  datatype Step =
    | Register(name: seq<byte>)
    | Begin(id: P.Id, call: P.Call)
    | Transmit(id: P.Id, algo: F.Algo)
    | Serve(algo: F.Algo, o: Outcome)
    | Receive
    | Up(step: L.Step)
    | Down(step: L.Step)

  const IDLE := System(P.QUIET, L.IDLE, L.IDLE, 0, 0)

  /** The agreed signatures, a compression library at either end, the rings' capacity. */
  datatype Setting = Setting(sigs: Signatures, z: F.Compressor, cap: nat)

  /** How the server deals with an encoded request when its function comes to o. */
  function Dealt(table: Signatures, data: seq<byte>, o: Outcome): Dispatch
    requires P.Servable(table, data)
  {
    DispatchOf(table, Package.DecRequest(data).value, o)
  }

  function Reply(d: Dispatch): seq<byte> {
    Package.EncResponse(Answer(d))
  }

  /** The client's bookkeeping when a response is handled. */
  function Taken(calls: P.Net, r: Package.Response): P.Net {
    if r.id in calls.pending
    then calls.(pending := calls.pending - {r.id}, log := calls.log + [P.Entry(r.id, Resolve(r))])
    else calls
  }

  ghost predicate Moves(step: L.Step) { !step.Write? }

  ghost predicate Next(e: Setting, s: System, step: Step, t: System) {
    match step
    case Register(name) =>
      name in e.sigs && t == s.(calls := s.calls.(table := s.calls.table[name := e.sigs[name]]))
    case Begin(id, c) =>
      && id !in s.calls.called && Callable(e.sigs, id, c.name, c.args)
      && t == s.(calls := P.Begun(s.calls, id, c))
    case Transmit(id, algo) =>
      && id in s.calls.unsent && id in s.calls.called
      && L.Next(e.z, e.cap, s.up, L.Write(F.Message(algo, P.RequestBytes(id, s.calls.called[id]))), t.up)
      && t == s.(calls := s.calls.(unsent := s.calls.unsent - {id}), up := t.up)
    case Serve(algo, o) =>
      && s.served < |s.up.rx.out| && P.Servable(s.calls.table, s.up.rx.out[s.served])
      && Obliging(s.calls.table, Package.DecRequest(s.up.rx.out[s.served]).value, o)
      && var d := Dealt(s.calls.table, s.up.rx.out[s.served], o);
         && L.Next(e.z, e.cap, s.down, L.Write(F.Message(algo, Reply(d))), t.down)
         && t == s.(calls := s.calls.(runs := s.calls.runs + [d]), down := t.down, served := s.served + 1)
    case Receive =>
      && s.received < |s.down.rx.out| && Package.DecResponse(s.down.rx.out[s.received]).Some?
      && t == s.(received := s.received + 1,
                 calls := Taken(s.calls, Package.DecResponse(s.down.rx.out[s.received]).value))
    case Up(step) => Moves(step) && L.Next(e.z, e.cap, s.up, step, t.up) && t == s.(up := t.up)
    case Down(step) => Moves(step) && L.Next(e.z, e.cap, s.down, step, t.down) && t == s.(down := t.down)
  }

  ghost predicate Run(e: Setting, states: seq<System>, steps: seq<Step>) {
    && |states| == |steps| + 1 && states[0] == IDLE
    && forall i :: 0 <= i < |steps| ==> Next(e, states[i], steps[i], states[i + 1])
  }

  /** A function can be registered, and a fresh call begun, at any time. */
  lemma AlwaysOpen(e: Setting, s: System, name: seq<byte>, id: P.Id, c: P.Call) returns (t: System, u: System)
    requires name in e.sigs && id !in s.calls.called && Callable(e.sigs, id, c.name, c.args)
    ensures Next(e, s, Register(name), t) && t.calls.table == s.calls.table[name := e.sigs[name]]
    ensures Next(e, s, Begin(id, c), u) && u.calls.called == s.calls.called[id := c]
    ensures u.calls.pending == s.calls.pending + {id} && u.calls.unsent == s.calls.unsent + {id}
  {
    t := s.(calls := s.calls.(table := s.calls.table[name := e.sigs[name]]));
    u := s.(calls := P.Begun(s.calls, id, c));
  }

  /** The protocol's view: messages written and not yet handled are in flight. */
  ghost function View(s: System): P.Net
    requires s.served <= |s.up.written| && s.received <= |s.down.written|
  {
    s.calls.(toServer := F.Payloads(s.up.written)[s.served..],
             toClient := F.Payloads(s.down.written)[s.received..])
  }

  ghost predicate Inv(e: Setting, s: System) {
    && L.Inv(e.z, s.up) && L.Inv(e.z, s.down)
    && s.served <= |s.up.rx.out| <= |s.up.written|
    && s.received <= |s.down.rx.out| <= |s.down.written|
    && P.Inv(e.sigs, View(s))
  }

  lemma DeliveredIsWritten(e: Setting, l: L.Link, k: nat)
    requires L.Inv(e.z, l) && k < |l.rx.out|
    ensures k < |l.written| && l.rx.out[k] == F.Payloads(l.written)[k]
  {
    assert l.rx.out == F.Payloads(l.written[..|l.rx.out|]);
  }

  /** Moving bytes changes nothing the protocol sees. */
  lemma MoveKeeps(e: Setting, l: L.Link, step: L.Step, m: L.Link)
    requires F.Lossless(e.z) && L.Inv(e.z, l) && L.Next(e.z, e.cap, l, step, m) && Moves(step)
    ensures L.Inv(e.z, m) && m.written == l.written && l.rx.out <= m.rx.out
  {
    L.StepKeeps(e.z, e.cap, l, step, m);
    L.ParseOnlyAdds(e.z, l.rx);
  }

  /** Writing a message changes nothing but what is written and waiting to be sent. */
  lemma WriteKeeps(e: Setting, l: L.Link, m: F.Message, after: L.Link)
    requires F.Lossless(e.z) && L.Inv(e.z, l) && L.Next(e.z, e.cap, l, L.Write(m), after)
    ensures L.Inv(e.z, after) && after.rx == l.rx
    ensures after.written == l.written + [m]
    ensures F.Payloads(after.written) == F.Payloads(l.written) + [m.payload]
  {
    L.StepKeeps(e.z, e.cap, l, L.Write(m), after);
  }

  lemma AppendAfter(all: seq<seq<byte>>, k: nat, x: seq<byte>)
    requires k <= |all|
    ensures (all + [x])[k..] == all[k..] + [x]
  {
  }

  lemma TransmitKeeps(e: Setting, s: System, id: P.Id, algo: F.Algo, t: System)
    requires F.Lossless(e.z) && Inv(e, s) && Next(e, s, Transmit(id, algo), t)
    ensures Inv(e, t)
  {
    var data := P.RequestBytes(id, s.calls.called[id]);
    WriteKeeps(e, s.up, F.Message(algo, data), t.up);
    AppendAfter(F.Payloads(s.up.written), s.served, data);
    var v := View(s);
    assert View(t) == v.(unsent := v.unsent - {id}, toServer := v.toServer + [data]);
    P.StepKeeps(e.sigs, v, P.Transmit(id), View(t));
  }

  lemma ServeKeeps(e: Setting, s: System, algo: F.Algo, o: Outcome, t: System)
    requires F.Lossless(e.z) && Inv(e, s) && Next(e, s, Serve(algo, o), t)
    ensures Inv(e, t)
  {
    var d := Dealt(s.calls.table, s.up.rx.out[s.served], o);
    WriteKeeps(e, s.down, F.Message(algo, Reply(d)), t.down);
    AppendAfter(F.Payloads(s.down.written), s.received, Reply(d));
    ServedFirst(e, s);
    assert View(t) == P.Served(View(s), 0, d);
    P.StepKeeps(e.sigs, View(s), P.Serve(0, o), View(t));
  }

  /** The request served next is the first in flight. */
  lemma ServedFirst(e: Setting, s: System)
    requires Inv(e, s) && s.served < |s.up.rx.out|
    ensures View(s).toServer != [] && View(s).toServer[0] == s.up.rx.out[s.served]
    ensures P.RemoveAt(View(s).toServer, 0) == F.Payloads(s.up.written)[s.served + 1..]
  {
    DeliveredIsWritten(e, s.up, s.served);
  }

  lemma ReceiveKeeps(e: Setting, s: System, t: System)
    requires F.Lossless(e.z) && Inv(e, s) && Next(e, s, Receive, t)
    ensures Inv(e, t)
  {
    DeliveredIsWritten(e, s.down, s.received);
    var v := View(s);
    assert v.toClient[0] == s.down.rx.out[s.received];
    assert View(t).toClient == P.RemoveAt(v.toClient, 0);
    P.StepKeeps(e.sigs, v, P.Receive(0), View(t));
  }

  lemma StepKeeps(e: Setting, s: System, step: Step, t: System)
    requires F.Lossless(e.z) && Inv(e, s) && Next(e, s, step, t)
    ensures Inv(e, t)
  {
    match step
    case Register(name) => P.StepKeeps(e.sigs, View(s), P.Register(name), View(t));
    case Begin(id, c) => P.StepKeeps(e.sigs, View(s), P.Begin(id, c), View(t));
    case Transmit(id, algo) => TransmitKeeps(e, s, id, algo, t);
    case Serve(algo, o) => ServeKeeps(e, s, algo, o, t);
    case Receive => ReceiveKeeps(e, s, t);
    case Up(move) => MoveKeeps(e, s.up, move, t.up);
    case Down(move) => MoveKeeps(e, s.down, move, t.down);
  }

  lemma IdleInv(e: Setting)
    requires F.Lossless(e.z)
    ensures Inv(e, IDLE)
  {
    L.IdleInv(e.z);
    P.QuietInv(e.sigs);
  }

  lemma RunNext(e: Setting, states: seq<System>, steps: seq<Step>, i: nat)
    requires Run(e, states, steps) && 0 < i < |states|
    ensures Next(e, states[i - 1], steps[i - 1], states[i])
  {
  }

  lemma StartKeeps(e: Setting, states: seq<System>, steps: seq<Step>)
    requires F.Lossless(e.z) && Run(e, states, steps)
    ensures Inv(e, states[0])
  {
    IdleInv(e);
  }

  lemma StepKeepsAt(e: Setting, states: seq<System>, steps: seq<Step>, k: nat, i: nat)
    requires F.Lossless(e.z) && Run(e, states, steps)
    requires k + 1 == i < |states| && Inv(e, states[k])
    ensures Inv(e, states[i])
  {
    RunNext(e, states, steps, i);
    StepKeeps(e, states[k], steps[k], states[i]);
  }

  lemma {:induction false} RunKeeps(e: Setting, states: seq<System>, steps: seq<Step>, i: nat)
    requires F.Lossless(e.z) && Run(e, states, steps) && i < |states|
    ensures Inv(e, states[i])
  {
    if i == 0 {
      StartKeeps(e, states, steps);
    } else {
      var k := i - 1;
      RunKeeps(e, states, steps, k);
      StepKeepsAt(e, states, steps, k, i);
    }
  }

  /** Nothing is waiting anywhere: in the client, on either connection, at either receiver. */
  ghost predicate Settled(e: Setting, s: System) {
    && s.calls.unsent == {}
    && Empty(s.up) && s.served == |s.up.rx.out|
    && Empty(s.down) && s.received == |s.down.rx.out|
  }

  ghost predicate Empty(l: L.Link) {
    !l.crashed && l.flight == [] && l.tx.queue == [] && F.Quiet(l.rx)
  }

  lemma EmptyHasDelivered(e: Setting, l: L.Link)
    requires L.Inv(e.z, l) && Empty(l)
    ensures |l.rx.out| == |l.written|
  {
    var got := L.TakenIn(e.z, l);
    F.QuietHasCutAll(e.z, l.written, got, l.rx);
    assert l.written[..|l.written|] == l.written;
    assert F.Wire(e.z, l.written) == got;
    F.WholeFramesUnique(e.z, l.written, |got|, |l.written|);
  }

  lemma InvResolvedRightly(e: Setting, s: System)
    requires Inv(e, s)
    ensures P.ResolvedRightly(s.calls)
  {
    P.InvResolvedRightly(e.sigs, View(s));
    forall d | d in s.calls.runs ensures P.Faithful(s.calls, d) {
      assert P.Faithful(View(s), d);
    }
  }

  lemma SettledResolved(e: Setting, s: System)
    requires Inv(e, s) && Settled(e, s)
    ensures s.calls.pending == {} && P.Resolved(s.calls) == s.calls.called.Keys
    ensures P.ResolvedRightly(s.calls)
  {
    InvResolvedRightly(e, s);
    EmptyHasDelivered(e, s.up);
    EmptyHasDelivered(e, s.down);
    P.InvNothingLost(e.sigs, View(s));
    P.NonePending(s.calls);
  }

  /** From promise to bytes and back: in every run of the whole stack, whatever the connections do
      and whatever state the functions keep, each call's function runs at most once, on the call's
      own arguments, the call is resolved at most once and only with what that execution came to;
      and once nothing is waiting anywhere, every call has been resolved. */
  lemma CallsComeBack(e: Setting, states: seq<System>, steps: seq<Step>, i: nat)
    requires F.Lossless(e.z) && Run(e, states, steps) && i < |states|
    ensures var s := states[i];
            && P.ResolvedRightly(s.calls)
            && (Settled(e, s) ==> s.calls.pending == {} && P.Resolved(s.calls) == s.calls.called.Keys)
  {
    RunKeeps(e, states, steps, i);
    InvResolvedRightly(e, states[i]);
    if Settled(e, states[i]) { SettledResolved(e, states[i]); }
  }
}
