/** The stack does not get stuck: from exactly those states of a run in which what is still under
    way, and what is still to be sent, fits the rings, there is a way on to the end. */
module Progress {
  import opened Bytes
  import opened Codec
  import opened Rpc
  import opened Stack
  import C = Capacity
  import F = Framing
  import L = Pipeline
  import P = Protocol
  import Package

  // ---------------------------------------------------------------------------------------
  // Neither ring overflows

  /** Reads of at most chunk bytes, each after the last one was cut, on both connections. */
  ghost predicate Disciplined(states: seq<System>, steps: seq<Step>, chunk: nat)
    requires |states| == |steps| + 1
  {
    forall i :: 0 <= i < |steps| ==> Careful(states[i], steps[i], chunk)
  }

  ghost predicate Careful(s: System, step: Step, chunk: nat) {
    match step
    case Up(Read(n)) => n <= chunk && F.Quiet(s.up.rx)
    case Down(Read(n)) => n <= chunk && F.Quiet(s.down.rx)
    case _ => true
  }

  ghost predicate AllWithin(e: Setting, ms: seq<F.Message>, longest: nat) {
    forall m :: m in ms ==> |F.Encode(e.z, m)| <= longest
  }

  lemma StepOnlyWrites(e: Setting, s: System, step: Step, t: System)
    requires Next(e, s, step, t)
    ensures s.up.written <= t.up.written && s.down.written <= t.down.written
  {
  }

  lemma PrefixWithin(e: Setting, a: seq<F.Message>, b: seq<F.Message>, longest: nat)
    requires a <= b && AllWithin(e, b, longest)
    ensures AllWithin(e, a, longest)
  {
    assert forall m :: m in a ==> m in b;
  }

  /** One move of a connection, read with care. */
  lemma LinkNeverCrashes(e: Setting, l: L.Link, step: L.Step, m: L.Link, longest: nat, chunk: nat)
    requires L.Inv(e.z, l) && L.Next(e.z, e.cap, l, step, m) && !l.crashed
    requires step.Read? ==> step.n <= chunk && F.Quiet(l.rx)
    requires AllWithin(e, l.written, longest) && chunk + C.Residue(longest) <= e.cap
    ensures !m.crashed
  {
    if step.Read? { C.ResidueBound(e.z, l.written, L.TakenIn(e.z, l), l.rx, longest); }
  }

  lemma StepNeverCrashes(e: Setting, s: System, step: Step, t: System, longest: nat, chunk: nat)
    requires Inv(e, s) && Next(e, s, step, t) && Careful(s, step, chunk)
    requires !s.up.crashed && !s.down.crashed
    requires AllWithin(e, s.up.written, longest) && AllWithin(e, s.down.written, longest)
    requires chunk + C.Residue(longest) <= e.cap
    ensures !t.up.crashed && !t.down.crashed
  {
    match step
    case Up(move) => LinkNeverCrashes(e, s.up, move, t.up, longest, chunk);
    case Down(move) => LinkNeverCrashes(e, s.down, move, t.down, longest, chunk);
    case _ =>
  }

  /** Read so, in chunks that fit beside the largest residue, neither side's ring ever overflows. */
  lemma {:induction false} RunNeverCrashes(e: Setting, states: seq<System>, steps: seq<Step>,
                                           longest: nat, chunk: nat, i: nat)
    requires F.Lossless(e.z) && Run(e, states, steps) && i < |states|
    requires Disciplined(states, steps, chunk) && chunk + C.Residue(longest) <= e.cap
    requires AllWithin(e, states[i].up.written, longest) && AllWithin(e, states[i].down.written, longest)
    ensures !states[i].up.crashed && !states[i].down.crashed
  {
    if i > 0 {
      var s, t := states[i - 1], states[i];
      RunNext(e, states, steps, i);
      StepOnlyWrites(e, s, steps[i - 1], t);
      PrefixWithin(e, s.up.written, t.up.written, longest);
      PrefixWithin(e, s.down.written, t.down.written, longest);
      RunNeverCrashes(e, states, steps, longest, chunk, i - 1);
      Stack.RunKeeps(e, states, steps, i - 1);
      StepNeverCrashes(e, s, steps[i - 1], t, longest, chunk);
    }
  }

  // ---------------------------------------------------------------------------------------
  // The work left

  function LinkWork(l: L.Link): nat
    requires L.WellFormed(l.tx)
  {
    3 * |L.Unsent(l.tx)| + 2 * |l.flight| + (if F.Quiet(l.rx) then 0 else 1)
  }

  /** Requests to send, to serve, responses to take, and bytes to move. */
  datatype Work = Work(unsent: nat, unserved: nat, unreceived: nat, moving: nat)

  predicate Lower(a: Work, b: Work) {
    || a.unsent < b.unsent
    || (a.unsent == b.unsent && (
        || a.unserved < b.unserved
        || (a.unserved == b.unserved && (
            || a.unreceived < b.unreceived
            || (a.unreceived == b.unreceived && a.moving < b.moving)))))
  }

  function WorkOf(s: System): Work
    requires L.WellFormed(s.up.tx) && L.WellFormed(s.down.tx)
    requires s.served <= |s.up.written| && s.received <= |s.down.written|
  {
    Work(|s.calls.unsent|, |s.up.written| - s.served, |s.down.written| - s.received,
         LinkWork(s.up) + LinkWork(s.down))
  }

  /** A move that does something: bytes sent or read, or a frame or header to cut. */
  predicate MovesOn(l: L.Link, step: L.Step) {
    match step
    case Write(_) => false
    case Send(n) => n > 0
    case Read(n) => n > 0
    case Cut => !F.Quiet(l.rx)
  }

  /** Any step but a registration, a new call and an idle move. */
  predicate Advances(s: System, step: Step) {
    match step
    case Register(_) => false
    case Begin(_, _) => false
    case Up(move) => MovesOn(s.up, move)
    case Down(move) => MovesOn(s.down, move)
    case _ => true
  }

  lemma MoveLowers(e: Setting, l: L.Link, step: L.Step, m: L.Link)
    requires F.Lossless(e.z) && L.Inv(e.z, l) && L.Next(e.z, e.cap, l, step, m) && MovesOn(l, step)
    ensures L.WellFormed(m.tx) && LinkWork(m) < LinkWork(l)
  {
    L.StepKeeps(e.z, e.cap, l, step, m);
    match step
    case Send(n) => L.AcceptConserves(l.tx, n);
    case Read(n) =>
    case Cut => F.ParseQuiet(e.z, l.rx);
  }

  lemma TransmitLowers(e: Setting, s: System, id: P.Id, algo: F.Algo, t: System)
    requires Inv(e, s) && Inv(e, t) && Next(e, s, Transmit(id, algo), t)
    ensures Lower(WorkOf(t), WorkOf(s))
  {
    OneFewer(s.calls.unsent, id);
  }

  lemma OneFewer(ids: set<P.Id>, id: P.Id)
    requires id in ids
    ensures |ids - {id}| < |ids|
  {
    assert ids == (ids - {id}) + {id};
  }

  lemma ServeLowers(e: Setting, s: System, algo: F.Algo, o: Outcome, t: System)
    requires Inv(e, s) && Inv(e, t) && Next(e, s, Serve(algo, o), t)
    ensures Lower(WorkOf(t), WorkOf(s))
  {
    assert t.up == s.up && t.calls.unsent == s.calls.unsent && t.served == s.served + 1;
  }

  lemma ReceiveLowers(e: Setting, s: System, t: System)
    requires Inv(e, s) && Inv(e, t) && Next(e, s, Receive, t)
    ensures Lower(WorkOf(t), WorkOf(s))
  {
    assert t.up == s.up && t.down == s.down && t.calls.unsent == s.calls.unsent && t.received == s.received + 1;
  }

  lemma UpLowers(e: Setting, s: System, move: L.Step, t: System)
    requires F.Lossless(e.z) && Inv(e, s) && Inv(e, t) && Next(e, s, Up(move), t) && MovesOn(s.up, move)
    ensures Lower(WorkOf(t), WorkOf(s))
  {
    MoveLowers(e, s.up, move, t.up);
    MoveKeeps(e, s.up, move, t.up);
  }

  lemma DownLowers(e: Setting, s: System, move: L.Step, t: System)
    requires F.Lossless(e.z) && Inv(e, s) && Inv(e, t) && Next(e, s, Down(move), t) && MovesOn(s.down, move)
    ensures Lower(WorkOf(t), WorkOf(s))
  {
    MoveLowers(e, s.down, move, t.down);
    MoveKeeps(e, s.down, move, t.down);
  }

  /** Whoever is scheduled next: every such step lowers the work left, so between two new calls
      only so many can be taken. */
  lemma StepLowers(e: Setting, s: System, step: Step, t: System)
    requires F.Lossless(e.z) && Inv(e, s) && Next(e, s, step, t) && Advances(s, step)
    ensures Inv(e, t) && Lower(WorkOf(t), WorkOf(s))
  {
    Stack.StepKeeps(e, s, step, t);
    match step
    case Transmit(id, algo) => TransmitLowers(e, s, id, algo, t);
    case Serve(algo, o) => ServeLowers(e, s, algo, o, t);
    case Receive => ReceiveLowers(e, s, t);
    case Up(move) => UpLowers(e, s, move, t);
    case Down(move) => DownLowers(e, s, move, t);
  }

  // ---------------------------------------------------------------------------------------
  // What has to fit

  predicate FitsAs(e: Setting, algo: F.Algo, data: seq<byte>) {
    var size := |F.Encode(e.z, F.Message(algo, data))|;
    size <= e.cap && size < TWO_31
  }

  /** Compressed or not, it fits the ring. */
  ghost predicate FitsSomehow(e: Setting, data: seq<byte>) {
    exists algo :: FitsAs(e, algo, data)
  }

  /** Every frame not yet delivered fits the ring, which still takes bytes. */
  ghost predicate LinkFits(e: Setting, l: L.Link) {
    forall k :: |l.rx.out| <= k < |l.written| ==> !l.crashed && |F.Encode(e.z, l.written[k])| <= e.cap
  }

  ghost predicate RequestsFit(e: Setting, s: System) {
    forall id :: id in s.calls.unsent && id in s.calls.called ==>
      !s.up.crashed && FitsSomehow(e, P.RequestBytes(id, s.calls.called[id]))
  }

  /** The server has yet to deal with this call. */
  ghost predicate Undealt(calls: P.Net, id: P.Id) {
    id in calls.pending && id in calls.called && forall d :: d in calls.runs ==> d.id != id
  }

  function DispatchFor(calls: P.Net, id: P.Id, o: Outcome): Dispatch
    requires id in calls.called
  {
    var c := calls.called[id];
    if c.name in calls.table then Ran(id, c.name, MeaningAll(c.args), o) else Missed(id, c.name)
  }

  /** Should its function come to o, the answer fits. */
  ghost predicate AnswerFits(e: Setting, s: System, id: P.Id, o: Outcome)
    requires id in s.calls.called
  {
    var name := s.calls.called[id].name;
    && (name in s.calls.table ==> Behaves(s.calls.table[name], o))
    && !s.down.crashed && FitsSomehow(e, Reply(DispatchFor(s.calls, id, o)))
  }

  ghost predicate MessagesFit(e: Setting, s: System) {
    LinkFits(e, s.up) && LinkFits(e, s.down) && RequestsFit(e, s)
  }

  /** What is under way fits, and so may what is still to be sent. */
  ghost predicate Fits(e: Setting, s: System) {
    MessagesFit(e, s) && forall id :: Undealt(s.calls, id) ==> exists o :: AnswerFits(e, s, id, o)
  }

  /** What the functions come to, given everything that was run before: they may keep any state. */
  type Server = (seq<Dispatch>, P.Id, seq<byte>, seq<Val>) -> Outcome

  /** The same, whatever this server's functions come to. */
  ghost predicate FitsUnder(e: Setting, s: System, server: Server) {
    && MessagesFit(e, s)
    && forall id, before :: Undealt(s.calls, id) ==>
         AnswerFits(e, s, id, OutcomeUnder(s.calls, id, before, server))
  }

  function OutcomeUnder(calls: P.Net, id: P.Id, before: seq<Dispatch>, server: Server): Outcome
    requires id in calls.called
  {
    server(before, id, calls.called[id].name, MeaningAll(calls.called[id].args))
  }

  /** From place from on, the functions came to what this server's come to. */
  ghost predicate Obeys(server: Server, runs: seq<Dispatch>, from: nat) {
    forall k :: from <= k < |runs| && runs[k].Ran? ==>
      runs[k].outcome == server(runs[..k], runs[k].id, runs[k].name, runs[k].args)
  }

  // ---------------------------------------------------------------------------------------
  // While a call is pending, some step can be taken

  /** A connection with bytes to move has a move to make that does not overflow the ring. */
  lemma LinkCanMove(e: Setting, l: L.Link) returns (step: L.Step, m: L.Link)
    requires F.Lossless(e.z) && L.Inv(e.z, l) && LinkFits(e, l) && e.cap > F.HEAD_LENGTH
    requires |l.rx.out| < |l.written|
    ensures L.Next(e.z, e.cap, l, step, m) && Moves(step) && MovesOn(l, step)
    ensures L.Inv(e.z, m) && m.written == l.written && LinkFits(e, m) && m.crashed == l.crashed
  {
    assert !l.crashed && !Empty(l) by {
      if Empty(l) { EmptyHasDelivered(e, l); }
    }
    if !F.Quiet(l.rx) {
      step, m := L.Cut, l.(rx := F.Parse(e.z, l.rx));
    } else if l.flight != [] {
      step, m := L.Read(1), l.(flight := l.flight[1..], rx := F.Feed(l.rx, l.flight[..1]));
    } else {
      var n := |l.tx.queue[0]| - l.tx.offset;
      assert l.tx.queue[0] in l.tx.queue;
      step, m := L.Send(n), l.(tx := L.Accept(l.tx, n), flight := l.flight + L.Taken(l.tx, n));
    }
    MoveKeeps(e, l, step, m);
  }

  lemma WriteFits(e: Setting, l: L.Link, data: seq<byte>) returns (algo: F.Algo, m: L.Link)
    requires L.Inv(e.z, l) && LinkFits(e, l) && !l.crashed && FitsSomehow(e, data)
    ensures L.Next(e.z, e.cap, l, L.Write(F.Message(algo, data)), m)
    ensures LinkFits(e, m) && m.crashed == l.crashed
  {
    algo :| FitsAs(e, algo, data);
    var msg := F.Message(algo, data);
    m := l.(written := l.written + [msg], tx := L.Push(l.tx, F.Frame(F.Encode(e.z, msg))));
  }

  /** A request in flight is of a call not yet dealt with. */
  lemma InFlightUndealt(sigs: Signatures, v: P.Net, i: nat)
    requires P.Inv(sigs, v) && i < |v.toServer|
    ensures Undealt(v, P.RequestId(v.toServer[i]))
  {
    var id := P.RequestId(v.toServer[i]);
    P.ServeRight(sigs, v, i, Nothing);
    P.IdsAt(v.toServer, i, P.RequestId);
    P.InFlightIsPending(sigs, v, id);
    assert P.Whereabouts(v)[id] <= 1;
    assert multiset(P.Ids(v.toServer, P.RequestId))[id] >= 1;
    assert multiset(P.Ids(v.runs, P.RunId))[id] == 0;
    forall d | d in v.runs ensures d.id != id {
      var k :| 0 <= k < |v.runs| && v.runs[k] == d;
      P.IdsAt(v.runs, k, P.RunId);
    }
  }

  lemma CanTransmit(e: Setting, s: System, id: P.Id, server: Server) returns (step: Step, t: System)
    requires Inv(e, s) && FitsUnder(e, s, server) && id in s.calls.unsent
    ensures Next(e, s, step, t) && Advances(s, step) && FitsUnder(e, t, server)
    ensures t.calls.called == s.calls.called && t.calls.runs == s.calls.runs
  {
    P.InFlightIsPending(e.sigs, View(s), id);
    var algo, up := WriteFits(e, s.up, P.RequestBytes(id, s.calls.called[id]));
    step, t := Transmit(id, algo), s.(calls := s.calls.(unsent := s.calls.unsent - {id}), up := up);
    SameAnswers(e, s, t, server);
  }

  /** What is still to be dealt with is answered as before. */
  lemma SameAnswers(e: Setting, s: System, t: System, server: Server)
    requires FitsUnder(e, s, server) && MessagesFit(e, t) && t.down.crashed == s.down.crashed
    requires t.calls.called == s.calls.called && t.calls.table == s.calls.table
    requires t.calls.pending <= s.calls.pending && s.calls.runs <= t.calls.runs
    ensures FitsUnder(e, t, server)
  {
    forall id, before | Undealt(t.calls, id)
      ensures AnswerFits(e, t, id, OutcomeUnder(t.calls, id, before, server))
    {
      assert Undealt(s.calls, id);
      assert AnswerFits(e, s, id, OutcomeUnder(s.calls, id, before, server));
    }
  }

  lemma CanServe(e: Setting, s: System, server: Server) returns (step: Step, t: System, d: Dispatch)
    requires Inv(e, s) && FitsUnder(e, s, server) && s.served < |s.up.rx.out|
    ensures Next(e, s, step, t) && Advances(s, step) && FitsUnder(e, t, server)
    ensures t.calls.called == s.calls.called && t.calls.runs == s.calls.runs + [d]
    ensures d.Ran? ==> d.outcome == server(s.calls.runs, d.id, d.name, d.args)
  {
    ServedFirst(e, s);
    var v, data := View(s), s.up.rx.out[s.served];
    var id := P.RequestId(data);
    InFlightUndealt(e.sigs, v, 0);
    assert Undealt(s.calls, id);
    var o := OutcomeUnder(s.calls, id, s.calls.runs, server);
    assert AnswerFits(e, s, id, o);
    d := DispatchFor(s.calls, id, o);
    ServedAs(e, s, id, o);
    var algo, down := WriteFits(e, s.down, Reply(d));
    step := Serve(algo, o);
    t := s.(calls := s.calls.(runs := s.calls.runs + [d]), down := down, served := s.served + 1);
    SameAnswers(e, s, t, server);
  }

  lemma ServedAs(e: Setting, s: System, id: P.Id, o: Outcome)
    requires Inv(e, s) && s.served < |s.up.rx.out| && id == P.RequestId(s.up.rx.out[s.served])
    ensures id in s.calls.called && P.Servable(s.calls.table, s.up.rx.out[s.served])
    ensures Dealt(s.calls.table, s.up.rx.out[s.served], o) == DispatchFor(s.calls, id, o)
    ensures var name := s.calls.called[id].name;
            Obliging(s.calls.table, Package.DecRequest(s.up.rx.out[s.served]).value, o)
            <==> (name in s.calls.table ==> Behaves(s.calls.table[name], o))
  {
    ServedFirst(e, s);
    P.ServeRight(e.sigs, View(s), 0, o);
    var c := s.calls.called[id];
    RequestComesBack(e.sigs, s.calls.table, id, c.name, c.args);
  }

  lemma CanReceive(e: Setting, s: System, server: Server) returns (t: System)
    requires Inv(e, s) && FitsUnder(e, s, server) && s.received < |s.down.rx.out|
    ensures Next(e, s, Receive, t) && FitsUnder(e, t, server)
    ensures t.calls.called == s.calls.called && t.calls.runs == s.calls.runs
  {
    DeliveredIsWritten(e, s.down, s.received);
    P.InvNothingLost(e.sigs, View(s));
    assert View(s).toClient[0] == s.down.rx.out[s.received];
    t := s.(received := s.received + 1,
            calls := Taken(s.calls, Package.DecResponse(s.down.rx.out[s.received]).value));
    SameAnswers(e, s, t, server);
  }

  lemma SomeId(ids: set<P.Id>) returns (id: P.Id)
    requires ids != {}
    ensures id in ids
  {
    id :| id in ids;
  }

  /** With nothing to send, to handle or to deliver, no call is pending. */
  lemma NothingPending(e: Setting, s: System)
    requires Inv(e, s) && s.calls.unsent == {}
    requires s.served == |s.up.written| && s.received == |s.down.written|
    ensures s.calls.pending == {}
  {
    P.InvNothingLost(e.sigs, View(s));
  }

  /** No deadlock: while a call is pending, some step lowers the work left and overflows nothing,
      whatever the functions come to. */
  lemma CanStep(e: Setting, s: System, server: Server) returns (step: Step, t: System)
    requires F.Lossless(e.z) && e.cap > F.HEAD_LENGTH
    requires Inv(e, s) && FitsUnder(e, s, server) && s.calls.pending != {}
    ensures Next(e, s, step, t) && Advances(s, step) && FitsUnder(e, t, server)
    ensures t.calls.called == s.calls.called && s.calls.runs <= t.calls.runs
    ensures Obeys(server, t.calls.runs, |s.calls.runs|)
  {
    if s.calls.unsent != {} {
      var id := SomeId(s.calls.unsent);
      step, t := CanTransmit(e, s, id, server);
    } else if s.served < |s.up.rx.out| {
      var d;
      step, t, d := CanServe(e, s, server);
      assert t.calls.runs[..|s.calls.runs|] == s.calls.runs;
    } else if s.received < |s.down.rx.out| {
      step := Receive;
      t := CanReceive(e, s, server);
    } else {
      step, t := CanMove(e, s, server);
    }
  }

  lemma CanMove(e: Setting, s: System, server: Server) returns (step: Step, t: System)
    requires F.Lossless(e.z) && e.cap > F.HEAD_LENGTH
    requires Inv(e, s) && FitsUnder(e, s, server) && s.calls.pending != {} && s.calls.unsent == {}
    requires s.served == |s.up.rx.out| && s.received == |s.down.rx.out|
    ensures Next(e, s, step, t) && Advances(s, step) && FitsUnder(e, t, server) && t.calls == s.calls
  {
    if |s.up.rx.out| < |s.up.written| {
      var move, up := LinkCanMove(e, s.up);
      step, t := Up(move), s.(up := up);
    } else {
      if |s.down.rx.out| == |s.down.written| { NothingPending(e, s); }
      var move, down := LinkCanMove(e, s.down);
      step, t := Down(move), s.(down := down);
    }
    SameAnswers(e, s, t, server);
  }

  // ---------------------------------------------------------------------------------------
  // So every call can come back

  /** A step that is no registration and no new call. */
  ghost predicate GoesOn(e: Setting, s: System, step: Step, t: System) {
    Next(e, s, step, t) && !step.Register? && !step.Begin?
  }

  ghost predicate OneOn(e: Setting, s: System, t: System) {
    exists step :: GoesOn(e, s, step, t)
  }

  /** n such steps go from s to t. */
  ghost predicate LeadsIn(e: Setting, s: System, t: System, n: nat)
    decreases n
  {
    if n == 0 then s == t else exists m :: OneOn(e, s, m) && LeadsIn(e, m, t, n - 1)
  }

  ghost predicate Leads(e: Setting, s: System, t: System) {
    exists n: nat :: LeadsIn(e, s, t, n)
  }

  lemma LeadsSelf(e: Setting, s: System)
    ensures Leads(e, s, s)
  {
    assert LeadsIn(e, s, s, 0);
  }

  lemma LeadsCons(e: Setting, s: System, step: Step, t: System, u: System)
    requires GoesOn(e, s, step, t) && Leads(e, t, u)
    ensures Leads(e, s, u)
  {
    var n: nat :| LeadsIn(e, t, u, n);
    assert OneOn(e, s, t);
    assert LeadsIn(e, s, u, n + 1);
  }

  /** On the way, with so much work left. */
  ghost predicate Underway(e: Setting, s: System, server: Server, w: Work) {
    Inv(e, s) && FitsUnder(e, s, server) && w == WorkOf(s)
  }

  lemma Advance(e: Setting, s: System, server: Server, w: Work) returns (step: Step, t: System, v: Work)
    requires F.Lossless(e.z) && e.cap > F.HEAD_LENGTH && Underway(e, s, server, w) && s.calls.pending != {}
    ensures GoesOn(e, s, step, t) && Underway(e, t, server, v) && Lower(v, w)
    ensures t.calls.called == s.calls.called && s.calls.runs <= t.calls.runs
    ensures Obeys(server, t.calls.runs, |s.calls.runs|)
  {
    step, t := CanStep(e, s, server);
    StepLowers(e, s, step, t);
    v := WorkOf(t);
  }

  lemma ObeysOn(server: Server, runs: seq<Dispatch>, mid: seq<Dispatch>, from: nat)
    requires mid <= runs && Obeys(server, mid, from) && Obeys(server, runs, |mid|)
    ensures Obeys(server, runs, from)
  {
    forall k | from <= k < |runs| && runs[k].Ran?
      ensures runs[k].outcome == server(runs[..k], runs[k].id, runs[k].name, runs[k].args)
    {
      if k < |mid| { assert runs[k] == mid[k] && runs[..k] == mid[..k]; }
    }
  }

  lemma {:induction false} WayOn(e: Setting, s: System, server: Server, w: Work) returns (u: System)
    requires F.Lossless(e.z) && e.cap > F.HEAD_LENGTH && Underway(e, s, server, w)
    ensures Leads(e, s, u) && Inv(e, u) && u.calls.pending == {} && u.calls.called == s.calls.called
    ensures s.calls.runs <= u.calls.runs && Obeys(server, u.calls.runs, |s.calls.runs|)
    decreases w.unsent, w.unserved, w.unreceived, w.moving
  {
    if s.calls.pending == {} {
      u := s;
      LeadsSelf(e, s);
    } else {
      var step, t, v := Advance(e, s, server, w);
      u := WayOn(e, t, server, v);
      LeadsCons(e, s, step, t, u);
      ObeysOn(server, u.calls.runs, t.calls.runs, |s.calls.runs|);
    }
  }

  /** Whatever state the server's functions keep: from every state of every run in which what is
      under way fits, and the answers will, the run can go on without new calls to one in which
      every call has been resolved. */
  lemma EveryCallCanComeBack(e: Setting, states: seq<System>, steps: seq<Step>, i: nat, server: Server)
    returns (u: System)
    requires F.Lossless(e.z) && e.cap > F.HEAD_LENGTH && Run(e, states, steps) && i < |states|
    requires FitsUnder(e, states[i], server)
    ensures Leads(e, states[i], u) && u.calls.called == states[i].calls.called
    ensures states[i].calls.runs <= u.calls.runs && Obeys(server, u.calls.runs, |states[i].calls.runs|)
    ensures P.ResolvedRightly(u.calls) && u.calls.pending == {} && P.Resolved(u.calls) == u.calls.called.Keys
  {
    Stack.RunKeeps(e, states, steps, i);
    u := WayOn(e, states[i], server, WorkOf(states[i]));
    InvResolvedRightly(e, u);
    P.NonePending(u.calls);
  }

  // ---------------------------------------------------------------------------------------
  // And only from such states

  ghost predicate RingsIn(e: Setting, s: System) {
    |s.up.rx.ring| <= e.cap && |s.down.rx.ring| <= e.cap
  }

  /** A body that parsing delivers was in the ring. */
  lemma {:induction false} DeliveredFit(z: F.Compressor, ms: seq<F.Message>, got: seq<byte>, s: F.Receiver, cap: nat)
    requires F.Lossless(z) && F.Sendable(z, ms) && F.Holds(z, ms, got, s) && |s.ring| <= cap
    ensures |F.Parse(z, s).ring| <= |s.ring| && |F.Parse(z, s).out| <= |ms|
    ensures forall k :: |s.out| <= k < |F.Parse(z, s).out| ==> |F.Encode(z, ms[k])| <= cap
    decreases |s.ring|, 1
  {
    F.ParseHolds(z, ms, got, s);
    if s.pending != 0 {
      BodyFit(z, ms, got, s, cap);
    } else if |s.ring| > F.HEAD_LENGTH {
      F.TakeHeadHolds(z, ms, got, s);
      BodyFit(z, ms, got, F.TakeHead(s), cap);
    }
  }

  lemma {:induction false} BodyFit(z: F.Compressor, ms: seq<F.Message>, got: seq<byte>, s: F.Receiver, cap: nat)
    requires F.Lossless(z) && F.Sendable(z, ms) && F.Holds(z, ms, got, s) && s.pending > 0 && |s.ring| <= cap
    ensures |F.TakeBody(z, s).ring| <= |s.ring| && |F.TakeBody(z, s).out| <= |ms|
    ensures forall k :: |s.out| <= k < |F.TakeBody(z, s).out| ==> |F.Encode(z, ms[k])| <= cap
    decreases |s.ring|, 0
  {
    if |s.ring| >= s.pending {
      F.TakeBodyNextHolds(z, ms, got, s);
      DeliveredFit(z, ms, got, F.TakeBodyNext(z, s), cap);
    }
  }

  lemma LinkRingIn(e: Setting, l: L.Link, step: L.Step, m: L.Link)
    requires F.Lossless(e.z) && L.Inv(e.z, l) && L.Next(e.z, e.cap, l, step, m) && |l.rx.ring| <= e.cap
    ensures |m.rx.ring| <= e.cap
  {
    if step.Cut? { DeliveredFit(e.z, l.written, L.TakenIn(e.z, l), l.rx, e.cap); }
  }

  /** What fits after a move fitted before it. */
  lemma LinkFitsBack(e: Setting, l: L.Link, step: L.Step, m: L.Link)
    requires F.Lossless(e.z) && L.Inv(e.z, l) && L.Next(e.z, e.cap, l, step, m) && |l.rx.ring| <= e.cap
    requires LinkFits(e, m)
    ensures LinkFits(e, l)
  {
    if step.Cut? { DeliveredFit(e.z, l.written, L.TakenIn(e.z, l), l.rx, e.cap); }
    forall k | |l.rx.out| <= k < |l.written|
      ensures !l.crashed && |F.Encode(e.z, l.written[k])| <= e.cap
    {
      assert m.written[k] == l.written[k];
    }
  }

  ghost predicate Sound(e: Setting, s: System) {
    Inv(e, s) && RingsIn(e, s)
  }

  lemma StepSound(e: Setting, s: System, step: Step, t: System)
    requires F.Lossless(e.z) && Sound(e, s) && Next(e, s, step, t)
    ensures Sound(e, t)
  {
    Stack.StepKeeps(e, s, step, t);
    match step
    case Up(move) => LinkRingIn(e, s.up, move, t.up);
    case Down(move) => LinkRingIn(e, s.down, move, t.down);
    case _ =>
  }

  lemma {:induction false} RunSound(e: Setting, states: seq<System>, steps: seq<Step>, i: nat)
    requires F.Lossless(e.z) && Run(e, states, steps) && i < |states|
    ensures Sound(e, states[i])
  {
    Stack.RunKeeps(e, states, steps, i);
    if i > 0 {
      RunSound(e, states, steps, i - 1);
      RunNext(e, states, steps, i);
      StepSound(e, states[i - 1], steps[i - 1], states[i]);
    }
  }

  /** A frame just written is under way: that it fits says that its message does. */
  lemma WrittenFits(e: Setting, l: L.Link, algo: F.Algo, data: seq<byte>, m: L.Link)
    requires L.Inv(e.z, l) && L.Next(e.z, e.cap, l, L.Write(F.Message(algo, data)), m) && LinkFits(e, m)
    ensures LinkFits(e, l) && !l.crashed && FitsSomehow(e, data)
  {
    var k := |l.written|;
    assert m.written[k] == F.Message(algo, data);
    assert FitsAs(e, algo, data);
    forall j | |l.rx.out| <= j < |l.written|
      ensures !l.crashed && |F.Encode(e.z, l.written[j])| <= e.cap
    {
      assert m.written[j] == l.written[j];
    }
  }

  /** What was still to be dealt with after a step could be answered before it. */
  lemma AnswersBack(e: Setting, s: System, t: System)
    requires forall id :: Undealt(t.calls, id) ==> exists o :: AnswerFits(e, t, id, o)
    requires t.calls.called == s.calls.called && t.calls.table == s.calls.table
    requires s.down.crashed ==> t.down.crashed
    ensures forall id :: Undealt(t.calls, id) ==> exists o :: AnswerFits(e, s, id, o)
  {
    forall id | Undealt(t.calls, id)
      ensures exists o :: AnswerFits(e, s, id, o)
    {
      var o :| AnswerFits(e, t, id, o);
      assert AnswerFits(e, s, id, o);
    }
  }

  lemma TransmitBack(e: Setting, s: System, id: P.Id, algo: F.Algo, t: System)
    requires Sound(e, s) && Next(e, s, Transmit(id, algo), t) && Fits(e, t)
    ensures Fits(e, s)
  {
    WrittenFits(e, s.up, algo, P.RequestBytes(id, s.calls.called[id]), t.up);
    AnswersBack(e, s, t);
    forall other | Undealt(s.calls, other) ensures Undealt(t.calls, other) {}
    OthersFit(e, s, t);
  }

  lemma ServeBack(e: Setting, s: System, algo: F.Algo, o: Outcome, t: System)
    requires Sound(e, s) && Next(e, s, Serve(algo, o), t) && Fits(e, t)
    ensures Fits(e, s)
  {
    var id := P.RequestId(s.up.rx.out[s.served]);
    var d := Dealt(s.calls.table, s.up.rx.out[s.served], o);
    ServedAs(e, s, id, o);
    WrittenFits(e, s.down, algo, Reply(d), t.down);
    AnswersBack(e, s, t);
    assert AnswerFits(e, s, id, o);
    forall other | Undealt(s.calls, other) && other != id ensures Undealt(t.calls, other) {}
    OthersFit(e, s, t);
  }

  /** A response delivered is of a call dealt with. */
  lemma DeliveredDealt(e: Setting, s: System)
    requires Inv(e, s) && s.received < |s.down.rx.out|
    ensures var r := Package.DecResponse(s.down.rx.out[s.received]); r.Some? && !Undealt(s.calls, r.value.id)
  {
    DeliveredIsWritten(e, s.down, s.received);
    assert View(s).toClient[0] == s.down.rx.out[s.received];
    assert P.ResponseInFlight(View(s), View(s).toClient[0]);
  }

  /** Every call to be dealt with before a step is still so after it, but for one that some answer fits. */
  lemma OthersFit(e: Setting, s: System, t: System)
    requires MessagesFit(e, s) && t.calls.called == s.calls.called
    requires forall id :: Undealt(t.calls, id) ==> exists o :: AnswerFits(e, s, id, o)
    requires forall id :: Undealt(s.calls, id) && !Undealt(t.calls, id) ==> exists o :: AnswerFits(e, s, id, o)
    ensures Fits(e, s)
  {
  }

  lemma ReceiveBack(e: Setting, s: System, t: System)
    requires Sound(e, s) && Next(e, s, Receive, t) && Fits(e, t)
    ensures Fits(e, s)
  {
    DeliveredDealt(e, s);
    AnswersBack(e, s, t);
    forall id | Undealt(s.calls, id) ensures Undealt(t.calls, id) {}
    OthersFit(e, s, t);
  }

  lemma MoveBack(e: Setting, s: System, step: Step, t: System)
    requires F.Lossless(e.z) && Sound(e, s) && Next(e, s, step, t) && (step.Up? || step.Down?) && Fits(e, t)
    ensures Fits(e, s)
  {
    match step {
      case Up(move) => LinkFitsBack(e, s.up, move, t.up);
      case Down(move) => LinkFitsBack(e, s.down, move, t.down);
    }
    AnswersBack(e, s, t);
  }

  lemma StepBack(e: Setting, s: System, step: Step, t: System)
    requires F.Lossless(e.z) && Sound(e, s) && GoesOn(e, s, step, t) && Fits(e, t)
    ensures Fits(e, s)
  {
    match step
    case Transmit(id, algo) => TransmitBack(e, s, id, algo, t);
    case Serve(algo, o) => ServeBack(e, s, algo, o, t);
    case Receive => ReceiveBack(e, s, t);
    case Up(_) => MoveBack(e, s, step, t);
    case Down(_) => MoveBack(e, s, step, t);
  }

  lemma InFlightPending(sigs: Signatures, v: P.Net)
    requires P.Inv(sigs, v)
    ensures v.unsent != {} || v.toServer != [] || v.toClient != [] ==> v.pending != {}
  {
    P.InvNothingLost(sigs, v);
    if v.unsent != {} {
      var id := SomeId(v.unsent);
      P.InFlightIsPending(sigs, v, id);
    }
    if v.toServer != [] { InFlightUndealt(sigs, v, 0); }
    if v.toClient != [] { assert Package.DecResponse(v.toClient[0]).value.id in v.pending; }
  }

  /** With no call pending nothing is under way. */
  lemma DoneFits(e: Setting, s: System)
    requires Inv(e, s) && s.calls.pending == {}
    ensures Fits(e, s)
  {
    InFlightPending(e.sigs, View(s));
    assert |View(s).toServer| == |s.up.written| - s.served;
    assert |View(s).toClient| == |s.down.written| - s.received;
  }

  /** n steps go from s to u, in which no call is pending. */
  ghost predicate Resolves(e: Setting, s: System, u: System, n: nat) {
    LeadsIn(e, s, u, n) && u.calls.pending == {}
  }

  lemma FirstOn(e: Setting, s: System, u: System, n: nat) returns (m: System, k: nat)
    requires n > 0 && Resolves(e, s, u, n)
    ensures OneOn(e, s, m) && k < n && Resolves(e, m, u, k)
  {
    k := n - 1;
    m :| OneOn(e, s, m) && LeadsIn(e, m, u, n - 1);
  }

  /** Back from the end of a way on, step by step. */
  lemma {:induction false} WayBack(e: Setting, s: System, u: System, n: nat)
    requires F.Lossless(e.z) && Sound(e, s) && Resolves(e, s, u, n)
    ensures Fits(e, s)
    decreases n
  {
    if n == 0 {
      DoneFits(e, s);
    } else {
      var m, k := FirstOn(e, s, u, n);
      OneSound(e, s, m);
      WayBack(e, m, u, k);
      OneBack(e, s, m);
    }
  }

  lemma OneSound(e: Setting, s: System, t: System)
    requires F.Lossless(e.z) && Sound(e, s) && OneOn(e, s, t)
    ensures Sound(e, t)
  {
    var step :| GoesOn(e, s, step, t);
    StepSound(e, s, step, t);
  }

  lemma OneBack(e: Setting, s: System, t: System)
    requires F.Lossless(e.z) && Sound(e, s) && OneOn(e, s, t) && Fits(e, t)
    ensures Fits(e, s)
  {
    var step :| GoesOn(e, s, step, t);
    StepBack(e, s, step, t);
  }

  /** Some way on resolves every call. */
  ghost predicate Resolvable(e: Setting, s: System) {
    exists u :: Leads(e, s, u) && u.calls.pending == {}
  }

  /** An outcome whose answer fits, for each call yet to be dealt with. */
  lemma Plan(e: Setting, s: System) returns (server: Server)
    requires Fits(e, s)
    ensures FitsUnder(e, s, server)
  {
    var plan := map id | id in s.calls.pending && Undealt(s.calls, id) :: FittingOutcome(e, s, id);
    server := (_, id, _, _) => if id in plan then plan[id] else Nothing;
    forall id, before | Undealt(s.calls, id)
      ensures AnswerFits(e, s, id, OutcomeUnder(s.calls, id, before, server))
    {
      assert OutcomeUnder(s.calls, id, before, server) == FittingOutcome(e, s, id);
    }
  }

  ghost function FittingOutcome(e: Setting, s: System, id: P.Id): (o: Outcome)
    requires id in s.calls.called && exists o :: AnswerFits(e, s, id, o)
    ensures AnswerFits(e, s, id, o)
  {
    var o :| AnswerFits(e, s, id, o);
    o
  }

  /** In every state of every run: some way on without new calls resolves every call exactly when
      what is under way fits the rings, and so do what is still to be sent and some answer to each
      call yet to be dealt with, compressed or not, where no ring in their way has overflowed. */
  lemma ResolvableIff(e: Setting, states: seq<System>, steps: seq<Step>, i: nat)
    requires F.Lossless(e.z) && e.cap > F.HEAD_LENGTH && Run(e, states, steps) && i < |states|
    ensures Resolvable(e, states[i]) <==> Fits(e, states[i])
  {
    var s := states[i];
    RunSound(e, states, steps, i);
    if Fits(e, s) {
      var server := Plan(e, s);
      var u := EveryCallCanComeBack(e, states, steps, i, server);
    }
    if Resolvable(e, s) {
      var u :| Leads(e, s, u) && u.calls.pending == {};
      var n: nat :| LeadsIn(e, s, u, n);
      WayBack(e, s, u, n);
    }
  }
}
