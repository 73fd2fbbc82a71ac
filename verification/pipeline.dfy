/** The whole byte pipeline as a step system: frames queue at the sender (Core/Channel.cpp), a
    socket accepts any part of them at a time (Tcp_Server::try_send), the network hands over any
    part of what is in flight (Tcp_Server::read_data), the receiver cuts frames out again. */
module Pipeline {
  import opened Bytes
  import opened Framing
  import opened Capacity

  // ---------------------------------------------------------------------------------------
  // The send queue

  /** Queued frames, the first of which has gone out up to offset. */
  datatype Sender = Sender(queue: seq<seq<byte>>, offset: nat)

  predicate WellFormed(tx: Sender) {
    && (forall f :: f in tx.queue ==> |f| > 0)
    && (if tx.queue == [] then tx.offset == 0 else tx.offset < |tx.queue[0]|)
  }

  function Unsent(tx: Sender): seq<byte>
    requires WellFormed(tx)
  {
    if tx.queue == [] then [] else tx.queue[0][tx.offset..] + Flatten(tx.queue[1..])
  }

  function Push(tx: Sender, frame: seq<byte>): Sender {
    tx.(queue := tx.queue + [frame])
  }

  /** What one send() call may answer when offered the rest of the front frame. */
  datatype Answer = Accepted(n: nat) | WouldBlock | Error

  datatype Outcome = Drained | Blocked | Closed | Unanswered

  datatype SendResult = SendResult(tx: Sender, sent: seq<byte>, outcome: Outcome)

  /** The socket took the next n bytes. */
  function Accept(tx: Sender, n: nat): (r: Sender)
    requires WellFormed(tx) && tx.queue != [] && tx.offset + n <= |tx.queue[0]|
    ensures WellFormed(r)
  {
    if tx.offset + n < |tx.queue[0]| then tx.(offset := tx.offset + n)
    else assert forall f :: f in tx.queue[1..] ==> f in tx.queue; Sender(tx.queue[1..], 0)
  }

  function Taken(tx: Sender, n: nat): seq<byte>
    requires tx.queue != [] && tx.offset + n <= |tx.queue[0]|
  {
    tx.queue[0][tx.offset..tx.offset + n]
  }

  /** send() never accepts more than it is offered. */
  predicate Answers(tx: Sender, answers: seq<Answer>)
    requires WellFormed(tx)
    decreases |answers|
  {
    tx.queue == [] || answers == [] || !answers[0].Accepted? ||
    (tx.offset + answers[0].n <= |tx.queue[0]| && Answers(Accept(tx, answers[0].n), answers[1..]))
  }

  /** The sending loop against a given series of answers.  An answer of zero bytes repeats the
      call; Unanswered means that the loop is still going when the series ends. */
  function TrySend(tx: Sender, answers: seq<Answer>): SendResult
    requires WellFormed(tx) && Answers(tx, answers)
    decreases |answers|
  {
    if tx.queue == [] then SendResult(tx, [], Drained)
    else if answers == [] then SendResult(tx, [], Unanswered)
    else
      match answers[0]
      case WouldBlock => SendResult(tx, [], Blocked)
      case Error => SendResult(tx, [], Closed)
      case Accepted(n) =>
        var r := TrySend(Accept(tx, n), answers[1..]);
        r.(sent := Taken(tx, n) + r.sent)
  }

  lemma AcceptConserves(tx: Sender, n: nat)
    requires WellFormed(tx) && tx.queue != [] && tx.offset + n <= |tx.queue[0]|
    ensures Taken(tx, n) + Unsent(Accept(tx, n)) == Unsent(tx)
  {
    var front := tx.queue[0][tx.offset..];
    var next := Accept(tx, n);
    if tx.offset + n < |tx.queue[0]| {
      var rest := tx.queue[0][tx.offset + n..];
      assert front == Taken(tx, n) + rest;
      Regroup(Taken(tx, n), rest, Flatten(tx.queue[1..]));
    } else {
      assert front == Taken(tx, n);
      UnsentFromStart(next.queue);
    }
  }

  lemma UnsentFromStart(queue: seq<seq<byte>>)
    requires WellFormed(Sender(queue, 0))
    ensures Unsent(Sender(queue, 0)) == Flatten(queue)
  {
  }

  /** No byte is lost, repeated or reordered, whatever the socket answers. */
  lemma {:induction false} TrySendConserves(tx: Sender, answers: seq<Answer>)
    requires WellFormed(tx) && Answers(tx, answers)
    ensures var r := TrySend(tx, answers);
            && WellFormed(r.tx)
            && r.sent + Unsent(r.tx) == Unsent(tx)
            && (r.outcome == Drained <==> r.tx.queue == [])
            && (r.outcome == Blocked ==> WouldBlock in answers)
            && (r.outcome == Closed ==> Error in answers)
    decreases |answers|
  {
    if tx.queue != [] && answers != [] && answers[0].Accepted? {
      var n := answers[0].n;
      TrySendConserves(Accept(tx, n), answers[1..]);
      AcceptConserves(tx, n);
      assert forall a :: a in answers[1..] ==> a in answers;
      var r := TrySend(Accept(tx, n), answers[1..]);
      Regroup(Taken(tx, n), r.sent, Unsent(r.tx));
    }
  }

  /** If send() never answers zero, the loop ends within as many calls as bytes are waiting. */
  lemma {:induction false} TrySendEnds(tx: Sender, answers: seq<Answer>)
    requires WellFormed(tx) && Answers(tx, answers)
    requires forall a :: a in answers ==> a != Accepted(0)
    requires |answers| >= |Unsent(tx)|
    ensures TrySend(tx, answers).outcome != Unanswered
    decreases |answers|
  {
    if tx.queue != [] && answers[0].Accepted? {
      AcceptConserves(tx, answers[0].n);
      assert answers[0] in answers && forall a :: a in answers[1..] ==> a in answers;
      TrySendEnds(Accept(tx, answers[0].n), answers[1..]);
    }
  }

  /** The bytes that answers accept. */
  function Total(answers: seq<Answer>): nat {
    if answers == [] then 0
    else (if answers[0].Accepted? then answers[0].n else 0) + Total(answers[1..])
  }

  /** The loop goes on through every acceptance until nothing is queued, and stops at the first
      refusal: k is the number of calls whose bytes went out. */
  lemma {:induction false} TrySendExact(tx: Sender, answers: seq<Answer>) returns (k: nat)
    requires WellFormed(tx) && Answers(tx, answers)
    ensures k <= |answers| && forall i :: 0 <= i < k ==> answers[i].Accepted?
    ensures |TrySend(tx, answers).sent| == Total(answers[..k])
    ensures match TrySend(tx, answers).outcome
            case Drained => Total(answers[..k]) == |Unsent(tx)|
            case Blocked => k < |answers| && answers[k] == WouldBlock
            case Closed => k < |answers| && answers[k] == Error
            case Unanswered => k == |answers|
    ensures TrySend(tx, answers).outcome != Drained ==> Total(answers[..k]) < |Unsent(tx)|
    decreases |answers|
  {
    if tx.queue == [] || answers == [] || !answers[0].Accepted? {
      k := 0;
      assert tx.queue != [] ==> |Unsent(tx)| > 0;
    } else {
      var n := answers[0].n;
      var rest := TrySendExact(Accept(tx, n), answers[1..]);
      k := rest + 1;
      AcceptConserves(tx, n);
      assert answers[..k][1..] == answers[1..][..rest];
      assert forall i :: 0 < i < k ==> answers[i] == answers[1..][i - 1];
    }
  }

  lemma PushAppends(tx: Sender, frame: seq<byte>)
    requires WellFormed(tx) && |frame| > 0
    ensures WellFormed(Push(tx, frame))
    ensures Unsent(Push(tx, frame)) == Unsent(tx) + frame
  {
    assert Flatten([frame]) == frame + Flatten([frame][1..]) == frame;
    if tx.queue == [] {
      assert Push(tx, frame).queue == [frame];
    } else {
      assert Push(tx, frame).queue[1..] == tx.queue[1..] + [frame];
      FlattenConcat(tx.queue[1..], [frame]);
      Regroup(tx.queue[0][tx.offset..], Flatten(tx.queue[1..]), frame);
    }
  }

  // ---------------------------------------------------------------------------------------
  // The step system

  datatype Link = Link(written: seq<Message>, tx: Sender, flight: seq<byte>, rx: Receiver, crashed: bool)

  datatype Step = Write(m: Message) | Send(n: nat) | Read(n: nat) | Cut

  const IDLE := Link([], Sender([], 0), [], START, false)

  /** crashed: a chunk did not fit the ring, whose exception ends the reading task. */
  ghost predicate Next(z: Compressor, cap: nat, s: Link, step: Step, t: Link) {
    match step
    case Write(m) =>
      && |Encode(z, m)| < TWO_31
      && t == s.(written := s.written + [m], tx := Push(s.tx, Frame(Encode(z, m))))
    case Send(n) =>
      && WellFormed(s.tx) && s.tx.queue != [] && s.tx.offset + n <= |s.tx.queue[0]|
      && t == s.(tx := Accept(s.tx, n), flight := s.flight + Taken(s.tx, n))
    case Read(n) =>
      && !s.crashed && n <= |s.flight|
      && t == if |s.rx.ring| + n > cap then s.(flight := s.flight[n..], crashed := true)
              else s.(flight := s.flight[n..], rx := Feed(s.rx, s.flight[..n]))
    case Cut =>
      && !s.crashed
      && t == s.(rx := Parse(z, s.rx))
  }

  ghost predicate Path(z: Compressor, cap: nat, states: seq<Link>, steps: seq<Step>) {
    && |states| == |steps| + 1
    && forall i :: 0 <= i < |steps| ==> Next(z, cap, states[i], steps[i], states[i + 1])
  }

  ghost predicate Run(z: Compressor, cap: nat, states: seq<Link>, steps: seq<Step>) {
    Path(z, cap, states, steps) && states[0] == IDLE
  }

  /** Every byte taken in: the whole frames delivered and what is left of the next. */
  ghost function TakenIn(z: Compressor, s: Link): seq<byte>
    requires |s.rx.out| <= |s.written|
  {
    Wire(z, s.written[..|s.rx.out|]) + Left(s.rx)
  }

  ghost predicate Inv(z: Compressor, s: Link) {
    && Sendable(z, s.written)
    && WellFormed(s.tx)
    && |s.rx.out| <= |s.written|
    && Holds(z, s.written, TakenIn(z, s), s.rx)
    && (!s.crashed ==> Wire(z, s.written) == TakenIn(z, s) + s.flight + Unsent(s.tx))
  }

  lemma HoldsMore(z: Compressor, ms: seq<Message>, got: seq<byte>, s: Receiver, m: Message)
    requires Holds(z, ms, got, s)
    ensures Holds(z, ms + [m], got, s)
  {
    var k := |s.out|;
    assert (ms + [m])[..k] == ms[..k];
    assert (ms + [m])[k..] == ms[k..] + [m];
    WireConcat(z, ms[k..], [m]);
  }

  lemma WriteKeeps(z: Compressor, cap: nat, s: Link, m: Message, t: Link)
    requires Inv(z, s) && Next(z, cap, s, Write(m), t)
    ensures Inv(z, t)
  {
    var frame := Frame(Encode(z, m));
    HoldsMore(z, s.written, TakenIn(z, s), s.rx, m);
    assert t.written[..|s.rx.out|] == s.written[..|s.rx.out|];
    PushAppends(s.tx, frame);
    WireConcat(z, s.written, [m]);
    assert Wire(z, [m]) == frame;
    Regroup(TakenIn(z, s) + s.flight, Unsent(s.tx), frame);
  }

  lemma SendKeeps(z: Compressor, cap: nat, s: Link, n: nat, t: Link)
    requires Inv(z, s) && Next(z, cap, s, Send(n), t)
    ensures Inv(z, t)
  {
    AcceptConserves(s.tx, n);
    var got, sent, rest := TakenIn(z, s), Taken(s.tx, n), Unsent(t.tx);
    Regroup(got, s.flight, sent);
    Regroup(got + s.flight, sent, rest);
  }

  lemma ReadKeeps(z: Compressor, cap: nat, s: Link, n: nat, t: Link)
    requires Inv(z, s) && Next(z, cap, s, Read(n), t)
    ensures Inv(z, t)
  {
    if !t.crashed {
      var got, chunk, flight := TakenIn(z, s), s.flight[..n], s.flight[n..];
      assert s.flight == chunk + flight;
      Regroup(got, chunk, flight);
      assert Wire(z, s.written) == (got + chunk) + flight + Unsent(s.tx);
      Regroup(got + chunk, flight, Unsent(s.tx));
      HoldsFeed(z, s.written, got, s.rx, chunk);
      assert TakenIn(z, t) == got + chunk;
    }
  }

  lemma CutKeeps(z: Compressor, cap: nat, s: Link, t: Link)
    requires Lossless(z) && Inv(z, s) && Next(z, cap, s, Cut, t)
    ensures Inv(z, t)
  {
    ParseHolds(z, s.written, TakenIn(z, s), s.rx);
  }

  lemma StepKeeps(z: Compressor, cap: nat, s: Link, step: Step, t: Link)
    requires Lossless(z) && Inv(z, s) && Next(z, cap, s, step, t)
    ensures Inv(z, t)
  {
    match step
    case Write(m) => WriteKeeps(z, cap, s, m, t);
    case Send(n) => SendKeeps(z, cap, s, n, t);
    case Read(n) => ReadKeeps(z, cap, s, n, t);
    case Cut => CutKeeps(z, cap, s, t);
  }

  lemma RunNext(z: Compressor, cap: nat, states: seq<Link>, steps: seq<Step>, i: nat)
    requires Run(z, cap, states, steps) && 0 < i < |states|
    ensures Next(z, cap, states[i - 1], steps[i - 1], states[i])
  {
  }

  lemma StepKeepsAt(z: Compressor, cap: nat, states: seq<Link>, steps: seq<Step>, k: nat, i: nat)
    requires Lossless(z) && Run(z, cap, states, steps) && k + 1 == i < |states| && Inv(z, states[k])
    ensures Inv(z, states[i])
  {
    RunNext(z, cap, states, steps, i);
    StepKeeps(z, cap, states[k], steps[k], states[i]);
  }

  lemma IdleInv(z: Compressor)
    ensures Inv(z, IDLE)
  {
    StartHolds(z, []);
  }

  lemma {:induction false} RunKeeps(z: Compressor, cap: nat, states: seq<Link>, steps: seq<Step>, i: nat)
    requires Lossless(z) && Run(z, cap, states, steps) && i < |states|
    ensures Inv(z, states[i])
  {
    if i == 0 {
      IdleInv(z);
    } else {
      var k := i - 1;
      RunKeeps(z, cap, states, steps, k);
      StepKeepsAt(z, cap, states, steps, k, i);
    }
  }

  /** End to end, in every state of every run: what was delivered is a prefix of what was
      written; unless the ring overflowed, every written byte is in exactly one place; and once
      nothing is unsent, in flight or uncut, everything written has been delivered. */
  lemma Delivery(z: Compressor, cap: nat, states: seq<Link>, steps: seq<Step>, i: nat)
    requires Lossless(z) && Run(z, cap, states, steps) && i < |states|
    ensures var s := states[i];
            && s.rx.out <= Payloads(s.written)
            && WellFormed(s.tx)
            && (!s.crashed ==>
                  Wire(z, s.written) == Wire(z, s.written[..|s.rx.out|]) + Left(s.rx) + s.flight + Unsent(s.tx))
            && (!s.crashed && s.flight == [] && Unsent(s.tx) == [] && Quiet(s.rx) ==>
                  s.rx.out == Payloads(s.written) && Left(s.rx) == [])
  {
    RunKeeps(z, cap, states, steps, i);
    var s := states[i];
    var k := |s.rx.out|;
    assert s.rx.out == Payloads(s.written)[..k];
    if !s.crashed && s.flight == [] && Unsent(s.tx) == [] && Quiet(s.rx) {
      var got := TakenIn(z, s);
      assert Wire(z, s.written) == got;
      QuietHasCutAll(z, s.written, got, s.rx);
      assert s.written[..|s.written|] == s.written;
      WholeFramesUnique(z, s.written, |got|, |s.written|);
    }
  }

  lemma {:induction false} ParseOnlyAdds(z: Compressor, s: Receiver)
    ensures s.out <= Parse(z, s).out
    decreases |s.ring|, 1
  {
    if !s.broken {
      if s.pending != 0 {
        TakeBodyOnlyAdds(z, s);
      } else if |s.ring| > HEAD_LENGTH {
        TakeBodyOnlyAdds(z, TakeHead(s));
      }
    }
  }

  lemma {:induction false} TakeBodyOnlyAdds(z: Compressor, s: Receiver)
    requires !s.broken
    ensures s.out <= TakeBody(z, s).out
    decreases |s.ring|, 0
  {
    if |s.ring| >= s.pending && Decode(z, s.ring[..s.pending]).Some? {
      ParseOnlyAdds(z, TakeBodyNext(z, s));
    }
  }

  lemma StepOnlyAdds(z: Compressor, cap: nat, s: Link, step: Step, t: Link)
    requires Next(z, cap, s, step, t)
    ensures s.rx.out <= t.rx.out && s.written <= t.written
  {
    ParseOnlyAdds(z, s.rx);
  }

  lemma {:induction false} RunOnlyAdds(z: Compressor, cap: nat, states: seq<Link>, steps: seq<Step>, i: nat, j: nat)
    requires Run(z, cap, states, steps) && i <= j < |states|
    ensures states[i].rx.out <= states[j].rx.out && states[i].written <= states[j].written
    decreases j - i
  {
    if i < j {
      RunOnlyAdds(z, cap, states, steps, i, j - 1);
      RunNext(z, cap, states, steps, j);
      StepOnlyAdds(z, cap, states[j - 1], steps[j - 1], states[j]);
    }
  }

  /** Deliveries are never taken back, and nothing is delivered before it is written. */
  lemma DeliveredOnce(z: Compressor, cap: nat, states: seq<Link>, steps: seq<Step>, i: nat, j: nat)
    requires Lossless(z) && Run(z, cap, states, steps) && i <= j < |states|
    ensures states[i].rx.out <= states[j].rx.out <= Payloads(states[j].written)
    ensures states[i].written <= states[j].written
  {
    Delivery(z, cap, states, steps, j);
    RunOnlyAdds(z, cap, states, steps, i, j);
  }

  /** Reads of at most chunk bytes, each after the last one was cut, as read_data does. */
  ghost predicate Disciplined(states: seq<Link>, steps: seq<Step>, chunk: nat)
    requires |states| == |steps| + 1
  {
    forall i :: 0 <= i < |steps| && steps[i].Read? ==> steps[i].n <= chunk && Quiet(states[i].rx)
  }

  /** Such a run never overflows the ring when a chunk fits beside the largest residue. */
  lemma {:induction false} RunNeverCrashes(z: Compressor, cap: nat, states: seq<Link>, steps: seq<Step>,
                                           longest: nat, chunk: nat, i: nat)
    requires Lossless(z) && Run(z, cap, states, steps) && i < |states|
    requires Disciplined(states, steps, chunk) && chunk + Residue(longest) <= cap
    requires forall m :: m in states[i].written ==> |Encode(z, m)| <= longest
    ensures !states[i].crashed
  {
    if i > 0 {
      RunOnlyAdds(z, cap, states, steps, i - 1, i);
      assert forall m :: m in states[i - 1].written ==> m in states[i].written;
      RunNeverCrashes(z, cap, states, steps, longest, chunk, i - 1);
      var s := states[i - 1];
      RunNext(z, cap, states, steps, i);
      RunKeeps(z, cap, states, steps, i - 1);
      if steps[i - 1].Read? {
        ResidueBound(z, s.written, TakenIn(z, s), s.rx, longest);
      }
    }
  }

  // ---------------------------------------------------------------------------------------
  // The sending and reading loops are runs of steps

  lemma PathCons(z: Compressor, cap: nat, s: Link, step: Step, states: seq<Link>, steps: seq<Step>)
    requires Path(z, cap, states, steps) && Next(z, cap, s, step, states[0])
    ensures Path(z, cap, [s] + states, [step] + steps)
    ensures ([s] + states)[|steps| + 1] == states[|steps|]
  {
    var all, path := [s] + states, [step] + steps;
    forall i | 0 <= i < |path|
      ensures Next(z, cap, all[i], path[i], all[i + 1])
    {
      if i > 0 {
        assert all[i] == states[i - 1] && path[i] == steps[i - 1] && all[i + 1] == states[i];
      }
    }
  }

  lemma {:induction false} SendsAreSteps(z: Compressor, cap: nat, s: Link, answers: seq<Answer>)
    returns (states: seq<Link>, steps: seq<Step>)
    requires WellFormed(s.tx) && Answers(s.tx, answers)
    ensures Path(z, cap, states, steps) && states[0] == s
    ensures var r := TrySend(s.tx, answers);
            states[|steps|] == s.(tx := r.tx, flight := s.flight + r.sent)
    decreases |answers|
  {
    states, steps := [s], [];
    assert s.flight + [] == s.flight;
    if s.tx.queue != [] && answers != [] && answers[0].Accepted? {
      var n := answers[0].n;
      var t := s.(tx := Accept(s.tx, n), flight := s.flight + Taken(s.tx, n));
      states, steps := SendsAreSteps(z, cap, t, answers[1..]);
      PathCons(z, cap, s, Send(n), states, steps);
      Regroup(s.flight, Taken(s.tx, n), TrySend(t.tx, answers[1..]).sent);
      states, steps := [s] + states, [Send(n)] + steps;
    }
  }

  lemma {:induction false} ReadsAreSteps(z: Compressor, cap: nat, s: Link, chunks: seq<seq<byte>>, later: seq<byte>)
    returns (states: seq<Link>, steps: seq<Step>)
    requires !s.crashed && s.flight == Flatten(chunks) + later
    ensures Path(z, cap, states, steps) && states[0] == s
    ensures match FeedAll(z, cap, s.rx, chunks)
            case Some(rx) => states[|steps|] == s.(rx := rx, flight := later)
            case None => states[|steps|].crashed
    decreases |chunks|
  {
    if chunks == [] {
      states, steps := [s], [];
      assert s.flight == later;
    } else {
      var n := |chunks[0]|;
      Regroup(chunks[0], Flatten(chunks[1..]), later);
      assert s.flight[..n] == chunks[0] && s.flight[n..] == Flatten(chunks[1..]) + later;
      if |s.rx.ring| + n > cap {
        states, steps := [s, s.(flight := s.flight[n..], crashed := true)], [Read(n)];
      } else {
        var t := s.(flight := s.flight[n..], rx := Feed(s.rx, chunks[0]));
        var u := t.(rx := Parse(z, t.rx));
        states, steps := ReadsAreSteps(z, cap, u, chunks[1..], later);
        PathCons(z, cap, t, Cut, states, steps);
        states, steps := [t] + states, [Cut] + steps;
        PathCons(z, cap, s, Read(n), states, steps);
        states, steps := [s] + states, [Read(n)] + steps;
      }
    }
  }
}
