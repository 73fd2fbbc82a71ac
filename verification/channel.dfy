/** Core/Channel.cpp and the two loops of Core/Tcp_Server.cpp that drive a channel, on the
    program's own fields, each proved against the functions of Framing, Capacity and Pipeline. */
module Channel {
  import opened Bytes
  import opened Framing
  import opened Capacity
  import P = Pipeline
  import RingBuffer

  datatype ReadStatus = Emptied | PeerGone | Overflowed | Undefined

  class SocketChannel {
    const z: Compressor
    var algo: Algo
    const readBuffer: RingBuffer.Buffer
    var readBufferLength: nat
    var readMessages: seq<seq<byte>>
    var sendMessages: seq<seq<byte>>
    var sendOffset: nat

    ghost predicate Valid()
      reads this, readBuffer
    {
      && readBuffer.Valid() && readBuffer.data.Length == BUFFER_SIZE
      && P.WellFormed(Tx())
    }

    ghost function Tx(): P.Sender
      reads this
    {
      P.Sender(sendMessages, sendOffset)
    }

    ghost function Rx(): Receiver
      requires readBuffer.Valid()
      reads this, readBuffer, readBuffer.data
    {
      Receiver(readBufferLength, readBuffer.Contents(), readMessages, false)
    }

    constructor (z: Compressor)
      ensures Valid() && fresh(readBuffer) && fresh(readBuffer.data)
      ensures this.z == z && algo == Plain && Rx() == START && Tx() == P.IDLE.tx
    {
      this.z := z;
      algo := Plain;
      readBuffer := new RingBuffer.Buffer(BUFFER_SIZE);
      readBufferLength, readMessages := 0, [];
      sendMessages, sendOffset := [], 0;
    }

    method SetCompressAlgo(algo: Algo)
      requires Valid()
      modifies this
      ensures Valid() && this.algo == algo
      ensures Rx() == old(Rx()) && Tx() == old(Tx())
    {
      this.algo := algo;
    }

    method EncodeString(plain: seq<byte>) returns (ret: seq<byte>)
      ensures ret == Encode(z, Message(algo, plain))
      ensures algo == Plain ==> ret == [0] + plain
      ensures algo == Brotli ==> ret == [1] + z.compress(plain)
    {
      var compressing := false;
      match algo {
        case Plain =>
          ret := [0];
        case Brotli =>
          ret := [1];
          compressing := true;
      }
      if compressing {
        var encoded := z.compress(plain);
        ret := ret + encoded;
      } else {
        ret := ret + plain;
      }
    }

    /** None where the program's behaviour is undefined. */
    method DecodeString(encoded: seq<byte>) returns (ret: Option<seq<byte>>)
      ensures ret == Decode(z, encoded)
      ensures ret == if encoded == [] || encoded[0] > 1 then None
                     else Some(if encoded[0] == 0 then encoded[1..] else z.decompress(encoded[1..]))
    {
      if encoded == [] || encoded[0] > 1 {
        return None;
      }
      if encoded[0] == 1 {
        var decoded := z.decompress(encoded[1..]);
        ret := Some(decoded);
      } else {
        ret := Some(encoded[1..]);
      }
    }

    /** Frames and queues one payload, then tries to send. */
    method WriteData(data: seq<byte>, answers: seq<P.Answer>) returns (sent: seq<byte>, outcome: P.Outcome)
      requires Valid()
      requires var tx := P.Push(Tx(), Frame(Encode(z, Message(algo, data))));
               P.WellFormed(tx) ==> P.Answers(tx, answers)
      modifies this
      ensures Valid() && Rx() == old(Rx()) && algo == old(algo)
      ensures var tx := P.Push(old(Tx()), Frame(Encode(z, Message(algo, data))));
              P.WellFormed(tx) && P.SendResult(Tx(), sent, outcome) == P.TrySend(tx, answers)
      ensures var body := if algo == Plain then [0] + data else [1] + z.compress(data);
              sent + P.Unsent(Tx()) == P.Unsent(old(Tx())) + (LittleEndian(|body|, 4) + body)
    {
      var encoded := EncodeString(data);
      var memHead := LittleEndian(|encoded|, HEAD_LENGTH);
      var ptr := memHead + encoded;
      P.PushAppends(Tx(), ptr);
      ghost var tx := P.Push(Tx(), ptr);
      sendMessages := sendMessages + [ptr];
      sent, outcome := TrySend(answers);
      P.TrySendConserves(tx, answers);
    }

    /** What happens to the queue when the socket has taken n bytes of the front message. */
    method Sent(n: nat) returns (accepted: seq<byte>)
      requires P.WellFormed(Tx()) && sendMessages != [] && sendOffset + n <= |sendMessages[0]|
      modifies this`sendMessages, this`sendOffset
      ensures Tx() == P.Accept(old(Tx()), n) && accepted == P.Taken(old(Tx()), n)
    {
      accepted := sendMessages[0][sendOffset..sendOffset + n];
      sendOffset := sendOffset + n;
      if sendOffset == |sendMessages[0]| {
        sendMessages := sendMessages[1..];
        sendOffset := 0;
      }
    }

    /** Tcp_Server::try_send against a series of answers from the socket. */
    method TrySend(answers: seq<P.Answer>) returns (sent: seq<byte>, outcome: P.Outcome)
      requires Valid() && P.Answers(Tx(), answers)
      modifies this`sendMessages, this`sendOffset
      ensures Valid()
      ensures P.SendResult(Tx(), sent, outcome) == P.TrySend(old(Tx()), answers)
    {
      sent := [];
      var calls := 0;
      ghost var rest := answers;
      while sendMessages != []
        invariant calls <= |answers| && P.WellFormed(Tx()) && rest == answers[calls..]
        invariant SentSoFar(old(Tx()), answers, Tx(), rest, sent)
        decreases |answers| - calls
      {
        if calls == |answers| {
          return sent, P.Unanswered;
        }
        match answers[calls] {
          case Accepted(n) =>
            AcceptedOnce(old(Tx()), answers, Tx(), rest, sent, n);
            rest := rest[1..];
            var accepted := Sent(n);
            sent := sent + accepted;
          case WouldBlock =>
            return sent, P.Blocked;
          case Error =>
            return sent, P.Closed;
        }
        calls := calls + 1;
      }
      outcome := P.Drained;
    }

    /** Tells the announced length of the next body and takes its header out of the ring. */
    method ReadHead()
      requires Valid() && readBufferLength == 0 && readBuffer.size > HEAD_LENGTH
      modifies this, readBuffer, readBuffer.data
      ensures Valid() && readBuffer.data == old(readBuffer.data) && readBuffer.size < old(readBuffer.size)
      ensures Tx() == old(Tx()) && algo == old(algo)
      ensures Rx() == TakeHead(old(Rx()))
    {
      var temp := new byte[HEAD_LENGTH];
      var status := readBuffer.Dequeue(temp, HEAD_LENGTH);
      assert temp[..] == old(readBuffer.Contents())[..HEAD_LENGTH];
      readBufferLength := HeadValue(temp[..]);
    }

    /** Takes one whole body out of the ring and queues its payload. */
    method ReadBody() returns (defined: bool)
      requires Valid() && readBufferLength <= readBuffer.size
      modifies this, readBuffer, readBuffer.data
      ensures Valid() && readBuffer.data == old(readBuffer.data)
      ensures Tx() == old(Tx()) && algo == old(algo)
      ensures defined == Decode(z, old(Rx()).ring[..old(readBufferLength)]).Some?
      ensures defined ==> Rx() == TakeBodyNext(z, old(Rx()))
    {
      var dataLen := readBufferLength;
      var tempBuffer := new byte[BUFFER_SIZE];
      var status := readBuffer.Dequeue(tempBuffer, dataLen);
      readBufferLength := 0;
      assert tempBuffer[..dataLen] == old(readBuffer.Contents())[..dataLen];
      var newData := DecodeString(tempBuffer[..dataLen]);
      defined := newData.Some?;
      if defined {
        readMessages := readMessages + [newData.value];
      }
    }

    /** The cutting loop.  Where the header is known and the body incomplete it stops; the
        program's own would spin.  defined is false where the program's behaviour is undefined. */
    method CutFrames() returns (defined: bool)
      requires Valid()
      modifies this, readBuffer, readBuffer.data
      ensures Valid() && readBuffer.data == old(readBuffer.data)
      ensures Tx() == old(Tx()) && algo == old(algo)
      ensures defined == !Parse(z, old(Rx())).broken
      ensures defined ==> Rx() == Parse(z, old(Rx()))
    {
      while true
        invariant Valid() && readBuffer.data == old(readBuffer.data)
        invariant Tx() == old(Tx()) && algo == old(algo)
        invariant Parse(z, Rx()) == Parse(z, old(Rx()))
        decreases readBuffer.size
      {
        if readBufferLength == 0 {
          var available := readBuffer.Size();
          if available > HEAD_LENGTH {
            ReadHead();
          } else {
            break;
          }
        }
        var available := readBuffer.Size();
        if available < readBufferLength {
          break;
        }
        var intact := ReadBody();
        if !intact {
          return false;
        }
      }
      defined := true;
    }

    /** The loop over the read messages and their callback. */
    method HandOver() returns (delivered: seq<seq<byte>>)
      modifies this`readMessages
      ensures delivered == old(readMessages) && readMessages == []
    {
      delivered := [];
      while readMessages != []
        invariant delivered + readMessages == old(readMessages)
        decreases |readMessages|
      {
        delivered := delivered + [readMessages[0]];
        readMessages := readMessages[1..];
      }
    }

    /** Cuts every complete frame out of the ring, then hands the payloads over in order. */
    method ParseMessage() returns (delivered: seq<seq<byte>>, defined: bool)
      requires Valid()
      modifies this, readBuffer, readBuffer.data
      ensures Valid() && readBuffer.data == old(readBuffer.data)
      ensures Tx() == old(Tx()) && algo == old(algo)
      ensures defined == !Parse(z, old(Rx())).broken
      ensures defined ==> delivered == Parse(z, old(Rx())).out && Rx() == Parse(z, old(Rx())).(out := [])
    {
      delivered := [];
      defined := CutFrames();
      if defined {
        delivered := HandOver();
      }
    }

    /** One read() and the parsing after it, with the payloads delivered so far. */
    method TakeChunk(chunk: seq<byte>, before: seq<seq<byte>>) returns (delivered: seq<seq<byte>>, status: ReadStatus)
      requires Valid() && readMessages == []
      modifies this, readBuffer, readBuffer.data
      ensures Valid() && readBuffer.data == old(readBuffer.data)
      ensures Tx() == old(Tx()) && algo == old(algo)
      ensures var s := old(Rx()).(out := before);
              match status
              case Overflowed => |s.ring| + |chunk| > BUFFER_SIZE
              case Undefined => Parse(z, Feed(s, chunk)).broken
              case Emptied => |s.ring| + |chunk| <= BUFFER_SIZE && readMessages == []
                              && Rx().(out := delivered) == Parse(z, Feed(s, chunk))
              case PeerGone => false
    {
      var room := readBuffer.Enqueue(chunk);
      if room == RingBuffer.Overflow {
        return before, Overflowed;
      }
      assert before + [] == before;
      ParseCarriesOut(z, Rx(), before);
      var messages, defined := ParseMessage();
      if !defined {
        return before, Undefined;
      }
      return before + messages, Emptied;
    }

    /** Tcp_Server::read_data: chunks are what read() returns until it has nothing more or, if
        gone, reports the end of the connection. */
    method ReadData(chunks: seq<seq<byte>>, gone: bool) returns (delivered: seq<seq<byte>>, status: ReadStatus)
      requires Valid() && readMessages == []
      modifies this, readBuffer, readBuffer.data
      ensures Valid() && readBuffer.data == old(readBuffer.data)
      ensures Tx() == old(Tx()) && algo == old(algo)
      ensures var fed := FeedAll(z, BUFFER_SIZE, old(Rx()), chunks);
              match status
              case Overflowed => fed.None?
              case PeerGone => gone && fed == Some(Rx().(out := delivered))
              case Emptied => !gone && fed.Some? && Parse(z, fed.value) == Rx().(out := delivered)
              case Undefined => Parse(z, Absorb(z, old(Rx()), chunks)).broken
    {
      var i := 0;
      delivered := [];
      while i < |chunks|
        invariant i <= |chunks|
        invariant Valid() && readBuffer.data == old(readBuffer.data)
        invariant Tx() == old(Tx()) && algo == old(algo) && readMessages == []
        invariant FeedAll(z, BUFFER_SIZE, Rx().(out := delivered), chunks[i..]) ==
                  FeedAll(z, BUFFER_SIZE, old(Rx()), chunks)
        invariant Absorb(z, Rx().(out := delivered), chunks[i..]) == Absorb(z, old(Rx()), chunks)
      {
        ghost var s := Rx().(out := delivered);
        assert chunks[i..][1..] == chunks[i + 1..];
        delivered, status := TakeChunk(chunks[i], delivered);
        if status == Undefined {
          BrokenStays(z, Parse(z, Feed(s, chunks[i])), chunks[i + 1..]);
        }
        if status != Emptied {
          return;
        }
        i := i + 1;
      }
      if gone {
        return delivered, PeerGone;
      }
      assert Feed(Rx().(out := delivered), []) == Rx().(out := delivered);
      delivered, status := ParseRest(delivered);
    }

    /** The parse after the last read(). */
    method ParseRest(before: seq<seq<byte>>) returns (delivered: seq<seq<byte>>, status: ReadStatus)
      requires Valid() && readMessages == []
      modifies this, readBuffer, readBuffer.data
      ensures Valid() && readBuffer.data == old(readBuffer.data)
      ensures Tx() == old(Tx()) && algo == old(algo)
      ensures status == if Parse(z, old(Rx()).(out := before)).broken then Undefined else Emptied
      ensures status == Emptied ==> Rx().(out := delivered) == Parse(z, old(Rx()).(out := before))
    {
      assert before + [] == before;
      ParseCarriesOut(z, Rx(), before);
      var messages, defined := ParseMessage();
      return before + messages, if defined then Emptied else Undefined;
    }
  }

  /** With sent gone out and rest of the answers to come, the sending loop is on its way. */
  ghost predicate SentSoFar(start: P.Sender, answers: seq<P.Answer>, tx: P.Sender, rest: seq<P.Answer>,
                            sent: seq<byte>)
    requires P.WellFormed(start) && P.Answers(start, answers) && P.WellFormed(tx)
  {
    && P.Answers(tx, rest)
    && var r := P.TrySend(tx, rest);
       P.TrySend(start, answers) == r.(sent := sent + r.sent)
  }

  lemma AcceptedOnce(start: P.Sender, answers: seq<P.Answer>, tx: P.Sender, rest: seq<P.Answer>, sent: seq<byte>,
                     n: nat)
    requires P.WellFormed(start) && P.Answers(start, answers) && P.WellFormed(tx)
    requires SentSoFar(start, answers, tx, rest, sent)
    requires tx.queue != [] && rest != [] && rest[0] == P.Accepted(n)
    ensures tx.offset + n <= |tx.queue[0]|
    ensures SentSoFar(start, answers, P.Accept(tx, n), rest[1..], sent + P.Taken(tx, n))
  {
    Regroup(sent, P.Taken(tx, n), P.TrySend(P.Accept(tx, n), rest[1..]).sent);
  }

  /** What was cut before has no part in what is cut next. */
  lemma {:induction false} ParseCarriesOut(z: Compressor, s: Receiver, before: seq<seq<byte>>)
    ensures Parse(z, s.(out := before + s.out)) == Parse(z, s).(out := before + Parse(z, s).out)
    decreases |s.ring|, 1
  {
    if !s.broken {
      if s.pending != 0 {
        TakeBodyCarriesOut(z, s, before);
      } else if |s.ring| > HEAD_LENGTH {
        TakeBodyCarriesOut(z, TakeHead(s), before);
      }
    }
  }

  lemma {:induction false} TakeBodyCarriesOut(z: Compressor, s: Receiver, before: seq<seq<byte>>)
    requires !s.broken
    ensures TakeBody(z, s.(out := before + s.out)) == TakeBody(z, s).(out := before + TakeBody(z, s).out)
    decreases |s.ring|, 0
  {
    if |s.ring| >= s.pending && Decode(z, s.ring[..s.pending]).Some? {
      var t := TakeBodyNext(z, s);
      assert TakeBodyNext(z, s.(out := before + s.out)) == t.(out := before + t.out);
      ParseCarriesOut(z, t, before);
    }
  }

  lemma {:induction false} BrokenStays(z: Compressor, s: Receiver, chunks: seq<seq<byte>>)
    requires s.broken
    ensures Absorb(z, s, chunks).broken
    decreases |chunks|
  {
    if chunks != [] {
      BrokenStays(z, Parse(z, Feed(s, chunks[0])), chunks[1..]);
    }
  }
}
