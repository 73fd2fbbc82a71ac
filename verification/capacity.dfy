/** Tcp_Server::read_data against the channel's fixed ring: a chunk that does not fit makes the
    ring throw.  When can that never happen, and which bodies can get through at all? */
module Capacity {
  import opened Bytes
  import opened Framing

  /** Reading chunk after chunk into a ring of the given capacity; None once a chunk does not fit. */
  function FeedAll(z: Compressor, cap: nat, s: Receiver, chunks: seq<seq<byte>>): Option<Receiver>
    decreases |chunks|
  {
    if chunks == [] then Some(s)
    else if |s.ring| + |chunks[0]| > cap then None
    else FeedAll(z, cap, Parse(z, Feed(s, chunks[0])), chunks[1..])
  }

  lemma {:induction false} FeedAllIsAbsorb(z: Compressor, cap: nat, s: Receiver, chunks: seq<seq<byte>>)
    requires FeedAll(z, cap, s, chunks).Some?
    ensures FeedAll(z, cap, s, chunks).value == Absorb(z, s, chunks)
    decreases |chunks|
  {
    if chunks != [] {
      FeedAllIsAbsorb(z, cap, Parse(z, Feed(s, chunks[0])), chunks[1..]);
    }
  }

  lemma {:induction false} FeedAllConcat(z: Compressor, cap: nat, s: Receiver,
                                         a: seq<seq<byte>>, b: seq<seq<byte>>)
    ensures FeedAll(z, cap, s, a + b) ==
            match FeedAll(z, cap, s, a) case None => None case Some(t) => FeedAll(z, cap, t, b)
    decreases |a|
  {
    if a == [] {
      assert a + b == b;
    } else {
      assert (a + b)[1..] == a[1..] + b;
      FeedAllConcat(z, cap, Parse(z, Feed(s, a[0])), a[1..], b);
    }
  }

  lemma {:induction false} FlattenConcat(a: seq<seq<byte>>, b: seq<seq<byte>>)
    ensures Flatten(a + b) == Flatten(a) + Flatten(b)
  {
    if a == [] {
      assert a + b == b;
    } else {
      assert (a + b)[1..] == a[1..] + b;
      FlattenConcat(a[1..], b);
    }
  }

  /** The most a quiet receiver of bodies of at most longest bytes can be left holding. */
  function Residue(longest: nat): nat {
    if longest <= HEAD_LENGTH + 1 then HEAD_LENGTH else longest - 1
  }

  /** A stream of bodies of at most longest bytes, the start of which comes in chunks of at most
      chunk bytes. */
  ghost predicate Admissible(z: Compressor, ms: seq<Message>, chunks: seq<seq<byte>>, longest: nat, chunk: nat) {
    && (forall m :: m in ms ==> |Encode(z, m)| <= longest)
    && (forall c :: c in chunks ==> |c| <= chunk)
    && Flatten(chunks) <= Wire(z, ms)
  }

  ghost predicate NeverOverflows(z: Compressor, cap: nat, longest: nat, chunk: nat) {
    forall ms, chunks :: Admissible(z, ms, chunks, longest, chunk) ==> FeedAll(z, cap, START, chunks).Some?
  }

  lemma ResidueBound(z: Compressor, ms: seq<Message>, got: seq<byte>, s: Receiver, longest: nat)
    requires Holds(z, ms, got, s) && Quiet(s)
    requires forall m :: m in ms ==> |Encode(z, m)| <= longest
    ensures |s.ring| <= Residue(longest)
  {
    if s.pending != 0 {
      assert ms[|s.out|] in ms;
    }
  }

  lemma {:induction false} SmallChunksFit(z: Compressor, cap: nat, ms: seq<Message>, got: seq<byte>, s: Receiver,
                                          chunks: seq<seq<byte>>, longest: nat, chunk: nat)
    requires Lossless(z) && Sendable(z, ms) && Holds(z, ms, got, s) && Quiet(s)
    requires forall m :: m in ms ==> |Encode(z, m)| <= longest
    requires forall c :: c in chunks ==> |c| <= chunk
    requires got + Flatten(chunks) <= Wire(z, ms)
    requires chunk + Residue(longest) <= cap
    ensures FeedAll(z, cap, s, chunks).Some?
    decreases |chunks|
  {
    if chunks != [] {
      ResidueBound(z, ms, got, s, longest);
      var c, rest := chunks[0], Flatten(chunks[1..]);
      assert c in chunks;
      Regroup(got, c, rest);
      assert got + c <= Wire(z, ms);
      HoldsFeed(z, ms, got, s, c);
      ParseHolds(z, ms, got + c, Feed(s, c));
      ParseQuiet(z, Feed(s, c));
      SmallChunksFit(z, cap, ms, got + c, Parse(z, Feed(s, c)), chunks[1..], longest, chunk);
    }
  }

  // ---------------------------------------------------------------------------------------
  // A stream and a chunking that overflow whenever the bound is exceeded

  function Zeros(n: nat): (b: seq<byte>)
    ensures |b| == n
  {
    seq(n, i => 0)
  }

  function Bytewise(b: seq<byte>): (chunks: seq<seq<byte>>)
    ensures |chunks| == |b|
    ensures forall i :: 0 <= i < |b| ==> chunks[i] == [b[i]]
  {
    seq(|b|, i requires 0 <= i < |b| => [b[i]])
  }

  lemma {:induction false} FlattenBytewise(b: seq<byte>)
    ensures Flatten(Bytewise(b)) == b
  {
    if b != [] {
      assert Bytewise(b)[1..] == Bytewise(b[1..]);
      FlattenBytewise(b[1..]);
    }
  }

  lemma {:induction false} WireAtLeast(z: Compressor, ms: seq<Message>)
    ensures |Wire(z, ms)| >= |ms|
  {
    if ms != [] { WireAtLeast(z, ms[1..]); }
  }

  /** One message whose body has the given length, then plenty of others. */
  function Plugged(longest: nat, chunk: nat): (ms: seq<Message>)
    requires longest >= 1
    ensures forall m :: m in ms ==> m.algo == Plain && |m.payload| <= longest - 1
  {
    [Message(Plain, Zeros(longest - 1))] + seq(chunk, i => Message(Plain, []))
  }

  lemma PluggedWire(z: Compressor, longest: nat, chunk: nat)
    requires longest >= 1
    ensures |Encode(z, Plugged(longest, chunk)[0])| == longest
    ensures |Wire(z, Plugged(longest, chunk))| >= HEAD_LENGTH + longest + chunk
    ensures forall m :: m in Plugged(longest, chunk) ==> |Encode(z, m)| <= longest
  {
    var ms := Plugged(longest, chunk);
    WireAtLeast(z, ms[1..]);
  }

  /** Just before the first body is complete (or the first header is read) the ring is as full as
      it can be between calls. */
  lemma StuckJustBefore(z: Compressor, ms: seq<Message>, n: nat, longest: nat)
    requires Lossless(z) && Sendable(z, ms) && ms != [] && |Encode(z, ms[0])| == longest
    requires n == if longest <= HEAD_LENGTH + 1 then HEAD_LENGTH else longest + HEAD_LENGTH - 1
    requires n <= |Wire(z, ms)|
    ensures |Parse(z, Feed(START, Wire(z, ms)[..n])).ring| == Residue(longest)
  {
    var got := Wire(z, ms)[..n];
    StartHolds(z, ms);
    assert [] + got == got;
    HoldsFeed(z, ms, [], START, got);
    var s := Feed(START, got);
    if longest > HEAD_LENGTH + 1 {
      ParseHolds(z, ms, got, s);
      ParseQuiet(z, s);
      assert ms[..0] == [];
    }
  }

  /** The start of a stream byte by byte, then a chunk. */
  function ByteThenChunk(w: seq<byte>, n: nat, chunk: nat): (chunks: seq<seq<byte>>)
    requires n + chunk <= |w|
  {
    Bytewise(w[..n]) + [w[n..n + chunk]]
  }

  lemma ByteThenChunkIs(w: seq<byte>, n: nat, chunk: nat)
    requires n + chunk <= |w|
    ensures Flatten(ByteThenChunk(w, n, chunk)) == w[..n + chunk]
  {
    var first, last := Bytewise(w[..n]), [w[n..n + chunk]];
    FlattenBytewise(w[..n]);
    FlattenConcat(first, last);
    assert Flatten(last) == last[0] + Flatten(last[1..]) == w[n..n + chunk];
  }

  lemma LargeChunkOverflows(z: Compressor, cap: nat, longest: nat, chunk: nat)
    returns (ms: seq<Message>, chunks: seq<seq<byte>>)
    requires Lossless(z) && 1 <= longest < TWO_31 && 1 <= chunk
    requires chunk + Residue(longest) > cap
    ensures Admissible(z, ms, chunks, longest, chunk)
    ensures FeedAll(z, cap, START, chunks).None?
  {
    ms := Plugged(longest, chunk);
    PluggedWire(z, longest, chunk);
    var n := if longest <= HEAD_LENGTH + 1 then HEAD_LENGTH else longest + HEAD_LENGTH - 1;
    var w := Wire(z, ms);
    chunks := ByteThenChunk(w, n, chunk);
    ByteThenChunkIs(w, n, chunk);
    var first := Bytewise(w[..n]);
    FlattenBytewise(w[..n]);
    ChunkingIrrelevant(z, START, first);
    StuckJustBefore(z, ms, n, longest);
    LastOverflows(z, cap, first, w[n..n + chunk]);
  }

  lemma LastOverflows(z: Compressor, cap: nat, first: seq<seq<byte>>, last: seq<byte>)
    requires |Absorb(z, START, first).ring| + |last| > cap
    ensures FeedAll(z, cap, START, first + [last]).None?
  {
    FeedAllConcat(z, cap, START, first, [last]);
    if FeedAll(z, cap, START, first).Some? { FeedAllIsAbsorb(z, cap, START, first); }
  }

  /** The ring never overflows, on any stream and under any chunking, exactly when a chunk fits
      beside the largest residue. */
  lemma NeverOverflowsIff(z: Compressor, cap: nat, longest: nat, chunk: nat)
    requires Lossless(z) && 1 <= longest < TWO_31 && 1 <= chunk
    ensures NeverOverflows(z, cap, longest, chunk) <==> chunk + Residue(longest) <= cap
  {
    if chunk + Residue(longest) <= cap {
      forall ms, chunks | Admissible(z, ms, chunks, longest, chunk)
        ensures FeedAll(z, cap, START, chunks).Some?
      {
        StartHolds(z, ms);
        assert [] + Flatten(chunks) == Flatten(chunks);
        SmallChunksFit(z, cap, ms, [], START, chunks, longest, chunk);
      }
    } else {
      var ms, chunks := LargeChunkOverflows(z, cap, longest, chunk);
    }
  }

  /** read_data asks the socket for BUFFER_SIZE bytes at a time, as many as the ring holds, so
      overflow is possible whatever the longest body. */
  lemma FullReadsMayOverflow(z: Compressor, longest: nat)
    requires Lossless(z) && 1 <= longest < TWO_31
    ensures !NeverOverflows(z, BUFFER_SIZE, longest, BUFFER_SIZE)
  {
    NeverOverflowsIff(z, BUFFER_SIZE, longest, BUFFER_SIZE);
  }

  // ---------------------------------------------------------------------------------------
  // Which messages can get through

  lemma {:induction false} TooLongNeverDelivered(z: Compressor, cap: nat, m: Message, got: seq<byte>, s: Receiver,
                                                 chunks: seq<seq<byte>>)
    requires Lossless(z) && Sendable(z, [m]) && |Encode(z, m)| > cap
    requires Holds(z, [m], got, s) && s.out == []
    requires got + Flatten(chunks) <= Wire(z, [m])
    requires FeedAll(z, cap, s, chunks).Some?
    ensures FeedAll(z, cap, s, chunks).value.out == []
    decreases |chunks|
  {
    if chunks != [] {
      var c, rest := chunks[0], Flatten(chunks[1..]);
      Regroup(got, c, rest);
      assert got + c <= Wire(z, [m]);
      HoldsFeed(z, [m], got, s, c);
      var t := Feed(s, c);
      if t.pending == 0 && |t.ring| > HEAD_LENGTH {
        HeadAtFront(z, [m], got + c, t);
        TakeHeadHolds(z, [m], got + c, t);
      }
      ParseHolds(z, [m], got + c, t);
      TooLongNeverDelivered(z, cap, m, got + c, Parse(z, t), chunks[1..]);
    }
  }

  /** Some way of chunking its frame delivers the message without overflow. */
  ghost predicate CanDeliver(z: Compressor, cap: nat, m: Message) {
    exists chunks ::
      && Flatten(chunks) == Wire(z, [m])
      && FeedAll(z, cap, START, chunks).Some?
      && FeedAll(z, cap, START, chunks).value.out == [m.payload]
  }

  lemma WholeFrameDelivers(z: Compressor, m: Message, chunks: seq<seq<byte>>)
    requires Lossless(z) && |Encode(z, m)| < TWO_31 && Flatten(chunks) == Wire(z, [m])
    ensures Absorb(z, START, chunks).out == [m.payload]
  {
    var ms, w := [m], Wire(z, [m]);
    Reassembly(z, ms, chunks);
    assert ms[..1] == ms;
    WholeFramesUnique(z, ms, |w|, 1);
    assert Payloads(ms) == [m.payload];
  }

  lemma BytewiseDelivers(z: Compressor, cap: nat, m: Message)
    requires Lossless(z) && cap > HEAD_LENGTH && |Encode(z, m)| < TWO_31 && |Encode(z, m)| <= cap
    ensures FeedAll(z, cap, START, Bytewise(Wire(z, [m]))).Some?
    ensures FeedAll(z, cap, START, Bytewise(Wire(z, [m]))).value.out == [m.payload]
  {
    var w := Wire(z, [m]);
    StartHolds(z, [m]);
    FlattenBytewise(w);
    assert [] + w == w;
    SmallChunksFit(z, cap, [m], [], START, Bytewise(w), |Encode(z, m)|, 1);
    FeedAllIsAbsorb(z, cap, START, Bytewise(w));
    WholeFrameDelivers(z, m, Bytewise(w));
  }

  /** A message can get through exactly when its body fits the ring. */
  lemma CanDeliverIff(z: Compressor, cap: nat, m: Message)
    requires Lossless(z) && cap > HEAD_LENGTH && |Encode(z, m)| < TWO_31
    ensures CanDeliver(z, cap, m) <==> |Encode(z, m)| <= cap
  {
    var w := Wire(z, [m]);
    if |Encode(z, m)| <= cap {
      BytewiseDelivers(z, cap, m);
      FlattenBytewise(w);
    } else {
      forall chunks | Flatten(chunks) == w && FeedAll(z, cap, START, chunks).Some?
        ensures FeedAll(z, cap, START, chunks).value.out == []
      {
        StartHolds(z, [m]);
        assert [] + w == w;
        TooLongNeverDelivered(z, cap, m, [], START, chunks);
      }
    }
  }

  /** In terms of the payload: uncompressed it fits with its tag byte, compressed its compressed form
      does. */
  lemma PayloadFitsIff(z: Compressor, cap: nat, payload: seq<byte>)
    requires Lossless(z) && cap > HEAD_LENGTH
    requires |payload| + 1 < TWO_31 && |z.compress(payload)| + 1 < TWO_31
    ensures CanDeliver(z, cap, Message(Plain, payload)) <==> |payload| + 1 <= cap
    ensures CanDeliver(z, cap, Message(Brotli, payload)) <==> |z.compress(payload)| + 1 <= cap
  {
    CanDeliverIff(z, cap, Message(Plain, payload));
    CanDeliverIff(z, cap, Message(Brotli, payload));
  }
}
