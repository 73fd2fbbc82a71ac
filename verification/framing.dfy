/** Core/Channel.cpp as functions on values: how a payload becomes a frame, how a receiver cuts
    frames out of a byte stream, and why the way the stream is chunked does not matter. */
module Framing {
  import opened Bytes

  const HEAD_LENGTH: nat := 4
  const BUFFER_SIZE: nat := 2 * 8 * 1024 + 8

  datatype Algo = Plain | Brotli

  /** The compression library, of which only losslessness is ever used. */
  datatype Compressor = Compressor(compress: seq<byte> -> seq<byte>, decompress: seq<byte> -> seq<byte>)

  ghost predicate Lossless(z: Compressor) {
    forall plain: seq<byte> :: z.decompress(z.compress(plain)) == plain
  }

  datatype Message = Message(algo: Algo, payload: seq<byte>)

  // ---------------------------------------------------------------------------------------
  // Sending side

  function Tag(algo: Algo): byte {
    match algo case Plain => 0 case Brotli => 1
  }

  function Encode(z: Compressor, m: Message): (body: seq<byte>)
    ensures |body| >= 1
  {
    [Tag(m.algo)] + (match m.algo case Plain => m.payload case Brotli => z.compress(m.payload))
  }

  /** None where the program's behaviour is undefined: no tag byte, or an unknown one. */
  function Decode(z: Compressor, body: seq<byte>): Option<seq<byte>> {
    if body == [] then None
    else if body[0] == 0 then Some(body[1..])
    else if body[0] == 1 then Some(z.decompress(body[1..]))
    else None
  }

  lemma DecodeEncode(z: Compressor, m: Message)
    requires Lossless(z)
    ensures Decode(z, Encode(z, m)) == Some(m.payload)
  {
    var body := Encode(z, m);
    assert body[1..] == match m.algo case Plain => m.payload case Brotli => z.compress(m.payload);
  }

  /** The four bytes of a length narrowed to a signed 32-bit integer. */
  function Head(len: nat): (b: seq<byte>)
    ensures |b| == HEAD_LENGTH
  {
    LittleEndian(len, HEAD_LENGTH)
  }

  /** Those bytes as a signed 32-bit integer, widened to an unsigned 64-bit one. */
  function HeadValue(b: seq<byte>): nat
    requires |b| == HEAD_LENGTH
  {
    var i := Int32Of(b);
    if i < 0 then (i + TWO_64) % TWO_64 else i
  }

  lemma HeadValueOf(b: seq<byte>)
    requires |b| == HEAD_LENGTH && Unsigned(b) < TWO_32
    ensures HeadValue(b) == if Unsigned(b) < TWO_31 then Unsigned(b) else Unsigned(b) + (TWO_64 - TWO_32)
  {
  }

  /** The receiver recovers a body length exactly when it is below 2^31 (or so close to 2^64
      that sign extension brings it back). */
  lemma HeadRoundTripIff(len: nat)
    requires len < TWO_64
    ensures HeadValue(Head(len)) == len <==> (len < TWO_31 || len >= TWO_64 - TWO_31)
  {
    LittleEndianTruncates(len, 4);
    Pow256Values();
    assert Unsigned(Head(len)) == len % TWO_32;
    HeadValueOf(Head(len));
    if len < TWO_31 {
      RemainderUnique(len, TWO_32, 0, len);
    } else if len >= TWO_64 - TWO_31 {
      RemainderUnique(len, TWO_32, TWO_32 - 1, len - (TWO_64 - TWO_32));
    }
  }

  function Frame(body: seq<byte>): (f: seq<byte>)
    ensures |f| == HEAD_LENGTH + |body|
  {
    Head(|body|) + body
  }

  function Wire(z: Compressor, ms: seq<Message>): seq<byte> {
    if ms == [] then [] else Frame(Encode(z, ms[0])) + Wire(z, ms[1..])
  }

  lemma {:induction false} WireConcat(z: Compressor, a: seq<Message>, b: seq<Message>)
    ensures Wire(z, a + b) == Wire(z, a) + Wire(z, b)
  {
    if a == [] {
      assert a + b == b;
    } else {
      assert (a + b)[1..] == a[1..] + b;
      WireConcat(z, a[1..], b);
    }
  }

  lemma WireSplit(z: Compressor, ms: seq<Message>, k: nat)
    requires k <= |ms|
    ensures Wire(z, ms) == Wire(z, ms[..k]) + Wire(z, ms[k..])
  {
    assert ms == ms[..k] + ms[k..];
    WireConcat(z, ms[..k], ms[k..]);
  }

  /** One more whole frame. */
  lemma WireNext(z: Compressor, ms: seq<Message>, k: nat)
    requires k < |ms|
    ensures Wire(z, ms[..k + 1]) == Wire(z, ms[..k]) + Frame(Encode(z, ms[k]))
    ensures Wire(z, ms[k..]) == Frame(Encode(z, ms[k])) + Wire(z, ms[k + 1..])
  {
    assert ms[..k + 1] == ms[..k] + [ms[k]];
    WireConcat(z, ms[..k], [ms[k]]);
    assert Wire(z, [ms[k]]) == Frame(Encode(z, ms[k]));
    assert ms[k..][1..] == ms[k + 1..];
  }

  function Payloads(ms: seq<Message>): (ps: seq<seq<byte>>)
    ensures |ps| == |ms|
  {
    seq(|ms|, i requires 0 <= i < |ms| => ms[i].payload)
  }

  /** Every body length can be told from its header. */
  ghost predicate Sendable(z: Compressor, ms: seq<Message>) {
    forall m :: m in ms ==> |Encode(z, m)| < TWO_31
  }

  // ---------------------------------------------------------------------------------------
  // Receiving side

  /** What a channel holds between calls: pending is the announced body length (0: no header
      yet), ring the bytes not yet cut, out the payloads cut so far.  broken marks a stream on
      which the program's behaviour is undefined. */
  datatype Receiver = Receiver(pending: nat, ring: seq<byte>, out: seq<seq<byte>>, broken: bool)

  const START := Receiver(0, [], [], false)

  function Feed(s: Receiver, chunk: seq<byte>): Receiver {
    s.(ring := s.ring + chunk)
  }

  /** The parsing loop, run until it can do nothing more. */
  function Parse(z: Compressor, s: Receiver): Receiver
    decreases |s.ring|, 1
  {
    if s.broken then s
    else if s.pending != 0 then TakeBody(z, s)
    else if |s.ring| > HEAD_LENGTH then TakeBody(z, TakeHead(s))
    else s
  }

  function TakeHead(s: Receiver): Receiver
    requires |s.ring| > HEAD_LENGTH
  {
    s.(pending := HeadValue(s.ring[..HEAD_LENGTH]), ring := s.ring[HEAD_LENGTH..])
  }

  function TakeBody(z: Compressor, s: Receiver): Receiver
    decreases |s.ring|, 0
  {
    if |s.ring| < s.pending then s
    else
      match Decode(z, s.ring[..s.pending])
      case None => s.(broken := true)
      case Some(payload) =>
        Parse(z, s.(pending := 0, ring := s.ring[s.pending..], out := s.out + [payload]))
  }

  /** Nothing is left to do: a short header, or a short body. */
  predicate Quiet(s: Receiver) {
    s.broken || (if s.pending == 0 then |s.ring| <= HEAD_LENGTH else |s.ring| < s.pending)
  }

  lemma {:induction false} ParseQuiet(z: Compressor, s: Receiver)
    ensures Quiet(Parse(z, s))
    ensures Quiet(s) ==> Parse(z, s) == s
    decreases |s.ring|, 1
  {
    if !s.broken {
      if s.pending != 0 {
        TakeBodyQuiet(z, s);
      } else if |s.ring| > HEAD_LENGTH {
        TakeBodyQuiet(z, TakeHead(s));
      }
    }
  }

  lemma {:induction false} TakeBodyQuiet(z: Compressor, s: Receiver)
    requires !s.broken
    ensures Quiet(TakeBody(z, s))
    decreases |s.ring|, 0
  {
    if |s.ring| >= s.pending && Decode(z, s.ring[..s.pending]).Some? {
      ParseQuiet(z, TakeBodyNext(z, s));
    }
  }

  function TakeBodyNext(z: Compressor, s: Receiver): (t: Receiver)
    requires |s.ring| >= s.pending && Decode(z, s.ring[..s.pending]).Some?
    ensures |t.ring| < |s.ring|
  {
    s.(pending := 0, ring := s.ring[s.pending..], out := s.out + [Decode(z, s.ring[..s.pending]).value])
  }

  // ---------------------------------------------------------------------------------------
  // Chunk independence, on every byte stream whatever

  /** Parsing what is there before more bytes come changes nothing in the end. */
  lemma {:induction false} ParseEarly(z: Compressor, s: Receiver, chunk: seq<byte>)
    ensures Parse(z, Feed(s, chunk)) == Parse(z, Feed(Parse(z, s), chunk))
    decreases |s.ring|, 1
  {
    if !s.broken {
      if s.pending != 0 {
        TakeBodyEarly(z, s, chunk);
      } else if |s.ring| > HEAD_LENGTH {
        var all := s.ring + chunk;
        assert all[..HEAD_LENGTH] == s.ring[..HEAD_LENGTH];
        assert all[HEAD_LENGTH..] == s.ring[HEAD_LENGTH..] + chunk;
        TakeBodyEarly(z, TakeHead(s), chunk);
      }
    }
  }

  lemma {:induction false} TakeBodyEarly(z: Compressor, s: Receiver, chunk: seq<byte>)
    requires !s.broken
    ensures TakeBody(z, Feed(s, chunk)) == Parse(z, Feed(TakeBody(z, s), chunk))
    decreases |s.ring|, 0
  {
    var n := s.pending;
    if |s.ring| >= n {
      var all := s.ring + chunk;
      assert all[..n] == s.ring[..n];
      assert all[n..] == s.ring[n..] + chunk;
      if Decode(z, s.ring[..n]).Some? {
        ParseEarly(z, TakeBodyNext(z, s), chunk);
      }
    }
  }

  function Flatten(chunks: seq<seq<byte>>): seq<byte> {
    if chunks == [] then [] else chunks[0] + Flatten(chunks[1..])
  }

  /** Parsing after every chunk. */
  function Absorb(z: Compressor, s: Receiver, chunks: seq<seq<byte>>): Receiver
    decreases |chunks|
  {
    if chunks == [] then s else Absorb(z, Parse(z, Feed(s, chunks[0])), chunks[1..])
  }

  lemma {:induction false} ChunkingIrrelevant(z: Compressor, s: Receiver, chunks: seq<seq<byte>>)
    requires Quiet(s)
    ensures Absorb(z, s, chunks) == Parse(z, Feed(s, Flatten(chunks)))
    decreases |chunks|
  {
    if chunks == [] {
      assert s.ring + [] == s.ring;
      ParseQuiet(z, s);
    } else {
      var t := Parse(z, Feed(s, chunks[0]));
      ParseQuiet(z, Feed(s, chunks[0]));
      ChunkingIrrelevant(z, t, chunks[1..]);
      var rest := Flatten(chunks[1..]);
      ParseEarly(z, Feed(s, chunks[0]), rest);
      assert Feed(Feed(s, chunks[0]), rest) == Feed(s, Flatten(chunks)) by {
        assert (s.ring + chunks[0]) + rest == s.ring + (chunks[0] + rest);
      }
    }
  }

  // ---------------------------------------------------------------------------------------
  // What a receiver of a sender's stream holds

  function HeadHeld(pending: nat): seq<byte> {
    if pending == 0 then [] else Head(pending)
  }

  /** The bytes taken in but not yet delivered. */
  function Left(s: Receiver): seq<byte> {
    HeadHeld(s.pending) + s.ring
  }

  /** s is a receiver, parsed up to date or not, that has taken in exactly got of the wire. */
  ghost predicate Holds(z: Compressor, ms: seq<Message>, got: seq<byte>, s: Receiver) {
    && !s.broken
    && |s.out| <= |ms|
    && s.out == Payloads(ms[..|s.out|])
    && got == Wire(z, ms[..|s.out|]) + Left(s)
    && Left(s) <= Wire(z, ms[|s.out|..])
    && (s.pending != 0 ==> |s.out| < |ms| && s.pending == |Encode(z, ms[|s.out|])|)
  }

  lemma PrefixCancel(a: seq<byte>, b: seq<byte>, c: seq<byte>)
    requires a + b <= a + c
    ensures b <= c
  {
    assert (a + c)[|a|..] == c;
    assert (a + b)[|a|..] == b;
    assert (a + b)[|a|..] == (a + c)[|a|..|a + b|];
  }

  lemma PrefixTake(x: seq<byte>, a: seq<byte>, c: seq<byte>)
    requires x <= a + c && |x| >= |a|
    ensures x[..|a|] == a && x == a + x[|a|..] && x[|a|..] <= c
  {
    assert x[..|a|] == (a + c)[..|a|] == a;
    assert x == a + x[|a|..];
    PrefixCancel(a, x[|a|..], c);
  }

  lemma Regroup(a: seq<byte>, b: seq<byte>, c: seq<byte>)
    ensures a + (b + c) == (a + b) + c
  {
  }

  lemma HoldsFeed(z: Compressor, ms: seq<Message>, got: seq<byte>, s: Receiver, chunk: seq<byte>)
    requires Holds(z, ms, got, s) && got + chunk <= Wire(z, ms)
    ensures Holds(z, ms, got + chunk, Feed(s, chunk))
  {
    var k := |s.out|;
    var a, rest := Wire(z, ms[..k]), Wire(z, ms[k..]);
    Regroup(HeadHeld(s.pending), s.ring, chunk);
    Regroup(a, Left(s), chunk);
    assert Left(s) + chunk <= rest by {
      WireSplit(z, ms, k);
      PrefixCancel(a, Left(s) + chunk, rest);
    }
  }

  /** A header at the front of the ring announces the next message's body. */
  lemma HeadAtFront(z: Compressor, ms: seq<Message>, got: seq<byte>, s: Receiver)
    requires Sendable(z, ms) && Holds(z, ms, got, s)
    requires s.pending == 0 && |s.ring| > HEAD_LENGTH
    ensures |s.out| < |ms|
    ensures s.ring[..HEAD_LENGTH] == Head(|Encode(z, ms[|s.out|])|)
  {
    var k := |s.out|;
    assert Left(s) == s.ring;
    assert ms[|ms|..] == [];
    WireNext(z, ms, k);
    var body := Encode(z, ms[k]);
    var head, tail := Head(|body|), Wire(z, ms[k + 1..]);
    Regroup(head, body, tail);
    PrefixTake(s.ring, head, body + tail);
  }

  lemma TakeHeadHolds(z: Compressor, ms: seq<Message>, got: seq<byte>, s: Receiver)
    requires Sendable(z, ms) && Holds(z, ms, got, s)
    requires s.pending == 0 && |s.ring| > HEAD_LENGTH
    ensures Holds(z, ms, got, TakeHead(s)) && TakeHead(s).pending > 0
  {
    HeadAtFront(z, ms, got, s);
    var body := Encode(z, ms[|s.out|]);
    assert ms[|s.out|] in ms;
    HeadRoundTripIff(|body|);
    assert Left(TakeHead(s)) == Left(s);
  }

  /** A complete body at the front of the ring is the next message's. */
  lemma BodyAtFront(z: Compressor, ms: seq<Message>, got: seq<byte>, s: Receiver)
    requires Holds(z, ms, got, s) && 0 < s.pending <= |s.ring|
    ensures var k := |s.out|; var body := Encode(z, ms[k]);
            && s.ring[..s.pending] == body
            && Left(s) == Frame(body) + s.ring[s.pending..]
            && s.ring[s.pending..] <= Wire(z, ms[k + 1..])
  {
    var k := |s.out|;
    WireNext(z, ms, k);
    var body := Encode(z, ms[k]);
    PrefixTake(Left(s), Frame(body), Wire(z, ms[k + 1..]));
    DropCommon(Head(|body|), s.ring, body, Left(s)[|Frame(body)|..]);
  }

  lemma DropCommon(a: seq<byte>, r: seq<byte>, b: seq<byte>, t: seq<byte>)
    requires a + r == (a + b) + t
    ensures |r| >= |b| && r[..|b|] == b && r[|b|..] == t
  {
    assert r == (a + r)[|a|..];
    assert b + t == ((a + b) + t)[|a|..];
  }

  lemma TakeBodyNextHolds(z: Compressor, ms: seq<Message>, got: seq<byte>, s: Receiver)
    requires Lossless(z) && Holds(z, ms, got, s) && 0 < s.pending <= |s.ring|
    ensures Decode(z, s.ring[..s.pending]).Some?
    ensures Holds(z, ms, got, TakeBodyNext(z, s))
  {
    var k := |s.out|;
    BodyAtFront(z, ms, got, s);
    DecodeEncode(z, ms[k]);
    var t := TakeBodyNext(z, s);
    assert t.out == Payloads(ms[..k + 1]) by {
      assert Payloads(ms[..k + 1]) == Payloads(ms[..k]) + [ms[k].payload];
    }
    assert Left(t) == s.ring[s.pending..];
    assert got == Wire(z, ms[..k + 1]) + Left(t) by {
      WireNext(z, ms, k);
      Regroup(Wire(z, ms[..k]), Frame(Encode(z, ms[k])), Left(t));
    }
  }

  lemma {:induction false} TakeBodyHolds(z: Compressor, ms: seq<Message>, got: seq<byte>, s: Receiver)
    requires Lossless(z) && Sendable(z, ms) && Holds(z, ms, got, s) && s.pending > 0
    ensures Holds(z, ms, got, TakeBody(z, s))
    decreases |s.ring|, 0
  {
    if |s.ring| >= s.pending {
      TakeBodyNextHolds(z, ms, got, s);
      ParseHolds(z, ms, got, TakeBodyNext(z, s));
    }
  }

  lemma {:induction false} ParseHolds(z: Compressor, ms: seq<Message>, got: seq<byte>, s: Receiver)
    requires Lossless(z) && Sendable(z, ms) && Holds(z, ms, got, s)
    ensures Holds(z, ms, got, Parse(z, s))
    decreases |s.ring|, 1
  {
    if s.pending != 0 {
      TakeBodyHolds(z, ms, got, s);
    } else if |s.ring| > HEAD_LENGTH {
      TakeHeadHolds(z, ms, got, s);
      TakeBodyHolds(z, ms, got, TakeHead(s));
    }
  }

  /** The number of frames that lie wholly in the first n bytes of the wire. */
  function WholeFrames(z: Compressor, ms: seq<Message>, n: nat): (k: nat)
    ensures k <= |ms|
    decreases |ms|
  {
    if ms == [] then 0
    else
      var len := |Frame(Encode(z, ms[0]))|;
      if n < len then 0 else 1 + WholeFrames(z, ms[1..], n - len)
  }

  lemma {:induction false} WholeFramesUnique(z: Compressor, ms: seq<Message>, n: nat, k: nat)
    requires k <= |ms| && |Wire(z, ms[..k])| <= n
    requires k < |ms| ==> n < |Wire(z, ms[..k + 1])|
    ensures WholeFrames(z, ms, n) == k
  {
    if ms != [] {
      var len := |Frame(Encode(z, ms[0]))|;
      assert Wire(z, ms[..1]) == Frame(Encode(z, ms[0])) + Wire(z, ms[..1][1..]);
      if k > 0 {
        assert ms[..k][1..] == ms[1..][..k - 1];
        if k < |ms| { assert ms[..k + 1][1..] == ms[1..][..k]; }
        WholeFramesUnique(z, ms[1..], n - len, k - 1);
      }
    }
  }

  /** A quiet receiver has cut every whole frame it was given. */
  lemma QuietHasCutAll(z: Compressor, ms: seq<Message>, got: seq<byte>, s: Receiver)
    requires Holds(z, ms, got, s) && Quiet(s)
    ensures |s.out| == WholeFrames(z, ms, |got|)
  {
    var k := |s.out|;
    if k < |ms| {
      WireNext(z, ms, k);
      assert |Wire(z, ms[..k + 1])| == |Wire(z, ms[..k])| + HEAD_LENGTH + |Encode(z, ms[k])|;
      if s.pending == 0 { assert |Encode(z, ms[k])| >= 1; }
    }
    WholeFramesUnique(z, ms, |got|, k);
  }

  lemma StartHolds(z: Compressor, ms: seq<Message>)
    ensures Holds(z, ms, [], START) && Quiet(START)
  {
    assert ms[..0] == [] && ms[0..] == ms;
  }

  lemma FedHolds(z: Compressor, ms: seq<Message>, got: seq<byte>)
    requires got <= Wire(z, ms)
    ensures Holds(z, ms, got, Feed(START, got))
  {
    StartHolds(z, ms);
    assert [] + got == got;
    HoldsFeed(z, ms, [], START, got);
  }

  /** However the first bytes of a sender's wire are chunked, parsing after each chunk delivers
      exactly the payloads whose frames lie wholly in them and keeps exactly the rest. */
  lemma Reassembly(z: Compressor, ms: seq<Message>, chunks: seq<seq<byte>>)
    requires Lossless(z) && Sendable(z, ms) && Flatten(chunks) <= Wire(z, ms)
    ensures var got := Flatten(chunks);
            var k := WholeFrames(z, ms, |got|);
            var s := Absorb(z, START, chunks);
            && !s.broken && Quiet(s)
            && s.out == Payloads(ms[..k])
            && got == Wire(z, ms[..k]) + Left(s)
            && (s.pending != 0 ==> k < |ms| && s.pending == |Encode(z, ms[k])|)
  {
    var got := Flatten(chunks);
    ChunkingIrrelevant(z, START, chunks);
    FedHolds(z, ms, got);
    ParseHolds(z, ms, got, Feed(START, got));
    ParseQuiet(z, Feed(START, got));
    QuietHasCutAll(z, ms, got, Absorb(z, START, chunks));
  }
}
