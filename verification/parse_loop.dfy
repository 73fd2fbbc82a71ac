/** The cutting loop of Socket_Channel::parse_message as it is written, whose only exit is at its
    header test: when does it end? */
module ParseLoop {
  import opened Bytes
  import opened Framing

  datatype Turn = Exit | Again(s: Receiver)

  /** One turn of the loop.  An incomplete body is left for the next turn. */
  function LoopTurn(z: Compressor, s: Receiver): Turn {
    if s.pending == 0 && |s.ring| <= HEAD_LENGTH then Exit
    else
      var t := if s.pending == 0 then TakeHead(s) else s;
      if |t.ring| < t.pending then Again(t)
      else
        match Decode(z, t.ring[..t.pending])
        case None => Again(t.(broken := true))
        case Some(_) => Again(TakeBodyNext(z, t))
  }

  /** The loop exits in its turn n, the behaviour being defined all the way. */
  predicate ExitsIn(z: Compressor, s: Receiver, n: nat)
    decreases n
  {
    !s.broken &&
    match LoopTurn(z, s)
    case Exit => n == 0
    case Again(t) => n > 0 && ExitsIn(z, t, n - 1)
  }

  ghost predicate Exits(z: Compressor, s: Receiver) {
    exists n :: ExitsIn(z, s, n)
  }

  /** A turn does not change where parsing ends. */
  lemma TurnParses(z: Compressor, s: Receiver)
    requires !s.broken && LoopTurn(z, s).Again?
    ensures Parse(z, LoopTurn(z, s).s) == Parse(z, s)
  {
  }

  lemma {:induction false} ExitedIsParsed(z: Compressor, s: Receiver, n: nat)
    requires ExitsIn(z, s, n)
    ensures Parse(z, s).pending == 0 && !Parse(z, s).broken
    decreases n
  {
    if n > 0 {
      TurnParses(z, s);
      ExitedIsParsed(z, LoopTurn(z, s).s, n - 1);
    }
  }

  lemma {:induction false} ParsedExits(z: Compressor, s: Receiver) returns (n: nat)
    requires !Parse(z, s).broken && Parse(z, s).pending == 0
    ensures ExitsIn(z, s, n)
    decreases |s.ring|
  {
    if LoopTurn(z, s).Exit? {
      n := 0;
    } else {
      var t := LoopTurn(z, s).s;
      TurnParses(z, s);
      n := ParsedExits(z, t);
      n := n + 1;
    }
  }

  /** On every input the loop ends exactly when parsing, as the other files define it, ends without
      a header waiting for the rest of its body.  Otherwise it spins. */
  lemma ExitsIff(z: Compressor, s: Receiver)
    ensures Exits(z, s) <==> !Parse(z, s).broken && Parse(z, s).pending == 0
  {
    if Exits(z, s) {
      var n :| ExitsIn(z, s, n);
      ExitedIsParsed(z, s, n);
    } else if !Parse(z, s).broken && Parse(z, s).pending == 0 {
      var n := ParsedExits(z, s);
    }
  }

  /** The state after n turns, or where the loop exited before. */
  function After(z: Compressor, s: Receiver, n: nat): Receiver
    decreases n
  {
    if n == 0 || s.broken then s
    else match LoopTurn(z, s) case Exit => s case Again(t) => After(z, t, n - 1)
  }

  /** Where parsing ends, a turn changes nothing: it exits, or leaves a header and a short body
      exactly as they are. */
  lemma Spins(z: Compressor, s: Receiver, n: nat)
    requires !s.broken && Quiet(s)
    ensures LoopTurn(z, s) == (if s.pending == 0 then Exit else Again(s)) && After(z, s, n) == s
    decreases n
  {
    if n > 0 && s.pending != 0 { Spins(z, s, n - 1); }
  }

  /** From turn m on the loop is where parsing ends. */
  ghost predicate Rests(z: Compressor, s: Receiver, m: nat) {
    forall n: nat :: n >= m ==> After(z, s, n) == Parse(z, s)
  }

  /** Ended or not, the loop comes there. */
  lemma {:induction false} Settles(z: Compressor, s: Receiver) returns (m: nat)
    requires !Parse(z, s).broken
    ensures Rests(z, s, m)
    decreases |s.ring|
  {
    ParseQuiet(z, s);
    if Quiet(s) {
      m := 0;
      forall n: nat ensures After(z, s, n) == s { Spins(z, s, n); }
    } else {
      var t := LoopTurn(z, s).s;
      TurnParses(z, s);
      var k := Settles(z, t);
      m := k + 1;
      forall n: nat | n >= m ensures After(z, s, n) == Parse(z, s) { assert After(z, s, n) == After(z, t, n - 1); }
    }
  }

  /** So where it does not end, it spins: from some turn on each turn leaves the very state it found,
      a header and too short a body. */
  lemma SpinsIff(z: Compressor, s: Receiver)
    requires !Parse(z, s).broken
    ensures !Exits(z, s) <==> LoopTurn(z, Parse(z, s)) == Again(Parse(z, s))
    ensures exists m: nat :: Rests(z, s, m)
  {
    ExitsIff(z, s);
    ParseQuiet(z, s);
    Spins(z, Parse(z, s), 0);
    var m := Settles(z, s);
  }

  /** Headers are read with a byte to spare. */
  predicate Spare(s: Receiver) {
    s.pending != 0 ==> s.ring != []
  }

  lemma {:induction false} ParseSpares(z: Compressor, s: Receiver)
    requires Spare(s)
    ensures Spare(Parse(z, s))
    decreases |s.ring|
  {
    if !s.broken && (s.pending != 0 || |s.ring| > HEAD_LENGTH) {
      var t := if s.pending == 0 then TakeHead(s) else s;
      if |t.ring| >= t.pending && Decode(z, t.ring[..t.pending]).Some? {
        ParseSpares(z, TakeBodyNext(z, t));
      }
    }
  }

  /** On a sender's stream the loop ends exactly when no more than a header lies behind the last
      whole frame taken in. */
  lemma StreamExitsIff(z: Compressor, ms: seq<Message>, got: seq<byte>, s: Receiver)
    requires Lossless(z) && Sendable(z, ms) && Holds(z, ms, got, s) && Spare(s)
    ensures Exits(z, s) <==> |got| <= |Wire(z, ms[..WholeFrames(z, ms, |got|)])| + HEAD_LENGTH
    ensures Exits(z, s) ==> Spare(Parse(z, s))
  {
    var t := Parse(z, s);
    ExitsIff(z, s);
    ParseHolds(z, ms, got, s);
    ParseQuiet(z, s);
    ParseSpares(z, s);
    QuietHasCutAll(z, ms, got, t);
  }
}
