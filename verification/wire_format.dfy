/** The byte format of Core/Data_Stream spelled out, tag by tag, for every document; and what a
    reader makes of bytes no writer writes. */
module WireFormat {
  import opened Bytes
  import opened Codec
  import opened Package

  // ---------------------------------------------------------------------------------------
  // What is written

  /** Primitives and strings: one tag byte, then the value, low byte first. */
  lemma LeafWire(ty: Ty, v: Val)
    requires LeafTy(v, ty)
    ensures v.Bool? ==> Enc(Leaf(v)) == [0, if v.b then 1 else 0]
    ensures v.Char? ==> Enc(Leaf(v)) == [1, v.c]
    ensures v.Int32? ==> Enc(Leaf(v)) == [2] + LittleEndian(if v.i < 0 then v.i + TWO_32 else v.i, 4)
    ensures v.Int64? ==> Enc(Leaf(v)) == [3] + LittleEndian(if v.l < 0 then v.l + TWO_64 else v.l, 8)
    ensures v.Float? ==> |v.raw| == 4 && Enc(Leaf(v)) == [4] + v.raw
    ensures v.Double? ==> |v.wide| == 8 && Enc(Leaf(v)) == [5] + v.wide
    ensures v.Str? ==> Enc(Leaf(v)) == [6] + ([2] + LittleEndian(|v.s|, 4)) + v.s
  {
  }

  /** Containers: one tag byte, the number of elements or entries as a tagged integer, then the
      parts; a custom object has no number. */
  lemma NodeWire(kind: Kind, kids: seq<Doc>)
    ensures Enc(Node(kind, kids)) == Header(kind, |kids|) + EncAll(kids)
  {
    assert NodeHead(kind, |kids|) == Header(kind, |kids|) by { HeaderIs(kind, |kids|); }
  }

  function Header(kind: Kind, n: nat): seq<byte> {
    match kind
    case VECTOR => [7, 2] + LittleEndian(n, 4)
    case LIST => [8, 2] + LittleEndian(n, 4)
    case MAP => [9, 2] + LittleEndian(n / 2, 4)
    case SET => [10, 2] + LittleEndian(n, 4)
    case CUSTOM => [11]
  }

  lemma HeaderIs(kind: Kind, n: nat)
    ensures NodeHead(kind, n) == Header(kind, n)
  {
    TwoThen(Tag(kind), 2, LittleEndian(Count(kind, n), 4));
  }

  lemma TwoThen(a: byte, b: byte, s: seq<byte>)
    ensures [a] + ([b] + s) == [a, b] + s
  {
  }

  lemma {:induction false} EncAllConcat(a: seq<Doc>, b: seq<Doc>)
    ensures EncAll(a + b) == EncAll(a) + EncAll(b)
    decreases |a|
  {
    if a == [] {
      assert a + b == b;
    } else {
      assert (a + b)[1..] == a[1..] + b;
      EncAllConcat(a[1..], b);
      Regroup3(Enc(a[0]), EncAll(a[1..]), EncAll(b));
    }
  }

  /** Each part stands between those before it and those after it. */
  lemma PartsInOrder(ds: seq<Doc>, i: nat)
    requires i < |ds|
    ensures EncAll(ds) == EncAll(ds[..i]) + Enc(ds[i]) + EncAll(ds[i + 1..])
  {
    assert ds == ds[..i] + ds[i..];
    EncAllConcat(ds[..i], ds[i..]);
    assert ds[i..][1..] == ds[i + 1..];
    Regroup3(EncAll(ds[..i]), Enc(ds[i]), EncAll(ds[i + 1..]));
  }

  /** The parts of a vector, list or custom object are in its own order. */
  lemma SequenceMeans(kids: seq<Doc>, i: nat)
    requires i < |kids|
    ensures var v := Meaning(Node(VECTOR, kids)); v.Vector? && |v.vs| == |kids| && v.vs[i] == Meaning(kids[i])
    ensures var v := Meaning(Node(LIST, kids)); v.List? && |v.ls| == |kids| && v.ls[i] == Meaning(kids[i])
    ensures var v := Meaning(Node(CUSTOM, kids)); v.Custom? && |v.fields| == |kids| && v.fields[i] == Meaning(kids[i])
  {
    MeaningAt(kids, i);
  }

  /** The parts of a set are its elements. */
  lemma SetMeans(kids: seq<Doc>, x: Val)
    ensures var v := Meaning(Node(SET, kids)); v.Set? && (x in v.es <==> exists d :: d in kids && Meaning(d) == x)
  {
    if exists d :: d in kids && Meaning(d) == x {
      var d :| d in kids && Meaning(d) == x;
      var i :| 0 <= i < |kids| && kids[i] == d;
      MeaningAt(kids, i);
      assert MeaningAll(kids)[i] in MeaningAll(kids);
    }
    if x in MeaningAll(kids) {
      var i :| 0 <= i < |kids| && MeaningAll(kids)[i] == x;
      MeaningAt(kids, i);
      assert kids[i] in kids;
    }
  }

  lemma {:induction false} MeaningConcat(a: seq<Doc>, b: seq<Doc>)
    ensures MeaningAll(a + b) == MeaningAll(a) + MeaningAll(b)
    decreases |a|
  {
    if a == [] {
      assert a + b == b;
    } else {
      assert (a + b)[1..] == a[1..] + b;
      MeaningConcat(a[1..], b);
    }
  }

  /** An entry of a map is its key and then its value; a later entry overrides an earlier one. */
  lemma MapMeans(kids: seq<Doc>, k: Doc, v: Doc)
    ensures Meaning(Node(MAP, [])) == Map(map[])
    ensures Meaning(Node(MAP, kids)).Map?
    ensures Meaning(Node(MAP, kids + [k, v])) == Map(Meaning(Node(MAP, kids)).m[Meaning(k) := Meaning(v)])
  {
    MeaningConcat(kids, [k, v]);
    assert [k, v][1..] == [v] && [v][1..] == [];
    assert MeaningAll([k, v]) == [Meaning(k), Meaning(v)];
    var ms, all := MeaningAll(kids), MeaningAll(kids + [k, v]);
    assert all == ms + [Meaning(k), Meaning(v)];
    assert all[..|all| - 2] == ms;
  }

  /** A stream inside another: flag, its bytes as characters, its position. */
  lemma StreamWire(s: Snapshot)
    requires SmallStream(s)
    ensures Enc(StreamDoc(s)) ==
            [11] + [0, 0] + ([7, 2] + LittleEndian(|s.buf|, 4) + EncAll(Chars(s.buf)))
            + ([2] + LittleEndian(s.pos, 4))
    ensures |EncAll(Chars(s.buf))| == 2 * |s.buf|
    ensures forall i :: 0 <= i < |s.buf| ==>
              EncAll(Chars(s.buf))[2 * i] == 1 && EncAll(Chars(s.buf))[2 * i + 1] == s.buf[i]
  {
    var kids := StreamDoc(s).kids;
    EncThree(kids[0], kids[1], kids[2]);
    NodeWire(VECTOR, Chars(s.buf));
    CharsSize(s.buf);
    forall i | 0 <= i < |s.buf|
      ensures EncAll(Chars(s.buf))[2 * i] == 1 && EncAll(Chars(s.buf))[2 * i + 1] == s.buf[i]
    {
      CharAt(s.buf, i);
    }
  }

  lemma CharAt(buf: seq<byte>, i: nat)
    requires i < |buf|
    ensures |EncAll(Chars(buf))| == 2 * |buf|
    ensures EncAll(Chars(buf))[2 * i] == 1 && EncAll(Chars(buf))[2 * i + 1] == buf[i]
  {
    PartsInOrder(Chars(buf), i);
    assert Chars(buf)[..i] == Chars(buf[..i]);
    CharsSize(buf[..i]);
    CharsSize(buf);
    assert Enc(Chars(buf)[i]) == [1, buf[i]];
  }

  function TaggedString(s: seq<byte>): seq<byte> { [6, 2] + LittleEndian(|s|, 4) + s }

  lemma StringWire(s: seq<byte>)
    ensures Enc(Leaf(Str(s))) == TaggedString(s)
  {
    TwoThen(6, 2, LittleEndian(|s|, 4));
  }

  /** A request is its function's name, its arguments' stream and its id; a response its result's
      stream, its error text and its id. */
  lemma PackageWire(q: Request, r: Response)
    ensures EncRequest(q) == [11] + TaggedString(q.name) + Enc(StreamDoc(q.params)) + TaggedString(q.id)
    ensures EncResponse(r) == [11] + Enc(StreamDoc(r.result)) + TaggedString(r.error) + TaggedString(r.id)
  {
    EncThree(Leaf(Str(q.name)), StreamDoc(q.params), Leaf(Str(q.id)));
    EncThree(StreamDoc(r.result), Leaf(Str(r.error)), Leaf(Str(r.id)));
    StringWire(q.name);
    StringWire(q.id);
    StringWire(r.error);
    StringWire(r.id);
  }

  /** What the writers take: every number of its width, every string and container whose size the
      stream's integer holds. */
  lemma TypedIff(v: Val, ty: Ty)
    requires IsPrimitive(v)
    ensures LeafTy(v, ty) <==>
            || (ty == TBool && v.Bool?) || (ty == TChar && v.Char?)
            || (ty == TInt32 && v.Int32? && -0x8000_0000 <= v.i < 0x8000_0000)
            || (ty == TInt64 && v.Int64? && -0x8000_0000_0000_0000 <= v.l < 0x8000_0000_0000_0000)
            || (ty == TFloat && v.Float? && |v.raw| == 4) || (ty == TDouble && v.Double? && |v.wide| == 8)
            || (ty == TString && v.Str? && |v.s| < 0x8000_0000)
  {
  }

  lemma SequenceTypedIff(kind: Kind, kids: seq<Doc>, part: Ty)
    requires kind == VECTOR || kind == LIST || kind == SET
    ensures HasTy(Node(kind, kids), TNode(kind, [part]))
            <==> |kids| < 0x8000_0000 && forall i :: 0 <= i < |kids| ==> HasTy(kids[i], part)
  {
    var ty := TNode(kind, [part]);
    assert forall i :: 0 <= i < |kids| ==> KidTy(ty, |kids|, i) == part;
  }

  // ---------------------------------------------------------------------------------------
  // What is read of other bytes

  /** Any byte but zero is true. */
  lemma NonzeroIsTrue(x: byte, s: seq<byte>)
    ensures Decode(TBool, [0, x] + s) == Some((Bool(x != 0), s))
  {
    var b := [0, x] + s;
    assert b[2..] == s;
  }

  /** A negative number of elements is read as none, and the reader goes on behind it. */
  lemma NegativeCountIsEmpty(ty: Ty, n: int, s: seq<byte>)
    requires ty.TNode? && Arity(ty) && ty.kind != CUSTOM && -TWO_31 <= n < 0
    ensures Decode(ty, [TyTag(ty), 2] + LittleEndian(n + TWO_32, 4) + s) == Some((Build(ty.kind, []), s))
  {
    var b := [TyTag(ty), 2] + LittleEndian(n + TWO_32, 4) + s;
    var rest := b[1..];
    var raw := Int32Bytes(n);
    assert raw == LittleEndian(n + TWO_32, 4);
    assert rest == [2] + raw + s;
    FixedRoundTrip(2, raw, s);
    Int32RoundTrip(n);
    assert DecInt32(rest) == Some((n, s));
  }
}
