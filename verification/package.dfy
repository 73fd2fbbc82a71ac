/** RPC/Rpc_Package.h: requests and responses on the wire, and how many bytes they take. */
module Package {
  import opened Bytes
  import opened Codec
  import F = Framing
  import C = Capacity

  /** A Data_Stream as a value: its bytes and read position. */
  datatype Snapshot = Snapshot(buf: seq<byte>, pos: nat)

  datatype Request = Request(id: seq<byte>, name: seq<byte>, params: Snapshot)

  datatype Response = Response(result: Snapshot, error: seq<byte>, id: seq<byte>)

  // ---------------------------------------------------------------------------------------
  // A stream inside a stream: endianness flag, bytes as a vector of characters, position

  const STREAM: Ty := TNode(CUSTOM, [TBool, TNode(VECTOR, [TChar]), TInt32])

  function Chars(buf: seq<byte>): (ds: seq<Doc>)
    ensures |ds| == |buf|
  {
    seq(|buf|, i requires 0 <= i < |buf| => Leaf(Char(buf[i])))
  }

  function CharVals(buf: seq<byte>): (vs: seq<Val>)
    ensures |vs| == |buf|
  {
    seq(|buf|, i requires 0 <= i < |buf| => Char(buf[i]))
  }

  function StreamDoc(s: Snapshot): Doc {
    Node(CUSTOM, [Leaf(Bool(false)), Node(VECTOR, Chars(s.buf)), Leaf(Int32(s.pos))])
  }

  function StreamVal(s: Snapshot): Val {
    Custom([Bool(false), Vector(CharVals(s.buf)), Int32(s.pos)])
  }

  predicate SmallStream(s: Snapshot) {
    s.pos <= |s.buf| < TWO_31
  }

  predicate IsStream(v: Val) {
    && v.Custom? && |v.fields| == 3
    && v.fields[1].Vector? && (forall c :: c in v.fields[1].vs ==> c.Char?)
    && v.fields[2].Int32? && v.fields[2].i >= 0
  }

  function SnapshotOf(v: Val): Snapshot
    requires IsStream(v)
  {
    var cs := v.fields[1].vs;
    Snapshot(seq<byte>(|cs|, i requires 0 <= i < |cs| => cs[i].c), v.fields[2].i)
  }

  lemma {:induction false} CharsMean(buf: seq<byte>)
    ensures MeaningAll(Chars(buf)) == CharVals(buf)
  {
    if buf != [] {
      assert Chars(buf)[1..] == Chars(buf[1..]);
      assert CharVals(buf)[1..] == CharVals(buf[1..]);
      CharsMean(buf[1..]);
    }
  }

  lemma StreamMeans(s: Snapshot)
    requires SmallStream(s)
    ensures HasTy(StreamDoc(s), STREAM) && Meaning(StreamDoc(s)) == StreamVal(s)
    ensures IsStream(StreamVal(s)) && SnapshotOf(StreamVal(s)) == s
  {
    CharsMean(s.buf);
    StreamTyped(s);
    MeaningThree(Leaf(Bool(false)), Node(VECTOR, Chars(s.buf)), Leaf(Int32(s.pos)));
    assert SnapshotOf(StreamVal(s)).buf == s.buf;
  }

  lemma StreamTyped(s: Snapshot)
    requires SmallStream(s)
    ensures HasTy(StreamDoc(s), STREAM)
  {
    var ty := TNode(VECTOR, [TChar]);
    assert HasTy(Node(VECTOR, Chars(s.buf)), ty);
    var kids := StreamDoc(s).kids;
    forall i | 0 <= i < 3
      ensures HasTy(kids[i], KidTy(STREAM, 3, i))
    {
    }
  }

  lemma {:induction false} CharsSize(buf: seq<byte>)
    ensures |EncAll(Chars(buf))| == 2 * |buf|
  {
    if buf != [] {
      assert Chars(buf)[1..] == Chars(buf[1..]);
      CharsSize(buf[1..]);
    }
  }

  lemma ConsUnfold(d: Doc, ds: seq<Doc>)
    ensures EncAll([d] + ds) == Enc(d) + EncAll(ds)
    ensures MeaningAll([d] + ds) == [Meaning(d)] + MeaningAll(ds)
  {
    assert ([d] + ds)[1..] == ds;
  }

  /** A custom object with three fields. */
  lemma EncThree(a: Doc, b: Doc, c: Doc)
    ensures Enc(Node(CUSTOM, [a, b, c])) == [Tag(CUSTOM)] + Enc(a) + Enc(b) + Enc(c)
  {
    assert [a, b, c] == [a] + [b, c] && [b, c] == [b] + [c] && [c] == [c] + [];
    ConsUnfold(a, [b, c]);
    ConsUnfold(b, [c]);
    ConsUnfold(c, []);
  }

  lemma MeaningThree(a: Doc, b: Doc, c: Doc)
    ensures Meaning(Node(CUSTOM, [a, b, c])) == Custom([Meaning(a), Meaning(b), Meaning(c)])
  {
    assert [a, b, c] == [a] + [b, c] && [b, c] == [b] + [c] && [c] == [c] + [];
    ConsUnfold(a, [b, c]);
    ConsUnfold(b, [c]);
    ConsUnfold(c, []);
  }

  lemma TypedThree(a: Doc, b: Doc, c: Doc, ta: Ty, tb: Ty, tc: Ty)
    requires HasTy(a, ta) && HasTy(b, tb) && HasTy(c, tc)
    ensures HasTy(Node(CUSTOM, [a, b, c]), TNode(CUSTOM, [ta, tb, tc]))
  {
  }

  lemma StreamSize(s: Snapshot)
    requires SmallStream(s)
    ensures |Enc(StreamDoc(s))| == 2 * |s.buf| + 14
  {
    CharsSize(s.buf);
    var kids := StreamDoc(s).kids;
    EncThree(kids[0], kids[1], kids[2]);
  }

  // ---------------------------------------------------------------------------------------
  // Requests and responses

  const REQUEST: Ty := TNode(CUSTOM, [TString, STREAM, TString])
  const RESPONSE: Ty := TNode(CUSTOM, [STREAM, TString, TString])

  /** The fields in the order of the SERIALIZE lists. */
  function RequestDoc(r: Request): Doc {
    Node(CUSTOM, [Leaf(Str(r.name)), StreamDoc(r.params), Leaf(Str(r.id))])
  }

  function ResponseDoc(r: Response): Doc {
    Node(CUSTOM, [StreamDoc(r.result), Leaf(Str(r.error)), Leaf(Str(r.id))])
  }

  predicate SmallRequest(r: Request) {
    |r.id| < TWO_31 && |r.name| < TWO_31 && SmallStream(r.params)
  }

  predicate SmallResponse(r: Response) {
    |r.id| < TWO_31 && |r.error| < TWO_31 && SmallStream(r.result)
  }

  function EncRequest(r: Request): seq<byte> { Enc(RequestDoc(r)) }

  function EncResponse(r: Response): seq<byte> { Enc(ResponseDoc(r)) }

  function RequestVal(r: Request): Val {
    Custom([Str(r.name), StreamVal(r.params), Str(r.id)])
  }

  function ResponseVal(r: Response): Val {
    Custom([StreamVal(r.result), Str(r.error), Str(r.id)])
  }

  function RequestOf(v: Val): Option<Request> {
    if v.Custom? && |v.fields| == 3 && v.fields[0].Str? && IsStream(v.fields[1]) && v.fields[2].Str?
    then Some(Request(v.fields[2].s, v.fields[0].s, SnapshotOf(v.fields[1])))
    else None
  }

  function ResponseOf(v: Val): Option<Response> {
    if v.Custom? && |v.fields| == 3 && IsStream(v.fields[0]) && v.fields[1].Str? && v.fields[2].Str?
    then Some(Response(SnapshotOf(v.fields[0]), v.fields[1].s, v.fields[2].s))
    else None
  }

  function DecRequest(b: seq<byte>): Option<Request> {
    match Decode(REQUEST, b) case None => None case Some((v, _)) => RequestOf(v)
  }

  function DecResponse(b: seq<byte>): Option<Response> {
    match Decode(RESPONSE, b) case None => None case Some((v, _)) => ResponseOf(v)
  }

  lemma RequestRoundTrip(r: Request)
    requires SmallRequest(r)
    ensures HasTy(RequestDoc(r), REQUEST)
    ensures Decode(REQUEST, EncRequest(r)) == Some((RequestVal(r), []))
    ensures DecRequest(EncRequest(r)) == Some(r)
  {
    var a, b, c := Leaf(Str(r.name)), StreamDoc(r.params), Leaf(Str(r.id));
    StreamMeans(r.params);
    TypedThree(a, b, c, TString, STREAM, TString);
    MeaningThree(a, b, c);
    RoundTrip(REQUEST, RequestDoc(r), []);
    assert EncRequest(r) + [] == EncRequest(r);
  }

  lemma ResponseRoundTrip(r: Response)
    requires SmallResponse(r)
    ensures HasTy(ResponseDoc(r), RESPONSE)
    ensures Decode(RESPONSE, EncResponse(r)) == Some((ResponseVal(r), []))
    ensures DecResponse(EncResponse(r)) == Some(r)
  {
    var a, b, c := StreamDoc(r.result), Leaf(Str(r.error)), Leaf(Str(r.id));
    StreamMeans(r.result);
    TypedThree(a, b, c, STREAM, TString, TString);
    MeaningThree(a, b, c);
    RoundTrip(RESPONSE, ResponseDoc(r), []);
    assert EncResponse(r) + [] == EncResponse(r);
  }

  // ---------------------------------------------------------------------------------------
  // Sizes

  /** The length of generate_uuid's text. */
  const ID_LENGTH := 36

  /** The fields go out in the order of the SERIALIZE lists. */
  lemma RequestLayout(r: Request)
    ensures EncRequest(r) == [11] + EncLeaf(Str(r.name)) + Enc(StreamDoc(r.params)) + EncLeaf(Str(r.id))
  {
    EncThree(Leaf(Str(r.name)), StreamDoc(r.params), Leaf(Str(r.id)));
  }

  lemma ResponseLayout(r: Response)
    ensures EncResponse(r) == [11] + Enc(StreamDoc(r.result)) + EncLeaf(Str(r.error)) + EncLeaf(Str(r.id))
  {
    EncThree(StreamDoc(r.result), Leaf(Str(r.error)), Leaf(Str(r.id)));
  }

  lemma RequestSize(r: Request)
    requires SmallRequest(r) && |r.id| == ID_LENGTH
    ensures |EncRequest(r)| == 63 + |r.name| + 2 * |r.params.buf|
  {
    RequestLayout(r);
    StreamSize(r.params);
  }

  lemma ResponseSize(r: Response)
    requires SmallResponse(r) && |r.id| == ID_LENGTH
    ensures |EncResponse(r)| == 63 + |r.error| + 2 * |r.result.buf|
  {
    ResponseLayout(r);
    StreamSize(r.result);
  }

  /** An uncompressed request can get through a channel exactly when method name and twice the
      argument bytes come to at most 16328 bytes. */
  lemma RequestFitsIff(z: F.Compressor, r: Request)
    requires F.Lossless(z) && SmallRequest(r) && |r.id| == ID_LENGTH && |EncRequest(r)| + 1 < TWO_31
    ensures C.CanDeliver(z, F.BUFFER_SIZE, F.Message(F.Plain, EncRequest(r)))
            <==> |r.name| + 2 * |r.params.buf| <= 16328
  {
    RequestSize(r);
    C.CanDeliverIff(z, F.BUFFER_SIZE, F.Message(F.Plain, EncRequest(r)));
  }

  /** And an uncompressed response when the same holds of error text and result bytes. */
  lemma ResponseFitsIff(z: F.Compressor, r: Response)
    requires F.Lossless(z) && SmallResponse(r) && |r.id| == ID_LENGTH && |EncResponse(r)| + 1 < TWO_31
    ensures C.CanDeliver(z, F.BUFFER_SIZE, F.Message(F.Plain, EncResponse(r)))
            <==> |r.error| + 2 * |r.result.buf| <= 16328
  {
    ResponseSize(r);
    C.CanDeliverIff(z, F.BUFFER_SIZE, F.Message(F.Plain, EncResponse(r)));
  }
}
