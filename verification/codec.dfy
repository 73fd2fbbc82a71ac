/** The tagged, self-delimiting encoding of Core/Data_Stream, as functions on values. */
module Codec {
  import opened Bytes

  // ---------------------------------------------------------------------------------------
  // Types, values, and values as a writer visits them

  datatype Kind = VECTOR | LIST | MAP | SET | CUSTOM

  /** Node arguments: the element type; for MAP key and value type; for CUSTOM the field types. */
  datatype Ty =
    | TBool | TChar | TInt32 | TInt64 | TFloat | TDouble | TString
    | TNode(kind: Kind, args: seq<Ty>)

  /** Floating-point numbers are their object representation. */
  datatype Val =
    | Bool(b: bool) | Char(c: byte) | Int32(i: int) | Int64(l: int)
    | Float(raw: seq<byte>) | Double(wide: seq<byte>) | Str(s: seq<byte>)
    | Vector(vs: seq<Val>) | List(ls: seq<Val>)
    | Map(m: map<Val, Val>) | Set(es: set<Val>)
    | Custom(fields: seq<Val>)

  /** A value in the order in which its parts are written.  A set or map may be visited in any
      order; the children of a MAP node are key, value, key, value and so on. */
  datatype Doc = Leaf(v: Val) | Node(kind: Kind, kids: seq<Doc>)

  function Tag(kind: Kind): byte {
    match kind case VECTOR => 7 case LIST => 8 case MAP => 9 case SET => 10 case CUSTOM => 11
  }

  function PrimTag(ty: Ty): byte
    requires !ty.TNode?
  {
    match ty
    case TBool => 0 case TChar => 1 case TInt32 => 2 case TInt64 => 3
    case TFloat => 4 case TDouble => 5 case TString => 6
  }

  function TyTag(ty: Ty): byte {
    if ty.TNode? then Tag(ty.kind) else PrimTag(ty)
  }

  predicate Arity(ty: Ty)
    requires ty.TNode?
  {
    match ty.kind
    case MAP => |ty.args| == 2
    case CUSTOM => true
    case _ => |ty.args| == 1
  }

  /** The type of the i-th child, of n. */
  predicate HasKid(ty: Ty, n: nat) {
    && ty.TNode? && Arity(ty)
    && (ty.kind == CUSTOM ==> n == |ty.args|)
    && (ty.kind == MAP ==> n % 2 == 0)
  }

  function KidTy(ty: Ty, n: nat, i: nat): (t: Ty)
    requires HasKid(ty, n) && i < n
    ensures t < ty
  {
    match ty.kind
    case MAP => ty.args[i % 2]
    case CUSTOM => ty.args[i]
    case _ => ty.args[0]
  }

  /** The number written after the tag: entries for a map, elements otherwise. */
  function Count(kind: Kind, n: nat): nat {
    if kind == MAP then n / 2 else n
  }

  predicate LeafTy(v: Val, ty: Ty) {
    match ty
    case TBool => v.Bool?
    case TChar => v.Char?
    case TInt32 => v.Int32? && IsInt32(v.i)
    case TInt64 => v.Int64? && IsInt64(v.l)
    case TFloat => v.Float? && |v.raw| == 4
    case TDouble => v.Double? && |v.wide| == 8
    case TString => v.Str? && |v.s| < TWO_31
    case TNode(_, _) => false
  }

  predicate HasTy(d: Doc, ty: Ty) {
    match d
    case Leaf(v) => LeafTy(v, ty)
    case Node(kind, kids) =>
      && HasKid(ty, |kids|) && ty.kind == kind
      && Count(kind, |kids|) < TWO_31
      && forall i :: 0 <= i < |kids| ==> HasTy(kids[i], KidTy(ty, |kids|, i))
  }

  // ---------------------------------------------------------------------------------------
  // Writing

  /** write(int): the tag and the low 32 bits of the number. */
  function EncInt32(n: nat): (b: seq<byte>)
    ensures |b| == 5
  {
    [2] + LittleEndian(n, 4)
  }

  function EncLeaf(v: Val): seq<byte> {
    match v
    case Bool(b) => [0, if b then 1 else 0]
    case Char(c) => [1, c]
    case Int32(i) => if IsInt32(i) then [2] + Int32Bytes(i) else []
    case Int64(l) => if IsInt64(l) then [3] + Int64Bytes(l) else []
    case Float(raw) => [4] + raw
    case Double(wide) => [5] + wide
    case Str(s) => [6] + EncInt32(|s|) + s
    case _ => []
  }

  function NodeHead(kind: Kind, n: nat): seq<byte> {
    [Tag(kind)] + (if kind == CUSTOM then [] else EncInt32(Count(kind, n)))
  }

  function Enc(d: Doc): seq<byte>
    decreases d, 1
  {
    match d
    case Leaf(v) => EncLeaf(v)
    case Node(kind, kids) => NodeHead(kind, |kids|) + EncAll(kids)
  }

  function EncAll(ds: seq<Doc>): seq<byte>
    decreases ds, 0
  {
    if ds == [] then [] else Enc(ds[0]) + EncAll(ds[1..])
  }

  // ---------------------------------------------------------------------------------------
  // What a document means, whatever the order of its parts

  /** Entries inserted one after the other, as value[k] = v does. */
  function Entries(vs: seq<Val>): map<Val, Val> {
    if |vs| < 2 then map[]
    else Entries(vs[..|vs| - 2])[vs[|vs| - 2] := vs[|vs| - 1]]
  }

  function Elements(vs: seq<Val>): set<Val> {
    set v | v in vs
  }

  function Build(kind: Kind, vs: seq<Val>): Val {
    match kind
    case VECTOR => Vector(vs)
    case LIST => List(vs)
    case MAP => Map(Entries(vs))
    case SET => Set(Elements(vs))
    case CUSTOM => Custom(vs)
  }

  function Meaning(d: Doc): Val
    decreases d, 1
  {
    match d
    case Leaf(v) => v
    case Node(kind, kids) => Build(kind, MeaningAll(kids))
  }

  function MeaningAll(ds: seq<Doc>): (vs: seq<Val>)
    ensures |vs| == |ds|
    decreases ds, 0
  {
    if ds == [] then [] else [Meaning(ds[0])] + MeaningAll(ds[1..])
  }

  lemma {:induction false} MeaningAt(ds: seq<Doc>, i: nat)
    requires i < |ds|
    ensures MeaningAll(ds)[i] == Meaning(ds[i])
  {
    if i > 0 { MeaningAt(ds[1..], i - 1); }
  }

  // ---------------------------------------------------------------------------------------
  // Reading

  /** None where reading fails or would leave the stream. */
  type Parsed = Option<(Val, seq<byte>)>

  function DecInt32(b: seq<byte>): Option<(int, seq<byte>)> {
    if |b| < 5 || b[0] != 2 then None else Some((Int32Of(b[1..5]), b[5..]))
  }

  function DecLeaf(ty: Ty, b: seq<byte>): Parsed
    requires !ty.TNode?
  {
    if b == [] || b[0] != PrimTag(ty) then None
    else
      match ty
      case TBool => if |b| < 2 then None else Some((Bool(b[1] != 0), b[2..]))
      case TChar => if |b| < 2 then None else Some((Char(b[1]), b[2..]))
      case TInt32 => if |b| < 5 then None else Some((Int32(Int32Of(b[1..5])), b[5..]))
      case TInt64 => if |b| < 9 then None else Some((Int64(Int64Of(b[1..9])), b[9..]))
      case TFloat => if |b| < 5 then None else Some((Float(b[1..5]), b[5..]))
      case TDouble => if |b| < 9 then None else Some((Double(b[1..9]), b[9..]))
      case TString => DecString(b[1..])
  }

  function DecString(b: seq<byte>): Parsed {
    match DecInt32(b)
    case None => None
    case Some((len, rest)) => if len < 0 || len > |rest| then None else Some((Str(rest[..len]), rest[len..]))
  }

  /** How many children follow, and the bytes from the first one on. */
  function DecHead(ty: Ty, b: seq<byte>): Option<(nat, seq<byte>)>
    requires ty.TNode?
  {
    if b == [] || b[0] != Tag(ty.kind) || !Arity(ty) then None
    else if ty.kind == CUSTOM then Some((|ty.args|, b[1..]))
    else
      match DecInt32(b[1..])
      case None => None
      case Some((n, rest)) => Some((if n < 0 then 0 else if ty.kind == MAP then 2 * n else n, rest))
  }

  function Decode(ty: Ty, b: seq<byte>): Parsed
    decreases ty, 1, 0
  {
    if !ty.TNode? then DecLeaf(ty, b)
    else
      match DecHead(ty, b)
      case None => None
      case Some((n, rest)) =>
        match DecodeAll(ty, n, 0, rest)
        case None => None
        case Some((vs, tail)) => Some((Build(ty.kind, vs), tail))
  }

  /** Children i to n. */
  function DecodeAll(ty: Ty, n: nat, i: nat, b: seq<byte>): (r: Option<(seq<Val>, seq<byte>)>)
    requires HasKid(ty, n) && i <= n
    ensures r.Some? ==> |r.value.0| == n - i
    decreases ty, 0, n - i
  {
    if i == n then Some(([], b))
    else
      match Decode(KidTy(ty, n, i), b)
      case None => None
      case Some((v, rest)) =>
        match DecodeAll(ty, n, i + 1, rest)
        case None => None
        case Some((vs, tail)) => Some(([v] + vs, tail))
  }

  // ---------------------------------------------------------------------------------------
  // Round trip

  lemma Split(a: seq<byte>, b: seq<byte>)
    ensures (a + b)[..|a|] == a && (a + b)[|a|..] == b
  {
  }

  lemma Int32Written(n: nat, s: seq<byte>)
    requires n < TWO_31
    ensures DecInt32(EncInt32(n) + s) == Some((n, s))
  {
    Split(EncInt32(n), s);
    assert (EncInt32(n) + s)[1..5] == LittleEndian(n, 4) == Int32Bytes(n);
    Int32RoundTrip(n);
  }

  lemma StringRoundTrip(t: seq<byte>, s: seq<byte>)
    requires |t| < TWO_31
    ensures DecString(EncInt32(|t|) + (t + s)) == Some((Str(t), s))
  {
    Int32Written(|t|, t + s);
    Split(t, s);
  }

  /** A tag and a fixed number of bytes. */
  lemma FixedRoundTrip(tag: byte, raw: seq<byte>, s: seq<byte>)
    ensures var b := [tag] + raw + s; b[1..1 + |raw|] == raw && b[1 + |raw|..] == s
  {
  }

  lemma TaggedTail(tag: byte, e: seq<byte>, t: seq<byte>, s: seq<byte>)
    ensures var b := [tag] + e + t + s; b[0] == tag && b[1..] == e + (t + s)
  {
  }

  lemma StrLeaf(t: seq<byte>, s: seq<byte>)
    requires |t| < TWO_31
    ensures DecLeaf(TString, EncLeaf(Str(t)) + s) == Some((Str(t), s))
  {
    var b := EncLeaf(Str(t)) + s;
    assert b[0] == 6 && b[1..] == EncInt32(|t|) + (t + s) by { TaggedTail(6, EncInt32(|t|), t, s); }
    StringTagged(b);
    StringRoundTrip(t, s);
  }

  lemma StringTagged(b: seq<byte>)
    requires b != [] && b[0] == 6
    ensures DecLeaf(TString, b) == DecString(b[1..])
  {
  }

  lemma Int32Leaf(i: int, s: seq<byte>)
    requires IsInt32(i)
    ensures DecLeaf(TInt32, EncLeaf(Int32(i)) + s) == Some((Int32(i), s))
  {
    FixedRoundTrip(2, Int32Bytes(i), s);
    Int32RoundTrip(i);
  }

  lemma Int64Leaf(l: int, s: seq<byte>)
    requires IsInt64(l)
    ensures DecLeaf(TInt64, EncLeaf(Int64(l)) + s) == Some((Int64(l), s))
  {
    FixedRoundTrip(3, Int64Bytes(l), s);
    Int64RoundTrip(l);
  }

  lemma LeafRoundTrip(ty: Ty, v: Val, s: seq<byte>)
    requires LeafTy(v, ty)
    ensures DecLeaf(ty, EncLeaf(v) + s) == Some((v, s))
  {
    match ty {
      case TInt32 => Int32Leaf(v.i, s);
      case TInt64 => Int64Leaf(v.l, s);
      case TString => StrLeaf(v.s, s);
      case TFloat => FixedRoundTrip(4, v.raw, s);
      case TDouble => FixedRoundTrip(5, v.wide, s);
      case TBool => FixedRoundTrip(0, [if v.b then 1 else 0], s);
      case TChar => FixedRoundTrip(1, [v.c], s);
    }
  }

  lemma HeadRoundTrip(ty: Ty, n: nat, s: seq<byte>)
    requires HasKid(ty, n) && Count(ty.kind, n) < TWO_31
    ensures DecHead(ty, NodeHead(ty.kind, n) + s) == Some((n, s))
  {
    var b := NodeHead(ty.kind, n) + s;
    assert b[0] == Tag(ty.kind);
    if ty.kind == CUSTOM {
      assert b[1..] == s;
    } else {
      assert b[1..] == EncInt32(Count(ty.kind, n)) + s;
      CountRoundTrip(ty, n, b, s);
    }
  }

  lemma CountRoundTrip(ty: Ty, n: nat, b: seq<byte>, s: seq<byte>)
    requires HasKid(ty, n) && ty.kind != CUSTOM && Count(ty.kind, n) < TWO_31
    requires b != [] && b[0] == Tag(ty.kind) && b[1..] == EncInt32(Count(ty.kind, n)) + s
    ensures DecHead(ty, b) == Some((n, s))
  {
    Int32Written(Count(ty.kind, n), s);
  }

  lemma Regroup3(a: seq<byte>, b: seq<byte>, c: seq<byte>)
    ensures (a + b) + c == a + (b + c)
  {
  }

  /** Whatever order its sets and maps are visited in, a well-typed value that is written and
      then read, before any other bytes, comes back, and reading stops where writing did. */
  lemma {:induction false} RoundTrip(ty: Ty, d: Doc, s: seq<byte>)
    requires HasTy(d, ty)
    ensures Decode(ty, Enc(d) + s) == Some((Meaning(d), s))
    decreases d, 1, 0
  {
    match d
    case Leaf(v) => LeafRoundTrip(ty, v, s);
    case Node(kind, kids) =>
      Regroup3(NodeHead(kind, |kids|), EncAll(kids), s);
      HeadRoundTrip(ty, |kids|, EncAll(kids) + s);
      assert kids[0..] == kids;
      RoundTripAll(ty, kids, 0, s);
  }

  lemma {:induction false} RoundTripAll(ty: Ty, kids: seq<Doc>, i: nat, s: seq<byte>)
    requires HasKid(ty, |kids|) && i <= |kids|
    requires forall j :: 0 <= j < |kids| ==> HasTy(kids[j], KidTy(ty, |kids|, j))
    ensures DecodeAll(ty, |kids|, i, EncAll(kids[i..]) + s) == Some((MeaningAll(kids[i..]), s))
    decreases kids, 0, |kids| - i
  {
    if i == |kids| {
      assert EncAll(kids[i..]) + s == s;
    } else {
      assert kids[i..][1..] == kids[i + 1..];
      Regroup3(Enc(kids[i]), EncAll(kids[i + 1..]), s);
      RoundTrip(KidTy(ty, |kids|, i), kids[i], EncAll(kids[i + 1..]) + s);
      RoundTripAll(ty, kids, i + 1, s);
    }
  }

  /** The encoding of each type is prefix-free and injective: two streams that agree and start
      with values of one type start with the same value, in as many bytes. */
  lemma PrefixFree(ty: Ty, d1: Doc, s1: seq<byte>, d2: Doc, s2: seq<byte>)
    requires HasTy(d1, ty) && HasTy(d2, ty) && Enc(d1) + s1 == Enc(d2) + s2
    ensures Meaning(d1) == Meaning(d2) && s1 == s2 && Enc(d1) == Enc(d2)
  {
    RoundTrip(ty, d1, s1);
    RoundTrip(ty, d2, s2);
    Split(Enc(d1), s1);
    Split(Enc(d2), s2);
  }

  /** A value of one outermost type is refused by a reader of another. */
  lemma WrongTypeRefused(written: Ty, d: Doc, wanted: Ty, s: seq<byte>)
    requires HasTy(d, written) && !SameOutermost(written, wanted)
    ensures Enc(d) != [] && (Enc(d) + s)[0] != TyTag(wanted)
    ensures Decode(wanted, Enc(d) + s) == None
  {
    FirstByte(written, d);
    OtherTagRefused(wanted, Enc(d) + s);
  }

  lemma FirstByte(ty: Ty, d: Doc)
    requires HasTy(d, ty)
    ensures Enc(d) != [] && Enc(d)[0] == TyTag(ty)
  {
    match d
    case Leaf(v) =>
    case Node(kind, kids) => assert NodeHead(kind, |kids|)[0] == Tag(kind);
  }

  lemma OtherTagRefused(wanted: Ty, b: seq<byte>)
    requires b == [] || b[0] != TyTag(wanted)
    ensures Decode(wanted, b) == None
  {
  }

  predicate SameOutermost(a: Ty, b: Ty) {
    if a.TNode? && b.TNode? then a.kind == b.kind else a == b
  }

  // ---------------------------------------------------------------------------------------
  // Enumeration order

  function KeyAt(vs: seq<Val>, i: nat): Val
    requires 2 * i < |vs|
  {
    vs[2 * i]
  }

  /** Entry i of vs, a key and a value, is an entry of m. */
  ghost predicate EntryOf(vs: seq<Val>, m: map<Val, Val>, i: nat) {
    2 * i + 1 < |vs| && KeyAt(vs, i) in m && vs[2 * i + 1] == m[KeyAt(vs, i)]
  }

  /** vs lists the entries of m, each at least once, in some order. */
  ghost predicate Lists(vs: seq<Val>, m: map<Val, Val>) {
    && |vs| % 2 == 0
    && (forall i: nat :: 2 * i < |vs| ==> EntryOf(vs, m, i))
    && (forall k :: k in m ==> exists i: nat :: 2 * i < |vs| && KeyAt(vs, i) == k)
  }

  /** Every entry inserted is a listed one. */
  lemma {:induction false} EntriesFrom(vs: seq<Val>, m: map<Val, Val>)
    requires |vs| % 2 == 0
    requires forall i: nat :: 2 * i < |vs| ==> EntryOf(vs, m, i)
    ensures forall k :: k in Entries(vs) ==> k in m && Entries(vs)[k] == m[k]
    ensures forall i: nat :: 2 * i < |vs| ==> KeyAt(vs, i) in Entries(vs)
  {
    if |vs| >= 2 {
      var n := |vs| - 2;
      var h := n / 2;
      assert n == 2 * h && EntryOf(vs, m, h);
      var front := vs[..n];
      forall i: nat | 2 * i < n
        ensures EntryOf(front, m, i) && KeyAt(front, i) == KeyAt(vs, i)
      {
        assert EntryOf(vs, m, i);
      }
      EntriesFrom(front, m);
    }
  }

  /** A map's entries may be written in any order. */
  lemma MapOrderIrrelevant(vs: seq<Val>, m: map<Val, Val>)
    requires Lists(vs, m)
    ensures Build(MAP, vs) == Map(m)
  {
    EntriesFrom(vs, m);
    assert Entries(vs).Keys == m.Keys;
    assert Entries(vs) == m;
  }

  ghost predicate Enumerates(order: seq<Val>, s: set<Val>) {
    |order| == |s| && Elements(order) == s
  }

  /** order is an order in which the parts of v can be visited, each element or key once. */
  ghost predicate VisitOrder(kind: Kind, v: Val, order: seq<Val>) {
    match kind
    case VECTOR => v == Vector(order)
    case LIST => v == List(order)
    case CUSTOM => v == Custom(order)
    case SET => v.Set? && Enumerates(order, v.es)
    case MAP => v.Map? && |order| == 2 * |v.m| && Lists(order, v.m)
  }

  ghost predicate IsPrimitive(v: Val) {
    !v.Vector? && !v.List? && !v.Map? && !v.Set? && !v.Custom?
  }

  /** The writer visits v in the order of d. */
  ghost predicate Visits(d: Doc, v: Val) {
    match d
    case Leaf(w) => v == w && IsPrimitive(v)
    case Node(kind, kids) => exists order :: VisitOrder(kind, v, order) && VisitsAll(kids, order)
  }

  ghost predicate VisitsAll(kids: seq<Doc>, vs: seq<Val>) {
    |kids| == |vs| && forall i :: 0 <= i < |kids| ==> Visits(kids[i], vs[i])
  }

  lemma {:induction false} VisitMeans(d: Doc, v: Val)
    requires Visits(d, v)
    ensures Meaning(d) == v
    decreases d, 1
  {
    match d
    case Leaf(_) =>
    case Node(kind, kids) =>
      var order :| VisitOrder(kind, v, order) && VisitsAll(kids, order);
      VisitAllMeans(kids, order);
      if kind == MAP { MapOrderIrrelevant(order, v.m); }
  }

  lemma {:induction false} VisitAllMeans(kids: seq<Doc>, vs: seq<Val>)
    requires VisitsAll(kids, vs)
    ensures MeaningAll(kids) == vs
    decreases kids, 0
  {
    if kids != [] {
      VisitMeans(kids[0], vs[0]);
      VisitAllMeans(kids[1..], vs[1..]);
    }
  }

  /** Any two visits of the same value are read back alike, and as that value. */
  lemma OrderIrrelevant(ty: Ty, v: Val, d1: Doc, d2: Doc, s: seq<byte>)
    requires Visits(d1, v) && Visits(d2, v) && HasTy(d1, ty) && HasTy(d2, ty)
    ensures Decode(ty, Enc(d1) + s) == Decode(ty, Enc(d2) + s) == Some((v, s))
  {
    VisitMeans(d1, v);
    VisitMeans(d2, v);
    RoundTrip(ty, d1, s);
    RoundTrip(ty, d2, s);
  }

  // ---------------------------------------------------------------------------------------
  // Every well-typed value can be visited

  ghost predicate HasValTy(v: Val, ty: Ty)
    decreases ty
  {
    if !ty.TNode? then LeafTy(v, ty)
    else
      match ty.kind
      case VECTOR => Arity(ty) && v.Vector? && |v.vs| < TWO_31 && forall x :: x in v.vs ==> HasValTy(x, ty.args[0])
      case LIST => Arity(ty) && v.List? && |v.ls| < TWO_31 && forall x :: x in v.ls ==> HasValTy(x, ty.args[0])
      case SET => Arity(ty) && v.Set? && |v.es| < TWO_31 && forall x :: x in v.es ==> HasValTy(x, ty.args[0])
      case MAP => Arity(ty) && v.Map? && |v.m| < TWO_31
                  && forall k :: k in v.m ==> HasValTy(k, ty.args[0]) && HasValTy(v.m[k], ty.args[1])
      case CUSTOM => v.Custom? && |v.fields| == |ty.args| < TWO_31
                     && forall i :: 0 <= i < |ty.args| ==> HasValTy(v.fields[i], ty.args[i])
  }

  lemma {:induction false} SomeOrder(s: set<Val>) returns (order: seq<Val>)
    ensures Enumerates(order, s)
  {
    if s == {} {
      order := [];
    } else {
      var x :| x in s;
      var rest := SomeOrder(s - {x});
      order := rest + [x];
      assert Elements(order) == Elements(rest) + {x};
    }
  }

  lemma {:induction false} SomeEntryOrder(m: map<Val, Val>) returns (order: seq<Val>)
    ensures |order| == 2 * |m| && Lists(order, m)
    decreases |m|
  {
    if |m| == 0 {
      order := [];
      assert m == map[];
    } else {
      var k :| k in m;
      var m' := m - {k};
      assert m'.Keys == m.Keys - {k};
      assert |m'| == |m'.Keys| == |m| - 1;
      var rest := SomeEntryOrder(m');
      order := rest + [k, m[k]];
      forall i: nat | 2 * i < |order|
        ensures EntryOf(order, m, i)
      {
        if 2 * i < |rest| { assert EntryOf(rest, m', i) && KeyAt(rest, i) == KeyAt(order, i); }
      }
      forall j | j in m
        ensures exists i: nat :: 2 * i < |order| && KeyAt(order, i) == j
      {
        if j == k {
          assert KeyAt(order, |m'|) == j;
        } else {
          assert j in m';
          var i: nat :| 2 * i < |rest| && KeyAt(rest, i) == j;
          assert KeyAt(order, i) == j;
        }
      }
    }
  }

  /** Each value a visit of a node meets has the type of its place. */
  ghost predicate PartsTyped(ty: Ty, order: seq<Val>) {
    && HasKid(ty, |order|) && Count(ty.kind, |order|) < TWO_31
    && forall j :: 0 <= j < |order| ==> HasValTy(order[j], KidTy(ty, |order|, j))
  }

  lemma EntryTyped(m: map<Val, Val>, order: seq<Val>, j: nat, kty: Ty, vty: Ty)
    requires Lists(order, m) && j < |order|
    requires forall k :: k in m ==> HasValTy(k, kty) && HasValTy(m[k], vty)
    ensures HasValTy(order[j], if j % 2 == 0 then kty else vty)
  {
    assert EntryOf(order, m, j / 2);
    assert KeyAt(order, j / 2) in m;
  }

  lemma SomeMapOrder(m: map<Val, Val>, kty: Ty, vty: Ty) returns (order: seq<Val>)
    requires |m| < TWO_31
    requires forall k :: k in m ==> HasValTy(k, kty) && HasValTy(m[k], vty)
    ensures VisitOrder(MAP, Map(m), order) && PartsTyped(TNode(MAP, [kty, vty]), order)
  {
    order := SomeEntryOrder(m);
    var ty := TNode(MAP, [kty, vty]);
    forall j | 0 <= j < |order|
      ensures HasValTy(order[j], KidTy(ty, |order|, j))
    {
      EntryTyped(m, order, j, kty, vty);
    }
  }

  lemma SomeSetOrder(v: Val, ty: Ty) returns (order: seq<Val>)
    requires ty.TNode? && ty.kind == SET && HasValTy(v, ty)
    ensures VisitOrder(SET, v, order) && PartsTyped(ty, order)
  {
    order := SomeOrder(v.es);
    assert forall x :: x in order ==> x in Elements(order);
  }

  lemma SomeVisitOrder(v: Val, ty: Ty) returns (order: seq<Val>)
    requires ty.TNode? && HasValTy(v, ty)
    ensures VisitOrder(ty.kind, v, order) && PartsTyped(ty, order)
  {
    match ty.kind {
      case VECTOR => order := v.vs;
      case LIST => order := v.ls;
      case CUSTOM => order := v.fields;
      case SET => order := SomeSetOrder(v, ty);
      case MAP =>
        order := SomeMapOrder(v.m, ty.args[0], ty.args[1]);
        assert ty.args == [ty.args[0], ty.args[1]];
    }
  }

  ghost predicate KidsFrom(ty: Ty, n: nat, i: nat, kids: seq<Doc>)
    requires HasKid(ty, n)
  {
    i + |kids| == n && forall j :: 0 <= j < |kids| ==> HasTy(kids[j], KidTy(ty, n, i + j))
  }

  lemma {:induction false} SomeKids(ty: Ty, order: seq<Val>, i: nat) returns (kids: seq<Doc>)
    requires PartsTyped(ty, order) && i <= |order|
    ensures VisitsAll(kids, order[i..]) && KidsFrom(ty, |order|, i, kids)
    decreases ty, 0, |order| - i
  {
    if i == |order| {
      kids := [];
    } else {
      var d := SomeVisit(order[i], KidTy(ty, |order|, i));
      var rest := SomeKids(ty, order, i + 1);
      kids := [d] + rest;
      KidsCons(ty, |order|, i, d, rest);
      VisitsFrom(d, rest, order, i);
    }
  }

  lemma VisitsFrom(d: Doc, rest: seq<Doc>, order: seq<Val>, i: nat)
    requires i < |order| && Visits(d, order[i]) && VisitsAll(rest, order[i + 1..])
    ensures VisitsAll([d] + rest, order[i..])
  {
    assert order[i..] == [order[i]] + order[i + 1..];
    VisitsCons(d, order[i], rest, order[i + 1..]);
  }

  lemma KidsCons(ty: Ty, n: nat, i: nat, d: Doc, rest: seq<Doc>)
    requires HasKid(ty, n) && i < n && HasTy(d, KidTy(ty, n, i)) && KidsFrom(ty, n, i + 1, rest)
    ensures KidsFrom(ty, n, i, [d] + rest)
  {
    var kids := [d] + rest;
    forall j | 0 <= j < |kids|
      ensures HasTy(kids[j], KidTy(ty, n, i + j))
    {
      if j > 0 { assert kids[j] == rest[j - 1]; }
    }
  }

  lemma VisitsCons(d: Doc, v: Val, kids: seq<Doc>, vs: seq<Val>)
    requires Visits(d, v) && VisitsAll(kids, vs)
    ensures VisitsAll([d] + kids, [v] + vs)
  {
  }

  /** So the theorems about documents speak about every well-typed value. */
  lemma {:induction false} SomeVisit(v: Val, ty: Ty) returns (d: Doc)
    requires HasValTy(v, ty)
    ensures Visits(d, v) && HasTy(d, ty)
    decreases ty, 1, 0
  {
    if !ty.TNode? {
      d := Leaf(v);
    } else {
      var order := SomeVisitOrder(v, ty);
      var kids := SomeKids(ty, order, 0);
      assert order[0..] == order;
      d := Node(ty.kind, kids);
    }
  }

  // ---------------------------------------------------------------------------------------
  // Argument lists

  /** Arguments written last to first, as Rpc_Client::call does. */
  function EncArgs(ds: seq<Doc>): seq<byte> {
    if ds == [] then [] else Enc(ds[|ds| - 1]) + EncArgs(ds[..|ds| - 1])
  }

  predicate HaveTys(ds: seq<Doc>, tys: seq<Ty>) {
    |ds| == |tys| && forall i :: 0 <= i < |ds| ==> HasTy(ds[i], tys[i])
  }

  /** Arguments read from the last type to the first, as get_args is taken to do. */
  function DecArgs(tys: seq<Ty>, b: seq<byte>): (r: Option<(seq<Val>, seq<byte>)>)
    ensures r.Some? ==> |r.value.0| == |tys|
    decreases |tys|
  {
    if tys == [] then Some(([], b))
    else
      match Decode(tys[|tys| - 1], b)
      case None => None
      case Some((v, rest)) =>
        match DecArgs(tys[..|tys| - 1], rest)
        case None => None
        case Some((vs, tail)) => Some((vs + [v], tail))
  }

  lemma {:induction false} MeaningSnoc(ds: seq<Doc>, d: Doc)
    ensures MeaningAll(ds + [d]) == MeaningAll(ds) + [Meaning(d)]
  {
    if ds == [] {
      assert [d][1..] == [];
    } else {
      assert (ds + [d])[1..] == ds[1..] + [d];
      MeaningSnoc(ds[1..], d);
    }
  }

  lemma ArgsSnoc(tys: seq<Ty>, t: Ty, ds: seq<Doc>, d: Doc, s: seq<byte>)
    requires HasTy(d, t)
    requires DecArgs(tys, EncArgs(ds) + s) == Some((MeaningAll(ds), s))
    ensures DecArgs(tys + [t], EncArgs(ds + [d]) + s) == Some((MeaningAll(ds + [d]), s))
  {
    RoundTrip(t, d, EncArgs(ds) + s);
    MeaningSnoc(ds, d);
    EncArgsSnoc(ds, d, s);
    DecArgsSnoc(tys, t, EncArgs(ds + [d]) + s, Meaning(d), EncArgs(ds) + s, MeaningAll(ds), s);
  }

  lemma EncArgsSnoc(ds: seq<Doc>, d: Doc, s: seq<byte>)
    ensures EncArgs(ds + [d]) + s == Enc(d) + (EncArgs(ds) + s)
  {
    assert (ds + [d])[..|ds|] == ds;
    Regroup3(Enc(d), EncArgs(ds), s);
  }

  lemma DecArgsSnoc(tys: seq<Ty>, t: Ty, b: seq<byte>, v: Val, rest: seq<byte>, vs: seq<Val>, tail: seq<byte>)
    requires Decode(t, b) == Some((v, rest)) && DecArgs(tys, rest) == Some((vs, tail))
    ensures DecArgs(tys + [t], b) == Some((vs + [v], tail))
  {
    assert (tys + [t])[..|tys|] == tys;
  }

  /** Every argument list is rebuilt in order. */
  lemma {:induction false} ArgsRoundTrip(tys: seq<Ty>, ds: seq<Doc>, s: seq<byte>)
    requires HaveTys(ds, tys)
    ensures DecArgs(tys, EncArgs(ds) + s) == Some((MeaningAll(ds), s))
    decreases |ds|
  {
    if ds == [] {
      assert EncArgs(ds) + s == s;
    } else {
      var n := |ds| - 1;
      var ds', tys' := ds[..n], tys[..n];
      assert ds == ds' + [ds[n]] && tys == tys' + [tys[n]];
      ArgsRoundTrip(tys', ds', s);
      ArgsSnoc(tys', tys[n], ds', ds[n], s);
    }
  }

  function Reverse<T>(s: seq<T>): (r: seq<T>)
    ensures |r| == |s|
  {
    if s == [] then [] else [s[|s| - 1]] + Reverse(s[..|s| - 1])
  }

  lemma {:induction false} EncArgsReversed(ds: seq<Doc>)
    ensures EncArgs(ds) == EncAll(Reverse(ds))
    decreases |ds|
  {
    if ds != [] { EncArgsReversed(ds[..|ds| - 1]); }
  }

  lemma {:induction false} ReverseAt<T>(s: seq<T>, i: nat, k: nat)
    requires i < |s| && k == |s| - 1 - i
    ensures Reverse(s)[i] == s[k]
    decreases |s|
  {
    if i > 0 { ReverseAt(s[..|s| - 1], i - 1, k); }
  }

  lemma {:induction false} MeaningReverse(ds: seq<Doc>)
    ensures MeaningAll(Reverse(ds)) == Reverse(MeaningAll(ds))
    decreases |ds|
  {
    if ds != [] {
      var n := |ds| - 1;
      assert ds == ds[..n] + [ds[n]];
      MeaningSnoc(ds[..n], ds[n]);
      assert MeaningAll(ds)[..n] == MeaningAll(ds[..n]);
      MeaningReverse(ds[..n]);
    }
  }

  /** Reading stops where the bytes hold a value of another outermost type. */
  lemma {:induction false} RefusedAt(ty: Ty, kids: seq<Doc>, j: nat, i: nat, other: Ty, s: seq<byte>)
    requires HasKid(ty, |kids|) && j <= i < |kids|
    requires forall m :: j <= m < i ==> HasTy(kids[m], KidTy(ty, |kids|, m))
    requires HasTy(kids[i], other) && !SameOutermost(other, KidTy(ty, |kids|, i))
    ensures DecodeAll(ty, |kids|, j, EncAll(kids[j..]) + s) == None
    decreases i - j
  {
    assert kids[j..][1..] == kids[j + 1..];
    Regroup3(Enc(kids[j]), EncAll(kids[j + 1..]), s);
    if j == i {
      WrongTypeRefused(other, kids[i], KidTy(ty, |kids|, i), EncAll(kids[i + 1..]) + s);
    } else {
      RoundTrip(KidTy(ty, |kids|, j), kids[j], EncAll(kids[j + 1..]) + s);
      RefusedAt(ty, kids, j + 1, i, other, s);
    }
  }

  lemma ReversedTyped(tys: seq<Ty>, ds: seq<Doc>, m: nat, k: nat)
    requires HaveTys(ds, tys) && m < |ds| && k == |ds| - 1 - m
    ensures HasTy(Reverse(ds)[m], tys[k])
  {
    ReverseAt(ds, m, k);
    assert HasTy(ds[k], tys[k]);
  }

  /** As long as the types read the same both ways, reversed arguments have the types in order. */
  lemma ReversedPrefix(tys: seq<Ty>, ds: seq<Doc>, i: nat)
    requires HaveTys(ds, tys) && i <= |tys| && forall m :: 0 <= m < i ==> tys[m] == tys[|tys| - 1 - m]
    ensures forall m :: 0 <= m < i ==> HasTy(Reverse(ds)[m], tys[m])
  {
    forall m | 0 <= m < i ensures HasTy(Reverse(ds)[m], tys[m]) { ReversedTyped(tys, ds, m, |ds| - 1 - m); }
  }

  /** Were the types read first to last instead: type lists that read the same both ways would give
      the arguments in reverse, so rightly only when these read the same both ways too. */
  lemma FirstToLastReverses(tys: seq<Ty>, ds: seq<Doc>, s: seq<byte>)
    requires HaveTys(ds, tys) && forall i :: 0 <= i < |tys| ==> tys[i] == tys[|tys| - 1 - i]
    ensures DecodeAll(TNode(CUSTOM, tys), |ds|, 0, EncArgs(ds) + s) == Some((Reverse(MeaningAll(ds)), s))
    ensures DecodeAll(TNode(CUSTOM, tys), |ds|, 0, EncArgs(ds) + s) == Some((MeaningAll(ds), s))
            <==> Reverse(MeaningAll(ds)) == MeaningAll(ds)
  {
    var kids := Reverse(ds);
    ReversedPrefix(tys, ds, |tys|);
    EncArgsReversed(ds);
    assert kids[0..] == kids;
    RoundTripAll(TNode(CUSTOM, tys), kids, 0, s);
    MeaningReverse(ds);
  }

  /** Type lists whose first difference from their reverse is in an outermost type would be refused.
      Where it lies deeper inside, nothing is said: two empty vectors of different types read alike. */
  lemma FirstToLastRefused(tys: seq<Ty>, ds: seq<Doc>, i: nat, s: seq<byte>)
    requires HaveTys(ds, tys) && i < |tys| && !SameOutermost(tys[|tys| - 1 - i], tys[i])
    requires forall m :: 0 <= m < i ==> tys[m] == tys[|tys| - 1 - m]
    ensures DecodeAll(TNode(CUSTOM, tys), |ds|, 0, EncArgs(ds) + s) == None
  {
    var all, kids := TNode(CUSTOM, tys), Reverse(ds);
    ReversedPrefix(tys, ds, i);
    var k := |tys| - 1 - i;
    ReversedTyped(tys, ds, i, k);
    EncArgsReversed(ds);
    assert kids[0..] == kids;
    RefusedAt(all, kids, 0, i, tys[k], s);
  }
}
