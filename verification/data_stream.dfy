/** Core/Data_Stream.cpp and Core/Data_Stream.h: the stream object itself, a growing vector of
    bytes with a read position. */
module Streams {
  import opened Bytes
  import opened Codec

  // ---------------------------------------------------------------------------------------
  // Reading into an existing object

  /** A freshly declared object of the type.  (Scalars are in fact uninitialised.) */
  function Default(ty: Ty): Val
    decreases ty
  {
    match ty
    case TBool => Bool(false)
    case TChar => Char(0)
    case TInt32 => Int32(0)
    case TInt64 => Int64(0)
    case TFloat => Float([0, 0, 0, 0])
    case TDouble => Double([0, 0, 0, 0, 0, 0, 0, 0])
    case TString => Str([])
    case TNode(kind, args) =>
      match kind
      case VECTOR => Vector([])
      case LIST => List([])
      case MAP => Map(map[])
      case SET => Set({})
      case CUSTOM => Custom(seq(|args|, i requires 0 <= i < |args| => Default(args[i])))
  }

  /** v read into target: vectors, lists and scalars are replaced, sets and maps added to, the
      fields of a custom object read into one by one. */
  function Merge(target: Val, v: Val): Val
    decreases v
  {
    match v
    case Map(m) => if target.Map? then Map(target.m + m) else v
    case Set(es) => if target.Set? then Set(target.es + es) else v
    case Custom(fields) =>
      if target.Custom? && |target.fields| == |fields| then
        Custom(seq(|fields|, i requires 0 <= i < |fields| => Merge(target.fields[i], fields[i])))
      else v
    case _ => v
  }

  predicate Primitive(v: Val) {
    !v.Map? && !v.Set? && !v.Custom?
  }

  /** v is built like an object of the type, as far as Merge looks. */
  predicate Shaped(v: Val, ty: Ty)
    decreases ty
  {
    if !ty.TNode? then Primitive(v)
    else
      match ty.kind
      case VECTOR => v.Vector?
      case LIST => v.List?
      case MAP => v.Map?
      case SET => v.Set?
      case CUSTOM => v.Custom? && |v.fields| == |ty.args|
                     && forall i :: 0 <= i < |ty.args| ==> Shaped(v.fields[i], ty.args[i])
  }

  lemma {:induction false} DecodeShaped(ty: Ty, b: seq<byte>)
    requires Decode(ty, b).Some?
    ensures Shaped(Decode(ty, b).value.0, ty)
    decreases ty, 1, 0
  {
    if ty.TNode? && ty.kind == CUSTOM {
      var (n, rest) := DecHead(ty, b).value;
      DecodeAllShaped(ty, 0, rest);
      assert ty.args[0..] == ty.args;
    }
  }

  predicate AllShaped(vs: seq<Val>, tys: seq<Ty>) {
    |vs| == |tys| && forall j :: 0 <= j < |vs| ==> Shaped(vs[j], tys[j])
  }

  lemma AllShapedCons(v: Val, vs: seq<Val>, ty: Ty, tys: seq<Ty>)
    requires Shaped(v, ty) && AllShaped(vs, tys)
    ensures AllShaped([v] + vs, [ty] + tys)
  {
  }

  lemma {:induction false} DecodeAllShaped(ty: Ty, i: nat, b: seq<byte>)
    requires ty.TNode? && ty.kind == CUSTOM && i <= |ty.args|
    requires DecodeAll(ty, |ty.args|, i, b).Some?
    ensures AllShaped(DecodeAll(ty, |ty.args|, i, b).value.0, ty.args[i..])
    decreases ty, 0, |ty.args| - i
  {
    if i < |ty.args| {
      DecodeShaped(ty.args[i], b);
      var (v, rest) := Decode(ty.args[i], b).value;
      DecodeAllShaped(ty, i + 1, rest);
      AllShapedCons(v, DecodeAll(ty, |ty.args|, i + 1, rest).value.0, ty.args[i], ty.args[i + 1..]);
      assert ty.args[i..] == [ty.args[i]] + ty.args[i + 1..];
    }
  }

  lemma {:induction false} DefaultShaped(ty: Ty)
    ensures Shaped(Default(ty), ty)
    decreases ty
  {
    if ty.TNode? && ty.kind == CUSTOM {
      forall i | 0 <= i < |ty.args| ensures Shaped(Default(ty.args[i]), ty.args[i]) {
        DefaultShaped(ty.args[i]);
      }
    }
  }

  /** Reading into a fresh object gives the value read. */
  lemma {:induction false} MergeDefault(ty: Ty, v: Val)
    requires Shaped(v, ty)
    ensures Merge(Default(ty), v) == v
    decreases ty
  {
    if ty.TNode? && ty.kind == CUSTOM {
      var t := Default(ty);
      forall i | 0 <= i < |ty.args| ensures Merge(t.fields[i], v.fields[i]) == v.fields[i] {
        MergeDefault(ty.args[i], v.fields[i]);
      }
      assert Merge(t, v).fields == v.fields;
    }
  }

  /** What reading a written value makes of an existing object, whatever order the writer visited
      it in: a set gives the union, a map the target overridden, a custom object field by field
      what that field gives, and anything else, a string too, just the value written. */
  lemma ReadAddsToTarget(ty: Ty, target: Val, v: Val, d: Doc, s: seq<byte>)
    requires Visits(d, v) && HasTy(d, ty)
    ensures Decode(ty, Enc(d) + s) == Some((v, s))
    ensures v.Set? && target.Set? ==> Merge(target, v) == Set(target.es + v.es)
    ensures v.Map? && target.Map? ==> Merge(target, v) == Map(target.m + v.m)
    ensures v.Custom? && target.Custom? && |target.fields| == |v.fields| ==>
              && Merge(target, v).Custom? && |Merge(target, v).fields| == |v.fields|
              && forall i :: 0 <= i < |v.fields| ==>
                   Merge(target, v).fields[i] == Merge(target.fields[i], v.fields[i])
    ensures !v.Set? && !v.Map? && !v.Custom? ==> Merge(target, v) == v
  {
    VisitMeans(d, v);
    RoundTrip(ty, d, s);
  }

  lemma MergeCases(ty: Ty, target: Val, b: seq<byte>)
    requires Decode(ty, b).Some?
    ensures var w := Decode(ty, b).value.0;
            && (!ty.TNode? || ty.kind == VECTOR || ty.kind == LIST ==> Merge(target, w) == w)
            && (ty.TNode? && ty.kind == SET && target.Set? ==> w.Set? && Merge(target, w) == Set(target.es + w.es))
            && (ty.TNode? && ty.kind == MAP && target.Map? ==> w.Map? && Merge(target, w) == Map(target.m + w.m))
  {
    DecodeShaped(ty, b);
  }

  lemma TagFirst(ty: Ty, b: seq<byte>)
    requires Decode(ty, b).Some?
    ensures b != [] && b[0] == TyTag(ty)
  {
  }

  // ---------------------------------------------------------------------------------------
  // Storage

  predicate PowerOfTwo(n: nat) {
    n == 1 || (n > 0 && n % 2 == 0 && PowerOfTwo(n / 2))
  }

  /** What any series of writes to a fresh stream leaves: no capacity while empty, then a power of
      two below twice the size, and fewer bytes ever moved by reallocation than the capacity. */
  predicate Compact(size: nat, cap: nat, moved: nat) {
    && size <= cap
    && (cap == 0 ==> moved == 0)
    && (cap > 0 ==> PowerOfTwo(cap) && moved < cap)
    && (if size == 0 then cap == 0 else cap < 2 * size)
  }

  /** to is the first of from, 2 * from, 4 * from ... (from 0: of 0, 1, 2, 4 ...) to reach need. */
  ghost predicate LeastDoubling(from: nat, need: nat, to: nat) {
    if from >= need then to == from
    else if from == 0 && need == 1 then to == 1
    else to >= need && to / 2 < need && exists k: nat :: to == Doubled(from, k)
  }

  function Doubled(from: nat, k: nat): nat {
    (if from == 0 then 1 else from) * Pow2(k)
  }

  function Pow2(k: nat): (p: nat)
    ensures p >= 1
  {
    if k == 0 then 1 else 2 * Pow2(k - 1)
  }

  /** The capacity reserve settles on. */
  function CapFor(cap: nat, need: nat): (c: nat)
    ensures c >= need && c >= cap
    decreases need - cap
  {
    if cap >= need then cap else CapFor(if cap == 0 then 1 else 2 * cap, need)
  }

  lemma {:induction false} CapForBounds(cap: nat, need: nat)
    requires cap < need
    ensures 2 * cap <= CapFor(cap, need) < 2 * need
    ensures cap == 0 || PowerOfTwo(cap) ==> PowerOfTwo(CapFor(cap, need))
    decreases need - cap
  {
    var next := if cap == 0 then 1 else 2 * cap;
    if next < need { CapForBounds(next, need); }
  }

  lemma {:induction false} CapForDoubles(cap: nat, need: nat) returns (k: nat)
    requires cap < need
    ensures CapFor(cap, need) == Doubled(cap, k)
    decreases need - cap
  {
    var next := if cap == 0 then 1 else 2 * cap;
    k := 0;
    if next < need { k := CapForDoubles(next, need); }
    DoubledFrom(cap, k);
    if cap > 0 { k := k + 1; }
  }

  lemma DoubledFrom(cap: nat, k: nat)
    ensures if cap > 0 then Doubled(2 * cap, k) == Doubled(cap, k + 1) else Doubled(1, k) == Doubled(0, k)
    ensures Doubled(if cap == 0 then 1 else 2 * cap, 0) == if cap == 0 then 1 else 2 * cap
  {
    if cap > 0 {
      assert Doubled(2 * cap, k) == (2 * cap) * Pow2(k) == cap * (2 * Pow2(k)) == cap * Pow2(k + 1);
    }
  }

  lemma CapForIsLeast(cap: nat, need: nat)
    ensures LeastDoubling(cap, need, CapFor(cap, need))
  {
    if cap < need {
      CapForBounds(cap, need);
      var k := CapForDoubles(cap, need);
    }
  }

  /** What one write of len bytes does to the storage. */
  datatype Storage = Storage(size: nat, cap: nat, moved: nat)

  function Grow(s: Storage, len: nat): Storage {
    Storage(s.size + len, CapFor(s.cap, s.size + len), s.moved + if s.size + len <= s.cap then 0 else s.size)
  }

  function GrowAll(s: Storage, lens: seq<nat>): Storage
    decreases |lens|
  {
    if lens == [] then s else GrowAll(Grow(s, lens[0]), lens[1..])
  }

  lemma GrowKeeps(s: Storage, len: nat)
    requires Compact(s.size, s.cap, s.moved)
    ensures var t := Grow(s, len); Compact(t.size, t.cap, t.moved)
  {
    if s.cap < s.size + len { CapForBounds(s.cap, s.size + len); }
  }

  function Sum(lens: seq<nat>): nat {
    if lens == [] then 0 else lens[0] + Sum(lens[1..])
  }

  /** Over any series of writes to a fresh stream, fewer bytes are moved by reallocation than
      twice those written. */
  lemma {:induction false} GrowthAmortised(s: Storage, lens: seq<nat>)
    requires Compact(s.size, s.cap, s.moved)
    ensures var t := GrowAll(s, lens);
            && Compact(t.size, t.cap, t.moved)
            && t.size == s.size + Sum(lens)
            && (t.size > 0 ==> t.moved < 2 * t.size && t.cap < 2 * t.size)
    decreases |lens|
  {
    if lens != [] {
      GrowKeeps(s, lens[0]);
      GrowthAmortised(Grow(s, lens[0]), lens[1..]);
    }
  }

  /** The loop of reserve, run when cap is below need. */
  method DoubleUntil(cap: nat, need: nat) returns (c: nat)
    requires cap < need
    ensures c == CapFor(cap, need)
  {
    c := cap;
    while need > c
      invariant CapFor(c, need) == CapFor(cap, need)
      decreases need - c
    {
      if c == 0 {
        c := 1;
      } else {
        c := c * 2;
      }
    }
  }

  class DataStream {
    var buf: seq<byte>
    /** The vector's capacity. */
    var cap: nat
    var pos: nat
    /** Bytes copied so far because storage was reallocated. */
    ghost var moved: nat

    ghost predicate Valid()
      reads this
    {
      pos <= |buf| <= cap
    }

    ghost function Room(): Storage
      reads this
    {
      Storage(|buf|, cap, moved)
    }

    /** Holds of a fresh stream and is kept by every write. */
    ghost predicate Thrifty()
      reads this
    {
      Compact(|buf|, cap, moved)
    }

    /** The bytes still to be read. */
    ghost function Unread(): seq<byte>
      requires Valid()
      reads this
    {
      buf[pos..]
    }

    constructor ()
      ensures Valid() && Thrifty() && buf == [] && pos == 0 && cap == 0
    {
      buf, cap, pos, moved := [], 0, 0, 0;
    }

    /** A copy of another stream, whose vector has just the room it needs. */
    constructor Copy(buf: seq<byte>, pos: nat)
      requires pos <= |buf|
      ensures Valid() && this.buf == buf && this.pos == pos
    {
      this.buf, this.cap, this.pos, moved := buf, |buf|, pos, 0;
    }

    // -------------------------------------------------------------------------------------
    // Writing

    method Reserve(len: nat)
      requires Valid() && len < TWO_31
      modifies this`cap, this`moved
      ensures Valid() && Storage(|buf| + len, cap, moved) == Grow(old(Room()), len)
      ensures LeastDoubling(old(cap), |buf| + len, cap)
      ensures moved == old(moved) + if |buf| + len > old(cap) then |buf| else 0
    {
      var size, c := |buf|, cap;
      CapForIsLeast(cap, size + len);
      if size + len > c {
        c := DoubleUntil(c, size + len);
        moved := moved + size;
        cap := c;
      }
    }

    method WriteMemory(data: seq<byte>)
      requires Valid() && |data| < TWO_31
      modifies this
      ensures Valid() && buf == old(buf) + data && pos == old(pos)
      ensures Room() == Grow(old(Room()), |data|)
      ensures old(Thrifty()) ==> Thrifty()
    {
      if Thrifty() { GrowKeeps(Room(), |data|); }
      Reserve(|data|);
      buf := buf + data;
    }

    method WriteInt(n: nat)
      requires Valid()
      modifies this
      ensures Valid() && buf == old(buf) + EncInt32(n) && pos == old(pos)
      ensures old(Thrifty()) ==> Thrifty()
    {
      WriteMemory([2]);
      WriteMemory(LittleEndian(n, 4));
      assert old(buf) + [2] + LittleEndian(n, 4) == old(buf) + EncInt32(n);
    }

    method WriteTagged(tag: byte, data: seq<byte>)
      requires Valid() && |data| < TWO_31
      modifies this
      ensures Valid() && buf == old(buf) + ([tag] + data) && pos == old(pos)
      ensures old(Thrifty()) ==> Thrifty()
    {
      WriteMemory([tag]);
      WriteMemory(data);
      Regroup3(old(buf), [tag], data);
    }

    method WriteString(s: seq<byte>)
      requires Valid() && |s| < TWO_31
      modifies this
      ensures Valid() && buf == old(buf) + EncLeaf(Str(s)) && pos == old(pos)
      ensures old(Thrifty()) ==> Thrifty()
    {
      WriteMemory([6]);
      WriteInt(|s|);
      WriteMemory(s);
      Regroup3(old(buf), [6], EncInt32(|s|));
      Regroup3(old(buf), [6] + EncInt32(|s|), s);
    }

    /** The fixed-width write overloads and the string one. */
    method WriteLeaf(v: Val, ghost ty: Ty)
      requires Valid() && LeafTy(v, ty)
      modifies this
      ensures Valid() && buf == old(buf) + EncLeaf(v) && pos == old(pos)
      ensures old(Thrifty()) ==> Thrifty()
    {
      match v {
        case Bool(b) =>
          WriteTagged(0, [if b then 1 else 0]);
          assert EncLeaf(v) == [0] + [if b then 1 else 0];
        case Char(c) =>
          WriteTagged(1, [c]);
          assert EncLeaf(v) == [1] + [c];
        case Int32(i) => WriteTagged(2, Int32Bytes(i));
        case Int64(l) => WriteTagged(3, Int64Bytes(l));
        case Float(raw) => WriteTagged(4, raw);
        case Double(wide) => WriteTagged(5, wide);
        case Str(s) => WriteString(s);
      }
    }

    /** The write overloads.  Children of a map go out two at a time. */
    method Write(d: Doc, ghost ty: Ty)
      requires Valid() && HasTy(d, ty)
      modifies this
      ensures Valid() && buf == old(buf) + Enc(d) && pos == old(pos)
      ensures old(Thrifty()) ==> Thrifty()
      decreases d, 1
    {
      match d {
        case Leaf(v) =>
          WriteLeaf(v, ty);
        case Node(kind, kids) =>
          WriteMemory([Tag(kind)]);
          if kind != CUSTOM {
            WriteInt(Count(kind, |kids|));
          }
          assert buf == old(buf) + NodeHead(kind, |kids|);
          WriteKids(kids, ty);
          Regroup3(old(buf), NodeHead(kind, |kids|), EncAll(kids));
      }
    }

    /** The element loops, and write_args for the fields of a custom object. */
    method WriteKids(kids: seq<Doc>, ghost ty: Ty)
      requires Valid() && HasKid(ty, |kids|)
      requires forall i :: 0 <= i < |kids| ==> HasTy(kids[i], KidTy(ty, |kids|, i))
      modifies this
      ensures Valid() && buf == old(buf) + EncAll(kids) && pos == old(pos)
      ensures old(Thrifty()) ==> Thrifty()
      decreases kids, 0
    {
      var i := 0;
      assert kids[0..] == kids;
      while i < |kids|
        invariant i <= |kids| && Valid() && pos == old(pos) && (old(Thrifty()) ==> Thrifty())
        invariant buf + EncAll(kids[i..]) == old(buf) + EncAll(kids)
      {
        WriteNext(buf, kids, i);
        Write(kids[i], KidTy(ty, |kids|, i));
        i := i + 1;
      }
      assert buf + EncAll([]) == buf;
    }

    /** Rpc_Client::call's fold over the arguments, last to first. */
    method WriteArgs(args: seq<Doc>, ghost tys: seq<Ty>)
      requires Valid() && HaveTys(args, tys)
      modifies this
      ensures Valid() && buf == old(buf) + EncArgs(args) && pos == old(pos)
      ensures old(Thrifty()) ==> Thrifty()
    {
      var i := |args|;
      assert args[..i] == args;
      while i > 0
        invariant i <= |args| && Valid() && pos == old(pos) && (old(Thrifty()) ==> Thrifty())
        invariant buf + EncArgs(args[..i]) == old(buf) + EncArgs(args)
      {
        i := i - 1;
        assert args[..i + 1][..i] == args[..i];
        Regroup3(buf, Enc(args[i]), EncArgs(args[..i]));
        Write(args[i], tys[i]);
      }
      assert buf + EncArgs([]) == buf;
    }

    // -------------------------------------------------------------------------------------
    // Reading

    /** load overwrites the front of the storage and reads from the start again; what an earlier
        and longer content had behind it stays. */
    method Load(data: seq<byte>)
      requires Valid() && |data| < TWO_31
      modifies this
      ensures Valid() && pos == 0 && data <= buf
      ensures buf == data + old(buf)[if |data| <= |old(buf)| then |data| else |old(buf)|..]
      ensures old(Thrifty()) && old(buf) == [] ==> Thrifty()
    {
      if Thrifty() { GrowKeeps(Room(), |data|); }
      Reserve(|data|);
      buf := data + buf[if |data| <= |buf| then |data| else |buf|..];
      pos := 0;
    }

    method ReadMemory(len: nat) returns (data: seq<byte>)
      requires Valid() && pos + len <= |buf|
      modifies this`pos
      ensures Valid() && data == old(Unread())[..len] && Unread() == old(Unread())[len..]
    {
      data := buf[pos..pos + len];
      pos := pos + len;
    }

    method ReadInt() returns (ok: bool, value: int)
      requires Valid() && pos < |buf|
      requires buf[pos] == 2 ==> pos + 5 <= |buf|
      modifies this`pos
      ensures Valid() && ok == (old(Unread())[0] == 2)
      ensures ok ==> DecInt32(old(Unread())) == Some((value, Unread()))
      ensures !ok ==> pos == old(pos)
    {
      if buf[pos] != 2 {
        return false, 0;
      }
      pos := pos + 1;
      value := Int32Of(buf[pos..pos + 4]);
      assert old(Unread())[1..5] == buf[pos..pos + 4];
      pos := pos + 4;
      ok := true;
    }

    /** The fixed-width read overloads and the string one. */
    method ReadLeaf(ty: Ty, target: Val) returns (ok: bool, v: Val)
      requires Valid() && !ty.TNode? && pos < |buf|
      requires buf[pos] == TyTag(ty) ==> Decode(ty, Unread()).Some?
      modifies this`pos
      ensures Valid() && ok == (old(Unread())[0] == TyTag(ty))
      ensures ok ==> Decode(ty, old(Unread())) == Some((v, Unread()))
      ensures !ok ==> v == target && pos == old(pos)
    {
      if buf[pos] != TyTag(ty) {
        return false, target;
      }
      ghost var b := Unread();
      pos := pos + 1;
      ok := true;
      assert Unread() == b[1..];
      match ty {
        case TBool => var m := ReadMemory(1); v := Bool(m[0] != 0);
        case TChar => var m := ReadMemory(1); v := Char(m[0]);
        case TInt32 => var m := ReadMemory(4); v := Int32(Int32Of(m)); assert m == b[1..5];
        case TInt64 => var m := ReadMemory(8); v := Int64(Int64Of(m)); assert m == b[1..9];
        case TFloat => var m := ReadMemory(4); v := Float(m); assert m == b[1..5];
        case TDouble => var m := ReadMemory(8); v := Double(m); assert m == b[1..9];
        case TString =>
          var _, len := ReadInt();
          var m := ReadMemory(len);
          v := Str(m);
      }
    }

    /** Reads the next of the children of a node into a fresh object. */
    method ReadKid(ty: Ty, ghost n: nat, ghost i: nat, kid: Ty, ghost tail: seq<byte>) returns (v: Val)
      requires Valid() && HasKid(ty, n) && i < n && kid == KidTy(ty, n, i)
      requires DecodeAll(ty, n, i, Unread()).Some? && DecodeAll(ty, n, i, Unread()).value.1 == tail
      modifies this`pos
      ensures Valid()
      ensures DecodeAll(ty, n, i + 1, Unread()).Some?
      ensures DecodeAll(ty, n, i, old(Unread())) == Some(([v] + DecodeAll(ty, n, i + 1, Unread()).value.0, tail))
      ensures DecodeAll(ty, n, i + 1, Unread()).value.1 == tail
      decreases ty, 1, 0
    {
      v := Get(kid);
    }

    /** The element loop of a vector or a list. */
    method ReadElements(ty: Ty, n: nat) returns (vs: seq<Val>)
      requires Valid() && HasKid(ty, n) && ty.kind != CUSTOM && ty.kind != MAP
      requires DecodeAll(ty, n, 0, Unread()).Some?
      modifies this`pos
      ensures Valid()
      ensures DecodeAll(ty, n, 0, old(Unread())) == Some((vs, Unread()))
      decreases ty, 2, 0
    {
      vs := [];
      var i := 0;
      ghost var (all, tail) := DecodeAll(ty, n, 0, Unread()).value;
      while i < n
        invariant i <= n && Valid()
        invariant DecodeAll(ty, n, i, Unread()).Some? && DecodeAll(ty, n, i, Unread()).value.1 == tail
        invariant vs + DecodeAll(ty, n, i, Unread()).value.0 == all
      {
        var v := ReadKid(ty, n, i, ty.args[0], tail);
        vs := vs + [v];
        i := i + 1;
      }
      assert vs + [] == vs;
    }

    /** The element loop of a set, inserting into the set given. */
    method ReadInserting(ty: Ty, n: nat, target: set<Val>) returns (es: set<Val>)
      requires Valid() && HasKid(ty, n) && ty.kind == SET
      requires DecodeAll(ty, n, 0, Unread()).Some?
      modifies this`pos
      ensures Valid()
      ensures var (vs, tail) := DecodeAll(ty, n, 0, old(Unread())).value;
              es == target + Elements(vs) && Unread() == tail
      decreases ty, 2, 0
    {
      es := target;
      var i := 0;
      ghost var (all, tail) := DecodeAll(ty, n, 0, Unread()).value;
      while i < n
        invariant i <= n && Valid()
        invariant DecodeAll(ty, n, i, Unread()).Some? && DecodeAll(ty, n, i, Unread()).value.1 == tail
        invariant es + Elements(DecodeAll(ty, n, i, Unread()).value.0) == target + Elements(all)
      {
        var v := ReadKid(ty, n, i, ty.args[0], tail);
        ghost var rest := DecodeAll(ty, n, i + 1, Unread()).value.0;
        assert Elements([v] + rest) == {v} + Elements(rest);
        es := es + {v};
        i := i + 1;
      }
      assert Elements([]) == {};
    }

    /** One entry of a map. */
    method ReadEntry(ty: Ty, ghost n: nat, ghost i: nat, ghost tail: seq<byte>) returns (k: Val, v: Val)
      requires Valid() && HasKid(ty, n) && ty.kind == MAP && i % 2 == 0 && i + 2 <= n
      requires DecodeAll(ty, n, i, Unread()).Some? && DecodeAll(ty, n, i, Unread()).value.1 == tail
      modifies this`pos
      ensures Valid()
      ensures DecodeAll(ty, n, i + 2, Unread()).Some? && DecodeAll(ty, n, i + 2, Unread()).value.1 == tail
      ensures Entries(DecodeAll(ty, n, i, old(Unread())).value.0)
           == map[k := v] + Entries(DecodeAll(ty, n, i + 2, Unread()).value.0)
      decreases ty, 2, 0
    {
      k := ReadKid(ty, n, i, ty.args[0], tail);
      v := ReadKid(ty, n, i + 1, ty.args[1], tail);
      EntryFront(k, v, DecodeAll(ty, n, i + 2, Unread()).value.0);
    }

    /** The entry loop of a map, assigning into the map given. */
    method ReadAssigning(ty: Ty, n: nat, target: map<Val, Val>) returns (m: map<Val, Val>)
      requires Valid() && HasKid(ty, n) && ty.kind == MAP
      requires DecodeAll(ty, n, 0, Unread()).Some?
      modifies this`pos
      ensures Valid()
      ensures var (vs, tail) := DecodeAll(ty, n, 0, old(Unread())).value;
              m == target + Entries(vs) && Unread() == tail
      decreases ty, 3, 0
    {
      m := target;
      var i := 0;
      ghost var (all, tail) := DecodeAll(ty, n, 0, Unread()).value;
      while i < n
        invariant i <= n && i % 2 == 0 && Valid()
        invariant DecodeAll(ty, n, i, Unread()).Some? && DecodeAll(ty, n, i, Unread()).value.1 == tail
        invariant m + Entries(DecodeAll(ty, n, i, Unread()).value.0) == target + Entries(all)
      {
        var k, v := ReadEntry(ty, n, i, tail);
        AssignThenAdd(m, k, v, Entries(DecodeAll(ty, n, i + 2, Unread()).value.0));
        m := m[k := v];
        i := i + 2;
      }
      assert m + map[] == m;
    }

    /** read_args on the fields of a custom object, from field i on. */
    method ReadFields(ty: Ty, i: nat, target: seq<Val>) returns (fields: seq<Val>)
      requires Valid() && ty.TNode? && ty.kind == CUSTOM && i <= |ty.args| == |target|
      requires DecodeAll(ty, |ty.args|, i, Unread()).Some?
      requires forall j :: 0 <= j < |target| ==> Shaped(target[j], ty.args[j])
      modifies this`pos
      ensures Valid()
      ensures var (vs, tail) := DecodeAll(ty, |ty.args|, i, old(Unread())).value;
              Unread() == tail && MergedFrom(target, i, fields, vs)
      decreases ty, 1, |ty.args| - i
    {
      fields := [];
      if i < |ty.args| {
        ghost var b := Unread();
        TagFirst(ty.args[i], Unread());
        var _, v := Read(ty.args[i], target[i]);
        ghost var rest := DecodeAll(ty, |ty.args|, i + 1, Unread()).value.0;
        var vs := ReadFields(ty, i + 1, target);
        fields := [v] + vs;
        MergedCons(target, i, v, Decode(ty.args[i], b).value.0, vs, rest);
      }
    }

    /** A vector, list, set or map after its tag: the count, then the loop. */
    method ReadContainer(ty: Ty, target: Val) returns (v: Val)
      requires Valid() && ty.TNode? && ty.kind != CUSTOM && Shaped(target, ty)
      requires Decode(ty, [Tag(ty.kind)] + Unread()).Some?
      modifies this`pos
      ensures Valid()
      ensures var (w, rest) := Decode(ty, [Tag(ty.kind)] + old(Unread())).value;
              v == Merge(target, w) && Unread() == rest
      decreases ty, 4, 0
    {
      assert ([Tag(ty.kind)] + Unread())[1..] == Unread();
      var _, len := ReadInt();
      var n := if len < 0 then 0 else len;
      match ty.kind {
        case VECTOR =>
          var vs := ReadElements(ty, n);
          v := Vector(vs);
        case LIST =>
          var vs := ReadElements(ty, n);
          v := List(vs);
        case SET =>
          var es := ReadInserting(ty, n, target.es);
          v := Set(es);
        case MAP =>
          var m := ReadAssigning(ty, 2 * n, target.m);
          v := Map(m);
      }
    }

    /** deserialize of a custom object. */
    method Deserialize(ty: Ty, target: Val) returns (ok: bool, v: Val)
      requires Valid() && pos < |buf| && ty.TNode? && ty.kind == CUSTOM && Shaped(target, ty)
      requires buf[pos] == Tag(CUSTOM) ==> Decode(ty, Unread()).Some?
      modifies this`pos
      ensures Valid() && ok == (old(Unread())[0] == Tag(CUSTOM))
      ensures ok ==> Decode(ty, old(Unread())).value.1 == Unread()
                     && v == Merge(target, Decode(ty, old(Unread())).value.0)
      ensures !ok ==> v == target && pos == old(pos) + 1
      decreases ty, 2, 0
    {
      var t := ReadMemory(1);
      if t[0] != Tag(CUSTOM) {
        return false, target;
      }
      var fields := ReadFields(ty, 0, target.fields);
      return true, Custom(fields);
    }

    /** The read overloads.  ok is false, and the target unchanged, when another tag comes next;
        otherwise the value that follows is read into the target. */
    method Read(ty: Ty, target: Val) returns (ok: bool, v: Val)
      requires Valid() && pos < |buf| && Shaped(target, ty)
      requires buf[pos] == TyTag(ty) ==> Decode(ty, Unread()).Some?
      modifies this`pos
      ensures Valid() && ok == (old(Unread())[0] == TyTag(ty))
      ensures ok ==> Decode(ty, old(Unread())).value.1 == Unread()
                     && v == Merge(target, Decode(ty, old(Unread())).value.0)
      ensures ok && (!ty.TNode? || ty.kind == VECTOR || ty.kind == LIST) ==>
                v == Decode(ty, old(Unread())).value.0
      ensures ok && ty.TNode? && ty.kind == SET && target.Set? ==>
                var w := Decode(ty, old(Unread())).value.0; w.Set? && v == Set(target.es + w.es)
      ensures ok && ty.TNode? && ty.kind == MAP && target.Map? ==>
                var w := Decode(ty, old(Unread())).value.0; w.Map? && v == Map(target.m + w.m)
      ensures !ok ==> v == target && pos == old(pos) + if ty.TNode? && ty.kind == CUSTOM then 1 else 0
      decreases ty, 5, 0
    {
      if !ty.TNode? {
        ok, v := ReadLeaf(ty, target);
      } else if ty.kind == CUSTOM {
        ok, v := Deserialize(ty, target);
      } else if buf[pos] != Tag(ty.kind) {
        ok, v := false, target;
      } else {
        ghost var b := Unread();
        pos := pos + 1;
        assert b == [Tag(ty.kind)] + Unread();
        v := ReadContainer(ty, target);
        ok := true;
      }
      if ok { MergeCases(ty, target, old(Unread())); }
    }

    /** get<T>: reads into a fresh object. */
    method Get(ty: Ty) returns (v: Val)
      requires Valid() && Decode(ty, Unread()).Some?
      modifies this`pos
      ensures Valid() && Decode(ty, old(Unread())) == Some((v, Unread()))
      decreases ty, 6, 0
    {
      TagFirst(ty, Unread());
      DecodeShaped(ty, Unread());
      DefaultShaped(ty);
      MergeDefault(ty, Decode(ty, Unread()).value.0);
      var _, w := Read(ty, Default(ty));
      v := w;
    }

    /** get_args, evaluated from the last type to the first. */
    method GetArgs(tys: seq<Ty>) returns (vs: seq<Val>)
      requires Valid() && DecArgs(tys, Unread()).Some?
      modifies this`pos
      ensures Valid() && DecArgs(tys, old(Unread())) == Some((vs, Unread()))
    {
      vs := [];
      var i := |tys|;
      ghost var (all, tail) := DecArgs(tys, Unread()).value;
      assert tys[..i] == tys && all[..i] == all;
      while i > 0
        invariant i <= |tys| && Valid()
        invariant ArgsAt(tys, i, Unread(), all, tail, vs)
      {
        LastArg(tys, i, Unread(), all, tail, vs);
        i := i - 1;
        var v := Get(tys[i]);
        vs := [v] + vs;
      }
    }
  }

  /** Arguments i and on have been read; those before start at b. */
  ghost predicate ArgsAt(tys: seq<Ty>, i: nat, b: seq<byte>, all: seq<Val>, tail: seq<byte>, vs: seq<Val>) {
    i <= |tys| == |all| && DecArgs(tys[..i], b) == Some((all[..i], tail)) && vs == all[i..]
  }

  /** The last argument comes first, then those before it. */
  lemma LastArg(tys: seq<Ty>, i: nat, b: seq<byte>, all: seq<Val>, tail: seq<byte>, vs: seq<Val>)
    requires i > 0 && ArgsAt(tys, i, b, all, tail, vs)
    ensures Decode(tys[i - 1], b).Some?
    ensures var (v, rest) := Decode(tys[i - 1], b).value; ArgsAt(tys, i - 1, rest, all, tail, [v] + vs)
  {
    var front, done := tys[..i], all[..i];
    assert front[..i - 1] == tys[..i - 1];
    var (v, rest) := Decode(tys[i - 1], b).value;
    var before := DecArgs(front[..i - 1], rest).value.0;
    assert done == before + [v];
    assert done[..i - 1] == before == all[..i - 1] && done[i - 1] == v;
    assert [v] + vs == all[i - 1..];
  }

  /** fields are vs read into the targets from i on. */
  ghost predicate MergedFrom(target: seq<Val>, i: nat, fields: seq<Val>, vs: seq<Val>) {
    && i + |vs| <= |target| && |fields| == |vs|
    && forall j :: 0 <= j < |vs| ==> fields[j] == Merge(target[i + j], vs[j])
  }

  lemma MergedCons(target: seq<Val>, i: nat, f: Val, v: Val, fields: seq<Val>, vs: seq<Val>)
    requires MergedFrom(target, i + 1, fields, vs) && i < |target| && f == Merge(target[i], v)
    ensures MergedFrom(target, i, [f] + fields, [v] + vs)
  {
    forall j | 0 <= j < |vs| + 1
      ensures ([f] + fields)[j] == Merge(target[i + j], ([v] + vs)[j])
    {
      if j > 0 { assert fields[j - 1] == Merge(target[i + 1 + (j - 1)], vs[j - 1]); }
    }
  }

  lemma AssignThenAdd(m: map<Val, Val>, k: Val, v: Val, later: map<Val, Val>)
    ensures m[k := v] + later == m + (map[k := v] + later)
  {
  }

  lemma EntryFront(k: Val, v: Val, rest: seq<Val>)
    requires |rest| % 2 == 0
    ensures Entries([k] + ([v] + rest)) == map[k := v] + Entries(rest)
  {
    PairFront(k, v, rest);
    EntriesFront(k, v, rest);
  }

  lemma PairFront(k: Val, v: Val, rest: seq<Val>)
    ensures [k] + ([v] + rest) == [k, v] + rest
  {
  }

  lemma WriteNext(b: seq<byte>, kids: seq<Doc>, i: nat)
    requires i < |kids|
    ensures b + EncAll(kids[i..]) == (b + Enc(kids[i])) + EncAll(kids[i + 1..])
  {
    assert kids[i..][1..] == kids[i + 1..];
    Regroup3(b, Enc(kids[i]), EncAll(kids[i + 1..]));
  }

  lemma {:induction false} EntriesFront(k: Val, v: Val, rest: seq<Val>)
    requires |rest| % 2 == 0
    ensures Entries([k, v] + rest) == map[k := v] + Entries(rest)
    decreases |rest|
  {
    var all := [k, v] + rest;
    if rest == [] {
      assert all[..0] == [] && all == [k, v];
    } else {
      var n := |rest| - 2;
      assert all[..n + 2] == [k, v] + rest[..n];
      EntriesFront(k, v, rest[..n]);
    }
  }
}
