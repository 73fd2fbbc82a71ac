/** Bytes, fixed-width little-endian integers and the two integer conversions the program
    relies on.  Only little-endian hosts are modelled. */
module Bytes {

  type byte = b: int | 0 <= b < 256

  datatype Option<+T> = None | Some(value: T)

  const TWO_31: int := 0x8000_0000
  const TWO_32: int := 0x1_0000_0000
  const TWO_63: int := 0x8000_0000_0000_0000
  const TWO_64: int := 0x1_0000_0000_0000_0000

  function Pow256(w: nat): (p: nat)
    ensures p >= 1
  {
    if w == 0 then 1 else 256 * Pow256(w - 1)
  }

  /** The low w bytes of n, least significant first (memcpy of an integer). */
  function LittleEndian(n: nat, w: nat): (b: seq<byte>)
    ensures |b| == w
    decreases w
  {
    if w == 0 then [] else [n % 256] + LittleEndian(n / 256, w - 1)
  }

  function Unsigned(b: seq<byte>): nat {
    if b == [] then 0 else b[0] + 256 * Unsigned(b[1..])
  }

  lemma DivModSplit(n: nat, p: nat)
    requires p >= 1
    ensures n % (256 * p) == n % 256 + 256 * ((n / 256) % p)
  {
    var q, r := n / 256, n % 256;
    var a, c := q / p, q % p;
    assert q == a * p + c;
    assert n == 256 * (a * p + c) + r;
    assert 256 * (a * p) == a * (256 * p);
    assert n == a * (256 * p) + (256 * c + r);
    assert 256 * c + 256 <= 256 * p;
    RemainderUnique(n, 256 * p, a, 256 * c + r);
  }

  lemma MultipleAtLeast(k: int, d: int)
    requires k >= 1 && d > 0
    ensures k * d >= d
  {
  }

  lemma RemainderUnique(n: int, d: int, a: int, r: int)
    requires d > 0 && n == a * d + r && 0 <= r < d
    ensures n % d == r
  {
    var q, s := n / d, n % d;
    var k := a - q;
    assert k * d == a * d - q * d;
    if k >= 1 {
      MultipleAtLeast(k, d);
    } else if k <= -1 {
      MultipleAtLeast(-k, d);
    }
  }

  /** Reading back w bytes gives the integer truncated to w bytes. */
  lemma {:induction false} LittleEndianTruncates(n: nat, w: nat)
    ensures Unsigned(LittleEndian(n, w)) == n % Pow256(w)
    decreases w
  {
    if w == 0 {
    } else {
      var b := LittleEndian(n, w);
      assert b[1..] == LittleEndian(n / 256, w - 1);
      LittleEndianTruncates(n / 256, w - 1);
      DivModSplit(n, Pow256(w - 1));
    }
  }

  /** Byte i of the representation is the i-th base-256 digit, least significant first. */
  lemma {:induction false} LittleEndianAt(n: nat, w: nat, i: nat)
    requires i < w
    ensures LittleEndian(n, w)[i] == (n / Pow256(i)) % 256
    decreases w
  {
    if i > 0 {
      LittleEndianAt(n / 256, w - 1, i - 1);
      DivDiv(n, Pow256(i - 1));
    }
  }

  lemma DivDiv(n: nat, p: nat)
    requires p >= 1
    ensures (n / 256) / p == n / (256 * p)
  {
    var q, r := n / 256, n % 256;
    var a, c := q / p, q % p;
    assert q == a * p + c;
    assert n == 256 * (a * p + c) + r;
    assert 256 * (a * p) == a * (256 * p);
    QuotientUnique(n, 256 * p, a, 256 * c + r);
  }

  lemma QuotientUnique(n: int, d: int, a: int, r: int)
    requires d > 0 && n == a * d + r && 0 <= r < d
    ensures n / d == a
  {
    var k := a - n / d;
    assert k * d == a * d - (n / d) * d;
    if k >= 1 {
      MultipleAtLeast(k, d);
    } else if k <= -1 {
      MultipleAtLeast(-k, d);
    }
  }

  lemma LittleEndianFits(n: nat, w: nat)
    requires n < Pow256(w)
    ensures Unsigned(LittleEndian(n, w)) == n
  {
    LittleEndianTruncates(n, w);
    RemainderUnique(n, Pow256(w), 0, n);
  }

  lemma Pow256Values()
    ensures Pow256(4) == TWO_32 && Pow256(8) == TWO_64
  {
    assert Pow256(1) == 256;
    assert Pow256(2) == 0x1_0000;
    assert Pow256(3) == 0x100_0000;
    assert Pow256(4) == TWO_32;
    assert Pow256(5) == 0x100_0000_0000;
    assert Pow256(6) == 0x1_0000_0000_0000;
    assert Pow256(7) == 0x100_0000_0000_0000;
  }

  predicate IsInt32(i: int) { -TWO_31 <= i < TWO_31 }

  predicate IsInt64(i: int) { -TWO_63 <= i < TWO_63 }

  /** The object representation of a signed 32-bit integer, and its inverse. */
  function Int32Bytes(i: int): (b: seq<byte>)
    requires IsInt32(i)
    ensures |b| == 4
  {
    LittleEndian(if i < 0 then i + TWO_32 else i, 4)
  }

  function Int32Of(b: seq<byte>): int {
    var u := Unsigned(b);
    if u < TWO_31 then u else u - TWO_32
  }

  function Int64Bytes(i: int): (b: seq<byte>)
    requires IsInt64(i)
    ensures |b| == 8
  {
    LittleEndian(if i < 0 then i + TWO_64 else i, 8)
  }

  function Int64Of(b: seq<byte>): int {
    var u := Unsigned(b);
    if u < TWO_63 then u else u - TWO_64
  }

  lemma Int32RoundTrip(i: int)
    requires IsInt32(i)
    ensures Int32Of(Int32Bytes(i)) == i
  {
    Pow256Values();
    LittleEndianFits(if i < 0 then i + TWO_32 else i, 4);
  }

  lemma Int64RoundTrip(i: int)
    requires IsInt64(i)
    ensures Int64Of(Int64Bytes(i)) == i
  {
    Pow256Values();
    LittleEndianFits(if i < 0 then i + TWO_64 else i, 8);
  }
}
