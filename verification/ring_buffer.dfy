/** Common/Buffer.hpp: a fixed-capacity circular queue of bytes. */
module RingBuffer {
  import opened Bytes

  datatype Status = Done | OutOfRange | NotEnoughElements | Overflow

  function Min(a: nat, b: nat): nat { if a <= b then a else b }

  /** A slot offset past the end of the array comes back round to the front. */
  lemma WrapOnce(x: nat, n: nat)
    requires n > 0 && x < 2 * n
    ensures x % n == if x < n then x else x - n
  {
    if x >= n {
      RemainderUnique(x, n, 1, x - n);
    }
  }

  /** The n bytes of a circular array d from position head on: the i-th is d[(head + i) % |d|]. */
  function Window(d: seq<byte>, head: nat, n: nat): (s: seq<byte>)
    requires |d| > 0
    ensures |s| == n
  {
    seq(n, i requires 0 <= i < n => d[(head + i) % |d|])
  }

  lemma WindowIsTwoSlices(d: seq<byte>, head: nat, n: nat)
    requires head < |d| && n <= |d|
    ensures Window(d, head, n) ==
            if head + n <= |d| then d[head..head + n] else d[head..] + d[..head + n - |d|]
  {
    forall i | 0 <= i < n
      ensures Window(d, head, n)[i] == d[if head + i < |d| then head + i else head + i - |d|]
    {
      WrapOnce(head + i, |d|);
    }
  }

  /** Writing bytes over d from position at on. */
  function Overwrite(d: seq<byte>, at: nat, src: seq<byte>): (s: seq<byte>)
    requires at + |src| <= |d|
    ensures |s| == |d|
  {
    d[..at] + src + d[at + |src|..]
  }

  /** memcpy into an array. */
  method CopyIn(dst: array<byte>, at: nat, src: seq<byte>)
    requires at + |src| <= dst.Length
    modifies dst
    ensures dst[..] == Overwrite(old(dst[..]), at, src)
  {
    forall i | 0 <= i < |src| {
      dst[at + i] := src[i];
    }
  }

  /** src written into d from at on, in two parts when it runs past the end. */
  function OverwriteRound(d: seq<byte>, at: nat, src: seq<byte>): (s: seq<byte>)
    requires at < |d| && |src| <= |d|
    ensures |s| == |d|
  {
    var first := Min(|d| - at, |src|);
    Overwrite(Overwrite(d, at, src[..first]), 0, src[first..])
  }

  lemma OverwriteRoundAt(d: seq<byte>, at: nat, src: seq<byte>, k: nat)
    requires at < |d| && |src| <= |d| && k < |d|
    ensures OverwriteRound(d, at, src)[k] ==
            if at <= k < at + |src| then src[k - at]
            else if k + |d| < at + |src| then src[k + |d| - at]
            else d[k]
  {
    var first := Min(|d| - at, |src|);
    var once := Overwrite(d, at, src[..first]);
    assert once[k] == if at <= k < at + first then src[k - at] else d[k];
    assert OverwriteRound(d, at, src)[k] == if k < |src| - first then src[first..][k] else once[k];
  }

  /** Writing src round from the tail on appends src to the window. */
  lemma AppendToWindow(d: seq<byte>, head: nat, n: nat, src: seq<byte>)
    requires head < |d| && n + |src| <= |d|
    ensures (head + n) % |d| < |d|
    ensures Window(OverwriteRound(d, (head + n) % |d|, src), head, n + |src|) == Window(d, head, n) + src
  {
    var tail := (head + n) % |d|;
    WrapOnce(head + n, |d|);
    var d' := OverwriteRound(d, tail, src);
    forall i | 0 <= i < n + |src|
      ensures Window(d', head, n + |src|)[i] == (Window(d, head, n) + src)[i]
    {
      WrapOnce(head + i, |d|);
      OverwriteRoundAt(d, tail, src, (head + i) % |d|);
    }
  }

  /** Moving the head forward by count drops the count oldest bytes. */
  lemma DropFromWindow(d: seq<byte>, head: nat, n: nat, count: nat)
    requires head < |d| && count <= n <= |d|
    ensures Window(d, (head + count) % |d|, n - count) == Window(d, head, n)[count..]
    ensures ((head + count) % |d| + (n - count)) % |d| == (head + n) % |d|
  {
    var h := (head + count) % |d|;
    WrapOnce(head + count, |d|);
    WindowIsTwoSlices(d, head, n);
    WindowIsTwoSlices(d, h, n - count);
    WrapOnce(h + (n - count), |d|);
    WrapOnce(head + n, |d|);
  }

  /** Copying out in two parts, the second when the data wraps, takes the count oldest bytes. */
  lemma TakeFromWindow(d: seq<byte>, head: nat, n: nat, count: nat, out: seq<byte>,
                       first: seq<byte>, second: seq<byte>)
    requires head < |d| && count <= n <= |d| && count <= |out|
    requires var k := Min(|d| - head, count); first == d[head..head + k] && second == d[..count - k]
    ensures var once := Overwrite(out, 0, first);
            (if |first| < count then Overwrite(once, |first|, second) else once)
            == Window(d, head, n)[..count] + out[count..]
  {
    WindowIsTwoSlices(d, head, n);
    var got := Window(d, head, n)[..count];
    var once := Overwrite(out, 0, first);
    if |first| < count {
      assert got == first + second;
      assert Overwrite(once, |first|, second) == got + out[count..];
    } else {
      assert got == first;
    }
  }

  /** The tail follows the head by the number of queued bytes. */
  lemma TailAfterAppend(cap: nat, head: nat, n: nat, count: nat)
    requires head < cap && n + count <= cap
    ensures ((head + n) % cap + count) % cap == (head + n + count) % cap
  {
    WrapOnce(head + n, cap);
    WrapOnce((head + n) % cap + count, cap);
    WrapOnce(head + n + count, cap);
  }

  class Buffer {
    var data: array<byte>
    var head: nat
    var tail: nat
    var size: nat

    ghost predicate Valid()
      reads this
    {
      && data.Length > 0
      && head < data.Length
      && size <= data.Length
      && tail == (head + size) % data.Length
    }

    ghost function Contents(): (s: seq<byte>)
      requires Valid()
      reads this, data
      ensures |s| == size
    {
      Window(data[..], head, size)
    }

    constructor (capacity: nat)
      requires capacity > 0
      ensures Valid() && fresh(data)
      ensures data.Length == capacity && Contents() == []
    {
      data := new byte[capacity];
      head, tail, size := 0, 0, 0;
      new;
      WrapOnce(0, data.Length);
    }

    method At(index: nat) returns (status: Status, x: byte)
      requires Valid()
      ensures status == if index < size then Done else OutOfRange
      ensures status == Done ==> x == Contents()[index]
    {
      if index >= size {
        return OutOfRange, 0;
      }
      return Done, data[(head + index) % data.Length];
    }

    method Clear()
      requires Valid()
      modifies this
      ensures Valid() && data == old(data) && Contents() == []
    {
      head, tail, size := 0, 0, 0;
      WrapOnce(0, data.Length);
    }

    method Full() returns (b: bool)
      requires Valid()
      ensures b <==> |Contents()| == data.Length
    {
      b := size == data.Length;
    }

    method Empty() returns (b: bool)
      requires Valid()
      ensures b <==> Contents() == []
    {
      b := size == 0;
    }

    method Size() returns (n: nat)
      requires Valid()
      ensures n == |Contents()|
    {
      n := size;
    }

    /** Appends src in at most two copies; refuses, changing nothing, when it does not fit. */
    method Enqueue(src: seq<byte>) returns (status: Status)
      requires Valid()
      modifies this, data
      ensures Valid() && data == old(data)
      ensures status == if |src| <= data.Length - old(size) then Done else Overflow
      ensures Contents() == if status == Done then old(Contents()) + src else old(Contents())
    {
      var count := |src|;
      if count > data.Length - size {
        return Overflow;
      }
      AppendToWindow(data[..], head, size, src);
      TailAfterAppend(data.Length, head, size, count);
      CopyRound(src);
      tail := (tail + count) % data.Length;
      size := size + count;
      status := Done;
    }

    /** Copies src in from the tail on, in at most two parts. */
    method CopyRound(src: seq<byte>)
      requires tail < data.Length && |src| <= data.Length
      modifies data
      ensures data[..] == OverwriteRound(old(data[..]), tail, src)
    {
      var count := |src|;
      var firstPart := Min(data.Length - tail, count);
      CopyIn(data, tail, src[..firstPart]);
      if firstPart < count {
        CopyIn(data, 0, src[firstPart..]);
      }
    }

    /** Copies the count oldest bytes to the front of out, in at most two parts. */
    method CopyOut(out: array<byte>, count: nat)
      requires Valid() && out != data
      requires count <= size && count <= out.Length
      modifies out
      ensures out[..] == Contents()[..count] + old(out[..])[count..]
    {
      ghost var d, was, queued := data[..], out[..], Contents();
      var firstPart := Min(data.Length - head, count);
      var first, second := data[head..head + firstPart], data[..count - firstPart];
      assert first == d[head..head + firstPart] && second == d[..count - firstPart];
      TakeFromWindow(d, head, size, count, was, first, second);
      CopyIn(out, 0, first);
      if firstPart < count {
        CopyIn(out, firstPart, second);
      }
    }

    /** Removes the count oldest bytes into out; refuses, changing nothing, when there are fewer.
        The caller has room for count bytes whenever the call can succeed. */
    method Dequeue(out: array<byte>, count: nat) returns (status: Status)
      requires Valid() && out != data
      requires count <= size ==> count <= out.Length
      modifies this, out
      ensures Valid() && data == old(data)
      ensures status == if count <= old(size) then Done else NotEnoughElements
      ensures status == Done ==>
                Contents() == old(Contents())[count..]
                && out[..] == old(Contents())[..count] + old(out[..])[count..]
      ensures status != Done ==> Contents() == old(Contents()) && out[..] == old(out[..])
    {
      if count > size {
        return NotEnoughElements;
      }
      CopyOut(out, count);
      DropFromWindow(data[..], head, size, count);
      head := (head + count) % data.Length;
      size := size - count;
      status := Done;
    }
  }
}
