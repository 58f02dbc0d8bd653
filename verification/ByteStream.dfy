/** The ring buffer that implements the byte stream. */
module ByteStreams {
  import opened Common
  import Spec = StreamSpec
  import opened StreamSpec

  // Ring `b`, read from slot `begin`, holds the bytes `h`.
  ghost predicate Holds(b: seq<Byte>, begin: nat, h: seq<Byte>) {
    && |h| <= |b|
    && (if |b| == 0 then begin == 0 else begin < |b|)
    && forall i | 0 <= i < |h| :: b[Around(begin + i, |b|)] == h[i]
  }

  // A position reduced modulo the capacity, which it exceeds by less than the capacity.
  function Around(x: nat, n: nat): nat
    requires x < 2 * n
  {
    if x < n then x else x - n
  }

  method RingIndex(x: nat, n: nat) returns (r: nat)
    requires 0 < n
    ensures r < n
    ensures x < 2 * n ==> r == Around(x, n)
  {
    r := x % n;
    if n <= x < 2 * n {
      var q := x / n;
      assert x == n * q + r;
      assert q >= 2 ==> n * q >= n * 2;
    }
  }

  // The size_t difference: it wraps around, so a maximum with zero never clamps it.
  method UnsignedDifference(a: U64, b: U64) returns (r: U64)
    ensures r == if b <= a then a - b else a - b + TWO_64
  {
    r := (a - b) % TWO_64;
  }

  lemma PutAtEnd(b: seq<Byte>, begin: nat, h: seq<Byte>, x: Byte)
    requires Holds(b, begin, h) && |h| < |b|
    ensures Holds(b[Around(begin + |h|, |b|) := x], begin, h + [x])
  {
  }

  lemma DropFront(b: seq<Byte>, begin: nat, history: seq<Byte>, read: nat, len: nat, begin': nat)
    requires read + len <= |history| && 0 < |b|
    requires Holds(b, begin, history[read..])
    requires begin' == Around(begin + len, |b|)
    ensures Holds(b, begin', history[read + len..])
  {
    var h := history[read + len..];
    forall i | 0 <= i < |h|
      ensures b[Around(begin' + i, |b|)] == h[i]
    {
      assert h[i] == history[read..][len + i];
    }
  }

  // Fill the free slots behind the bytes `h` with the first `n` bytes of `data`.
  method PutAll(buffer: array<Byte>, begin: nat, data: seq<Byte>, n: nat, ghost h: seq<Byte>, size: nat)
    requires size == |h| && n <= |data| && |h| + n <= buffer.Length
    requires Holds(buffer[..], begin, h)
    modifies buffer
    ensures Holds(buffer[..], begin, h + data[..n])
  {
    assert h + data[..0] == h;
    for i := 0 to n
      invariant Holds(buffer[..], begin, h + data[..i])
    {
      ghost var b := buffer[..];
      PutAtEnd(b, begin, h + data[..i], data[i]);
      var slot := RingIndex(begin + size + i, buffer.Length);
      buffer[slot] := data[i];
      assert buffer[..] == b[slot := data[i]];
      assert h + data[..i + 1] == h + data[..i] + [data[i]];
    }
  }

  // `history` records every byte accepted.
  class ByteStream {
    var doneWriting: bool
    const buffer: array<Byte>
    var dataBegin: nat
    var nBytesRead: nat
    var nBytesWritten: nat
    var curSize: nat
    const maxCapacity: nat
    var error: bool
    ghost var history: seq<Byte>

    ghost predicate Valid()
      reads this, buffer
    {
      && buffer.Length == maxCapacity < TWO_64
      && nBytesWritten == |history| == nBytesRead + curSize
      && Holds(buffer[..], dataBegin, history[nBytesRead..])
    }

    ghost function Value(): (s: Stream)
      reads this, buffer
      requires Valid()
      ensures |Buffered(s)| == curSize && Remaining(s) == maxCapacity - curSize
      ensures |s.written| == nBytesWritten
    {
      StreamState(maxCapacity, history, nBytesRead, doneWriting, error)
    }

    constructor (capacity: nat)
      requires capacity < TWO_64
      ensures Valid() && fresh(buffer)
      ensures Value() == NewStream(capacity)
    {
      doneWriting, error := false, false;
      buffer := new Byte[capacity](_ => 0);
      dataBegin, nBytesRead, nBytesWritten, curSize := 0, 0, 0, 0;
      maxCapacity := capacity;
      history := [];
    }

    method Write(data: seq<Byte>) returns (n: nat)
      requires Valid()
      modifies this, buffer
      ensures Valid()
      ensures n == Min(|data|, old(Remaining(Value())))
      ensures Value() == Spec.Write(old(Value()), data)
    {
      n := Min(|data|, maxCapacity - curSize);
      PutAll(buffer, dataBegin, data, n, history[nBytesRead..], curSize);
      assert (history + data[..n])[nBytesRead..] == history[nBytesRead..] + data[..n];
      history := history + data[..n];
      nBytesWritten := nBytesWritten + n;
      curSize := curSize + n;
    }

    method PeekOutput(len: nat) returns (s: seq<Byte>)
      requires Valid()
      ensures s == Peek(Value(), len)
    {
      var n := Min(len, curSize);
      ghost var all := history[nBytesRead..];
      if dataBegin + n <= maxCapacity {
        s := buffer[dataBegin..dataBegin + n];
        assert s == all[..n];
      } else {
        var end := RingIndex(dataBegin + n, maxCapacity);
        s := buffer[dataBegin..] + buffer[..end];
        assert s == all[..n];
      }
    }

    // Taken modulo a zero capacity the source divides by zero, so that is the caller's to avoid.
    method PopOutput(len: U64)
      requires Valid() && 0 < maxCapacity
      modifies this
      ensures curSize == if len <= old(curSize) then old(curSize) - len else old(curSize) - len + TWO_64
      ensures nBytesRead == old(nBytesRead) + Min(len, old(curSize)) && nBytesWritten == old(nBytesWritten)
      ensures Valid() <==> len <= old(curSize)
      ensures Valid() ==> Value() == Pop(old(Value()), len)
    {
      var begin := RingIndex(dataBegin + len, maxCapacity);
      var rest := UnsignedDifference(curSize, len);
      if len <= curSize {
        DropFront(buffer[..], dataBegin, history, nBytesRead, len, begin);
      }
      dataBegin := begin;
      nBytesRead := nBytesRead + Min(len, curSize);
      curSize := Max(0, rest);
      assert buffer[..] == old(buffer[..]);
    }

    method Read(len: nat) returns (s: seq<Byte>)
      requires Valid() && 0 < maxCapacity
      modifies this
      ensures Valid()
      ensures s == Peek(old(Value()), len)
      ensures Value() == Pop(old(Value()), len)
    {
      s := PeekOutput(len);
      PopOutput(|s|);
    }

    method EndInput()
      requires Valid()
      modifies this
      ensures Valid() && Value() == Spec.EndInput(old(Value()))
    {
      doneWriting := true;
    }

    method SetError()
      requires Valid()
      modifies this
      ensures Valid() && Value() == Spec.SetError(old(Value()))
    {
      error := true;
    }
  }

  /** Concretely: a byte popped from an empty stream leaves a size of 2^64 - 1, with nothing written or read. */
  method PopFromEmpty() returns (s: ByteStream)
    ensures fresh(s) && !s.Valid()
    ensures s.curSize == TWO_64 - 1 && s.nBytesWritten == s.nBytesRead == 0
  {
    s := new ByteStream(1);
    s.PopOutput(1);
  }
}
