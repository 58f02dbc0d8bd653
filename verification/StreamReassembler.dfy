/** The reassembler: a list of separated chunks that implements the index-to-byte map. */
module Reassemblers {
  import opened Common
  import opened StreamSpec
  import opened ByteStreams
  import opened AssemblySpec
  import opened Chunks
  import opened Merging

  // Chop off what lies beyond `limit` and what lies before `first`.
  method Trim(data: seq<Byte>, index: nat, first: nat, limit: nat) returns (c: Chunk)
    requires index < limit && first <= limit && first <= index + |data|
    ensures c.index == Max(index, first) && End(c) == Min(index + |data|, limit)
    ensures forall i: nat | Covers(c, i) :: At(c.data, c.index, i) == At(data, index, i)
  {
    c := Chunk(data, index);
    if End(c) > limit {
      c := c.(data := c.data[..limit - index]);
    }
    if c.index < first {
      c := Chunk(c.data[first - c.index..], first);
    }
  }

  lemma TrimmedIsAccepted(r: Assembly, data: seq<Byte>, index: U64, c: Chunk)
    requires (index + |data|) % TWO_64 >= First(r) && index < WindowEnd(r)
    requires c.index == Max(index, First(r)) && End(c) == Min(index + |data|, WindowEnd(r))
    requires forall i: nat | Covers(c, i) :: At(c.data, c.index, i) == At(data, index, i)
    ensures Accepted(r, data, index) == Bytes(c)
  {
    var a, b := Accepted(r, data, index), Bytes(c);
    forall i | i in b
      ensures i in a && a[i] == b[i]
    {
      assert Covers(c, i);
    }
  }

  lemma AcceptedIgnoresEof(r: Assembly, eofAt: Option<nat>, data: seq<Byte>, index: U64)
    ensures Accepted(r.(eofAt := eofAt), data, index) == Accepted(r, data, index)
  {
  }

  lemma AdvanceIdle(r: Assembly)
    requires forall k | k in r.held :: First(r) < k
    ensures Advance(r) == r
  {
    assert From(r.held, First(r)) == r.held;
    assert r.output.written + [] == r.output.written;
  }

  // No chunk contains the new one: its bytes are merged in, whatever is already held.
  lemma MergedIfNotContained(cs: seq<Chunk>, m: map<nat, Byte>, c: Chunk)
    requires Separated(cs) && Represents(cs, m) && forall d | d in cs :: !Contains(d, c)
    ensures Merged(m, Bytes(c)) == m + Bytes(c)
  {
    if Bytes(c).Keys <= m.Keys {
      if c.data != [] {
        forall i: nat | c.index <= i < End(c)
          ensures Covered(cs, i)
        {
          assert i in Bytes(c).Keys;
        }
        var d := RunInOneChunk(cs, c.index, End(c));
        assert false;
      } else {
        assert m + Bytes(c) == m;
      }
    }
  }

  lemma MergedIfContained(m: map<nat, Byte>, d: Chunk, c: Chunk)
    requires Within(d, m) && Contains(d, c)
    ensures Merged(m, Bytes(c)) == m
  {
    forall i | i in Bytes(c).Keys
      ensures i in m.Keys
    {
      assert Covers(d, i);
    }
  }

  // Join one chunk of the list to the grown chunk if it touches the new one, by the bounds [new0, new1] of the latter.
  method Join(cur: Chunk, chunk: Chunk, merged: Chunk) returns (touching: bool, grown: Chunk)
    requires !Contains(cur, chunk)
    ensures touching == Touches(cur, chunk)
    ensures grown == if touching then Absorb(merged, chunk, cur) else merged
  {
    var new0, new1 := chunk.index, End(chunk);
    var cur0, cur1 := cur.index, End(cur);
    if new0 <= cur0 && cur1 <= new1 {
      return true, merged;
    } else if cur0 <= new0 && new0 <= cur1 {
      return true, Chunk(cur.data[..new0 - cur0] + merged.data, cur0);
    } else if new0 <= cur0 && cur0 <= new1 {
      return true, merged.(data := merged.data + cur.data[new1 - cur0..]);
    } else {
      return false, merged;
    }
  }

  // The merged chunk at the first missing index is written; the others represent what stays.
  lemma WrittenOut(cs: seq<Chunk>, c: Chunk, m: map<nat, Byte>)
    requires Separated(cs + [c]) && Represents(cs + [c], m)
    requires forall d | d in cs :: c.index < d.index
    ensures Within(c, m) && End(c) !in m
    ensures Represents(cs, From(m, End(c)))
    ensures forall d | d in cs :: End(c) < d.index
  {
    var all := cs + [c];
    forall d | d in cs
      ensures End(c) < d.index
    {
      var j :| 0 <= j < |cs| && cs[j] == d;
      assert all[j] == d && all[|cs|] == c;
    }
    assert forall d | d in cs :: d in all;
    assert c in all;
    forall i | i in m && End(c) <= i
      ensures End(c) < i && Covered(cs, i)
    {
      assert Covered(all, i);
      var d :| d in all && Covers(d, i);
      assert d in cs;
    }
    forall d | d in cs
      ensures Within(d, From(m, End(c)))
    {
      assert Within(d, m);
    }
  }

  // The chunk and all held bytes are inside the window; the first index is held only by that chunk.
  ghost predicate Fits(c: Chunk, r: Assembly) {
    && First(r) <= c.index && End(c) <= WindowEnd(r)
    && (forall k | k in r.held :: First(r) <= k < WindowEnd(r))
    && (First(r) < c.index ==> First(r) !in r.held)
  }

  lemma FitsWindow(cs: seq<Chunk>, merged: Chunk, chunk: Chunk, r: Assembly)
    requires Represents(cs + [merged], r.held + Bytes(chunk)) && Contains(merged, chunk)
    requires First(r) <= chunk.index && End(chunk) <= WindowEnd(r) && HeldInWindow(r)
    ensures Fits(merged, r.(held := r.held + Bytes(chunk)))
  {
    assert merged in cs + [merged];
    if merged.index < chunk.index {
      assert Covers(merged, merged.index);
    }
    if End(merged) > End(chunk) {
      assert Covers(merged, End(merged) - 1);
    }
  }

  // What writing the merged chunk amounts to.
  lemma WriteOutcome(c: Chunk, r: Assembly)
    requires Within(c, r.held) && End(c) !in r.held && Fits(c, r) && c.index == First(r)
    ensures Advance(r) == Assembly(Write(r.output, c.data), From(r.held, End(c)), r.eofAt)
    ensures First(Advance(r)) == End(c) && HeldInWindow(Advance(r))
  {
    RunIsChunk(c, r.held, WindowEnd(r));
    AdvanceShape(r);
  }

  lemma SeparatedPrefix(cs: seq<Chunk>, c: Chunk)
    requires Separated(cs + [c])
    ensures Separated(cs)
  {
    assert cs == (cs + [c])[..|cs|];
  }

  // The list, of `n` bytes in all, represents the bytes `m` beyond index `first`.
  ghost predicate StandsFor(cs: seq<Chunk>, n: nat, m: map<nat, Byte>, first: nat) {
    && n == Total(cs)
    && Separated(cs)
    && Represents(cs, m)
    && forall c | c in cs :: first < c.index
  }

  // The same with a chunk that is not in the list yet.
  ghost predicate StandsForWith(cs: seq<Chunk>, n: nat, c: Chunk, m: map<nat, Byte>, first: nat) {
    && n == Total(cs)
    && Separated(cs + [c])
    && Represents(cs + [c], m)
    && forall d | d in cs :: first < d.index
  }

  lemma WriteOutList(cs: seq<Chunk>, n: nat, c: Chunk, r: Assembly)
    requires StandsForWith(cs, n, c, r.held, First(r)) && Fits(c, r) && c.index == First(r)
    ensures StandsFor(cs, n, From(r.held, End(c)), End(c))
    ensures Advance(r) == Assembly(Write(r.output, c.data), From(r.held, End(c)), r.eofAt)
    ensures First(Advance(r)) == End(c) && HeldInWindow(Advance(r))
  {
    WrittenOut(cs, c, r.held);
    SeparatedPrefix(cs, c);
    WriteOutcome(c, r);
  }

  lemma KeepInList(cs: seq<Chunk>, n: nat, c: Chunk, r: Assembly)
    requires StandsForWith(cs, n, c, r.held, First(r)) && Fits(c, r) && First(r) < c.index
    ensures StandsFor(cs + [c], n + |c.data|, r.held, First(r))
    ensures Advance(r) == r && HeldInWindow(r)
  {
    assert (cs + [c])[..|cs|] == cs;
    AdvanceIdle(r);
  }

  class StreamReassembler {
    const output: ByteStream
    const capacity: nat
    var unasmb: seq<Chunk>
    var firstUnasmb: nat
    var nUnasmbBytes: nat
    var eofSet: bool
    var lastByte: nat
    ghost var held: map<nat, Byte>

    ghost predicate Valid()
      reads this, output, output.buffer
    {
      Listed() && Inv(Value())
    }

    // The chunk list stands for the held bytes.
    ghost predicate Listed()
      reads this, output, output.buffer
    {
      && output.Valid()
      && output.maxCapacity == capacity
      && firstUnasmb == output.nBytesWritten
      && StandsFor(unasmb, nUnasmbBytes, held, firstUnasmb)
      && HeldInWindow(Value())
    }

    ghost function Value(): Assembly
      reads this, output, output.buffer
      requires output.Valid()
    {
      Assembly(output.Value(), held, if eofSet then Some(lastByte) else None)
    }

    constructor (capacity: nat)
      requires capacity < TWO_64
      ensures Valid() && fresh(output) && fresh(output.buffer)
      ensures Value() == NewAssembly(capacity)
    {
      output := new ByteStream(capacity);
      this.capacity := capacity;
      unasmb, firstUnasmb, nUnasmbBytes, eofSet, lastByte := [], 0, 0, false, 0;
      held := map[];
    }

    /**
     Merge every chunk that touches the new one into it; refuse, without a change, when one contains it.
     */
    method Merge(chunk: Chunk) returns (ok: bool, merged: Chunk)
      requires Separated(unasmb) && Represents(unasmb, held)
      requires nUnasmbBytes == Total(unasmb)
      modifies this`unasmb, this`nUnasmbBytes
      ensures nUnasmbBytes == Total(unasmb)
      ensures ok <==> forall d | d in old(unasmb) :: !Contains(d, chunk)
      ensures !ok ==> unasmb == old(unasmb)
      ensures ok ==> Contains(merged, chunk)
      ensures ok ==> Separated(unasmb + [merged]) && Represents(unasmb + [merged], held + Bytes(chunk))
      ensures ok ==> forall d :: d in unasmb <==> d in old(unasmb) && !Touches(d, chunk)
    {
      merged := chunk;
      var it := 0;
      ProgressStart(unasmb, chunk, held);
      while it < |unasmb|
        invariant Progress(old(unasmb), unasmb, it, merged, chunk, held)
        invariant nUnasmbBytes == Total(unasmb)
        decreases |unasmb| - it
      {
        var cur := unasmb[it];
        if Contains(cur, chunk) {
          return false, merged;
        }
        var touching, grown := Join(cur, chunk, merged);
        if touching {
          ProgressErase(old(unasmb), unasmb, it, merged, chunk, held);
          nUnasmbBytes := nUnasmbBytes - |cur.data|;
          unasmb := Erase(unasmb, it);
          merged := grown;
        } else {
          ProgressSkip(old(unasmb), unasmb, it, merged, chunk, held);
          it := it + 1;
        }
      }
      ProgressDone(old(unasmb), unasmb, merged, chunk, held);
      ok := true;
    }

    // A merged chunk is about to be written or kept; its bytes already count as held.
    ghost predicate Joined(merged: Chunk)
      reads this, output, output.buffer
    {
      && output.Valid()
      && output.maxCapacity == capacity
      && firstUnasmb == output.nBytesWritten
      && StandsForWith(unasmb, nUnasmbBytes, merged, held, firstUnasmb)
      && Fits(merged, Value())
    }

    method WriteOut(merged: Chunk)
      requires Joined(merged) && merged.index == firstUnasmb
      modifies this`firstUnasmb, this`held, output, output.buffer
      ensures Listed()
      ensures Value() == old(Advance(Value()))
    {
      hide StandsFor, StandsForWith, Fits, HeldInWindow, Advance;
      ghost var r := Value();
      WriteOutList(unasmb, nUnasmbBytes, merged, r);
      var n := output.Write(merged.data);
      firstUnasmb := firstUnasmb + |merged.data|;
      held := From(held, firstUnasmb);
      assert output.Value() == Write(r.output, merged.data);
      assert Value() == Advance(r);
    }

    method Keep(merged: Chunk)
      requires Joined(merged) && firstUnasmb < merged.index
      modifies this`unasmb, this`nUnasmbBytes
      ensures Listed()
      ensures Value() == old(Advance(Value()))
    {
      ghost var r := Value();
      KeepInList(unasmb, nUnasmbBytes, merged, r);
      nUnasmbBytes := nUnasmbBytes + |merged.data|;
      unasmb := unasmb + [merged];
      assert output.Value() == r.output;
      assert Value() == r;
    }

    // Merge a trimmed chunk, then write it or keep it.
    method Insert(chunk: Chunk) returns (ok: bool)
      requires Listed()
      requires firstUnasmb <= chunk.index && End(chunk) <= WindowEnd(Value())
      modifies this`unasmb, this`firstUnasmb, this`nUnasmbBytes, this`held, output, output.buffer
      ensures Listed()
      ensures Value() == old(Advance(Value().(held := Merged(held, Bytes(chunk)))))
      ensures !ok ==> firstUnasmb == old(firstUnasmb) < chunk.index
    {
      hide Advance, Merged, Bytes;
      ghost var cs, r := unasmb, Value();
      var merged;
      ok, merged := Merge(chunk);
      if !ok {
        ghost var d :| d in cs && Contains(d, chunk);
        MergedIfContained(held, d, chunk);
        AdvanceIdle(r);
        assert output.Value() == r.output;
        assert Value() == r;
        return;
      }
      MergedIfNotContained(cs, held, chunk);
      FitsWindow(unasmb, merged, chunk, r);
      held := held + Bytes(chunk);
      r := r.(held := held);
      assert output.Value() == r.output;
      assert Value() == r;
      if merged.index == firstUnasmb {
        WriteOut(merged);
      } else {
        Keep(merged);
      }
    }

    // The part of a push that lies in the window; not `ok` when the source returns early.
    method Accept(data: seq<Byte>, index: U64, end: nat) returns (ok: bool)
      requires Listed() && end == (index + |data|) % TWO_64
      modifies this`unasmb, this`firstUnasmb, this`nUnasmbBytes, this`held, output, output.buffer
      ensures Listed()
      ensures Value() == old(Advance(Value().(held := Merged(held, Accepted(Value(), data, index)))))
      ensures !ok ==> firstUnasmb == old(firstUnasmb) < index < old(WindowEnd(Value()))
    {
      ghost var r := Value();
      var firstUnacceptable := firstUnasmb + capacity - output.curSize;
      if end >= firstUnasmb && index < firstUnacceptable {
        var chunk := Trim(data, index, firstUnasmb, firstUnacceptable);
        TrimmedIsAccepted(r, data, index, chunk);
        ok := Insert(chunk);
      } else {
        AdvanceIdle(r);
        ok := true;
      }
    }

    /** One substring, anywhere and in any order; the size_t counters must not overflow. */
    method PushSubstring(data: seq<Byte>, index: U64, eof: bool)
      requires Valid() && firstUnasmb + capacity + |data| <= TWO_64
      modifies this, output, output.buffer
      ensures Valid()
      ensures Value() == Push(old(Value()), data, index, eof)
    {
      hide StandsFor, Merged, Advance;
      ghost var r := Value();
      PushKeepsInv(r, data, index, eof);
      if output.doneWriting {
        return;
      }
      var end := (index + |data|) % TWO_64;
      if eof {
        eofSet := true;
        lastByte := end;
      }
      assert output.Value() == r.output;
      AcceptedIgnoresEof(r, Value().eofAt, data, index);
      var ok := Accept(data, index, end);
      assert Value() == Advance(Arrived(r, data, index, eof));
      if !ok {
        return;
      }
      if eofSet && lastByte <= firstUnasmb {
        output.EndInput();
      }
    }

    method ReadOutput(len: nat) returns (data: seq<Byte>)
      requires Valid() && 0 < capacity
      modifies output
      ensures Valid()
      ensures data == Peek(old(Value()).output, len)
      ensures Value() == AssemblySpec.Pop(old(Value()), len)
    {
      PopKeepsInv(Value(), len);
      data := output.Read(len);
    }

    method UnassembledBytes() returns (n: nat)
      requires Valid()
      ensures n == |Value().held|
    {
      TotalIsSize(unasmb, held);
      n := nUnasmbBytes;
    }
  }
}
