/** Lists of unassembled chunks and what they stand for. */
module Chunks {
  import opened Common
  import opened AssemblySpec

  datatype Chunk = Chunk(data: seq<Byte>, index: nat)

  function End(c: Chunk): nat {
    c.index + |c.data|
  }

  predicate Covers(c: Chunk, i: nat) {
    c.index <= i < End(c)
  }

  // The closed intervals meet: adjacent chunks touch.
  predicate Touches(a: Chunk, b: Chunk) {
    a.index <= End(b) && b.index <= End(a)
  }

  predicate Contains(a: Chunk, b: Chunk) {
    a.index <= b.index && End(b) <= End(a)
  }

  ghost predicate Separated(cs: seq<Chunk>) {
    forall j, k | 0 <= j < k < |cs| :: !Touches(cs[j], cs[k])
  }

  function Bytes(c: Chunk): map<nat, Byte> {
    map i: nat | c.index <= i < End(c) :: At(c.data, c.index, i)
  }

  // Every byte of the chunk is in `m`, at its own index.
  ghost predicate Within(c: Chunk, m: map<nat, Byte>) {
    forall i: nat | Covers(c, i) :: i in m && m[i] == At(c.data, c.index, i)
  }

  ghost predicate Covered(cs: seq<Chunk>, i: nat) {
    exists c :: c in cs && Covers(c, i)
  }

  /** The list holds exactly the bytes of `m`. */
  ghost predicate Represents(cs: seq<Chunk>, m: map<nat, Byte>) {
    && (forall c | c in cs :: Within(c, m))
    && (forall i | i in m :: Covered(cs, i))
  }

  function Erase(cs: seq<Chunk>, i: nat): seq<Chunk>
    requires i < |cs|
  {
    cs[..i] + cs[i + 1..]
  }

  function Total(cs: seq<Chunk>): nat {
    if cs == [] then 0 else Total(cs[..|cs| - 1]) + |cs[|cs| - 1].data|
  }

  lemma {:induction false} TotalErase(cs: seq<Chunk>, i: nat)
    requires i < |cs|
    ensures Total(cs) == Total(Erase(cs, i)) + |cs[i].data|
  {
    var n := |cs| - 1;
    if i == n {
      assert Erase(cs, i) == cs[..n];
    } else {
      TotalErase(cs[..n], i);
      assert Erase(cs, i)[..n - 1] == Erase(cs[..n], i);
    }
  }

  lemma {:induction false} IntervalKeys(m: map<nat, Byte>, lo: nat, hi: nat)
    requires lo <= hi && forall i: nat :: i in m <==> lo <= i < hi
    ensures |m| == hi - lo
    decreases hi - lo
  {
    if lo == hi {
      assert m == map[];
    } else {
      var rest := m - {hi - 1};
      IntervalKeys(rest, lo, hi - 1);
      assert m.Keys == rest.Keys + {hi - 1};
    }
  }

  lemma WithoutLast(cs: seq<Chunk>, m: map<nat, Byte>)
    requires cs != [] && Separated(cs) && Represents(cs, m)
    ensures Represents(cs[..|cs| - 1], m - Bytes(cs[|cs| - 1]).Keys)
  {
    var n := |cs| - 1;
    var rest := m - Bytes(cs[n]).Keys;
    forall c | c in cs[..n]
      ensures Within(c, rest)
    {
      assert Within(c, m);
      forall i: nat | Covers(c, i)
        ensures i in rest && rest[i] == At(c.data, c.index, i)
      {
        assert !Touches(c, cs[n]);
        assert !Covers(cs[n], i);
      }
    }
    forall i | i in rest
      ensures Covered(cs[..n], i)
    {
      assert Covered(cs, i);
      var c :| c in cs && Covers(c, i);
      assert c in cs[..n];
    }
  }

  lemma RemovedKeys(m: map<nat, Byte>, ks: set<nat>)
    requires ks <= m.Keys
    ensures |m| == |m - ks| + |ks|
  {
    assert m.Keys == (m - ks).Keys + ks;
  }

  lemma SizeWithout(m: map<nat, Byte>, c: Chunk)
    requires Within(c, m)
    ensures |m| == |m - Bytes(c).Keys| + |c.data|
  {
    forall i | i in Bytes(c).Keys
      ensures i in m.Keys
    {
      assert Covers(c, i);
    }
    RemovedKeys(m, Bytes(c).Keys);
    IntervalKeys(Bytes(c), c.index, End(c));
  }

  /** Separated chunks count every held byte once. */
  lemma {:induction false} TotalIsSize(cs: seq<Chunk>, m: map<nat, Byte>)
    requires Separated(cs) && Represents(cs, m)
    ensures Total(cs) == |m|
  {
    if cs == [] {
      assert m == map[];
    } else {
      var n := |cs| - 1;
      WithoutLast(cs, m);
      TotalIsSize(cs[..n], m - Bytes(cs[n]).Keys);
      SizeWithout(m, cs[n]);
    }
  }

  /** Consecutive bytes that are all held lie in one chunk, because separated chunks are maximal runs. */
  lemma {:induction false} RunInOneChunk(cs: seq<Chunk>, lo: nat, hi: nat) returns (c: Chunk)
    requires Separated(cs) && lo < hi && forall i: nat | lo <= i < hi :: Covered(cs, i)
    ensures c in cs && c.index <= lo && hi <= End(c)
    decreases hi - lo
  {
    assert Covered(cs, hi - 1);
    c :| c in cs && Covers(c, hi - 1);
    if lo + 1 < hi {
      var d := RunInOneChunk(cs, lo, hi - 1);
      assert Touches(c, d) && Touches(d, c);
      var j, k :| 0 <= j < |cs| && 0 <= k < |cs| && cs[j] == c && cs[k] == d;
      assert j == k;
    }
  }

  // A chunk at the first missing index that nothing touches is the run to be written.
  lemma RunIsChunk(c: Chunk, m: map<nat, Byte>, limit: nat)
    requires Within(c, m) && End(c) <= limit && End(c) !in m
    ensures Run(m, c.index, limit) == c.data
  {
    var s := Run(m, c.index, limit);
    var e := c.index + |s|;
    assert |s| == |c.data| by {
      assert Covers(c, e) <==> |s| < |c.data|;
    }
    forall k | 0 <= k < |s|
      ensures s[k] == c.data[k]
    {
      assert Covers(c, c.index + k);
    }
  }
}
