/** The step lemmas behind `merge`: a loop that compares every chunk with the original bounds only. */
module Merging {
  import opened Common
  import opened AssemblySpec
  import opened Chunks

  // What becomes of the grown chunk `c`, started as `o`, when the chunk `e` is taken out of the list.
  function Absorb(c: Chunk, o: Chunk, e: Chunk): Chunk
    requires Touches(e, o) && !Contains(e, o)
  {
    if Contains(o, e) then
      c
    else if e.index <= o.index then
      Chunk(e.data[..o.index - e.index] + c.data, e.index)
    else
      Chunk(c.data + e.data[End(o) - e.index..], c.index)
  }

  // `c` reaches past `o` only where nothing left in the list, such as `d`, can reach.
  predicate Beside(d: Chunk, c: Chunk, o: Chunk) {
    && (End(d) < o.index ==> End(d) < c.index)
    && (d.index > End(o) ==> d.index > End(c))
    && (c.index < o.index ==> !(d.index <= o.index <= End(d)))
    && (End(c) > End(o) ==> !(d.index <= End(o) <= End(d)))
  }

  ghost predicate Grown(c: Chunk, o: Chunk, m: map<nat, Byte>) {
    && Contains(c, o)
    && Within(c, m + Bytes(o))
  }

  /** The loop invariant of `merge` over the bytes `m` of the original list. */
  ghost predicate MergeState(cs: seq<Chunk>, c: Chunk, o: Chunk, m: map<nat, Byte>) {
    && Separated(cs)
    && Grown(c, o, m)
    && (forall d | d in cs :: Within(d, m) && Beside(d, c, o))
    && (forall i | i in m :: Covers(c, i) || Covered(cs, i))
  }

  lemma Erased(cs: seq<Chunk>, i: nat)
    requires i < |cs|
    ensures forall d | d in Erase(cs, i) :: d in cs
    ensures forall d | d in cs :: d == cs[i] || d in Erase(cs, i)
    ensures Separated(cs) ==> Separated(Erase(cs, i)) && forall d | d in Erase(cs, i) :: !Touches(d, cs[i])
  {
    var es := Erase(cs, i);
    forall d | d in es
      ensures d in cs && (Separated(cs) ==> !Touches(d, cs[i]))
    {
      var j :| 0 <= j < |es| && es[j] == d;
      assert d == cs[if j < i then j else j + 1];
    }
    forall d | d in cs
      ensures d == cs[i] || d in es
    {
      var j :| 0 <= j < |cs| && cs[j] == d;
      if j != i {
        assert d == es[if j < i then j else j - 1];
      }
    }
  }

  lemma AbsorbGrown(c: Chunk, o: Chunk, e: Chunk, m: map<nat, Byte>)
    requires Grown(c, o, m) && Within(e, m) && Beside(e, c, o)
    requires Touches(e, o) && !Contains(e, o)
    ensures Grown(Absorb(c, o, e), o, m)
    ensures forall i: nat | Covers(c, i) || Covers(e, i) :: Covers(Absorb(c, o, e), i)
  {
    var c', mo := Absorb(c, o, e), m + Bytes(o);
    forall i: nat | Covers(c', i)
      ensures i in mo && mo[i] == At(c'.data, c'.index, i)
    {
      if Covers(c, i) {
        assert At(c'.data, c'.index, i) == At(c.data, c.index, i);
      } else {
        assert Covers(e, i) && !Covers(o, i) && At(c'.data, c'.index, i) == At(e.data, e.index, i);
      }
    }
  }

  lemma AbsorbBeside(c: Chunk, o: Chunk, e: Chunk, d: Chunk)
    requires Contains(c, o) && Beside(e, c, o) && Beside(d, c, o) && !Touches(d, e)
    requires Touches(e, o) && !Contains(e, o)
    ensures Beside(d, Absorb(c, o, e), o)
  {
  }

  lemma EraseKeeps(cs: seq<Chunk>, k: nat, c: Chunk, o: Chunk, m: map<nat, Byte>)
    requires k < |cs| && MergeState(cs, c, o, m)
    requires Touches(cs[k], o) && !Contains(cs[k], o)
    ensures MergeState(Erase(cs, k), Absorb(c, o, cs[k]), o, m)
    ensures forall d | d in Erase(cs, k) :: !Contains(d, o)
  {
    var es, c' := Erase(cs, k), Absorb(c, o, cs[k]);
    Erased(cs, k);
    AbsorbGrown(c, o, cs[k], m);
    forall d | d in es
      ensures Within(d, m) && Beside(d, c', o) && !Contains(d, o)
    {
      AbsorbBeside(c, o, cs[k], d);
    }
    forall i | i in m
      ensures Covers(c', i) || Covered(es, i)
    {
      if !Covers(c, i) {
        assert Covered(cs, i);
        var d :| d in cs && Covers(d, i);
      }
    }
  }

  // The loop invariant with its position `k` and with what it has done to the original list `cs0`.
  ghost predicate Progress(cs0: seq<Chunk>, cs: seq<Chunk>, k: nat, c: Chunk, o: Chunk, m: map<nat, Byte>) {
    && k <= |cs|
    && MergeState(cs, c, o, m)
    && (forall d | d in cs[..k] :: !Touches(d, o))
    && (forall d | d in cs :: d in cs0)
    && (forall d | d in cs0 && !Touches(d, o) :: d in cs)
    && (cs == cs0 || forall d | d in cs0 :: !Contains(d, o))
  }

  lemma ProgressStart(cs: seq<Chunk>, o: Chunk, m: map<nat, Byte>)
    requires Separated(cs) && Represents(cs, m)
    ensures Progress(cs, cs, 0, o, o, m)
  {
  }

  lemma ProgressErase(cs0: seq<Chunk>, cs: seq<Chunk>, k: nat, c: Chunk, o: Chunk, m: map<nat, Byte>)
    requires Progress(cs0, cs, k, c, o, m) && k < |cs|
    requires Touches(cs[k], o) && !Contains(cs[k], o)
    ensures Progress(cs0, Erase(cs, k), k, Absorb(c, o, cs[k]), o, m)
    ensures Total(cs) == Total(Erase(cs, k)) + |cs[k].data|
  {
    EraseKeeps(cs, k, c, o, m);
    Erased(cs, k);
    TotalErase(cs, k);
    assert Erase(cs, k)[..k] == cs[..k];
    forall d | d in cs0
      ensures !Contains(d, o)
    {
      if cs == cs0 {
        assert d == cs[k] || d in Erase(cs, k);
      }
    }
  }

  lemma ProgressSkip(cs0: seq<Chunk>, cs: seq<Chunk>, k: nat, c: Chunk, o: Chunk, m: map<nat, Byte>)
    requires Progress(cs0, cs, k, c, o, m) && k < |cs| && !Touches(cs[k], o)
    ensures Progress(cs0, cs, k + 1, c, o, m)
  {
    assert cs[..k + 1] == cs[..k] + [cs[k]];
  }

  /** When the loop is over, nothing left touches the grown chunk, and together they hold old and new bytes. */
  lemma MergeDone(cs: seq<Chunk>, c: Chunk, o: Chunk, m: map<nat, Byte>)
    requires MergeState(cs, c, o, m)
    requires forall d | d in cs :: !Touches(d, o)
    ensures forall d | d in cs :: !Touches(d, c)
    ensures Separated(cs + [c]) && Represents(cs + [c], m + Bytes(o))
  {
    var all, mo := cs + [c], m + Bytes(o);
    forall d | d in cs
      ensures !Touches(d, c) && Within(d, mo)
    {
      assert Beside(d, c, o) && Within(d, m);
    }
    assert forall d | d in all :: d in cs || d == c;
    forall i | i in mo
      ensures Covered(all, i)
    {
      if Covers(c, i) {
        assert c in all;
      } else {
        assert Covered(cs, i);
        var d :| d in cs && Covers(d, i);
        assert d in all;
      }
    }
  }

  lemma ProgressDone(cs0: seq<Chunk>, cs: seq<Chunk>, c: Chunk, o: Chunk, m: map<nat, Byte>)
    requires Progress(cs0, cs, |cs|, c, o, m)
    ensures Separated(cs + [c]) && Represents(cs + [c], m + Bytes(o))
    ensures forall d | d in cs0 :: !Contains(d, o)
  {
    assert cs[..|cs|] == cs;
    MergeDone(cs, c, o, m);
    assert forall d | d in cs :: Contains(d, o) ==> Touches(d, o);
  }
}
