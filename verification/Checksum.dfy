/** The Internet checksum (RFC 1071). */
module Checksums {
  import opened Common

  function Term(b: Byte, low: bool): nat {
    if low then b else 256 * b
  }

  predicate Odd(n: nat) {
    n % 2 == 1
  }

  // The sum of 16-bit words of `data`, the first byte being the low half of a word if `low`.
  function WordSum(data: seq<Byte>, low: bool): nat {
    if data == [] then 0
    else
      var n := |data| - 1;
      WordSum(data[..n], low) + Term(data[n], low != Odd(n))
  }

  /** Sums add up over pieces; an odd piece shifts the next one by half a word. */
  lemma {:induction false} WordSumConcat(a: seq<Byte>, b: seq<Byte>, low: bool)
    ensures WordSum(a + b, low) == WordSum(a, low) + WordSum(b, low != Odd(|a|))
  {
    hide Odd;
    if b == [] {
      assert a + b == a;
    } else {
      var n := |b| - 1;
      assert (a + b)[..|a| + n] == a + b[..n];
      WordSumConcat(a, b[..n], low);
      OddSum(|a|, n);
    }
  }

  lemma OddSum(a: nat, b: nat)
    ensures Odd(a + b) == (Odd(a) != Odd(b))
  {
  }

  lemma {:induction false} WordSumBound(data: seq<Byte>, low: bool)
    ensures WordSum(data, low) <= 65280 * |data|
  {
    if data != [] {
      WordSumBound(data[..|data| - 1], low);
    }
  }

  // Add the carries back in until 16 bits are left.
  function Fold(s: nat): U16 {
    if s > 0xffff then Fold(s / 0x1_0000 + s % 0x1_0000) else s
  }

  function Checksum(s: nat): U16 {
    0xffff - Fold(s)
  }

  lemma FoldStep(s: nat)
    requires s > 0xffff
    ensures var t := s / 0x1_0000 + s % 0x1_0000;
            0 < t < s && t % 65535 == s % 65535
  {
    var q, r := s / 0x1_0000, s % 0x1_0000;
    assert s == q + r + q * 65535;
    SameResidue(q + r, q);
  }

  lemma SameResidue(x: nat, k: nat)
    ensures (x + k * 65535) % 65535 == x % 65535
  {
    var q, r := x / 65535, x % 65535;
    assert x + k * 65535 == (q + k) * 65535 + r;
  }

  /** Folding keeps the residue modulo 65535, and yields 0 only for 0. */
  lemma {:induction false} FoldKeepsResidue(s: nat)
    ensures Fold(s) % 65535 == s % 65535
    ensures Fold(s) == 0 <==> s == 0
  {
    if s > 0xffff {
      FoldStep(s);
      FoldKeepsResidue(s / 0x1_0000 + s % 0x1_0000);
    }
  }

  /** A checksum verifies exactly if the sum is a positive multiple of 65535. */
  lemma VerifiesIff(s: nat)
    ensures Checksum(s) == 0 <==> s > 0 && s % 65535 == 0
  {
    FoldKeepsResidue(s);
    var f := Fold(s);
    assert f == 0xffff ==> f % 65535 == 0;
    assert f % 65535 == 0 ==> f == 0 || f == 0xffff;
  }

  /** Adding the computed checksum to the sum it was computed from makes it verify. */
  lemma InsertedVerifies(s: nat)
    ensures Checksum(s + Checksum(s)) == 0
  {
    hide Fold;
    var c := Checksum(s);
    FoldKeepsResidue(s);
    var f := Fold(s);
    var k := s / 65535;
    assert s == k * 65535 + s % 65535;
    assert f == 0xffff || f == f % 65535;
    assert (s + c) % 65535 == 0 by {
      if f == 0xffff {
      } else {
        assert s + c == (k + 1) * 65535;
      }
    }
    VerifiesIff(s + c);
  }

  class InternetChecksum {
    var sum: U32
    var parity: bool

    constructor (initial: U32)
      ensures sum == initial && !parity
    {
      sum, parity := initial, false;
    }

    method Add(data: seq<Byte>)
      modifies this
      ensures sum == (old(sum) + WordSum(data, old(parity))) % TWO_32
      ensures parity == (old(parity) != Odd(|data|))
    {
      assert data[..0] == [];
      for i := 0 to |data|
        invariant sum == (old(sum) + WordSum(data[..i], old(parity))) % TWO_32
        invariant parity == (old(parity) != Odd(i))
      {
        assert data[..i + 1][..i] == data[..i];
        var val: nat := data[i];
        if !parity {
          val := val * 256;
        }
        ModAdd(old(sum) + WordSum(data[..i], old(parity)), val);
        sum := (sum + val) % TWO_32;
        parity := !parity;
      }
      assert data[..|data|] == data;
    }

    method Value() returns (v: U16)
      ensures v == Checksum(sum)
    {
      var ret: nat := sum;
      while ret > 0xffff
        invariant Fold(ret) == Fold(sum)
        decreases ret
      {
        FoldStep(ret);
        ret := ret / 0x1_0000 + ret % 0x1_0000;
      }
      v := 0xffff - ret;
    }
  }

  lemma ModAdd(x: nat, y: nat)
    ensures (x % TWO_32 + y) % TWO_32 == (x + y) % TWO_32
  {
    var q, r := x / TWO_32, x % TWO_32;
    var q', r' := (r + y) / TWO_32, (r + y) % TWO_32;
    assert x + y == (q + q') * TWO_32 + r';
  }
}
