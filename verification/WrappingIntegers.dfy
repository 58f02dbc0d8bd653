/** 32-bit sequence numbers and their 64-bit absolute counterparts (section 3.3 of RFC 793). */
module WrappingIntegers {
  import opened Common

  function Wrap(n: U64, isn: U32): (r: U32) {
    ((n + isn) % TWO_64) % TWO_32
  }

  // The int32_t difference of two raw values.
  function SignedDiff(a: U32, b: U32): (d: int)
    ensures -TWO_31 <= d < TWO_31
  {
    var d := (a - b) % TWO_32;
    if d >= TWO_31 then d - TWO_32 else d
  }

  // The offset of `n` from `isn`, with the source's int32_t to uint64_t to uint32_t conversions.
  function Offset(n: U32, isn: U32): (r: U32) {
    if n >= isn then
      (SignedDiff(n, isn) % TWO_64) % TWO_32
    else
      ((TWO_32 - SignedDiff(isn, n) % TWO_64) % TWO_64) % TWO_32
  }

  function Distance(a: int, b: int): (d: nat) {
    if a < b then b - a else a - b
  }

  // All arithmetic is on uint64_t: the count of wraps may step below 0 or above 2^32 - 1.
  function Unwrap(n: U32, isn: U32, checkpoint: U64): (r: U64) {
    var wraps := checkpoint / TWO_32;
    var a: U64 := (Offset(n, isn) + (wraps * TWO_32) % TWO_64) % TWO_64;
    var wraps' := if a < checkpoint then (wraps + 1) % TWO_64 else (wraps - 1) % TWO_64;
    var b: U64 := (Offset(n, isn) + (wraps' * TWO_32) % TWO_64) % TWO_64;
    if Distance(checkpoint, a) > Distance(checkpoint, b) then b else a
  }

  lemma Mod32(x: int, q: int, r: int)
    requires x == q * 0x1_0000_0000 + r && 0 <= r < 0x1_0000_0000
    ensures x % TWO_32 == r && x / TWO_32 == q
  {
  }

  lemma Mod64(x: int, q: int, r: int)
    requires x == q * 0x1_0000_0000_0000_0000 + r && 0 <= r < 0x1_0000_0000_0000_0000
    ensures x % TWO_64 == r
  {
  }

  lemma SignedDiffValue(a: U32, b: U32)
    requires a >= b
    ensures SignedDiff(a, b) == if a - b >= TWO_31 then a - b - TWO_32 else a - b
  {
    Mod32(a - b, 0, a - b);
  }

  lemma OffsetIsResidue(n: U32, isn: U32)
    ensures Offset(n, isn) == if n >= isn then n - isn else n - isn + TWO_32
  {
    if n >= isn {
      SignedDiffValue(n, isn);
      var d := SignedDiff(n, isn);
      var u := if d < 0 then d + TWO_64 else d;
      Mod64(d, if d < 0 then -1 else 0, u);
      Mod32(u, if d < 0 then 0xffff_ffff else 0, n - isn);
    } else {
      SignedDiffValue(isn, n);
      var d := SignedDiff(isn, n);
      var u := if d < 0 then d + TWO_64 else d;
      Mod64(d, if d < 0 then -1 else 0, u);
      Mod64(TWO_32 - u, if d < 0 then -1 else 0, TWO_32 - d);
      Mod32(TWO_32 - d, if d < 0 then 1 else 0, TWO_32 + n - isn);
    }
  }

  // The absolute numbers that wrap to `n` are those congruent to the offset.
  lemma WrapsToIffCongruent(x: U64, n: U32, isn: U32)
    ensures Wrap(x, isn) == n <==> x % TWO_32 == Offset(n, isn)
  {
    OffsetIsResidue(n, isn);
    var q, r := x / TWO_32, x % TWO_32;
    Mod32(x, q, r);
    var t := if x + isn < TWO_64 then x + isn else x + isn - TWO_64;
    Mod64(x + isn, if x + isn < TWO_64 then 0 else 1, t);
    var q' := if x + isn < TWO_64 then q else q - 0x1_0000_0000;
    if r + isn < TWO_32 {
      Mod32(t, q', r + isn);
    } else {
      Mod32(t, q' + 1, r + isn - TWO_32);
    }
  }

  // The two candidates straddle the checkpoint, or the missing one lies off the end of the 64-bit range.
  lemma Candidates(n: U32, isn: U32, c: U64) returns (w: nat, a: U64)
    ensures w == c / TWO_32 && a == Offset(n, isn) + w * TWO_32
    ensures a >= c && w > 0 ==>
              Unwrap(n, isn, c) == if a - c > c - (a - TWO_32) then a - TWO_32 else a
    ensures a < c && w < TWO_32 - 1 ==>
              Unwrap(n, isn, c) == if c - a > a + TWO_32 - c then a + TWO_32 else a
    ensures a >= c && w == 0 ==> Unwrap(n, isn, c) == a
    ensures a < c && w == TWO_32 - 1 ==> Unwrap(n, isn, c) == a
  {
    w := c / TWO_32;
    a := Offset(n, isn) + w * TWO_32;
    Mod64(w * TWO_32, 0, w * TWO_32);
    Mod64(a, 0, a);
    if a < c {
      Mod64(w + 1, 0, w + 1);
      if w < TWO_32 - 1 {
        Mod64((w + 1) * TWO_32, 0, (w + 1) * TWO_32);
        Mod64(a + TWO_32, 0, a + TWO_32);
      } else {
        Mod64((w + 1) * TWO_32, 1, 0);
        Mod64(Offset(n, isn), 0, Offset(n, isn));
      }
    } else if w > 0 {
      Mod64(w - 1, 0, w - 1);
      Mod64((w - 1) * TWO_32, 0, (w - 1) * TWO_32);
      Mod64(a - TWO_32, 0, a - TWO_32);
    } else {
      Mod64(-1, -1, TWO_64 - 1);
      Mod64((TWO_64 - 1) * TWO_32, 0xffff_ffff, TWO_64 - TWO_32);
      Mod64(TWO_64 - TWO_32 + a, 0, TWO_64 - TWO_32 + a);
    }
  }

  // Plain arithmetic: of the numbers `o + k * 2^32`, the closer of the two next to `c` is the closest.
  lemma CloserOfTwo(o: U32, w: int, c: int, r: int, k: int)
    requires w * 0x1_0000_0000 <= c < w * 0x1_0000_0000 + 0x1_0000_0000
    requires var a := o + w * 0x1_0000_0000;
             if a >= c then
               r == if a - c > c - (a - 0x1_0000_0000) then a - 0x1_0000_0000 else a
             else
               r == if c - a > a + 0x1_0000_0000 - c then a + 0x1_0000_0000 else a
    ensures Distance(c, r) <= Distance(c, o + k * 0x1_0000_0000)
  {
    if k > w + 1 {
      assert k * 0x1_0000_0000 >= (w + 2) * 0x1_0000_0000;
    } else if k < w - 1 {
      assert k * 0x1_0000_0000 <= (w - 2) * 0x1_0000_0000;
    }
  }

  lemma ChosenIsNearest(n: U32, isn: U32, c: U64, k: nat)
    requires k < 0x1_0000_0000
    ensures Distance(c, Unwrap(n, isn, c)) <= Distance(c, Offset(n, isn) + k * 0x1_0000_0000)
  {
    var r := Unwrap(n, isn, c);
    var w, a := Candidates(n, isn, c);
    Mod32(c, w, c % TWO_32);
    if (a >= c && w > 0) || (a < c && w < TWO_32 - 1) {
      CloserOfTwo(Offset(n, isn), w, c, r, k);
    }
  }

  lemma UnwrapWraps(n: U32, isn: U32, c: U64)
    ensures Wrap(Unwrap(n, isn, c), isn) == n
  {
    var r := Unwrap(n, isn, c);
    var w, a := Candidates(n, isn, c);
    WrapsToIffCongruent(r, n, isn);
    Mod32(r, if r == a then w else if r > a then w + 1 else w - 1, Offset(n, isn));
  }

  /** `Unwrap` yields a 64-bit number that wraps to `n`, and none is closer to the checkpoint. */
  lemma UnwrapIsNearest(n: U32, isn: U32, c: U64)
    ensures Wrap(Unwrap(n, isn, c), isn) == n
    ensures forall x: U64 | Wrap(x, isn) == n :: Distance(c, Unwrap(n, isn, c)) <= Distance(c, x)
  {
    UnwrapWraps(n, isn, c);
    forall x: U64 | Wrap(x, isn) == n
      ensures Distance(c, Unwrap(n, isn, c)) <= Distance(c, x)
    {
      WrapsToIffCongruent(x, n, isn);
      Mod32(x, x / TWO_32, x % TWO_32);
      ChosenIsNearest(n, isn, c, x / TWO_32);
    }
  }

  // Plain arithmetic: no number congruent to `a` ties with the neighbour of `a` that is closer to `c` than `a`.
  lemma CloserNeverTies(a: int, r: int, c: int, x: int, k: int)
    requires x == a + k * 0x1_0000_0000 && x != r && Distance(c, x) == Distance(c, r)
    requires r == a - 0x1_0000_0000 ==> r <= c <= a && a - c > c - r
    requires r == a + 0x1_0000_0000 ==> a <= c <= r && c - a > r - c
    ensures r != a - 0x1_0000_0000 && r != a + 0x1_0000_0000
  {
  }

  /** Of two numbers equally near, the one in the checkpoint's own block of 2^32 numbers is taken. */
  lemma UnwrapTie(n: U32, isn: U32, c: U64, x: U64)
    requires Wrap(x, isn) == n && Distance(c, x) == Distance(c, Unwrap(n, isn, c)) && x != Unwrap(n, isn, c)
    ensures Unwrap(n, isn, c) / TWO_32 == c / TWO_32
  {
    hide Unwrap, Wrap;
    var w, a := Candidates(n, isn, c);
    WrapsToIffCongruent(x, n, isn);
    hide Offset;
    Mod32(c, w, c % TWO_32);
    Mod32(x, x / TWO_32, Offset(n, isn));
    CloserNeverTies(a, Unwrap(n, isn, c), c, x, x / TWO_32 - w);
    Mod32(a, w, Offset(n, isn));
  }

  lemma CongruentAndClose(x: int, y: int)
    requires x % TWO_32 == y % TWO_32 && Distance(x, y) < TWO_32
    ensures x == y
  {
    Mod32(x, x / TWO_32, x % TWO_32);
    Mod32(y, y / TWO_32, y % TWO_32);
  }

  /** An absolute number less than 2^31 from the checkpoint survives the trip through 32 bits. */
  lemma UnwrapInvertsWrap(v: U64, isn: U32, c: U64)
    requires Distance(v, c) < TWO_31
    ensures Unwrap(Wrap(v, isn), isn, c) == v
  {
    var n := Wrap(v, isn);
    UnwrapIsNearest(n, isn, c);
    WrapsToIffCongruent(v, n, isn);
    var r := Unwrap(n, isn, c);
    WrapsToIffCongruent(r, n, isn);
    assert Distance(c, r) <= Distance(c, v);
    CongruentAndClose(r, v);
  }
}
