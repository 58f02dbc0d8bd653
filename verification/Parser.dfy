/** Big-endian integers on the wire: the parser that consumes them and the unparser that appends them. */
module Parsers {
  import opened Common

  datatype ParseResult = NoError | BadChecksum | PacketTooShort | WrongIPVersion | HeaderTooShort | TruncatedPacket

  function FromBytes(bs: seq<Byte>): (v: nat)
    ensures v < Pow256(|bs|)
  {
    if bs == [] then 0 else 256 * FromBytes(bs[..|bs| - 1]) + bs[|bs| - 1]
  }

  function ToBytes(v: nat, n: nat): (bs: seq<Byte>)
    ensures |bs| == n
  {
    if n == 0 then [] else ToBytes(v / 256, n - 1) + [v % 256]
  }

  function Pow256(n: nat): (r: nat)
    ensures 0 < r
    ensures (n == 1 ==> r == 0x100) && (n == 2 ==> r == 0x1_0000) && (n == 4 ==> r == 0x1_0000_0000)
  {
    if n == 0 then 1 else 256 * Pow256(n - 1)
  }

  /** What is unparsed is parsed back. */
  lemma {:induction false} FromToBytes(v: nat, n: nat)
    requires v < Pow256(n)
    ensures FromBytes(ToBytes(v, n)) == v
  {
    if n > 0 {
      FromToBytes(v / 256, n - 1);
      assert ToBytes(v, n)[..n - 1] == ToBytes(v / 256, n - 1);
    }
  }

  datatype Input = Input(buffer: seq<Byte>, error: ParseResult)

  function Check(p: Input, size: nat): Input {
    if size > |p.buffer| then p.(error := PacketTooShort) else p
  }

  function IntOf(p: Input, n: nat): (v: nat)
    ensures v < Pow256(n)
  {
    if Check(p, n).error == NoError then FromBytes(p.buffer[..n]) else 0
  }

  // The input after `n` bytes have been taken off its front.
  function Past(p: Input, n: nat): Input {
    var p1 := Check(p, n);
    if p1.error == NoError then p1.(buffer := p1.buffer[n..]) else p1
  }

  /** An integer in front of the input is read back and taken off. */
  lemma ReadsBack(v: nat, n: nat, rest: seq<Byte>)
    requires v < Pow256(n)
    ensures var p := Input(ToBytes(v, n) + rest, NoError);
            IntOf(p, n) == v && Past(p, n) == Input(rest, NoError)
  {
    hide ToBytes, FromBytes;
    var bs := ToBytes(v, n);
    FromToBytes(v, n);
    assert (bs + rest)[..n] == bs && (bs + rest)[n..] == rest;
  }

  class NetParser {
    var buffer: seq<Byte>
    var error: ParseResult

    ghost function Value(): Input
      reads this
    {
      Input(buffer, error)
    }

    constructor (buffer: seq<Byte>)
      ensures Value() == Input(buffer, NoError)
    {
      this.buffer, error := buffer, NoError;
    }

    method CheckSize(size: nat)
      modifies this
      ensures Value() == Check(old(Value()), size)
    {
      if size > |buffer| {
        error := PacketTooShort;
      }
    }

    // An unsigned integer of `len` bytes.
    method ParseInt(len: nat) returns (v: nat)
      modifies this
      ensures v == IntOf(old(Value()), len)
      ensures Value() == Past(old(Value()), len)
    {
      CheckSize(len);
      if error != NoError {
        return 0;
      }
      v := 0;
      for i := 0 to len
        invariant v == FromBytes(buffer[..i])
      {
        assert buffer[..i + 1][..i] == buffer[..i];
        v := 256 * v + buffer[i];
      }
      buffer := buffer[len..];
    }

    method RemovePrefix(n: nat)
      modifies this
      ensures Value() == Past(old(Value()), n)
    {
      CheckSize(n);
      if error == NoError {
        buffer := buffer[n..];
      }
    }
  }

  // Dividing by 256 `k` times shifts right by `k` bytes.
  function ShiftRight(v: nat, k: nat): nat {
    if k == 0 then v else ShiftRight(v / 256, k - 1)
  }

  lemma {:induction false} ByteOf(v: nat, n: nat, i: nat)
    requires i < n
    ensures ToBytes(v, n)[i] == ShiftRight(v, n - i - 1) % 256
  {
    if i < n - 1 {
      ByteOf(v / 256, n - 1, i);
    }
  }

  method UnparseInt(s: seq<Byte>, val: nat, len: nat) returns (r: seq<Byte>)
    ensures r == s + ToBytes(val, len)
  {
    r := s;
    for i := 0 to len
      invariant r == s + ToBytes(val, len)[..i]
    {
      ByteOf(val, len, i);
      r := r + [ShiftRight(val, len - i - 1) % 256];
    }
    assert ToBytes(val, len)[..len] == ToBytes(val, len);
  }
}
