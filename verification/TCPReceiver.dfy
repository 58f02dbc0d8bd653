/** The receiver object. */
module Receivers {
  import opened Common
  import opened WrappingIntegers
  import opened Segments
  import opened StreamSpec
  import opened Reassemblers
  import A = AssemblySpec
  import Spec = ReceiverSpec

  class TCPReceiver {
    const reassembler: StreamReassembler
    const capacity: nat
    var synReceived: bool
    var isn: U32

    ghost const Repr: set<object>

    ghost predicate Valid()
      reads this, Repr
    {
      && Repr == {this, reassembler, reassembler.output, reassembler.output.buffer}
      && reassembler.Valid()
      && reassembler.capacity == capacity
    }

    ghost function Value(): Spec.Receiver
      reads this, Repr
      requires Valid()
    {
      Spec.Receiver(reassembler.Value(), synReceived, isn)
    }

    constructor (capacity: nat)
      requires capacity < TWO_64
      ensures Valid() && fresh(Repr)
      ensures Value() == Spec.NewReceiver(capacity)
    {
      var r := new StreamReassembler(capacity);
      reassembler := r;
      this.capacity := capacity;
      synReceived := false;
      isn := 0;
      Repr := {this, r, r.output, r.output.buffer};
    }

    method SegmentReceived(seg: Segment)
      requires Valid() && reassembler.firstUnasmb + capacity + |seg.payload| < TWO_64
      modifies Repr
      ensures Valid()
      ensures Value() == Spec.SegmentReceived(old(Value()), seg)
    {
      hide Unwrap, A.Push, StreamReassembler.Listed, A.Inv;
      if seg.header.syn {
        synReceived := true;
        isn := seg.header.seqno;
      }
      if !synReceived {
        return;
      }
      var abs := Unwrap(seg.header.seqno, isn, (reassembler.output.nBytesWritten + 1) % TWO_64);
      var index := if seg.header.syn then abs else (abs - 1) % TWO_64;
      reassembler.PushSubstring(seg.payload, index, seg.header.fin);
    }

    method Ackno() returns (ackno: Option<U32>)
      requires Valid()
      ensures ackno == Spec.Ackno(Value())
    {
      if synReceived {
        var n := reassembler.output.nBytesWritten + 1 + (if reassembler.output.doneWriting then 1 else 0);
        ackno := Some(Wrap(n % TWO_64, isn));
      } else {
        ackno := None;
      }
    }

    method WindowSize() returns (n: nat)
      requires Valid()
      ensures n == Spec.WindowSize(Value())
    {
      n := reassembler.output.maxCapacity - reassembler.output.curSize;
    }

    method ReadInbound(len: nat) returns (data: seq<Byte>)
      requires Valid() && 0 < capacity
      modifies Repr
      ensures Valid()
      ensures data == Peek(old(Value()).assembly.output, len)
      ensures Value() == Spec.ReadInbound(old(Value()), len)
    {
      data := reassembler.ReadOutput(len);
    }

    method SetError()
      requires Valid()
      modifies Repr
      ensures Valid()
      ensures Value() == var a := old(Value()).assembly;
                         old(Value()).(assembly := a.(output := StreamSpec.SetError(a.output)))
    {
      reassembler.output.SetError();
    }
  }
}
