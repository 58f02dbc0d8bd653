/** The connection object. */
module Connections {
  import opened Common
  import opened WrappingIntegers
  import opened Segments
  import opened Receivers
  import opened Senders
  import R = ReceiverSpec
  import S = StreamSpec
  import T = SenderSpec
  import opened ConnectionSpec
  import Spec = ConnectionSpec
  import Proofs = ConnectionProofs

  // The outbound queue, without the absolute numbers that the specification keeps beside it.
  ghost predicate Carries(segments: seq<Segment>, out: seq<Packet>) {
    |segments| == |out| && forall i | 0 <= i < |out| :: segments[i] == out[i].segment
  }

  lemma SenderQueue(s: TCPSender)
    requires s.Valid()
    ensures |s.segmentsOut| == |s.queued| && s.Value().segmentsOut == s.queued
  {
  }

  // Part of the sender's queue has been sent.
  ghost predicate Sending(c: Connection, now: Connection, rst: bool) {
    && now == c.(out := now.out, sender := c.sender.(segmentsOut := now.sender.segmentsOut))
    && now.out + StampAll(now.sender.segmentsOut, c.receiver, rst) ==
       c.out + StampAll(c.sender.segmentsOut, c.receiver, rst)
  }

  lemma SendingStep(c: Connection, now: Connection, rst: bool)
    requires Sending(c, now, rst) && now.sender.segmentsOut != []
    ensures Sending(c, now.(sender := now.sender.(segmentsOut := now.sender.segmentsOut[1..]),
                            out := now.out + [Stamp(now.sender.segmentsOut[0], now.receiver, rst)]), rst)
  {
    hide Stamp;
    var q := now.sender.segmentsOut;
    assert now.out + StampAll(q, c.receiver, rst) ==
           now.out + [Stamp(q[0], c.receiver, rst)] + StampAll(q[1..], c.receiver, rst);
  }

  lemma SendingDone(c: Connection, now: Connection, rst: bool)
    requires Sending(c, now, rst) && now.sender.segmentsOut == [] && c.active
    ensures now == Spec.SendSegments(c, rst)
  {
    hide Stamp;
    assert now.out + [] == now.out;
  }

  lemma Kept(c: Connection, e: Event)
    ensures Proofs.Inv(c) ==> Proofs.Inv(Apply(c, e))
  {
    hide Proofs.Inv, Apply;
    if Proofs.Inv(c) {
      Proofs.ApplyKeeps(c, e);
    }
  }

  class TCPConnection {
    const rtTimeout: nat
    const receiver: TCPReceiver
    const sender: TCPSender
    var segmentsOut: seq<Segment>
    var lingerAfterStreamsFinish: bool
    var active: bool
    var lastSegmRecvTimer: nat
    ghost var out: seq<Packet>

    ghost const Repr: set<object>

    ghost predicate Valid()
      reads this, Repr
    {
      && Repr == {this} + receiver.Repr + sender.Repr
      && this !in receiver.Repr && this !in sender.Repr && receiver.Repr !! sender.Repr
      && receiver in receiver.Repr && sender in sender.Repr
      && receiver.Valid() && sender.Valid()
      && Carries(segmentsOut, out)
    }

    ghost function Value(): Connection
      reads this, Repr
      requires Valid()
    {
      Connection(rtTimeout, receiver.Value(), sender.Value(), out, lingerAfterStreamsFinish, active, lastSegmRecvTimer)
    }

    constructor (sendCapacity: nat, recvCapacity: nat, rtTimeout: nat, isn: U32)
      requires sendCapacity < TWO_64 && recvCapacity < TWO_64
      ensures Valid() && fresh(Repr)
      ensures Value() == NewConnection(sendCapacity, recvCapacity, rtTimeout, isn)
    {
      this.rtTimeout := rtTimeout;
      var r := new TCPReceiver(recvCapacity);
      var s := new TCPSender(sendCapacity, rtTimeout, isn);
      receiver, sender := r, s;
      segmentsOut, out := [], [];
      lingerAfterStreamsFinish, active, lastSegmRecvTimer := true, true, 0;
      Repr := {this} + r.Repr + s.Repr;
    }

    // Fill in the acknowledgement, the window and the reset flag.
    method Complete(seg: Segment, rst: bool, ghost o: T.Outgoing) returns (complete: Segment)
      requires Valid() && seg == o.segment
      ensures complete == Stamp(o, receiver.Value(), rst).segment
    {
      hide TCPReceiver.Valid, TCPSender.Valid, Wrap;
      complete := seg;
      var ackno := receiver.Ackno();
      if ackno.Some? {
        var win := receiver.WindowSize();
        complete := complete.(header := complete.header.(ack := true, ackno := ackno.value, win := win % TWO_16));
      }
      if rst {
        complete := complete.(header := complete.header.(rst := true));
      }
    }

    // Take the front segment off the sender's queue, complete it, and pass it on.
    method SendOne(rst: bool)
      requires Valid() && sender.segmentsOut != []
      modifies Repr
      ensures Valid()
      ensures Value() == var c := old(Value());
                         c.(sender := c.sender.(segmentsOut := c.sender.segmentsOut[1..]),
                            out := c.out + [Stamp(c.sender.segmentsOut[0], c.receiver, rst)])
    {
      hide TCPReceiver.Valid, TCPSender.Valid, Stamp;
      ghost var c := Value();
      SenderQueue(sender);
      var seg := sender.PopSegment();
      seg := Complete(seg, rst, c.sender.segmentsOut[0]);
      segmentsOut := segmentsOut + [seg];
      out := out + [Stamp(c.sender.segmentsOut[0], c.receiver, rst)];
    }

    method SendSegments(rst: bool)
      requires Valid()
      modifies Repr
      ensures Valid()
      ensures Value() == Spec.SendSegments(old(Value()), rst)
    {
      hide TCPReceiver.Valid, TCPSender.Valid, Stamp;
      if !active {
        return;
      }
      ghost var c := Value();
      SenderQueue(sender);
      while sender.segmentsOut != []
        invariant Valid()
        invariant Sending(c, Value(), rst)
        invariant |sender.segmentsOut| == |Value().sender.segmentsOut|
        decreases |sender.segmentsOut|
      {
        SenderQueue(sender);
        ghost var c1 := Value();
        SendOne(rst);
        SenderQueue(sender);
        SendingStep(c, c1, rst);
      }
      SendingDone(c, Value(), rst);
    }

    method Reset()
      requires Valid()
      modifies Repr
      ensures Valid()
      ensures Value() == Spec.Reset(old(Value()))
    {
      hide TCPReceiver.Valid, TCPSender.Valid;
      sender.FailStream();
      receiver.SetError();
      active := false;
    }

    method TrySwitchingCloseMode()
      requires Valid()
      modifies this
      ensures Valid()
      ensures Value() == Spec.TrySwitchingCloseMode(old(Value()))
    {
      hide TCPSender.Valid;
      var eof := sender.StreamEof();
      if !eof && receiver.reassembler.output.doneWriting {
        lingerAfterStreamsFinish := false;
      }
    }

    // Prerequisites 1 to 3 of a clean close.
    method StreamsDone() returns (done: bool)
      requires Valid()
      ensures done == (InboundDone(Value()) && OutboundDone(Value()))
    {
      var unassembled := receiver.reassembler.UnassembledBytes();
      var istreamDone := receiver.reassembler.output.doneWriting && unassembled == 0;
      var eof := sender.StreamEof();
      var ostreamDone :=
        eof && sender.nextSeqno == sender.stream.nBytesWritten + 2 && sender.nextSeqno - sender.absAckno == 0;
      done := istreamDone && ostreamDone;
    }

    method TryClosingConnection()
      requires Valid()
      modifies Repr
      ensures Valid()
      ensures Value() == TryClosing(old(Value()))
    {
      hide TCPReceiver.Valid, TCPSender.Valid, Carries, InboundDone, OutboundDone, Spec.SendSegments;
      if !active {
        return;
      }
      SendSegments(false);
      var activeClose := lingerAfterStreamsFinish && lastSegmRecvTimer >= 10 * rtTimeout;
      var passiveClose := !lingerAfterStreamsFinish;
      var done := StreamsDone();
      if (activeClose || passiveClose) && done {
        active := false;
      }
    }

    // A send capacity of zero makes `fill_window` divide by zero.
    method Connect()
      requires Valid() && 0 < sender.stream.maxCapacity
      modifies Repr
      ensures Valid()
      ensures Value() == Spec.Connect(old(Value()))
      ensures Proofs.Inv(old(Value())) ==> Proofs.Inv(Value())
    {
      hide TCPReceiver.Valid, TCPSender.Valid, Carries, T.Fill, Spec.SendSegments, Proofs.Inv;
      Kept(Value(), Connecting);
      sender.FillWindow();
      SendSegments(false);
    }

    method Write(data: seq<Byte>) returns (n: nat)
      requires Valid()
      modifies Repr
      ensures Valid()
      ensures Value() == Spec.Write(old(Value()), data)
      ensures Proofs.Inv(old(Value())) ==> Proofs.Inv(Value())
      ensures n == if WriteRefused(old(Value())) then 0 else Min(|data|, S.Remaining(old(Value()).sender.stream))
    {
      hide TCPReceiver.Valid, TCPSender.Valid, Carries, T.Fill, Spec.SendSegments, Proofs.Inv;
      Kept(Value(), Writing(data));
      if sender.stream.doneWriting || sender.nextSeqno == 0 {
        return 0;
      }
      sender.SentMeansCapacity();
      n := sender.WriteStream(data);
      sender.FillWindow();
      SendSegments(false);
    }

    method EndInputStream()
      requires Valid() && 0 < sender.stream.maxCapacity
      modifies Repr
      ensures Valid()
      ensures Value() == Spec.EndInputStream(old(Value()))
      ensures Proofs.Inv(old(Value())) ==> Proofs.Inv(Value())
    {
      hide TCPReceiver.Valid, TCPSender.Valid, Carries, T.Fill, TryClosing, Proofs.Inv;
      Kept(Value(), Ending);
      sender.EndStream();
      sender.FillWindow();
      TryClosingConnection();
    }

    method EnsureSegmentQueued()
      requires Valid()
      modifies Repr
      ensures Valid()
      ensures Value() == EnsureQueued(old(Value()))
    {
      hide TCPReceiver.Valid, TCPSender.Valid, Carries, T.SendEmpty;
      SenderQueue(sender);
      if sender.segmentsOut == [] {
        sender.SendEmptySegment();
      }
    }

    // Too many retransmissions reset the connection; otherwise what the sender queued is sent.
    method GiveUpOrSendSegments()
      requires Valid()
      modifies Repr
      ensures Valid()
      ensures Value() == GiveUpOrSend(old(Value()))
    {
      hide TCPReceiver.Valid, TCPSender.Valid, Carries, EnsureQueued, Spec.SendSegments, Spec.Reset;
      if sender.nConsecRetransmissions > MAX_RETX_ATTEMPTS {
        EnsureSegmentQueued();
        SendSegments(true);
        Reset();
      } else {
        SendSegments(false);
      }
    }

    method AdvanceClocks(ms: nat)
      requires Valid()
      modifies Repr
      ensures Valid()
      ensures Value() == var c := old(Value());
                         c.(sender := T.Tick(c.sender, ms), sinceLastSegment := c.sinceLastSegment + ms)
    {
      hide TCPReceiver.Valid, TCPSender.Valid, Carries, T.Tick;
      sender.Tick(ms);
      lastSegmRecvTimer := lastSegmRecvTimer + ms;
    }

    method Tick(ms: nat)
      requires Valid()
      modifies Repr
      ensures Valid()
      ensures Value() == Spec.Tick(old(Value()), ms)
      ensures Proofs.Inv(old(Value())) ==> Proofs.Inv(Value())
    {
      hide TCPReceiver.Valid, TCPSender.Valid, Carries, T.Tick, TryClosing, GiveUpOrSend, Proofs.Inv;
      Kept(Value(), Ticking(ms));
      if !active {
        return;
      }
      AdvanceClocks(ms);
      GiveUpOrSendSegments();
      TryClosingConnection();
    }

    // What happens to a segment once the receiver has seen it.
    method HeedFlags(seg: Segment)
      requires Valid()
      modifies Repr
      ensures Valid()
      ensures Value() == ObeyAck(ObeyRst(old(Value()), seg), seg)
    {
      hide TCPReceiver.Valid, TCPSender.Valid, Carries, T.AckReceived, Spec.Reset;
      if seg.header.rst {
        Reset();
      }
      if seg.header.ack {
        sender.AckReceived(seg.header.ackno, seg.header.win);
      }
    }

    method React(seg: Segment)
      requires Valid()
      modifies Repr
      ensures Valid()
      ensures Value() == Reply(ObeyAck(ObeyRst(old(Value()), seg), seg), seg)
    {
      hide TCPReceiver.Valid, TCPSender.Valid, Carries, ObeyAck, ObeyRst, EnsureQueued, Spec.SendSegments;
      HeedFlags(seg);
      if sender.nextSeqno > 0 {
        if Length(seg) > 0 {
          EnsureSegmentQueued();
        }
        SendSegments(false);
      }
    }

    method SegmentReceived(seg: Segment)
      requires Valid() && receiver.reassembler.firstUnasmb + receiver.capacity + |seg.payload| < TWO_64
      requires seg.header.syn && sender.nextSeqno == 0 ==> 0 < sender.stream.maxCapacity
      modifies Repr
      ensures Valid()
      ensures Value() == Spec.SegmentReceived(old(Value()), seg)
      ensures Proofs.Inv(old(Value())) ==> Proofs.Inv(Value())
    {
      hide TCPReceiver.Valid, TCPSender.Valid, Carries, ObeyRst, ObeyAck, Reply, Spec.Connect,
           Spec.TrySwitchingCloseMode, R.SegmentReceived, Proofs.Inv;
      Kept(Value(), Arriving(seg));
      sender.SentMeansCapacity();
      receiver.SegmentReceived(seg);
      lastSegmRecvTimer := 0;
      React(seg);
      if seg.header.syn && sender.nextSeqno == 0 {
        Connect();
      }
      TrySwitchingCloseMode();
    }

    method ReadInbound(len: nat) returns (data: seq<Byte>)
      requires Valid() && 0 < receiver.capacity
      modifies Repr
      ensures Valid()
      ensures data == S.Peek(old(Value()).receiver.assembly.output, len)
      ensures Value() == Spec.ReadInbound(old(Value()), len)
      ensures Proofs.Inv(old(Value())) ==> Proofs.Inv(Value())
    {
      hide TCPReceiver.Valid, TCPSender.Valid, Carries, Proofs.Inv;
      Kept(Value(), Reading(len));
      data := receiver.ReadInbound(len);
    }
  }
}
