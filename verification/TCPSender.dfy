/** The sender object. */
module Senders {
  import opened Common
  import opened WrappingIntegers
  import opened StreamSpec
  import opened ByteStreams
  import opened Segments
  import opened SenderSpec
  import P = SenderProofs
  import Spec = SenderSpec

  // The queue of segments, without the absolute numbers that the specification keeps beside them.
  ghost predicate Queues(segments: seq<Segment>, q: seq<Outgoing>) {
    |segments| == |q| && forall i | 0 <= i < |q| :: segments[i] == q[i].segment
  }

  class TCPSender {
    const isn: U32
    var segmentsOut: seq<Segment>
    const initialRetransmissionTimeout: nat
    const stream: ByteStream
    var nextSeqno: nat
    var absAckno: nat
    var windowSize: nat
    var outstandingSegments: seq<Outgoing>
    var timer: Timer
    var nConsecRetransmissions: nat
    ghost var queued: seq<Outgoing>
    ghost var firsts: seq<Outgoing>

    ghost const Repr: set<object>

    ghost predicate Valid()
      reads this, Repr
    {
      && Repr == {this, stream, stream.buffer}
      && stream.Valid() && (nextSeqno > 0 ==> 0 < stream.maxCapacity)
      && Queues(segmentsOut, queued)
    }

    ghost function Value(): Sender
      reads this, Repr
      requires Valid()
    {
      Sender(isn, queued, initialRetransmissionTimeout, stream.Value(), nextSeqno, absAckno, windowSize,
             outstandingSegments, timer, nConsecRetransmissions, firsts)
    }

    constructor (capacity: nat, rto: nat, isn: U32)
      requires capacity < TWO_64
      ensures Valid() && fresh(Repr)
      ensures Value() == NewSender(capacity, rto, isn)
    {
      this.isn := isn;
      segmentsOut, queued, outstandingSegments, firsts := [], [], [], [];
      initialRetransmissionTimeout := rto;
      var s := new ByteStream(capacity);
      stream := s;
      nextSeqno, absAckno, windowSize, nConsecRetransmissions := 0, 0, 1, 0;
      timer := Timer(0, rto);
      Repr := {this, s, s.buffer};
    }

    lemma SentMeansCapacity()
      requires Valid()
      ensures nextSeqno > 0 ==> 0 < stream.maxCapacity
    {
    }

    // The room left in the window, as a uint16_t.
    method RoomLeft() returns (room: U16)
      requires Valid()
      ensures room == Room(Value())
    {
      room := ((windowSize - (nextSeqno - absAckno)) % TWO_64) % TWO_16;
      if windowSize == 0 && nextSeqno - absAckno == 0 {
        room := 1;
      }
    }

    // Build the next segment, taking its payload out of the stream; with no capacity the source divides by zero.
    method BuildSegment() returns (seg: Segment)
      requires Valid() && 0 < stream.maxCapacity
      modifies Repr
      ensures Valid()
      ensures seg == NextSegment(old(Value()))
      ensures Value() == old(Value()).(stream := Pop(old(Value()).stream, PayloadRoom(old(Value()))))
    {
      hide Wrap, Room, ByteStream.Valid, Queues;
      var room: nat := RoomLeft();
      var header := DefaultHeader(Wrap(nextSeqno % TWO_64, isn));
      if nextSeqno == 0 && room > 0 {
        header := header.(syn := true);
        room := room - 1;
      }
      if room > MAX_PAYLOAD_SIZE {
        room := MAX_PAYLOAD_SIZE;
      }
      var payload := stream.Read(room);
      room := if room == MAX_PAYLOAD_SIZE then 1 else room - |payload|;
      if stream.doneWriting && stream.curSize == 0 && room > 0 {
        header := header.(fin := true);
      }
      seg := Segment(header, payload);
    }

    method TransmitSegment(seg: Segment)
      requires Valid() && 0 < stream.maxCapacity
      modifies Repr
      ensures Valid()
      ensures Value() == Transmit(old(Value()), seg)
    {
      segmentsOut := segmentsOut + [seg];
      outstandingSegments := outstandingSegments + [Outgoing(nextSeqno, seg)];
      queued, firsts := queued + [Outgoing(nextSeqno, seg)], firsts + [Outgoing(nextSeqno, seg)];
      nextSeqno := nextSeqno + Length(seg);
      if Expired(timer) {
        timer := Timer(0, initialRetransmissionTimeout);
      }
    }

    // One round of the loop in `fill_window`; not `sent` when it returns.
    method FillOnce() returns (sent: bool)
      requires Valid() && 0 < stream.maxCapacity && nextSeqno <= absAckno + windowSize
      modifies Repr
      ensures Valid()
      ensures sent == CanFill(old(Value()))
      ensures Value() == if sent then FillStep(old(Value())) else old(Value())
    {
      hide NextSegment, ByteStream.Valid, Queues;
      ghost var s := Value();
      if stream.doneWriting && stream.curSize == 0 && nextSeqno >= stream.nBytesWritten + 2 {
        return false;
      }
      var seg := BuildSegment();
      if Length(seg) == 0 {
        NothingTaken(s);
        return false;
      }
      TransmitSegment(seg);
      return true;
    }

    method FillWindow()
      requires Valid() && 0 < stream.maxCapacity
      modifies Repr
      ensures Valid()
      ensures Value() == Fill(old(Value()))
    {
      hide CanFill, FillStep, ByteStream.Valid, Queues;
      while nextSeqno <= absAckno + windowSize
        invariant Valid() && Fill(Value()) == Fill(old(Value()))
        decreases Unsent(Value())
      {
        ghost var s := Value();
        var sent := FillOnce();
        if !sent {
          return;
        }
        P.FillShrinks(s);
      }
      StopsBeyondWindow(Value());
    }

    method AckReceived(ackno: U32, window: U16)
      requires Valid()
      modifies Repr
      ensures Valid()
      ensures Value() == Spec.AckReceived(old(Value()), ackno, window)
    {
      hide Unwrap, Fill, ByteStream.Valid, Queues;
      ghost var s := Value();
      windowSize := window;
      var newAckno := Unwrap(ackno, isn, absAckno % TWO_64);
      if newAckno <= absAckno || newAckno > nextSeqno {
        return;
      }
      absAckno := newAckno;
      while outstandingSegments != [] &&
            outstandingSegments[0].seqno + Length(outstandingSegments[0].segment) <= absAckno
        modifies `outstandingSegments, `timer
        invariant DropAcked(outstandingSegments, absAckno) == DropAcked(s.outstanding, absAckno)
        invariant |outstandingSegments| <= |s.outstanding|
        invariant timer == if |outstandingSegments| < |s.outstanding| then Timer(0, s.rto) else s.timer
        decreases |outstandingSegments|
      {
        timer := Timer(0, initialRetransmissionTimeout);
        outstandingSegments := outstandingSegments[1..];
      }
      nConsecRetransmissions := 0;
      assert Value() == Acknowledge(s.(window := window), newAckno);
      FillWindow();
    }

    method Tick(ms: nat)
      requires Valid()
      modifies Repr
      ensures Valid()
      ensures Value() == Spec.Tick(old(Value()), ms)
    {
      timer := Timer(timer.elapsed + ms, timer.timeout);
      if Expired(timer) && outstandingSegments != [] {
        segmentsOut := segmentsOut + [outstandingSegments[0].segment];
        queued := queued + [outstandingSegments[0]];
        if windowSize > 0 {
          nConsecRetransmissions := nConsecRetransmissions + 1;
          timer := Timer(timer.elapsed, timer.timeout * 2);
        }
        timer := Timer(0, timer.timeout);
      }
    }

    method WriteStream(data: seq<Byte>) returns (n: nat)
      requires Valid()
      modifies Repr
      ensures Valid()
      ensures n == Min(|data|, Remaining(old(Value()).stream))
      ensures Value() == old(Value()).(stream := Write(old(Value()).stream, data))
    {
      hide Queues;
      n := stream.Write(data);
    }

    method EndStream()
      requires Valid()
      modifies Repr
      ensures Valid()
      ensures Value() == old(Value()).(stream := EndInput(old(Value()).stream))
    {
      hide Queues;
      stream.EndInput();
    }

    method FailStream()
      requires Valid()
      modifies Repr
      ensures Valid()
      ensures Value() == old(Value()).(stream := SetError(old(Value()).stream))
    {
      hide Queues;
      stream.SetError();
    }

    method StreamEof() returns (eof: bool)
      requires Valid()
      ensures eof == Eof(Value().stream)
    {
      eof := stream.doneWriting && stream.curSize == 0;
    }

    // The owner takes the front of the queue.
    method PopSegment() returns (seg: Segment)
      requires Valid() && segmentsOut != []
      modifies Repr
      ensures Valid()
      ensures old(queued) != [] && seg == old(queued)[0].segment
      ensures Value() == old(Value()).(segmentsOut := old(queued)[1..])
    {
      seg := segmentsOut[0];
      segmentsOut := segmentsOut[1..];
      queued := queued[1..];
    }

    method SendEmptySegment()
      requires Valid()
      modifies Repr
      ensures Valid()
      ensures Value() == SendEmpty(old(Value()))
    {
      hide Wrap;
      var seg := Segment(DefaultHeader(Wrap(nextSeqno % TWO_64, isn)), []);
      segmentsOut := segmentsOut + [seg];
      queued := queued + [Outgoing(nextSeqno, seg)];
    }
  }

  lemma NothingTaken(s: Sender)
    requires Length(NextSegment(s)) == 0
    ensures Pop(s.stream, PayloadRoom(s)) == s.stream
  {
    hide Wrap, Room;
  }

  lemma StopsBeyondWindow(s: Sender)
    requires s.next > s.acked + s.window
    ensures Fill(s) == s
  {
  }
}
