/** What the sender sends, the connection hands to the network. */
module Handover {
  import opened Common
  import opened WrappingIntegers
  import opened Segments
  import opened ConnectionSpec
  import S = StreamSpec
  import R = ReceiverSpec
  import T = SenderSpec
  import P = SenderProofs

  // Carries the sequence space of the segment: its number, SYN, payload and FIN.
  predicate Carries(k: Packet, o: T.Outgoing) {
    && k.seqno == o.seqno && k.segment.header.seqno == o.segment.header.seqno
    && k.segment.payload == o.segment.payload
    && k.segment.header.syn == o.segment.header.syn && k.segment.header.fin == o.segment.header.fin
  }

  ghost predicate Carried(out: seq<Packet>, o: T.Outgoing) {
    exists k | k in out :: Carries(k, o)
  }

  // Every first transmission is on its way: queued, or handed over.
  ghost predicate Handed(c: Connection) {
    forall o | o in c.sender.firsts :: o in c.sender.segmentsOut || Carried(c.out, o)
  }

  // The sender has forgotten nothing it queued, and has queued whatever it first sent.
  ghost predicate Queues(s: T.Sender, s': T.Sender) {
    && (forall o | o in s.segmentsOut :: o in s'.segmentsOut)
    && (forall o | o in s'.firsts :: o in s.firsts || o in s'.segmentsOut)
  }

  lemma {:induction false} FillQueues(s: T.Sender)
    ensures Queues(s, T.Fill(s)) && s.next <= T.Fill(s).next
    decreases T.Unsent(s)
  {
    hide T.CanFill, T.NextSegment;
    if T.CanFill(s) {
      P.FillShrinks(s);
      FillQueues(T.FillStep(s));
    }
  }

  lemma AckQueues(s: T.Sender, ackno: U32, window: U16)
    ensures Queues(s, T.AckReceived(s, ackno, window)) && s.next <= T.AckReceived(s, ackno, window).next
    ensures s.next == 0 ==> T.AckReceived(s, ackno, window) == s.(window := window)
  {
    hide T.Fill;
    if T.AckAccepted(s, ackno) {
      FillQueues(T.Acknowledge(s.(window := window), Unwrap(ackno, s.isn, s.acked % TWO_64)));
    }
  }

  lemma {:induction false} StampedAllCarried(q: seq<T.Outgoing>, r: R.Receiver, rst: bool, o: T.Outgoing)
    requires o in q
    ensures Carried(StampAll(q, r, rst), o)
  {
    if o == q[0] {
      assert Carries(StampAll(q, r, rst)[0], o);
    } else {
      StampedAllCarried(q[1..], r, rst, o);
      var k :| k in StampAll(q[1..], r, rst) && Carries(k, o);
      assert k in StampAll(q, r, rst);
    }
  }

  lemma CarriedMore(out: seq<Packet>, more: seq<Packet>, o: T.Outgoing)
    requires Carried(out, o) || Carried(more, o)
    ensures Carried(out + more, o)
  {
    var k :| (k in out || k in more) && Carries(k, o);
    assert k in out + more;
  }

  lemma SendingHands(c: Connection, rst: bool)
    requires Handed(c) && c.active
    ensures var c' := SendSegments(c, rst);
            Handed(c') && c'.sender.segmentsOut == [] && c'.active
  {
    hide StampAll, Carried;
    var c' := SendSegments(c, rst);
    var more := StampAll(c.sender.segmentsOut, c.receiver, rst);
    forall o | o in c'.sender.firsts
      ensures Carried(c'.out, o)
    {
      if o in c.sender.segmentsOut {
        StampedAllCarried(c.sender.segmentsOut, c.receiver, rst, o);
      }
      CarriedMore(c.out, more, o);
    }
  }

  lemma MoveHands(c: Connection, s: T.Sender)
    requires Handed(c) && Queues(c.sender, s)
    ensures Handed(c.(sender := s))
  {
    hide Carried;
  }

  lemma ConnectHands(c: Connection)
    requires Handed(c) && c.active
    ensures Handed(Connect(c)) && Connect(c).sender.segmentsOut == []
  {
    hide Handed, SendSegments;
    FillQueues(c.sender);
    MoveHands(c, T.Fill(c.sender));
    SendingHands(FillWindow(c), false);
  }

  lemma StreamHands(c: Connection, stream: S.Stream)
    requires Handed(c)
    ensures Handed(c.(sender := c.sender.(stream := stream)))
  {
    hide Carried;
    MoveHands(c, c.sender.(stream := stream));
  }

  lemma ClosingHands(c: Connection)
    requires Handed(c) && c.active
    ensures Handed(TryClosing(c)) && TryClosing(c).sender.segmentsOut == []
  {
    hide Handed, SendSegments, LingeredEnough, InboundDone, OutboundDone;
    SendingHands(c, false);
    HandedElsewhere(SendSegments(c, false), TryClosing(c));
  }

  // Handing over depends on the sender and the outbound queue alone.
  lemma HandedElsewhere(c: Connection, c': Connection)
    requires c'.sender.firsts == c.sender.firsts && c'.sender.segmentsOut == c.sender.segmentsOut && c'.out == c.out
    ensures Handed(c) <==> Handed(c')
  {
    hide Carried;
  }

  lemma QueuedHands(c: Connection)
    requires Handed(c)
    ensures Handed(EnsureQueued(c))
  {
    hide Handed;
    if c.sender.segmentsOut == [] {
      MoveHands(c, T.SendEmpty(c.sender));
    }
  }

  lemma TickHands(c: Connection, ms: nat)
    requires Handed(c) && c.active && Tick(c, ms).active
    ensures Handed(Tick(c, ms)) && Tick(c, ms).sender.segmentsOut == []
  {
    hide Handed, T.Tick, SendSegments, TryClosing;
    var s := T.Tick(c.sender, ms);
    TickQueues(c.sender, ms);
    MoveHands(c, s);
    var c1 := c.(sender := s, sinceLastSegment := c.sinceLastSegment + ms);
    HandedElsewhere(c.(sender := s), c1);
    if s.retransmissions > MAX_RETX_ATTEMPTS {
      InactiveStays(Reset(SendSegments(EnsureQueued(c1), true)));
    } else {
      SendingHands(c1, false);
      ClosingHands(SendSegments(c1, false));
    }
  }

  lemma InactiveStays(c: Connection)
    requires !c.active
    ensures TryClosing(c) == c
  {
  }

  lemma TickQueues(s: T.Sender, ms: nat)
    ensures Queues(s, T.Tick(s, ms))
  {
  }

  lemma ArrivalHands(c: Connection, seg: Segment)
    requires Handed(c) && c.active && c.sender.segmentsOut == [] && SegmentReceived(c, seg).active
    ensures Handed(SegmentReceived(c, seg)) && SegmentReceived(c, seg).sender.segmentsOut == []
  {
    hide Handed, R.SegmentReceived, T.AckReceived, SendSegments, EnsureQueued, Connect;
    var c1 := Receive(c, seg);
    HandedElsewhere(c, c1);
    if seg.header.rst {
      ResetEnds(c1, seg);
      assert false;
    }
    var c3 := ObeyAck(c1, seg);
    AckQueues(c1.sender, seg.header.ackno, seg.header.win);
    if seg.header.ack {
      MoveHands(c1, T.AckReceived(c1.sender, seg.header.ackno, seg.header.win));
    }
    var c4 := Reply(c3, seg);
    if SynSent(c3) {
      QueuedHands(c3);
      EnsuredActive(c3);
      SendingHands(if Length(seg) > 0 then EnsureQueued(c3) else c3, false);
    }
    var c5 := AnswerSyn(c4, seg);
    if seg.header.syn && !SynSent(c4) {
      ConnectHands(c4);
    }
    HandedElsewhere(c5, TrySwitchingCloseMode(c5));
  }

  lemma EnsuredActive(c: Connection)
    ensures EnsureQueued(c).active == c.active
  {
  }

  lemma ResetEnds(c: Connection, seg: Segment)
    requires seg.header.rst
    ensures !TrySwitchingCloseMode(AnswerSyn(Reply(ObeyAck(ObeyRst(c, seg), seg), seg), seg)).active
  {
    hide T.AckReceived, T.Fill, StampAll;
  }

  lemma ApplyHands(c: Connection, e: Event)
    requires Handed(c) && c.active && c.sender.segmentsOut == [] && Apply(c, e).active
    ensures Handed(Apply(c, e)) && Apply(c, e).sender.segmentsOut == []
  {
    hide Handed, Tick, SegmentReceived, Connect, TryClosing, SendSegments;
    match e
    case Connecting => ConnectHands(c);
    case Writing(data) =>
      if !WriteRefused(c) {
        var stream := S.Write(c.sender.stream, data);
        StreamHands(c, stream);
        ConnectHands(c.(sender := c.sender.(stream := stream)));
        WriteIsConnect(c, data);
      }
    case Ending =>
      var c1 := c.(sender := c.sender.(stream := S.EndInput(c.sender.stream)));
      StreamHands(c, S.EndInput(c.sender.stream));
      FillQueues(c1.sender);
      MoveHands(c1, T.Fill(c1.sender));
      ClosingHands(FillWindow(c1));
    case Arriving(seg) => ArrivalHands(c, seg);
    case Ticking(ms) => TickHands(c, ms);
    case Reading(len) => HandedElsewhere(c, ReadInbound(c, len));
  }

  lemma WriteIsConnect(c: Connection, data: seq<Byte>)
    requires !WriteRefused(c)
    ensures Write(c, data) == Connect(c.(sender := c.sender.(stream := S.Write(c.sender.stream, data))))
  {
    hide T.Fill, SendSegments;
  }

  /**
   In every state of every run in which the connection is active, nothing waits in the sender's queue, and
   every segment the sender has put into sequence space has been handed to the network.
   */
  lemma {:induction false} NothingStaysBehind(sendCapacity: nat, recvCapacity: nat, rto: nat, isn: U32, events: seq<Event>)
    requires After(NewConnection(sendCapacity, recvCapacity, rto, isn), events).active
    ensures var c := After(NewConnection(sendCapacity, recvCapacity, rto, isn), events);
            && c.sender.segmentsOut == []
            && forall o | o in c.sender.firsts :: Carried(c.out, o)
  {
    hide Apply, Carried;
    if events != [] {
      var n := |events| - 1;
      var c := After(NewConnection(sendCapacity, recvCapacity, rto, isn), events[..n]);
      StaysActive(c, events[n]);
      NothingStaysBehind(sendCapacity, recvCapacity, rto, isn, events[..n]);
      ApplyHands(c, events[n]);
    }
  }

  lemma StaysActive(c: Connection, e: Event)
    requires Apply(c, e).active
    ensures c.active
  {
    hide T.Fill, T.AckReceived, T.Tick, StampAll, InboundDone, OutboundDone, R.SegmentReceived;
  }
}
