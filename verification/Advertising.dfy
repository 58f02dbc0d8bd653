/** When the 16-bit window field shows the window that the receiver has. */
module Advertising {
  import opened Common
  import opened Segments
  import opened ConnectionSpec
  import opened ConnectionProofs
  import opened Replies
  import S = StreamSpec
  import A = AssemblySpec
  import R = ReceiverSpec
  import T = SenderSpec

  function Capacity(c: Connection): nat {
    c.receiver.assembly.output.capacity
  }

  // Every acknowledgement that event `e` sends shows the window as it is after the event.
  ghost predicate ShowsWindow(c: Connection, e: Event) {
    forall i | |c.out| <= i < |Apply(c, e).out| && Apply(c, e).out[i].segment.header.ack ::
      Apply(c, e).out[i].segment.header.win == R.WindowSize(Apply(c, e).receiver)
  }

  lemma ReceiveKeepsCapacity(r: R.Receiver, seg: Segment)
    ensures R.SegmentReceived(r, seg).assembly.output.capacity == r.assembly.output.capacity
  {
    hide R.StreamIndex, A.Accepted, A.Run, A.Merged;
  }

  lemma QueueKeepsCapacity(c: Connection, rst: bool)
    ensures Capacity(SendSegments(c, rst)) == Capacity(TryClosing(c)) == Capacity(Reset(c)) == Capacity(c)
    ensures Capacity(FillWindow(c)) == Capacity(EnsureQueued(c)) == Capacity(TrySwitchingCloseMode(c)) == Capacity(c)
  {
    hide StampAll, InboundDone, OutboundDone, LingeredEnough, T.Fill;
  }

  lemma TickKeepsCapacity(c: Connection, ms: nat)
    ensures Capacity(Tick(c, ms)) == Capacity(c)
  {
    hide T.Tick, SendSegments, TryClosing, Reset, EnsureQueued;
    var c1 := c.(sender := T.Tick(c.sender, ms), sinceLastSegment := c.sinceLastSegment + ms);
    QueueKeepsCapacity(c1, false);
    QueueKeepsCapacity(EnsureQueued(c1), true);
    QueueKeepsCapacity(SendSegments(EnsureQueued(c1), true), true);
    QueueKeepsCapacity(GiveUpOrSend(c1), false);
  }

  lemma FlagsKeepCapacity(c: Connection, seg: Segment)
    ensures Capacity(ObeyAck(ObeyRst(Receive(c, seg), seg), seg)) == Capacity(c)
  {
    hide R.SegmentReceived, T.AckReceived;
    ReceiveKeepsCapacity(c.receiver, seg);
  }

  lemma ReplyKeepsCapacity(c: Connection, seg: Segment)
    ensures Capacity(Reply(c, seg)) == Capacity(c)
  {
    hide SendSegments, EnsureQueued, Capacity;
    QueueKeepsCapacity(c, false);
    QueueKeepsCapacity(EnsureQueued(c), false);
  }

  lemma AnswerKeepsCapacity(c: Connection, seg: Segment)
    ensures Capacity(AnswerSyn(c, seg)) == Capacity(c)
  {
    hide SendSegments, FillWindow, Capacity;
    QueueKeepsCapacity(c, false);
    QueueKeepsCapacity(FillWindow(c), false);
  }

  lemma ArrivalKeepsCapacity(c: Connection, seg: Segment)
    ensures Capacity(SegmentReceived(c, seg)) == Capacity(c)
  {
    hide Receive, ObeyRst, ObeyAck, Reply, AnswerSyn, TrySwitchingCloseMode, Capacity;
    FlagsKeepCapacity(c, seg);
    var c3 := ObeyAck(ObeyRst(Receive(c, seg), seg), seg);
    ReplyKeepsCapacity(c3, seg);
    AnswerKeepsCapacity(Reply(c3, seg), seg);
    QueueKeepsCapacity(AnswerSyn(Reply(c3, seg), seg), false);
  }

  lemma ApplyKeepsCapacity(c: Connection, e: Event)
    ensures Capacity(Apply(c, e)) == Capacity(c)
  {
    hide SendSegments, TryClosing, FillWindow, SegmentReceived, Tick;
    match e {
      case Connecting =>
        QueueKeepsCapacity(c, false);
        QueueKeepsCapacity(FillWindow(c), false);
      case Writing(data) =>
        var c1 := c.(sender := c.sender.(stream := S.Write(c.sender.stream, data)));
        QueueKeepsCapacity(c1, false);
        QueueKeepsCapacity(FillWindow(c1), false);
      case Ending =>
        var c1 := c.(sender := c.sender.(stream := S.EndInput(c.sender.stream)));
        QueueKeepsCapacity(c1, false);
        QueueKeepsCapacity(FillWindow(c1), false);
      case Arriving(seg) => ArrivalKeepsCapacity(c, seg);
      case Ticking(ms) => TickKeepsCapacity(c, ms);
      case Reading(len) =>
    }
  }

  lemma {:induction false} RunKeepsCapacity(c: Connection, events: seq<Event>)
    ensures Capacity(After(c, events)) == Capacity(c)
  {
    hide Apply;
    if events != [] {
      var before := events[..|events| - 1];
      RunKeepsCapacity(c, before);
      ApplyKeepsCapacity(After(c, before), events[|events| - 1]);
    }
  }

  lemma SmallWindowIsShown(c: Connection, e: Event)
    requires Inv(c) && Capacity(c) < TWO_16
    ensures ShowsWindow(c, e)
  {
    hide Inv, Apply;
    ApplyKeepsCapacity(c, e);
    forall i | |c.out| <= i < |Apply(c, e).out| && Apply(c, e).out[i].segment.header.ack
      ensures Apply(c, e).out[i].segment.header.win == R.WindowSize(Apply(c, e).receiver)
    {
      SegmentsCarryCurrentAck(c, e, i);
    }
  }

  function Syn(seqno: U32): Segment {
    Segment(DefaultHeader(seqno).(syn := true), [])
  }

  lemma EmptyPushKeeps(capacity: nat, index: U64)
    ensures A.Push(A.NewAssembly(capacity), [], index, false) == A.NewAssembly(capacity)
  {
    var r := A.NewAssembly(capacity);
    assert A.Accepted(r, [], index) == map[];
    assert A.From(map[], 0) == map[];
  }

  /** The answer to the SYN that opens a connection acknowledges it and shows the capacity cut to 16 bits. */
  lemma SynIsAnswered(sendCapacity: nat, recvCapacity: nat, rto: nat, isn: U32, seqno: U32)
    ensures var c := Apply(NewConnection(sendCapacity, recvCapacity, rto, isn), Arriving(Syn(seqno)));
            && c.out != [] && c.out[0].segment.header.ack
            && c.out[0].segment.header.win == recvCapacity % TWO_16
            && R.WindowSize(c.receiver) == recvCapacity
  {
    hide Reply, Connect, ObeyAck, T.Fill, R.StreamIndex, Inv;
    var c, e := NewConnection(sendCapacity, recvCapacity, rto, isn), Arriving(Syn(seqno));
    NewInv(sendCapacity, recvCapacity, rto, isn);
    OccupyingSegmentIsAnswered(c, e.segment);
    SegmentsCarryCurrentAck(c, e, 0);
    ArrivalReceiver(c, e.segment);
    var r1 := R.NoteSyn(c.receiver, e.segment.header);
    EmptyPushKeeps(recvCapacity, R.StreamIndex(r1, e.segment.header));
  }

  lemma ArrivalReceiver(c: Connection, seg: Segment)
    requires !seg.header.rst
    ensures SegmentReceived(c, seg).receiver == R.SegmentReceived(c.receiver, seg)
  {
    hide T.Fill, T.AckReceived, T.SendEmpty, StampAll, R.SegmentReceived;
  }

  /**
   In all runs of a connection every acknowledgement shows the window the receiver has, exactly if the
   receive capacity it was set up with is below 65536.
   */
  lemma WindowFieldExactIff(sendCapacity: nat, recvCapacity: nat, rto: nat, isn: U32)
    ensures (forall events: seq<Event>, e: Event ::
               ShowsWindow(After(NewConnection(sendCapacity, recvCapacity, rto, isn), events), e)) <==>
            recvCapacity < TWO_16
  {
    hide ShowsWindow, After, Inv, Capacity;
    var c := NewConnection(sendCapacity, recvCapacity, rto, isn);
    NewInv(sendCapacity, recvCapacity, rto, isn);
    if recvCapacity < TWO_16 {
      forall events: seq<Event>, e: Event
        ensures ShowsWindow(After(c, events), e)
      {
        RunKeeps(c, events);
        RunKeepsCapacity(c, events);
        assert Capacity(c) == recvCapacity by {
          NewCapacity(sendCapacity, recvCapacity, rto, isn);
        }
        SmallWindowIsShown(After(c, events), e);
      }
    } else {
      LargeWindowIsCut(sendCapacity, recvCapacity, rto, isn);
      AfterNothing(c);
      assert !ShowsWindow(After(c, []), Arriving(Syn(0)));
    }
  }

  lemma AfterNothing(c: Connection)
    ensures After(c, []) == c
  {
  }

  lemma NewCapacity(sendCapacity: nat, recvCapacity: nat, rto: nat, isn: U32)
    ensures Capacity(NewConnection(sendCapacity, recvCapacity, rto, isn)) == recvCapacity
  {
  }

  lemma LargeWindowIsCut(sendCapacity: nat, recvCapacity: nat, rto: nat, isn: U32)
    requires recvCapacity >= TWO_16
    ensures !ShowsWindow(NewConnection(sendCapacity, recvCapacity, rto, isn), Arriving(Syn(0)))
  {
    hide Apply;
    SynIsAnswered(sendCapacity, recvCapacity, rto, isn, 0);
  }

  /** Concretely: with a receive capacity of 65536 the first acknowledgement offers no window at all. */
  lemma FullWindowShowsAsZero(sendCapacity: nat, rto: nat, isn: U32)
    ensures var c := Apply(NewConnection(sendCapacity, 65536, rto, isn), Arriving(Syn(0)));
            && c.out != [] && c.out[0].segment.header.ack && c.out[0].segment.header.win == 0
            && R.WindowSize(c.receiver) == 65536
  {
    hide Apply;
    SynIsAnswered(sendCapacity, 65536, rto, isn, 0);
  }
}
