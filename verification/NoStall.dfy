/** A sender with something left to send always has a timer running. */
module NoStall {
  import opened Common
  import opened WrappingIntegers
  import opened Segments
  import opened ConnectionSpec
  import opened ConnectionProofs
  import S = StreamSpec
  import R = ReceiverSpec
  import T = SenderSpec
  import P = SenderProofs

  // Some byte, or a FIN, is still to be sent for the first time.
  predicate HasUnsent(s: T.Sender) {
    S.Buffered(s.stream) != [] || (s.stream.ended && !T.FinSent(s))
  }

  /** Once SYN is sent, nothing outstanding means nothing unsent. */
  predicate Served(s: T.Sender) {
    s.next > 0 && s.outstanding == [] ==> !HasUnsent(s)
  }

  lemma FillServes(s: T.Sender)
    requires P.Inv(s)
    ensures Served(T.Fill(s))
  {
    hide T.Fill, T.FinSent, P.Tiles, P.Queued;
    P.FillKeeps(s);
    P.FillExhausts(s);
  }

  lemma AckServes(s: T.Sender, ackno: U32, window: U16)
    requires P.Inv(s) && Served(s)
    ensures Served(T.AckReceived(s, ackno, window))
  {
    hide P.Inv, T.Fill, T.Acknowledge, Unwrap;
    if T.AckAccepted(s, ackno) {
      var ack := Unwrap(ackno, s.isn, s.acked % TWO_64);
      P.WindowFree(s, window);
      P.AcknowledgeKeeps(s.(window := window), ack);
      FillServes(T.Acknowledge(s.(window := window), ack));
    }
  }

  lemma TickServes(s: T.Sender, ms: nat)
    requires Served(s)
    ensures Served(T.Tick(s, ms))
  {
  }

  // Sending, closing and resetting leave the sender's numbers and bytes alone.
  lemma QueueServes(c: Connection, rst: bool)
    requires Served(c.sender)
    ensures Served(SendSegments(c, rst).sender) && Served(EnsureQueued(c).sender) && Served(Reset(c).sender)
    ensures Served(TryClosing(c).sender) && Served(TrySwitchingCloseMode(c).sender)
  {
    hide StampAll, InboundDone, OutboundDone, LingeredEnough;
  }

  lemma FillWindowServes(c: Connection)
    requires Steady(c)
    ensures Served(SendSegments(FillWindow(c), false).sender) && Served(TryClosing(FillWindow(c)).sender)
  {
    hide P.Inv, T.Fill, Served, SendSegments, TryClosing;
    FillServes(c.sender);
    QueueServes(FillWindow(c), false);
  }

  lemma StreamServes(c: Connection, stream: S.Stream)
    requires Steady(c) && stream.popped == c.sender.stream.popped && stream.error == c.sender.stream.error
    requires c.sender.stream.written <= stream.written
    requires c.sender.stream.ended ==> stream.ended && stream.written == c.sender.stream.written
    ensures var c1 := c.(sender := c.sender.(stream := stream));
            Served(SendSegments(FillWindow(c1), false).sender) && Served(TryClosing(FillWindow(c1)).sender)
  {
    hide P.Inv, P.TimerInv, Served, SendSegments, TryClosing, FillWindow;
    P.StreamGrows(c.sender, stream);
    StreamTimer(c.sender, stream);
    SenderStage(c, c.sender.(stream := stream));
    FillWindowServes(c.(sender := c.sender.(stream := stream)));
  }

  lemma TickingServes(c: Connection, ms: nat)
    requires Served(c.sender)
    ensures Served(Tick(c, ms).sender)
  {
    hide Served, T.Tick, SendSegments, EnsureQueued, Reset, TryClosing;
    TickServes(c.sender, ms);
    var c1 := c.(sender := T.Tick(c.sender, ms), sinceLastSegment := c.sinceLastSegment + ms);
    QueueServes(c1, false);
    QueueServes(EnsureQueued(c1), true);
    QueueServes(SendSegments(EnsureQueued(c1), true), true);
    QueueServes(GiveUpOrSend(c1), false);
  }

  lemma ArrivalServes(c: Connection, seg: Segment)
    requires Steady(c) && Served(c.sender)
    ensures Served(SegmentReceived(c, seg).sender)
  {
    hide Steady, Served, T.AckReceived, SendSegments, EnsureQueued, Reset, FillWindow, TrySwitchingCloseMode,
         R.SegmentReceived;
    var c1 := Receive(c, seg);
    ReceiveStage(c, seg);
    QueueServes(c1, false);
    var c2 := ObeyRst(c1, seg);
    ObeyRstStage(c1, seg);
    SteadySender(c2);
    if seg.header.ack {
      AckServes(c2.sender, seg.header.ackno, seg.header.win);
    }
    var c3 := ObeyAck(c2, seg);
    ObeyAckStage(c2, seg);
    QueueServes(c3, false);
    QueueServes(EnsureQueued(c3), false);
    var c4 := Reply(c3, seg);
    ReplyStage(c3, seg);
    FillWindowServes(c4);
    QueueServes(AnswerSyn(c4, seg), false);
  }

  lemma ApplyServes(c: Connection, e: Event)
    requires Steady(c) && Served(c.sender)
    ensures Served(Apply(c, e).sender)
  {
    hide Steady, Served, SendSegments, TryClosing, FillWindow, SegmentReceived, Tick;
    match e {
      case Connecting => FillWindowServes(c);
      case Writing(data) =>
        if !WriteRefused(c) {
          StreamServes(c, S.Write(c.sender.stream, data));
        }
      case Ending => StreamServes(c, S.EndInput(c.sender.stream));
      case Arriving(seg) => ArrivalServes(c, seg);
      case Ticking(ms) => TickingServes(c, ms);
      case Reading(len) =>
    }
  }

  lemma {:induction false} RunServes(c: Connection, events: seq<Event>)
    requires Inv(c) && Served(c.sender)
    ensures Inv(After(c, events)) && Served(After(c, events).sender)
  {
    hide Steady, Served, Apply, Forward;
    RunKeeps(c, events);
    if events != [] {
      var before := events[..|events| - 1];
      RunServes(c, before);
      ApplyServes(After(c, before), events[|events| - 1]);
    }
  }

  /**
   In every state of every run of a connection with a positive timeout, whoever has sent SYN and has anything
   left to send or to be acknowledged has segments outstanding and a timer that has not run out: the
   connection never waits for the peer alone.
   */
  lemma NothingStalls(sendCapacity: nat, recvCapacity: nat, rto: nat, isn: U32, events: seq<Event>)
    requires 0 < rto
    ensures var s := After(NewConnection(sendCapacity, recvCapacity, rto, isn), events).sender;
            s.next > 0 && (HasUnsent(s) || s.acked < s.next) ==> s.outstanding != [] && !T.Expired(s.timer)
  {
    hide After, Served, Steady;
    var c := NewConnection(sendCapacity, recvCapacity, rto, isn);
    NewInv(sendCapacity, recvCapacity, rto, isn);
    NewServed(sendCapacity, rto, isn);
    RunServes(c, events);
    RunKeeps(c, events);
    Running(c, After(c, events));
  }

  lemma NewServed(capacity: nat, rto: nat, isn: U32)
    ensures Served(T.NewSender(capacity, rto, isn))
  {
  }

  lemma Running(c: Connection, c': Connection)
    requires Steady(c') && Served(c'.sender) && P.Progress(c.sender, c'.sender) && 0 < c.sender.rto
    ensures var s := c'.sender;
            s.next > 0 && (HasUnsent(s) || s.acked < s.next) ==> s.outstanding != [] && !T.Expired(s.timer)
  {
    hide P.Tiles, P.Queued, P.BackedOff;
  }
}
