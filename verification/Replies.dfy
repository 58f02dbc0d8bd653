/** What an endpoint owes its peer: current acknowledgements, an answer to every segment, a close or a reset. */
module Replies {
  import opened Common
  import opened Segments
  import opened ConnectionSpec
  import opened ConnectionProofs
  import S = StreamSpec
  import A = AssemblySpec
  import R = ReceiverSpec
  import T = SenderSpec
  import P = SenderProofs

  // Acknowledges and advertises what the receiver does at this moment.
  predicate Current(r: R.Receiver, k: Packet) {
    && k.segment.header.ack == r.synReceived
    && (r.synReceived ==>
          && k.ackno == R.AckPoint(r)
          && k.segment.header.ackno == R.Ackno(r).value
          && k.segment.header.win == R.WindowSize(r) % TWO_16)
  }

  // All packets from position `n` on are current.
  ghost predicate CurrentFrom(c: Connection, n: nat) {
    n <= |c.out| && forall i | n <= i < |c.out| :: Current(c.receiver, c.out[i])
  }

  // The receivers advertise the same.
  predicate SameAdvert(r: R.Receiver, r': R.Receiver) {
    && r'.synReceived == r.synReceived && r'.isn == r.isn
    && R.AckPoint(r') == R.AckPoint(r) && R.WindowSize(r') == R.WindowSize(r)
  }

  lemma SilentCurrent(c: Connection, c': Connection, n: nat)
    requires CurrentFrom(c, n) && c'.out == c.out && SameAdvert(c.receiver, c'.receiver)
    ensures CurrentFrom(c', n)
  {
  }

  lemma {:induction false} StampedCurrent(q: seq<T.Outgoing>, r: R.Receiver, rst: bool, k: Packet)
    requires k in StampAll(q, r, rst) && forall o | o in q :: !o.segment.header.ack
    ensures Current(r, k) && (rst ==> k.segment.header.rst)
  {
    if k != Stamp(q[0], r, rst) {
      StampedCurrent(q[1..], r, rst, k);
    }
  }

  lemma {:induction false} StampAllLength(q: seq<T.Outgoing>, r: R.Receiver, rst: bool)
    ensures |StampAll(q, r, rst)| == |q|
  {
    if q != [] {
      StampAllLength(q[1..], r, rst);
    }
  }

  lemma QueueHasNoAcks(s: T.Sender)
    requires P.Inv(s)
    ensures forall o | o in s.segmentsOut :: !o.segment.header.ack
  {
    hide P.Tiles, Slice;
  }

  lemma SendCurrent(c: Connection, rst: bool, n: nat)
    requires P.Inv(c.sender) && CurrentFrom(c, n)
    ensures CurrentFrom(SendSegments(c, rst), n)
  {
    hide P.Inv, Current;
    if c.active {
      var more := StampAll(c.sender.segmentsOut, c.receiver, rst);
      QueueHasNoAcks(c.sender);
      forall i | 0 <= i < |more|
        ensures Current(c.receiver, more[i])
      {
        StampedCurrent(c.sender.segmentsOut, c.receiver, rst, more[i]);
      }
    }
  }

  lemma ConnectCurrent(c: Connection, n: nat)
    requires Steady(c) && CurrentFrom(c, n)
    ensures CurrentFrom(Connect(c), n)
  {
    hide P.Inv, P.TimerInv, A.Inv, T.Fill, SendSegments, CurrentFrom;
    SilentCurrent(c, FillWindow(c), n);
    P.FillKeeps(c.sender);
    SendCurrent(FillWindow(c), false, n);
  }

  lemma ClosingCurrent(c: Connection, n: nat)
    requires P.Inv(c.sender) && CurrentFrom(c, n)
    ensures CurrentFrom(TryClosing(c), n)
  {
    hide P.Inv, CurrentFrom, InboundDone, OutboundDone;
    SendCurrent(c, false, n);
    SilentCurrent(SendSegments(c, false), TryClosing(c), n);
  }

  lemma ReplyCurrent(c: Connection, seg: Segment, n: nat)
    requires Steady(c) && CurrentFrom(c, n)
    ensures CurrentFrom(Reply(c, seg), n)
  {
    hide P.Inv, P.TimerInv, A.Inv, CurrentFrom, SendSegments;
    if SynSent(c) {
      var c1 := if Length(seg) > 0 then EnsureQueued(c) else c;
      if c.sender.segmentsOut == [] {
        P.SendEmptyKeeps(c.sender);
      }
      SilentCurrent(c, c1, n);
      SendCurrent(c1, false, n);
    }
  }

  lemma ArrivalCurrent(c: Connection, seg: Segment)
    requires Steady(c)
    ensures CurrentFrom(SegmentReceived(c, seg), |c.out|)
  {
    hide Steady, CurrentFrom, Reply, AnswerSyn, Connect, R.SegmentReceived, T.AckReceived;
    var c1 := Receive(c, seg);
    ReceiveStage(c, seg);
    NothingNew(c1);
    var c2 := ObeyRst(c1, seg);
    ObeyRstStage(c1, seg);
    SilentCurrent(c1, c2, |c.out|);
    var c3 := ObeyAck(c2, seg);
    ObeyAckStage(c2, seg);
    SilentCurrent(c2, c3, |c.out|);
    var c4 := Reply(c3, seg);
    ReplyStage(c3, seg);
    ReplyCurrent(c3, seg, |c.out|);
    var c5 := AnswerSyn(c4, seg);
    AnswerCurrent(c4, seg, |c.out|);
    SilentCurrent(c5, TrySwitchingCloseMode(c5), |c.out|);
  }

  lemma AnswerCurrent(c: Connection, seg: Segment, n: nat)
    requires Steady(c) && CurrentFrom(c, n)
    ensures CurrentFrom(AnswerSyn(c, seg), n)
  {
    hide Steady, CurrentFrom, Connect;
    if seg.header.syn && !SynSent(c) {
      ConnectCurrent(c, n);
    }
  }

  lemma NothingNew(c: Connection)
    ensures CurrentFrom(c, |c.out|)
  {
  }

  lemma TickCurrent(c: Connection, ms: nat)
    requires Steady(c)
    ensures CurrentFrom(Tick(c, ms), |c.out|)
  {
    hide P.Tiles, P.Queued, P.TimerInv, A.Inv, CurrentFrom, T.Tick, SendSegments, TryClosing, EnsureQueued;
    NothingNew(c);
    if c.active {
      var c1 := c.(sender := T.Tick(c.sender, ms), sinceLastSegment := c.sinceLastSegment + ms);
      TickSenderSteady(c, ms);
      SilentCurrent(c, c1, |c.out|);
      GiveUpCurrent(c1, |c.out|);
      GiveUpOrSendStage(c1);
      ClosingCurrent(GiveUpOrSend(c1), |c.out|);
    }
  }

  lemma GiveUpCurrent(c: Connection, n: nat)
    requires Steady(c) && c.active && CurrentFrom(c, n)
    ensures CurrentFrom(GiveUpOrSend(c), n)
  {
    hide P.Tiles, P.Queued, P.TimerInv, A.Inv, CurrentFrom, SendSegments;
    if c.sender.retransmissions > MAX_RETX_ATTEMPTS {
      var c1 := EnsureQueued(c);
      EnsureQueuedStage(c);
      SilentCurrent(c, c1, n);
      SendCurrent(c1, true, n);
      SilentCurrent(SendSegments(c1, true), GiveUpOrSend(c), n);
    } else {
      SendCurrent(c, false, n);
    }
  }

  lemma WriteCurrent(c: Connection, data: seq<Byte>)
    requires Steady(c)
    ensures CurrentFrom(Write(c, data), |c.out|)
  {
    hide P.Inv, P.TimerInv, A.Inv, CurrentFrom, SendSegments, T.Fill;
    NothingNew(c);
    if !WriteRefused(c) {
      var c1 := c.(sender := c.sender.(stream := S.Write(c.sender.stream, data)));
      P.StreamGrows(c.sender, c1.sender.stream);
      P.FillKeeps(c1.sender);
      SilentCurrent(c, FillWindow(c1), |c.out|);
      SendCurrent(FillWindow(c1), false, |c.out|);
    }
  }

  lemma EndCurrent(c: Connection)
    requires Steady(c)
    ensures CurrentFrom(EndInputStream(c), |c.out|)
  {
    hide P.Inv, P.TimerInv, A.Inv, CurrentFrom, TryClosing, T.Fill;
    NothingNew(c);
    var c1 := c.(sender := c.sender.(stream := S.EndInput(c.sender.stream)));
    P.StreamGrows(c.sender, c1.sender.stream);
    P.FillKeeps(c1.sender);
    SilentCurrent(c, FillWindow(c1), |c.out|);
    ClosingCurrent(FillWindow(c1), |c.out|);
  }

  /** Every segment an event sends carries the acknowledgement and the window the receiver then stands at. */
  lemma SegmentsCarryCurrentAck(c: Connection, e: Event, i: nat)
    requires Inv(c) && |c.out| <= i < |Apply(c, e).out|
    ensures Current(Apply(c, e).receiver, Apply(c, e).out[i])
  {
    hide Steady, Current, Connect, Write, EndInputStream, SegmentReceived, Tick;
    match e {
      case Connecting =>
        NothingNew(c);
        ConnectCurrent(c, |c.out|);
      case Writing(data) => WriteCurrent(c, data);
      case Ending => EndCurrent(c);
      case Arriving(seg) => ArrivalCurrent(c, seg);
      case Ticking(ms) => TickCurrent(c, ms);
      case Reading(len) =>
    }
  }

  // An answer to every segment

  lemma FillSendsSyn(s: T.Sender)
    requires P.Inv(s) && s.next == 0
    ensures |T.Fill(s).segmentsOut| > |s.segmentsOut|
  {
    hide P.Tiles, P.Queued, T.Fill;
    P.SyncFirst(s);
    assert T.CanFill(s);
    P.FillStepKeeps(s);
    FillOnceMore(s);
    P.FillKeeps(T.FillStep(s));
  }

  lemma FillOnceMore(s: T.Sender)
    requires T.CanFill(s)
    ensures T.Fill(s) == T.Fill(T.FillStep(s)) && |T.FillStep(s).segmentsOut| == |s.segmentsOut| + 1
  {
    hide T.CanFill, T.NextSegment;
  }

  lemma SendAll(c: Connection, rst: bool)
    requires c.active
    ensures |SendSegments(c, rst).out| == |c.out| + |c.sender.segmentsOut|
  {
    StampAllLength(c.sender.segmentsOut, c.receiver, rst);
  }

  lemma ReplySends(c: Connection, seg: Segment)
    requires c.active && SynSent(c) && Length(seg) > 0
    ensures |Reply(c, seg).out| > |c.out| && SynSent(Reply(c, seg))
  {
    hide StampAll;
    SendAll(EnsureQueued(c), false);
  }

  lemma ConnectSends(c: Connection)
    requires Steady(c) && c.active && !SynSent(c)
    ensures |Connect(c).out| > |c.out|
  {
    hide P.Inv, P.TimerInv, A.Inv, StampAll, T.Fill;
    FillSendsSyn(c.sender);
    SendAll(FillWindow(c), false);
  }

  /** A segment that occupies sequence space is answered, unless it resets us or finds us still unconnected. */
  lemma OccupyingSegmentIsAnswered(c: Connection, seg: Segment)
    requires Inv(c) && c.active && Length(seg) > 0 && !seg.header.rst && (SynSent(c) || seg.header.syn)
    ensures |SegmentReceived(c, seg).out| > |c.out|
  {
    hide Steady, Reply, Connect, SendSegments, R.SegmentReceived, T.AckReceived;
    var c2 := ObeyRst(Receive(c, seg), seg);
    ReceiveStage(c, seg);
    ObeyRstStage(Receive(c, seg), seg);
    var c3 := ObeyAck(c2, seg);
    ObeyAckStage(c2, seg);
    ReplyStage(c3, seg);
    if SynSent(c3) {
      ReplySends(c3, seg);
    } else {
      UnsentReply(c3, seg);
      ConnectSends(c3);
    }
  }

  lemma UnsentReply(c: Connection, seg: Segment)
    requires !SynSent(c)
    ensures Reply(c, seg) == c
  {
  }

  /** A reset from the peer ends the connection with an error on both streams. */
  lemma ResetIsObeyed(c: Connection, seg: Segment)
    requires Inv(c) && seg.header.rst
    ensures !SegmentReceived(c, seg).active && Failed(SegmentReceived(c, seg))
    ensures SegmentReceived(c, seg).receiver.assembly.output.error
  {
    hide Steady, Receive, ObeyAck, Reply, AnswerSyn, TrySwitchingCloseMode, Forward, LingerDecided;
    var c1 := Receive(c, seg);
    ReceiveStage(c, seg);
    var c2 := ObeyRst(c1, seg);
    ObeyRstStage(c1, seg);
    var c3 := ObeyAck(c2, seg);
    ObeyAckStage(c2, seg);
    ReplyStage(c3, seg);
    StageTrans(c2, c3, Reply(c3, seg));
    AnswerSynStage(Reply(c3, seg), seg);
    StageTrans(c2, Reply(c3, seg), AnswerSyn(Reply(c3, seg), seg));
    SwitchStage(AnswerSyn(Reply(c3, seg), seg));
    StageTrans(c2, AnswerSyn(Reply(c3, seg), seg), SegmentReceived(c, seg));
    FailureStays(c2, SegmentReceived(c, seg));
  }

  lemma FailureStays(c: Connection, c': Connection)
    requires Forward(c, c') && Steady(c') && Failed(c) && !c.active
    ensures !c'.active && Failed(c') && c'.receiver.assembly.output.error
  {
  }

  // Closing and giving up

  lemma DrainedDone(c: Connection, ms: nat)
    requires Steady(c) && c.active
    ensures var c1 := c.(sender := T.Tick(c.sender, ms), sinceLastSegment := c.sinceLastSegment + ms);
            var c2 := SendSegments(SendSegments(c1, false), false);
            && (InboundDone(c2) <==> InboundDone(c)) && (OutboundDone(c2) <==> OutboundDone(c))
            && c2.linger == c.linger && c2.rtTimeout == c.rtTimeout && c2.sinceLastSegment == c.sinceLastSegment + ms
            && c2.active
  {
    hide P.Inv, P.TimerInv, A.Inv, StampAll;
  }

  lemma GivingUpIsFinal(c: Connection)
    requires c.active && c.sender.retransmissions > MAX_RETX_ATTEMPTS
    ensures !TryClosing(GiveUpOrSend(c)).active && Failed(TryClosing(GiveUpOrSend(c)))
  {
    hide StampAll, InboundDone, OutboundDone;
  }

  /**
   A tick ends an active connection exactly if the sender has retransmitted too often, or both streams are
   done and the connection has lingered long enough or need not.
   */
  lemma TickEndsExactlyWhen(c: Connection, ms: nat)
    requires Inv(c) && c.active
    ensures !Tick(c, ms).active <==>
            || T.Tick(c.sender, ms).retransmissions > MAX_RETX_ATTEMPTS
            || (&& c.receiver.assembly.output.ended && c.receiver.assembly.held == map[]
                && S.Eof(c.sender.stream) && c.sender.next == |c.sender.stream.written| + 2
                && c.sender.acked == c.sender.next
                && (!c.linger || c.sinceLastSegment + ms >= 10 * c.rtTimeout))
    ensures Failed(Tick(c, ms)) <==> T.Tick(c.sender, ms).retransmissions > MAX_RETX_ATTEMPTS
  {
    hide P.Inv, P.TimerInv, A.Inv, T.Tick, StampAll, InboundDone, OutboundDone, Reset, EnsureQueued;
    var c1 := c.(sender := T.Tick(c.sender, ms), sinceLastSegment := c.sinceLastSegment + ms);
    TickOk(c.sender, ms);
    if T.Tick(c.sender, ms).retransmissions > MAX_RETX_ATTEMPTS {
      GivingUpIsFinal(c1);
    } else {
      DrainedDone(c, ms);
      DoneMeans(c);
    }
  }

  lemma DoneMeans(c: Connection)
    ensures InboundDone(c) <==> c.receiver.assembly.output.ended && c.receiver.assembly.held == map[]
    ensures OutboundDone(c) <==>
            && S.Eof(c.sender.stream) && c.sender.next == |c.sender.stream.written| + 2
            && c.sender.acked == c.sender.next
  {
  }

  /** Giving up tells the peer: something is sent, and everything sent is a reset. */
  lemma GivingUpSendsReset(c: Connection, ms: nat)
    requires Inv(c) && c.active && T.Tick(c.sender, ms).retransmissions > MAX_RETX_ATTEMPTS
    ensures |Tick(c, ms).out| > |c.out|
    ensures forall i | |c.out| <= i < |Tick(c, ms).out| :: Tick(c, ms).out[i].segment.header.rst
  {
    hide P.Tiles, P.Queued, P.TimerInv, A.Inv, T.Tick;
    var c1 := c.(sender := T.Tick(c.sender, ms), sinceLastSegment := c.sinceLastSegment + ms);
    TickSenderSteady(c, ms);
    var c2 := EnsureQueued(c1);
    EnsureQueuedStage(c1);
    var c3 := SendSegments(c2, true);
    SendAll(c2, true);
    QueueHasNoAcks(c2.sender);
    var more := StampAll(c2.sender.segmentsOut, c2.receiver, true);
    forall i | 0 <= i < |more|
      ensures more[i].segment.header.rst
    {
      StampedCurrent(c2.sender.segmentsOut, c2.receiver, true, more[i]);
    }
  }
}
