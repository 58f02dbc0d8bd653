/** Exactly which segments every event sends. */
module Transmissions {
  import opened Common
  import opened WrappingIntegers
  import opened Segments
  import opened ConnectionSpec
  import opened ConnectionProofs
  import opened Handover
  import A = AssemblySpec
  import S = StreamSpec
  import R = ReceiverSpec
  import T = SenderSpec
  import P = SenderProofs
  import Replies

  // Each of these was sent for one of the segments, one for one and in order; all are resets, or none is.
  ghost predicate CarryAll(sent: seq<Packet>, q: seq<T.Outgoing>, rst: bool) {
    && |sent| == |q|
    && forall i | 0 <= i < |q| :: Carries(sent[i], q[i]) && sent[i].segment.header.rst == rst
  }

  // What an event has put into sequence space.
  function Fresh(c: Connection, c': Connection): seq<T.Outgoing>
    requires |c.sender.firsts| <= |c'.sender.firsts|
  {
    c'.sender.firsts[|c.sender.firsts|..]
  }

  // An empty segment at the next sequence number.
  function Bare(s: T.Sender): T.Outgoing {
    T.Outgoing(s.next, Segment(DefaultHeader(Wrap(s.next % TWO_64, s.isn)), []))
  }

  /**
   What an event has to send: whatever it has put into sequence space; an empty segment if an arriving one
   occupies sequence space and there is nothing else to answer with; the oldest outstanding segment if a tick
   runs the timer out; and nothing in answer to a reset.
   */
  function Owed(c: Connection, e: Event): seq<T.Outgoing>
    requires |c.sender.firsts| <= |Apply(c, e).sender.firsts|
  {
    var c' := Apply(c, e);
    match e
    case Arriving(seg) =>
      if seg.header.rst then []
      else if Fresh(c, c') == [] && SynSent(c) && Length(seg) > 0 then [Bare(c'.sender)]
      else Fresh(c, c')
    case Ticking(ms) =>
      if c.sender.outstanding != [] && c.sender.timer.elapsed + ms >= c.sender.timer.timeout
      then [c.sender.outstanding[0]] else []
    case _ => Fresh(c, c')
  }

  lemma {:induction false} StampCarries(q: seq<T.Outgoing>, r: R.Receiver, rst: bool)
    requires forall o | o in q :: !o.segment.header.rst
    ensures CarryAll(StampAll(q, r, rst), q, rst)
  {
    if q != [] {
      StampCarries(q[1..], r, rst);
    }
  }

  lemma QueueIsPlain(s: T.Sender)
    requires P.Inv(s)
    ensures forall o | o in s.segmentsOut :: !o.segment.header.rst
  {
    hide P.Tiles, Slice;
  }

  lemma SendingCarries(c: Connection, rst: bool)
    requires P.Inv(c.sender) && c.active
    ensures var c' := SendSegments(c, rst);
            c.out <= c'.out && CarryAll(c'.out[|c.out|..], c.sender.segmentsOut, rst)
  {
    hide P.Inv, StampAll;
    QueueIsPlain(c.sender);
    StampCarries(c.sender.segmentsOut, c.receiver, rst);
  }

  lemma {:induction false} FillFresh(s: T.Sender)
    ensures s.firsts <= T.Fill(s).firsts
    ensures T.Fill(s).segmentsOut == s.segmentsOut + T.Fill(s).firsts[|s.firsts|..]
    ensures T.Fill(s).isn == s.isn
    decreases T.Unsent(s)
  {
    hide T.CanFill, T.NextSegment;
    if T.CanFill(s) {
      P.FillShrinks(s);
      FillFresh(T.FillStep(s));
    }
  }

  lemma AckFresh(s: T.Sender, ackno: U32, window: U16)
    ensures var s' := T.AckReceived(s, ackno, window);
            && s.firsts <= s'.firsts && s'.isn == s.isn
            && s'.segmentsOut == s.segmentsOut + s'.firsts[|s.firsts|..]
            && (0 < s'.next <==> 0 < s.next)
            && (0 == s.next ==> s'.firsts == s.firsts)
  {
    hide T.Fill;
    if T.AckAccepted(s, ackno) {
      var s1 := T.Acknowledge(s.(window := window), Unwrap(ackno, s.isn, s.acked % TWO_64));
      FillFresh(s1);
      FillQueues(s1);
    }
  }

  lemma ConnectSends(c: Connection)
    requires Steady(c) && c.active && c.sender.segmentsOut == []
    ensures var c' := Connect(c);
            && c.out <= c'.out && c.sender.firsts <= c'.sender.firsts
            && CarryAll(c'.out[|c.out|..], Fresh(c, c'), false) && !Failed(c')
  {
    hide P.Inv, P.TimerInv, A.Inv, T.Fill, CarryAll, SendSegments;
    FillFresh(c.sender);
    FillOk(c.sender);
    SendingCarries(FillWindow(c), false);
    SendingKeepsFirsts(FillWindow(c), false);
    assert T.Fill(c.sender).segmentsOut == Fresh(c, Connect(c));
  }

  lemma SendingKeepsFirsts(c: Connection, rst: bool)
    ensures SendSegments(c, rst).sender == c.sender.(segmentsOut := SendSegments(c, rst).sender.segmentsOut)
    ensures c.active ==> SendSegments(c, rst).active && SendSegments(c, rst).sender.segmentsOut == []
  {
  }

  lemma NothingToSend(c: Connection)
    requires c.sender.segmentsOut == []
    ensures SendSegments(c, false).out == c.out && TryClosing(c).out == c.out
    ensures TryClosing(c).sender == c.sender
  {
    hide InboundDone, OutboundDone;
  }

  lemma ClosingSends(c: Connection)
    ensures TryClosing(c).out == SendSegments(c, false).out
    ensures TryClosing(c).sender == SendSegments(c, false).sender
  {
    hide InboundDone, OutboundDone, StampAll;
  }

  lemma WriteSends(c: Connection, data: seq<Byte>)
    requires Steady(c) && c.active && c.sender.segmentsOut == []
    ensures var c' := Write(c, data);
            && c.out <= c'.out && c.sender.firsts <= c'.sender.firsts
            && CarryAll(c'.out[|c.out|..], Fresh(c, c'), false) && !Failed(c')
  {
    hide P.Inv, P.TimerInv, A.Inv, Connect, CarryAll;
    if WriteRefused(c) {
      NoneCarried(c);
    } else {
      var c1 := c.(sender := c.sender.(stream := S.Write(c.sender.stream, data)));
      P.StreamGrows(c.sender, c1.sender.stream);
      StreamTimer(c.sender, c1.sender.stream);
      SenderStage(c, c1.sender);
      WriteIsConnect(c, data);
      ConnectSends(c1);
    }
  }

  lemma NoneCarried(c: Connection)
    ensures CarryAll(c.out[|c.out|..], c.sender.firsts[|c.sender.firsts|..], false)
  {
  }

  lemma EndingSends(c: Connection)
    requires Steady(c) && c.active && c.sender.segmentsOut == []
    ensures var c' := EndInputStream(c);
            && c.out <= c'.out && c.sender.firsts <= c'.sender.firsts
            && CarryAll(c'.out[|c.out|..], Fresh(c, c'), false) && !Failed(c')
  {
    hide P.Inv, P.TimerInv, A.Inv, T.Fill, CarryAll, SendSegments, TryClosing;
    var c1 := c.(sender := c.sender.(stream := S.EndInput(c.sender.stream)));
    P.StreamGrows(c.sender, c1.sender.stream);
    StreamTimer(c.sender, c1.sender.stream);
    SenderStage(c, c1.sender);
    ConnectSends(c1);
    ClosingSends(FillWindow(c1));
  }

  lemma TickSends(c: Connection, ms: nat)
    requires Inv(c) && c.active && c.sender.segmentsOut == []
    ensures var c' := Tick(c, ms);
            && c.out <= c'.out && c'.sender.firsts == c.sender.firsts
            && CarryAll(c'.out[|c.out|..], Owed(c, Ticking(ms)), Failed(c'))
  {
    hide P.Inv, P.TimerInv, A.Inv, CarryAll, SendSegments, TryClosing;
    var s := T.Tick(c.sender, ms);
    var c1 := c.(sender := s, sinceLastSegment := c.sinceLastSegment + ms);
    TickSenderSteady(c, ms);
    var rst := s.retransmissions > MAX_RETX_ATTEMPTS;
    var c2 := SendSegments(c1, rst);
    SendingCarries(c1, rst);
    SendingKeepsFirsts(c1, rst);
    assert GiveUpOrSend(c1) == if rst then Reset(c2) else c2;
    NothingToSend(GiveUpOrSend(c1));
    ClosingKeepsError(GiveUpOrSend(c1));
    assert s.segmentsOut == Owed(c, Ticking(ms));
  }

  lemma ClosingKeepsError(c: Connection)
    ensures Failed(TryClosing(c)) == Failed(c) && Failed(Reset(c))
  {
    hide InboundDone, OutboundDone, StampAll;
  }

  lemma ReplySends(c: Connection, c': Connection, seg: Segment)
    requires Steady(c') && c'.active && SynSent(c') && c'.out == c.out
    requires c.sender.firsts <= c'.sender.firsts && c'.sender.segmentsOut == Fresh(c, c')
    ensures var r := Reply(c', seg);
            && c.out <= r.out && r.sender.firsts == c'.sender.firsts && r.sender.next == c'.sender.next
            && r.sender.isn == c'.sender.isn && !Failed(r)
            && CarryAll(r.out[|c.out|..],
                        if Fresh(c, c') == [] && Length(seg) > 0 then [Bare(c'.sender)] else Fresh(c, c'), false)
  {
    hide P.Inv, P.TimerInv, A.Inv, CarryAll, SendSegments;
    var c4 := if Length(seg) > 0 then EnsureQueued(c') else c';
    if Length(seg) > 0 {
      EnsureQueuedStage(c');
    }
    SendingCarries(c4, false);
    SendingKeepsFirsts(c4, false);
    assert [] + [Bare(c'.sender)] == [Bare(c'.sender)];
  }

  lemma ArrivalSends(c: Connection, seg: Segment)
    requires Steady(c) && c.active && c.sender.segmentsOut == [] && !seg.header.rst
    ensures var c' := SegmentReceived(c, seg);
            && c.out <= c'.out && c.sender.firsts <= c'.sender.firsts
            && CarryAll(c'.out[|c.out|..], Owed(c, Arriving(seg)), false) && !Failed(c')
  {
    hide P.Inv, P.TimerInv, A.Inv, T.Fill, T.AckReceived, CarryAll, SendSegments, Connect, R.SegmentReceived;
    var c2 := ObeyRst(Receive(c, seg), seg);
    ReceiveStage(c, seg);
    var c3 := ObeyAck(c2, seg);
    ObeyAckStage(c2, seg);
    if seg.header.ack {
      AckFresh(c2.sender, seg.header.ackno, seg.header.win);
    }
    assert c3.sender.segmentsOut == Fresh(c, c3);
    if SynSent(c) {
      ReplySends(c, c3, seg);
    } else if seg.header.syn {
      ConnectSends(c3);
    } else {
      NoneCarried(c);
    }
  }

  lemma ResetSends(c: Connection, seg: Segment)
    requires Steady(c) && seg.header.rst
    ensures SegmentReceived(c, seg).out == c.out
    ensures c.sender.firsts <= SegmentReceived(c, seg).sender.firsts
  {
    hide P.Inv, P.TimerInv, A.Inv, T.Fill, T.AckReceived, R.SegmentReceived;
    var c2 := ObeyRst(Receive(c, seg), seg);
    AckFresh(c2.sender, seg.header.ackno, seg.header.win);
    var c3 := ObeyAck(c2, seg);
    FillFresh(c3.sender);
    FillFresh(T.SendEmpty(c3.sender));
  }

  /** Every event of an active endpoint sends exactly what it owes, as resets exactly if it has given up. */
  lemma WhatIsSent(c: Connection, e: Event)
    requires Inv(c) && c.active && c.sender.segmentsOut == []
    ensures var c' := Apply(c, e);
            && c.out <= c'.out && c.sender.firsts <= c'.sender.firsts
            && CarryAll(c'.out[|c.out|..], Owed(c, e), Failed(c'))
  {
    hide P.Inv, P.TimerInv, A.Inv, Connect, Write, EndInputStream, SegmentReceived, Tick, CarryAll;
    match e
    case Connecting => ConnectSends(c);
    case Writing(data) => WriteSends(c, data);
    case Ending => EndingSends(c);
    case Arriving(seg) =>
      if seg.header.rst {
        ResetSends(c, seg);
        AllOrNone(c, SegmentReceived(c, seg));
      } else {
        ArrivalSends(c, seg);
      }
    case Ticking(ms) => TickSends(c, ms);
    case Reading(len) => NoneCarried(c);
  }

  lemma AllOrNone(c: Connection, c': Connection)
    requires c'.out == c.out
    ensures CarryAll(c'.out[|c.out|..], [], Failed(c'))
  {
  }

  lemma FillOpens(s: T.Sender)
    requires P.Inv(s)
    ensures 0 < T.Fill(s).next
  {
    hide P.Tiles, P.Queued, T.Fill;
    FillQueues(s);
    if s.next == 0 {
      P.SyncFirst(s);
      Replies.FillOnceMore(s);
      FillQueues(T.FillStep(s));
    }
  }

  lemma SendingKeepsNext(c: Connection, rst: bool)
    ensures SendSegments(c, rst).sender.next == TryClosing(c).sender.next == EnsureQueued(c).sender.next == c.sender.next
    ensures Reset(c).sender.next == c.sender.next && TrySwitchingCloseMode(c).sender.next == c.sender.next
  {
    hide StampAll, InboundDone, OutboundDone;
  }

  lemma TickKeepsNext(c: Connection, ms: nat)
    ensures Tick(c, ms).sender.next == c.sender.next
  {
    hide EnsureQueued, SendSegments, Reset, TryClosing;
    var c1 := c.(sender := T.Tick(c.sender, ms), sinceLastSegment := c.sinceLastSegment + ms);
    SendingKeepsNext(c1, false);
    SendingKeepsNext(EnsureQueued(c1), true);
    SendingKeepsNext(SendSegments(EnsureQueued(c1), true), true);
    SendingKeepsNext(GiveUpOrSend(c1), false);
  }

  lemma ArrivalOpensIff(c: Connection, seg: Segment)
    requires Steady(c)
    ensures SynSent(SegmentReceived(c, seg)) <==> SynSent(c) || seg.header.syn
  {
    hide P.Inv, P.TimerInv, A.Inv, T.Fill, T.AckReceived, SendSegments, EnsureQueued, Reset, R.SegmentReceived,
         TrySwitchingCloseMode;
    var c2 := ObeyRst(Receive(c, seg), seg);
    SendingKeepsNext(Receive(c, seg), false);
    ReceiveStage(c, seg);
    ObeyRstStage(Receive(c, seg), seg);
    if seg.header.ack {
      AckFresh(c2.sender, seg.header.ackno, seg.header.win);
    }
    var c3 := ObeyAck(c2, seg);
    ObeyAckStage(c2, seg);
    SendingKeepsNext(c3, false);
    SendingKeepsNext(EnsureQueued(c3), false);
    var c4 := Reply(c3, seg);
    ReplyStage(c3, seg);
    FillOpens(c4.sender);
    SendingKeepsNext(FillWindow(c4), false);
    SendingKeepsNext(AnswerSyn(c4, seg), false);
  }

  /** An endpoint has sent its SYN exactly from when it connects, ends its stream, or hears its peer's SYN. */
  lemma OpensIff(c: Connection, e: Event)
    requires Inv(c)
    ensures SynSent(Apply(c, e)) <==>
            SynSent(c) || e.Connecting? || e.Ending? || (e.Arriving? && e.segment.header.syn)
  {
    hide P.Inv, P.TimerInv, A.Inv, T.Fill, SendSegments, TryClosing, SegmentReceived, Tick;
    match e
    case Connecting =>
      FillOpens(c.sender);
      SendingKeepsNext(FillWindow(c), false);
    case Writing(data) =>
      if !WriteRefused(c) {
        var c1 := c.(sender := c.sender.(stream := S.Write(c.sender.stream, data)));
        FillQueues(c1.sender);
        SendingKeepsNext(FillWindow(c1), false);
      }
    case Ending =>
      var c1 := c.(sender := c.sender.(stream := S.EndInput(c.sender.stream)));
      P.StreamGrows(c.sender, c1.sender.stream);
      FillOpens(c1.sender);
      SendingKeepsNext(FillWindow(c1), false);
    case Arriving(seg) => ArrivalOpensIff(c, seg);
    case Ticking(ms) => TickKeepsNext(c, ms);
    case Reading(len) =>
  }
}
