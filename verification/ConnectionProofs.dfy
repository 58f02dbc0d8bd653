/** What an endpoint keeps over every run, whatever segments arrive. */
module ConnectionProofs {
  import opened Common
  import opened Segments
  import opened ConnectionSpec
  import S = StreamSpec
  import A = AssemblySpec
  import R = ReceiverSpec
  import T = SenderSpec
  import P = SenderProofs

  ghost predicate SenderOk(s: T.Sender) {
    P.Inv(s) && (0 < s.rto ==> P.TimerInv(s))
  }

  predicate Failed(c: Connection) {
    c.sender.stream.error
  }

  predicate InboundEnded(c: Connection) {
    c.receiver.assembly.output.ended
  }

  /**
   Both streams fail together and only by a reset, which ends the connection; an inactive connection has
   failed or has finished both directions; lingering is given up only once the inbound stream has ended.
   */
  ghost predicate Steady(c: Connection) {
    && SenderOk(c.sender) && A.Inv(c.receiver.assembly)
    && c.sender.rto == c.rtTimeout
    && c.receiver.assembly.output.error == Failed(c)
    && (Failed(c) ==> !c.active)
    && (!c.active ==> Failed(c) || (InboundDone(c) && OutboundDone(c)))
    && (!c.linger ==> InboundEnded(c))
    && (InboundEnded(c) ==> c.receiver.synReceived)
  }

  lemma SteadySender(c: Connection)
    requires Steady(c)
    ensures P.Inv(c.sender)
  {
  }

  /** If the peer's stream ends before ours is used up, we do not linger. */
  predicate LingerDecided(c: Connection) {
    InboundEnded(c) ==> !c.linger || S.Eof(c.sender.stream)
  }

  ghost predicate Inv(c: Connection) {
    && Steady(c)
    && LingerDecided(c)
    && (c.active ==> c.sender.retransmissions <= MAX_RETX_ATTEMPTS)
  }

  lemma SenderInv(c: Connection)
    requires Inv(c)
    ensures P.Inv(c.sender)
  {
  }

  predicate ReceiverForward(r: R.Receiver, r': R.Receiver) {
    && (r.synReceived ==> r'.synReceived)
    && R.AckPoint(r) <= R.AckPoint(r')
    && R.AckPoint(r) + R.WindowSize(r) <= R.AckPoint(r') + R.WindowSize(r')
    && (r.assembly.output.ended ==> r'.assembly.output.ended)
    && (r.assembly.output.error ==> r'.assembly.output.error)
  }

  /** Endpoints only move forward; an inactive one stays inactive and sends nothing. */
  ghost predicate Forward(c: Connection, c': Connection) {
    && P.Progress(c.sender, c'.sender)
    && ReceiverForward(c.receiver, c'.receiver)
    && c.out <= c'.out
    && (!c.active ==> !c'.active && c'.out == c.out)
    && (!c.linger ==> !c'.linger)
  }

  // One stage of an operation: it keeps the steady invariant, moves forward, and adds no retransmission.
  ghost predicate Stage(c: Connection, c': Connection) {
    && Steady(c')
    && Forward(c, c')
    && c'.sender.retransmissions <= c.sender.retransmissions
    && c'.rtTimeout == c.rtTimeout
  }

  lemma StageTrans(a: Connection, b: Connection, c: Connection)
    requires Stage(a, b) && Stage(b, c)
    ensures Stage(a, c)
  {
    hide Steady;
  }

  /** A finished outbound direction stays finished. */
  lemma OutboundStaysDone(s: T.Sender, s': T.Sender)
    requires P.Inv(s) && P.Inv(s') && P.Progress(s, s')
    requires S.Eof(s.stream) && s.next == |s.stream.written| + 2 && T.InFlight(s) == 0
    ensures S.Eof(s'.stream) && s'.next == |s'.stream.written| + 2 && T.InFlight(s') == 0
  {
    hide P.Tiles, P.Queued;
  }

  // Any move of the sender alone.
  lemma SenderStage(c: Connection, s: T.Sender)
    requires Steady(c) && SenderOk(s) && P.Progress(c.sender, s)
    requires s.stream.error == c.sender.stream.error && s.retransmissions <= c.sender.retransmissions
    ensures Stage(c, c.(sender := s))
  {
    hide P.Inv, P.TimerInv, A.Inv;
    if OutboundDone(c) {
      OutboundStaysDone(c.sender, s);
    }
  }

  lemma ReceiverStage(c: Connection, r: R.Receiver)
    requires Steady(c) && A.Inv(r.assembly) && ReceiverForward(c.receiver, r)
    requires r.assembly.output.error == c.receiver.assembly.output.error
    requires r.assembly.output.ended ==> r.synReceived
    requires InboundEnded(c) ==> r.assembly.held == c.receiver.assembly.held
    ensures Stage(c, c.(receiver := r))
  {
    hide P.Inv, P.TimerInv, A.Inv;
  }

  lemma DrainedOk(s: T.Sender)
    requires SenderOk(s)
    ensures SenderOk(s.(segmentsOut := []))
  {
  }

  lemma SendSegmentsStage(c: Connection, rst: bool)
    requires Steady(c)
    ensures Stage(c, SendSegments(c, rst)) && (c.active ==> SendSegments(c, rst).active)
  {
    hide P.Inv, P.TimerInv, A.Inv;
    DrainedOk(c.sender);
  }

  lemma ErrorOk(s: T.Sender)
    requires SenderOk(s)
    ensures SenderOk(s.(stream := S.SetError(s.stream)))
  {
    P.StreamGrows(s, S.SetError(s.stream));
  }

  lemma ResetStage(c: Connection)
    requires Steady(c)
    ensures Stage(c, Reset(c)) && !Reset(c).active
  {
    hide P.Inv, P.TimerInv;
    ErrorOk(c.sender);
  }

  lemma FillOk(s: T.Sender)
    requires SenderOk(s)
    ensures SenderOk(T.Fill(s)) && P.Progress(s, T.Fill(s))
    ensures T.Fill(s).stream.error == s.stream.error && T.Fill(s).retransmissions == s.retransmissions
  {
    hide P.Inv, P.TimerInv, T.Fill;
    P.FillKeeps(s);
    if 0 < s.rto {
      P.FillKeepsTimer(s);
    }
  }

  lemma FillWindowStage(c: Connection)
    requires Steady(c)
    ensures Stage(c, FillWindow(c))
  {
    hide P.Inv, P.TimerInv, A.Inv, T.Fill;
    FillOk(c.sender);
    SenderStage(c, T.Fill(c.sender));
  }

  lemma ConnectStage(c: Connection)
    requires Steady(c)
    ensures Stage(c, Connect(c))
  {
    hide Steady, FillWindow, SendSegments;
    FillWindowStage(c);
    SendSegmentsStage(FillWindow(c), false);
    StageTrans(c, FillWindow(c), Connect(c));
  }

  lemma EnsureQueuedStage(c: Connection)
    requires Steady(c) && SynSent(c)
    ensures Stage(c, EnsureQueued(c)) && EnsureQueued(c).active == c.active
  {
    hide P.Inv, P.TimerInv, A.Inv;
    if c.sender.segmentsOut == [] {
      P.SendEmptyKeeps(c.sender);
      if 0 < c.sender.rto {
        EmptyTimer(c.sender);
      }
      SenderStage(c, T.SendEmpty(c.sender));
    }
  }

  lemma EmptyTimer(s: T.Sender)
    requires P.TimerInv(s)
    ensures P.TimerInv(T.SendEmpty(s))
  {
    hide P.BackedOff;
  }

  lemma TryClosingStage(c: Connection)
    requires Steady(c)
    ensures Stage(c, TryClosing(c))
  {
    hide P.Inv, P.TimerInv, A.Inv, SendSegments;
    SendSegmentsStage(c, false);
  }

  lemma ReceiveStage(c: Connection, seg: Segment)
    requires Steady(c)
    ensures Stage(c, Receive(c, seg)) && Receive(c, seg).sender == c.sender
  {
    hide P.Inv, P.TimerInv, A.Inv, A.Push;
    var r := R.SegmentReceived(c.receiver, seg);
    R.AckPointGrows(c.receiver, seg);
    R.RightEdge(c.receiver, seg, 0);
    ReceivedAssembly(c.receiver, seg);
    ReceiverStage(c, r);
    assert Steady(c.(receiver := r));
  }

  lemma ReceivedAssembly(r: R.Receiver, seg: Segment)
    requires A.Inv(r.assembly) && (r.assembly.output.ended ==> r.synReceived)
    ensures var a := R.SegmentReceived(r, seg).assembly;
            && A.Inv(a) && a.output.error == r.assembly.output.error && (r.assembly.output.ended ==> a == r.assembly)
            && (a.output.ended ==> R.SegmentReceived(r, seg).synReceived)
  {
    hide A.Inv, R.StreamIndex;
    var r1 := R.NoteSyn(r, seg.header);
    if r1.synReceived {
      A.PushKeepsInv(r.assembly, seg.payload, R.StreamIndex(r1, seg.header), seg.header.fin);
    }
  }

  lemma ObeyRstStage(c: Connection, seg: Segment)
    requires Steady(c)
    ensures Stage(c, ObeyRst(c, seg))
  {
    hide Steady, Reset;
    if seg.header.rst {
      ResetStage(c);
    }
  }

  lemma AckOk(s: T.Sender, ackno: U32, window: U16)
    requires SenderOk(s)
    ensures SenderOk(T.AckReceived(s, ackno, window))
  {
    hide P.Inv, P.TimerInv, T.AckReceived;
    P.AckReceivedKeeps(s, ackno, window);
    P.AckReceivedMoves(s, ackno, window);
    if 0 < s.rto {
      P.AckReceivedKeepsTimer(s, ackno, window);
    }
  }

  lemma ObeyAckStage(c: Connection, seg: Segment)
    requires Steady(c)
    ensures Stage(c, ObeyAck(c, seg))
  {
    hide P.Inv, P.TimerInv, A.Inv, T.AckReceived;
    if seg.header.ack {
      AckOk(c.sender, seg.header.ackno, seg.header.win);
      P.AckReceivedMoves(c.sender, seg.header.ackno, seg.header.win);
      SenderStage(c, T.AckReceived(c.sender, seg.header.ackno, seg.header.win));
    }
  }

  lemma ReplyStage(c: Connection, seg: Segment)
    requires Steady(c)
    ensures Stage(c, Reply(c, seg))
  {
    hide Steady, EnsureQueued, SendSegments;
    if SynSent(c) {
      var c1 := if Length(seg) > 0 then EnsureQueued(c) else c;
      if Length(seg) > 0 {
        EnsureQueuedStage(c);
      }
      SendSegmentsStage(c1, false);
      StageTrans(c, c1, SendSegments(c1, false));
    }
  }

  lemma AnswerSynStage(c: Connection, seg: Segment)
    requires Steady(c)
    ensures Stage(c, AnswerSyn(c, seg))
  {
    hide Steady, Connect;
    if seg.header.syn && !SynSent(c) {
      ConnectStage(c);
    }
  }

  lemma SwitchStage(c: Connection)
    requires Steady(c)
    ensures Stage(c, TrySwitchingCloseMode(c)) && LingerDecided(TrySwitchingCloseMode(c))
    ensures TrySwitchingCloseMode(c).active == c.active
  {
    hide P.Inv, P.TimerInv, A.Inv;
  }

  lemma SegmentReceivedStage(c: Connection, seg: Segment)
    requires Steady(c)
    ensures Stage(c, SegmentReceived(c, seg)) && LingerDecided(SegmentReceived(c, seg))
  {
    hide Steady, Receive, ObeyRst, ObeyAck, Reply, AnswerSyn, TrySwitchingCloseMode, LingerDecided;
    var c1 := Receive(c, seg);
    ReceiveStage(c, seg);
    var c2 := ObeyRst(c1, seg);
    ObeyRstStage(c1, seg);
    StageTrans(c, c1, c2);
    var c3 := ObeyAck(c2, seg);
    ObeyAckStage(c2, seg);
    StageTrans(c, c2, c3);
    var c4 := Reply(c3, seg);
    ReplyStage(c3, seg);
    StageTrans(c, c3, c4);
    var c5 := AnswerSyn(c4, seg);
    AnswerSynStage(c4, seg);
    StageTrans(c, c4, c5);
    SwitchStage(c5);
    StageTrans(c, c5, TrySwitchingCloseMode(c5));
  }

  lemma WriteStage(c: Connection, data: seq<Byte>)
    requires Steady(c)
    ensures Stage(c, Write(c, data))
  {
    hide P.Inv, P.TimerInv, A.Inv, FillWindow, SendSegments;
    if !WriteRefused(c) {
      var s := c.sender.(stream := S.Write(c.sender.stream, data));
      P.StreamGrows(c.sender, s.stream);
      StreamTimer(c.sender, s.stream);
      SenderStage(c, s);
      var c1 := c.(sender := s);
      FillWindowStage(c1);
      SendSegmentsStage(FillWindow(c1), false);
      StageTrans(c, c1, FillWindow(c1));
      StageTrans(c, FillWindow(c1), Write(c, data));
    }
  }

  lemma StreamTimer(s: T.Sender, stream: S.Stream)
    ensures P.TimerInv(s) <==> P.TimerInv(s.(stream := stream))
  {
    hide P.BackedOff;
  }

  lemma EndInputStage(c: Connection)
    requires Steady(c)
    ensures Stage(c, EndInputStream(c))
  {
    hide P.Inv, P.TimerInv, A.Inv, FillWindow, TryClosing;
    var s := c.sender.(stream := S.EndInput(c.sender.stream));
    P.StreamGrows(c.sender, s.stream);
    StreamTimer(c.sender, s.stream);
    SenderStage(c, s);
    var c1 := c.(sender := s);
    FillWindowStage(c1);
    TryClosingStage(FillWindow(c1));
    StageTrans(c, c1, FillWindow(c1));
    StageTrans(c, FillWindow(c1), EndInputStream(c));
  }

  lemma TickOk(s: T.Sender, ms: nat)
    requires SenderOk(s)
    ensures SenderOk(T.Tick(s, ms)) && P.Progress(s, T.Tick(s, ms)) && T.Tick(s, ms).stream == s.stream
  {
    hide P.Inv, P.TimerInv;
    P.TickKeeps(s, ms);
    if 0 < s.rto {
      P.TickKeepsTimer(s, ms);
    }
  }

  lemma GiveUpOrSendStage(c: Connection)
    requires Steady(c) && c.active
    ensures Stage(c, GiveUpOrSend(c))
    ensures GiveUpOrSend(c).active ==> GiveUpOrSend(c).sender.retransmissions <= MAX_RETX_ATTEMPTS
  {
    hide P.Tiles, P.TimerInv, A.Inv, Reset, SendSegments, EnsureQueued;
    if c.sender.retransmissions > MAX_RETX_ATTEMPTS {
      assert SynSent(c);
      var c1 := EnsureQueued(c);
      EnsureQueuedStage(c);
      var c2 := SendSegments(c1, true);
      SendSegmentsStage(c1, true);
      StageTrans(c, c1, c2);
      ResetStage(c2);
      StageTrans(c, c2, Reset(c2));
    } else {
      SendSegmentsStage(c, false);
    }
  }

  // Only an arriving segment can end the inbound stream.
  lemma InboundUntouched(c: Connection, e: Event)
    requires !e.Arriving?
    ensures InboundEnded(Apply(c, e)) == InboundEnded(c)
  {
    hide T.Tick, T.Fill, T.SendEmpty, StampAll, InboundDone, OutboundDone;
  }

  lemma LingerStays(c: Connection, c': Connection)
    requires LingerDecided(c) && Forward(c, c') && InboundEnded(c') == InboundEnded(c)
    ensures LingerDecided(c')
  {
  }

  lemma ForwardTrans(a: Connection, b: Connection, c: Connection)
    requires Forward(a, b) && Forward(b, c)
    ensures Forward(a, c)
  {
  }

  lemma TickSenderSteady(c: Connection, ms: nat)
    requires Steady(c) && c.active
    ensures var c1 := c.(sender := T.Tick(c.sender, ms), sinceLastSegment := c.sinceLastSegment + ms);
            Steady(c1) && Forward(c, c1)
  {
    hide P.Inv, P.TimerInv, A.Inv, T.Tick;
    TickOk(c.sender, ms);
  }

  lemma TickStage(c: Connection, ms: nat)
    requires Steady(c) && (c.active ==> c.sender.retransmissions <= MAX_RETX_ATTEMPTS)
    ensures var c' := Tick(c, ms);
            Steady(c') && Forward(c, c') && (c'.active ==> c'.sender.retransmissions <= MAX_RETX_ATTEMPTS)
  {
    hide Steady, T.Tick, GiveUpOrSend, TryClosing;
    if c.active {
      var c1 := c.(sender := T.Tick(c.sender, ms), sinceLastSegment := c.sinceLastSegment + ms);
      TickSenderSteady(c, ms);
      var c2 := GiveUpOrSend(c1);
      GiveUpOrSendStage(c1);
      TryClosingStage(c2);
      StageTrans(c1, c2, TryClosing(c2));
      ForwardTrans(c, c1, TryClosing(c2));
    }
  }

  /** Every call keeps the invariant and moves the endpoint forward, whatever segment arrives. */
  lemma ApplyKeeps(c: Connection, e: Event)
    requires Inv(c)
    ensures Inv(Apply(c, e)) && Forward(c, Apply(c, e))
  {
    hide Steady, Forward, LingerDecided, Connect, Write, EndInputStream, SegmentReceived, Tick, InboundEnded;
    match e {
      case Connecting => ConnectStage(c);
      case Writing(data) => WriteStage(c, data);
      case Ending => EndInputStage(c);
      case Arriving(seg) => SegmentReceivedStage(c, seg);
      case Ticking(ms) => TickStage(c, ms);
      case Reading(len) => ReadStage(c, len);
    }
    if !e.Arriving? {
      InboundUntouched(c, e);
      LingerStays(c, Apply(c, e));
    }
    if !e.Ticking? {
      PatienceKept(c, Apply(c, e));
    }
  }

  lemma PatienceKept(c: Connection, c': Connection)
    requires Inv(c) && Stage(c, c')
    ensures c'.active ==> c'.sender.retransmissions <= MAX_RETX_ATTEMPTS
  {
    hide Steady;
  }

  lemma ReadStage(c: Connection, len: nat)
    requires Steady(c)
    ensures Stage(c, ReadInbound(c, len))
  {
    hide P.Inv, P.TimerInv, A.Inv;
    A.PopKeepsInv(c.receiver.assembly, len);
    ReceiverStage(c, R.ReadInbound(c.receiver, len));
  }

  lemma NewInv(sendCapacity: nat, recvCapacity: nat, rtTimeout: nat, isn: U32)
    ensures Inv(NewConnection(sendCapacity, recvCapacity, rtTimeout, isn))
  {
    P.NewSenderInv(sendCapacity, rtTimeout, isn);
  }

  lemma {:induction false} RunKeeps(c: Connection, events: seq<Event>)
    requires Inv(c)
    ensures Inv(After(c, events)) && Forward(c, After(c, events))
  {
    hide Inv, Apply;
    if events != [] {
      var before := events[..|events| - 1];
      RunKeeps(c, before);
      ApplyKeeps(After(c, before), events[|events| - 1]);
      ForwardTrans(c, After(c, before), After(c, events));
    }
  }
}
