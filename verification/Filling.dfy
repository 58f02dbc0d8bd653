/** When an endpoint leaves nothing unsent that the window has room for. */
module Filling {
  import opened Common
  import opened WrappingIntegers
  import opened Segments
  import opened ConnectionSpec
  import opened ConnectionProofs
  import S = StreamSpec
  import A = AssemblySpec
  import R = ReceiverSpec
  import T = SenderSpec
  import P = SenderProofs

  // The application's calls

  lemma FillWindowExhausts(c: Connection)
    requires Steady(c)
    ensures P.Exhausted(FillWindow(c).sender)
    ensures FillWindow(c).sender.stream.(popped := c.sender.stream.popped) == c.sender.stream
  {
    hide P.Inv, T.Fill, T.FinSent;
    P.FillExhausts(c.sender);
    P.FillKeeps(c.sender);
  }

  lemma SendKeepsStream(c: Connection, rst: bool)
    ensures SendSegments(c, rst).sender == c.sender.(segmentsOut := SendSegments(c, rst).sender.segmentsOut)
    ensures TryClosing(c).sender == c.sender.(segmentsOut := TryClosing(c).sender.segmentsOut)
  {
    hide StampAll, InboundDone, OutboundDone;
  }

  // The application writes or ends its stream, and the window is filled.
  lemma StreamThenFill(c: Connection, stream: S.Stream)
    requires Steady(c) && stream.popped == c.sender.stream.popped && stream.error == c.sender.stream.error
    requires c.sender.stream.written <= stream.written
    requires c.sender.stream.ended ==> stream.ended && stream.written == c.sender.stream.written
    ensures var c1 := c.(sender := c.sender.(stream := stream));
            P.Exhausted(FillWindow(c1).sender)
            && FillWindow(c1).sender.stream.(popped := stream.popped) == stream
  {
    hide P.Inv, P.TimerInv, A.Inv, P.Exhausted, FillWindow;
    var s := c.sender.(stream := stream);
    P.StreamGrows(c.sender, stream);
    StreamTimer(c.sender, stream);
    SenderStage(c, s);
    FillWindowExhausts(c.(sender := s));
  }

  /**
   A write after the end of the stream or before SYN changes nothing; any other appends what fits to the
   outbound stream and sends what the window has room for.
   */
  lemma WriteAppends(c: Connection, data: seq<Byte>)
    requires Inv(c)
    ensures var c' := Write(c, data);
            if c.sender.stream.ended || c.sender.next == 0 then
              c' == c
            else
              && c'.sender.stream.written == c.sender.stream.written + data[..Min(|data|, S.Remaining(c.sender.stream))]
              && P.Exhausted(c'.sender)
  {
    hide Steady, FillWindow, SendSegments;
    if !WriteRefused(c) {
      var stream := S.Write(c.sender.stream, data);
      StreamThenFill(c, stream);
      SendKeepsStream(FillWindow(c.(sender := c.sender.(stream := stream))), false);
    }
  }

  /** Ending the stream adds no byte, and sends FIN as soon as the window has room for it. */
  lemma EndingSendsFin(c: Connection)
    requires Inv(c)
    ensures var c' := EndInputStream(c);
            c'.sender.stream.ended && c'.sender.stream.written == c.sender.stream.written && P.Exhausted(c'.sender)
  {
    hide Steady, FillWindow, TryClosing;
    var stream := S.EndInput(c.sender.stream);
    StreamThenFill(c, stream);
    SendKeepsStream(FillWindow(c.(sender := c.sender.(stream := stream))), false);
  }

  // Arriving segments

  // What the reply changes is only the queue.
  lemma ReplyKeepsSender(c: Connection, seg: Segment)
    ensures var s := Reply(c, seg).sender;
            s == c.sender.(segmentsOut := s.segmentsOut)
  {
    hide StampAll;
  }

  lemma ExhaustedElsewhere(s: T.Sender, s': T.Sender)
    requires s'.next == s.next && s'.acked == s.acked && s'.window == s.window
    requires s'.stream.(error := s.stream.error) == s.stream
    ensures P.Exhausted(s') <==> P.Exhausted(s)
  {
  }

  lemma ObeyRstKeepsNumbers(c: Connection, seg: Segment)
    ensures var s := ObeyRst(Receive(c, seg), seg).sender;
            s == c.sender.(stream := s.stream) && s.stream.(error := c.sender.stream.error) == c.sender.stream
  {
    hide R.SegmentReceived;
  }

  /**
   After a segment has arrived, nothing is left unsent that the window has room for exactly if: it is the SYN
   that opens the connection; or its acknowledgement is accepted; or nothing was left, by the window it brings
   if it acknowledges and by the old one if not.
   */
  lemma ArrivalExhaustsIff(c: Connection, seg: Segment)
    requires Inv(c)
    ensures P.Exhausted(SegmentReceived(c, seg).sender) <==>
            || (seg.header.syn && c.sender.next == 0)
            || (if seg.header.ack then
                  T.AckAccepted(c.sender, seg.header.ackno) || P.Exhausted(c.sender.(window := seg.header.win))
                else
                  P.Exhausted(c.sender))
  {
    hide Steady, P.Exhausted, T.AckAccepted, T.AckReceived, Receive, ObeyRst, Reply, Connect, TrySwitchingCloseMode,
         R.SegmentReceived;
    var c2 := ObeyRst(Receive(c, seg), seg);
    ObeyRstKeepsNumbers(c, seg);
    ReceiveStage(c, seg);
    ObeyRstStage(Receive(c, seg), seg);
    ExhaustedElsewhere(c.sender, c2.sender);
    ExhaustedElsewhere(c.sender.(window := seg.header.win), c2.sender.(window := seg.header.win));
    var c3 := ObeyAck(c2, seg);
    ObeyAckStage(c2, seg);
    SteadySender(c2);
    if seg.header.ack {
      P.AckReceivedExhaustsIff(c2.sender, seg.header.ackno, seg.header.win);
      SameAccepted(c.sender, c2.sender, seg.header.ackno);
      UnsentStaysUnsent(c2.sender, seg.header.ackno, seg.header.win);
    }
    var c4 := Reply(c3, seg);
    ReplyKeepsSender(c3, seg);
    ReplyStage(c3, seg);
    ExhaustedElsewhere(c3.sender, c4.sender);
    if seg.header.syn && !SynSent(c4) {
      ConnectExhausts(c4);
    }
    SwitchKeepsSender(AnswerSyn(c4, seg));
  }

  lemma SameAccepted(s: T.Sender, s': T.Sender, ackno: U32)
    requires s' == s.(stream := s'.stream)
    ensures T.AckAccepted(s', ackno) <==> T.AckAccepted(s, ackno)
  {
  }

  // Acknowledgements do not open the connection.
  lemma UnsentStaysUnsent(s: T.Sender, ackno: U32, window: U16)
    requires P.Inv(s)
    ensures T.AckReceived(s, ackno, window).next == 0 <==> s.next == 0
  {
    hide P.Inv, Unwrap, T.Fill, T.Acknowledge;
    P.AckReceivedMoves(s, ackno, window);
  }

  lemma ConnectExhausts(c: Connection)
    requires Steady(c)
    ensures P.Exhausted(Connect(c).sender)
  {
    hide Steady, P.Exhausted, FillWindow, SendSegments;
    FillWindowExhausts(c);
    SendKeepsStream(FillWindow(c), false);
    ExhaustedElsewhere(FillWindow(c).sender, Connect(c).sender);
  }

  lemma SwitchKeepsSender(c: Connection)
    ensures TrySwitchingCloseMode(c).sender == c.sender
  {
  }
}
