/** Runs of one endpoint in which a property that one might expect of the code fails. */
module Scenarios {
  import opened Common
  import opened WrappingIntegers
  import opened Segments
  import opened ConnectionSpec
  import opened ConnectionProofs
  import opened Backoffs
  import S = StreamSpec
  import A = AssemblySpec
  import R = ReceiverSpec
  import T = SenderSpec
  import P = SenderProofs

  // What a call leaves in the sender of an active connection: its queue is drained.
  function Drained(s: T.Sender): T.Sender {
    s.(segmentsOut := [])
  }

  // An active connection that has seen no FIN.
  predicate Running(c: Connection, s: T.Sender) {
    c.active && c.sender == s && !InboundEnded(c) && c.receiver.assembly.eofAt.None?
  }

  lemma NoFinNoEnd(r: R.Receiver, seg: Segment)
    requires !seg.header.fin && r.assembly.eofAt.None? && !r.assembly.output.ended
    ensures var a := R.SegmentReceived(r, seg).assembly;
            a.eofAt.None? && !a.output.ended
  {
    hide R.StreamIndex, A.Accepted, A.Run, A.Merged;
  }

  lemma AfterMore(c: Connection, events: seq<Event>, e: Event)
    ensures After(c, events + [e]) == Apply(After(c, events), e)
  {
    assert (events + [e])[..|events|] == events;
  }

  lemma ConnectRuns(c: Connection, s: T.Sender)
    requires Running(c, s)
    ensures Running(Connect(c), Drained(T.Fill(s)))
  {
    hide T.Fill, StampAll;
  }

  lemma WriteRuns(c: Connection, s: T.Sender, data: seq<Byte>)
    requires Running(c, s) && s.next > 0 && !s.stream.ended
    ensures Running(Write(c, data), Drained(T.Fill(s.(stream := S.Write(s.stream, data)))))
  {
    hide T.Fill, StampAll, S.Write;
  }

  lemma EndRuns(c: Connection, s: T.Sender)
    requires Running(c, s)
    ensures Running(EndInputStream(c), Drained(T.Fill(s.(stream := S.EndInput(s.stream)))))
  {
    hide T.Fill, StampAll, OutboundDone;
  }

  lemma TickRuns(c: Connection, s: T.Sender, ms: nat)
    requires Running(c, s) && T.Tick(s, ms).retransmissions <= MAX_RETX_ATTEMPTS
    ensures Running(Tick(c, ms), Drained(T.Tick(s, ms)))
  {
    hide T.Tick, StampAll, OutboundDone, EnsureQueued, Reset;
  }

  // An acknowledgement without data or flags, from a peer that opened at number 0.
  function Ack(ackno: U32, window: U16): Segment {
    Segment(DefaultHeader(1).(ack := true, ackno := ackno, win := window), [])
  }

  // The SYN of such a peer, which acknowledges ours.
  function SynAck(ackno: U32, window: U16): Segment {
    Segment(DefaultHeader(0).(syn := true, ack := true, ackno := ackno, win := window), [])
  }

  lemma AckRuns(c: Connection, s: T.Sender, seg: Segment)
    requires Running(c, s) && s.next > 0 && seg.header.ack && !seg.header.rst && !seg.header.fin && P.Inv(s)
    ensures Running(SegmentReceived(c, seg), Drained(T.AckReceived(s, seg.header.ackno, seg.header.win)))
  {
    hide T.AckReceived, StampAll, P.Inv, R.SegmentReceived;
    P.AckReceivedMoves(s, seg.header.ackno, seg.header.win);
    NoFinNoEnd(c.receiver, seg);
  }

  // The sender

  lemma FillOnce(s: T.Sender)
    requires T.CanFill(s) && !T.CanFill(T.FillStep(s))
    ensures T.Fill(s) == T.FillStep(s)
  {
    hide T.CanFill, T.FillStep;
  }

  lemma FillNot(s: T.Sender)
    requires !T.CanFill(s)
    ensures T.Fill(s) == s
  {
    hide T.CanFill;
  }

  function SynOut(isn: U32): T.Outgoing {
    T.Outgoing(0, Segment(DefaultHeader(Wrap(0, isn)).(syn := true), []))
  }

  // After `connect`: SYN is out, and the window of 1 is full.
  function Opened(capacity: nat, rto: nat, isn: U32): T.Sender {
    T.Sender(isn, [], rto, S.NewStream(capacity), 1, 0, 1, [SynOut(isn)], T.Timer(0, rto), 0, [SynOut(isn)])
  }

  lemma Opening(capacity: nat, rto: nat, isn: U32)
    ensures T.Fill(T.NewSender(capacity, rto, isn)) == Opened(capacity, rto, isn).(segmentsOut := [SynOut(isn)])
  {
    hide Wrap;
    var s := T.NewSender(capacity, rto, isn);
    assert S.Peek(s.stream, 0) == [];
    assert T.NextSegment(s) == SynOut(isn).segment;
    assert T.FillStep(s).stream == s.stream;
    FillOnce(s);
  }

  // After SYN is acknowledged, with an empty stream.
  function Established(capacity: nat, rto: nat, isn: U32, window: U16): T.Sender {
    T.Sender(isn, [], rto, S.NewStream(capacity), 1, 1, window, [], T.Timer(0, rto), 0, [SynOut(isn)])
  }

  lemma SynAcknowledged(s: T.Sender, window: U16)
    requires s.next == 1 && s.acked == 0 && s.outstanding == [SynOut(s.isn)]
    ensures T.AckReceived(s, Wrap(1, s.isn), window) ==
            T.Fill(s.(acked := 1, window := window, outstanding := [], timer := T.Timer(0, s.rto), retransmissions := 0))
  {
    hide Wrap, Unwrap, T.Fill;
    UnwrapInvertsWrap(1, s.isn, 0);
    assert [SynOut(s.isn)][1..] == [];
    assert T.DropAcked(s.outstanding, 1) == T.DropAcked([], 1) == [];
    assert T.AckAccepted(s, Wrap(1, s.isn));
  }

  lemma Establishing(capacity: nat, rto: nat, isn: U32, window: U16)
    ensures T.AckReceived(Opened(capacity, rto, isn), Wrap(1, isn), window) == Established(capacity, rto, isn, window)
  {
    hide Wrap, T.AckReceived;
    SynAcknowledged(Opened(capacity, rto, isn), window);
    var s := Established(capacity, rto, isn, window);
    assert S.Buffered(s.stream) == [];
    FillNot(s);
  }

  // The first two events of every scenario: we connect, and the peer answers.
  lemma Handshake(sendCapacity: nat, recvCapacity: nat, rto: nat, isn: U32, window: U16)
    ensures var c := NewConnection(sendCapacity, recvCapacity, rto, isn);
            && Running(After(c, [Connecting]), Opened(sendCapacity, rto, isn))
            && Running(After(c, [Connecting, Arriving(SynAck(Wrap(1, isn), window))]),
                       Established(sendCapacity, rto, isn, window))
            && Inv(After(c, [Connecting])) && Inv(After(c, [Connecting, Arriving(SynAck(Wrap(1, isn), window))]))
  {
    hide Wrap, Inv, T.Fill, T.AckReceived, Connect, SegmentReceived, Opened, Established;
    var c, e := NewConnection(sendCapacity, recvCapacity, rto, isn), Arriving(SynAck(Wrap(1, isn), window));
    NewInv(sendCapacity, recvCapacity, rto, isn);
    RunKeeps(c, [Connecting]);
    RunKeeps(c, [Connecting, e]);
    AfterMore(c, [], Connecting);
    AfterMore(c, [Connecting], e);
    assert [] + [Connecting] == [Connecting] && [Connecting] + [e] == [Connecting, e];
    Opening(sendCapacity, rto, isn);
    ConnectRuns(c, T.NewSender(sendCapacity, rto, isn));
    var s1 := Opened(sendCapacity, rto, isn);
    SenderInv(After(c, [Connecting]));
    OpenedStream(sendCapacity, rto, isn);
    EstablishedNumbers(sendCapacity, rto, isn, window);
    AckRuns(After(c, [Connecting]), s1, e.segment);
    Establishing(sendCapacity, rto, isn, window);
  }

  // A repeated acknowledgement that opens the window

  function DataOut(at: nat, isn: U32, data: seq<Byte>): T.Outgoing {
    T.Outgoing(at, Segment(DefaultHeader(Wrap(at % TWO_64, isn)), data))
  }

  // Two bytes are written into a window of one: the second stays behind.
  lemma SecondByteWaits(capacity: nat, rto: nat, isn: U32, x: Byte, y: Byte)
    requires capacity >= 2
    ensures var s := Established(capacity, rto, isn, 1);
            Drained(T.Fill(s.(stream := S.Write(s.stream, [x, y])))) ==
            s.(stream := S.StreamState(capacity, [x, y], 1, false, false), next := 2,
               outstanding := [DataOut(1, isn, [x])], firsts := s.firsts + [DataOut(1, isn, [x])])
  {
    hide Wrap;
    var s0 := Established(capacity, rto, isn, 1);
    var s := s0.(stream := S.Write(s0.stream, [x, y]));
    assert s.stream == S.StreamState(capacity, [x, y], 0, false, false);
    assert S.Peek(s.stream, 1) == [x];
    assert T.NextSegment(s) == DataOut(1, isn, [x]).segment;
    var s1 := T.FillStep(s);
    assert S.Peek(s1.stream, 0) == [];
    assert !T.CanFill(s1);
    FillOnce(s);
  }

  /**
   We connect; the peer answers with a window of 1; two bytes are written, and one is sent. The peer then
   repeats its acknowledgement with a window of 3: there is room for the second byte, but it is not sent.
   */
  lemma WiderWindowGoesUnused(sendCapacity: nat, recvCapacity: nat, rto: nat, isn: U32, x: Byte, y: Byte)
    requires sendCapacity >= 2
    ensures var wider := Arriving(Ack(Wrap(1, isn), 3));
            var events := [Connecting, Arriving(SynAck(Wrap(1, isn), 1)), Writing([x, y])];
            var c := After(NewConnection(sendCapacity, recvCapacity, rto, isn), events);
            var c' := Apply(c, wider);
            && c'.active && c'.out == c.out
            && c'.sender.next == 2 && c'.sender.acked == 1 && c'.sender.window == 3
            && S.Buffered(c'.sender.stream) == [y]
            && !P.Exhausted(c'.sender)
  {
    hide Wrap, Unwrap, Inv, T.Fill, Write, SegmentReceived, Established;
    var c0 := NewConnection(sendCapacity, recvCapacity, rto, isn);
    var answer, ack := Arriving(SynAck(Wrap(1, isn), 1)), Ack(Wrap(1, isn), 3);
    var s2 := Established(sendCapacity, rto, isn, 1);
    Handshake(sendCapacity, recvCapacity, rto, isn, 1);
    var c2 := After(c0, [Connecting, answer]);
    AfterMore(c0, [Connecting, answer], Writing([x, y]));
    assert [Connecting, answer] + [Writing([x, y])] == [Connecting, answer, Writing([x, y])];
    EstablishedNumbers(sendCapacity, rto, isn, 1);
    WriteRuns(c2, s2, [x, y]);
    var c3 := Write(c2, [x, y]);
    SecondByteWaits(sendCapacity, rto, isn, x, y);
    ApplyKeeps(c2, Writing([x, y]));
    SenderInv(c3);
    AckRuns(c3, c3.sender, ack);
    UnwrapInvertsWrap(1, isn, 1);
    QuietAck(c3, ack);
  }

  lemma EstablishedNumbers(capacity: nat, rto: nat, isn: U32, window: U16)
    ensures var s := Established(capacity, rto, isn, window);
            && s.next == 1 && s.acked == 1 && s.window == window && s.isn == isn && s.rto == rto
            && s.stream == S.NewStream(capacity) && s.timer == T.Timer(0, rto) && s.retransmissions == 0
            && s.outstanding == [] && Drained(s) == s
  {
  }

  // An acknowledgement that is not accepted and carries nothing makes nothing be sent.
  lemma QuietAck(c: Connection, seg: Segment)
    requires c.active && c.sender.next > 0 && c.sender.segmentsOut == []
    requires seg.header.ack && !seg.header.rst && Length(seg) == 0 && !T.AckAccepted(c.sender, seg.header.ackno)
    ensures SegmentReceived(c, seg).out == c.out
    ensures SegmentReceived(c, seg).sender == c.sender.(window := seg.header.win)
  {
    hide R.SegmentReceived, T.AckAccepted;
    assert c.out + [] == c.out;
  }

  // A FIN beyond the window

  // While SYN is unacknowledged the window is full, whatever is written or ended.
  lemma FullWindowWaits(capacity: nat, rto: nat, isn: U32, stream: S.Stream)
    requires stream.popped == 0 && stream.written != []
    ensures var s := Opened(capacity, rto, isn).(stream := stream);
            Drained(T.Fill(s)) == s
  {
    hide Wrap;
    var s := Opened(capacity, rto, isn).(stream := stream);
    assert S.Peek(stream, 0) == [];
    FillNot(s);
  }

  lemma FullSegment(capacity: nat, rto: nat, isn: U32, data: seq<Byte>)
    requires |data| == T.MAX_PAYLOAD_SIZE <= capacity
    ensures var s := Established(capacity, rto, isn, 1000).(stream := S.StreamState(capacity, data, 0, true, false));
            T.PayloadRoom(s) == 1000 && T.NextSegment(s) == Segment(DefaultHeader(Wrap(1, isn)).(fin := true), data)
  {
    hide Wrap;
    var s := Established(capacity, rto, isn, 1000).(stream := S.StreamState(capacity, data, 0, true, false));
    assert T.Room(s) == 1000;
    assert S.Peek(s.stream, 1000) == data;
  }

  lemma FullPayloadTakesFin(capacity: nat, rto: nat, isn: U32, data: seq<Byte>)
    requires |data| == T.MAX_PAYLOAD_SIZE <= capacity
    ensures var stream := S.StreamState(capacity, data, 0, true, false);
            var s := T.AckReceived(Opened(capacity, rto, isn).(stream := stream), Wrap(1, isn), 1000);
            && s.next == 1002 && s.acked == 1 && s.window == 1000
            && s.outstanding == [T.Outgoing(1, Segment(DefaultHeader(Wrap(1, isn)).(fin := true), data))]
  {
    hide Wrap, T.AckReceived, T.NextSegment, T.PayloadRoom;
    var stream := S.StreamState(capacity, data, 0, true, false);
    SynAcknowledged(Opened(capacity, rto, isn).(stream := stream), 1000);
    var s := Established(capacity, rto, isn, 1000).(stream := stream);
    FullSegment(capacity, rto, isn, data);
    assert T.FinSent(T.FillStep(s));
    FillOnce(s);
  }

  /**
   We connect, write 1000 bytes and end the stream; the peer answers with a window of 1000. One segment takes
   all the bytes and the FIN, which is number 1001 while the window ends before 1001.
   */
  lemma FinPassesEdge(sendCapacity: nat, recvCapacity: nat, rto: nat, isn: U32, data: seq<Byte>)
    requires |data| == T.MAX_PAYLOAD_SIZE <= sendCapacity
    ensures var events := [Connecting, Writing(data), Ending, Arriving(SynAck(Wrap(1, isn), 1000))];
            var s := After(NewConnection(sendCapacity, recvCapacity, rto, isn), events).sender;
            s.acked + s.window == 1001 && s.next == 1002
  {
    hide Wrap, Inv, T.Fill, T.AckReceived, Connect, Write, EndInputStream, SegmentReceived, Opened;
    var c0, e := NewConnection(sendCapacity, recvCapacity, rto, isn), Arriving(SynAck(Wrap(1, isn), 1000));
    Handshake(sendCapacity, recvCapacity, rto, isn, 0);
    var c1, s1 := After(c0, [Connecting]), Opened(sendCapacity, rto, isn);
    OpenedStream(sendCapacity, rto, isn);
    var w := S.StreamState(sendCapacity, data, 0, false, false);
    assert S.Write(s1.stream, data) == w by {
      assert [] + data[..1000] == data;
    }
    WriteRuns(c1, s1, data);
    FullWindowWaits(sendCapacity, rto, isn, w);
    var c2 := Write(c1, data);
    EndRuns(c2, s1.(stream := w));
    FullWindowWaits(sendCapacity, rto, isn, w.(ended := true));
    var c3 := EndInputStream(c2);
    AfterThree(c0, Connecting, Writing(data), Ending, e);
    ApplyKeeps(c1, Writing(data));
    ApplyKeeps(c2, Ending);
    SenderInv(c3);
    AckRuns(c3, s1.(stream := w.(ended := true)), e.segment);
    FullPayloadTakesFin(sendCapacity, rto, isn, data);
  }

  lemma OpenedStream(capacity: nat, rto: nat, isn: U32)
    ensures var s := Opened(capacity, rto, isn);
            s.stream == S.NewStream(capacity) && s.next == 1 && Drained(s) == s
  {
  }

  lemma AfterThree(c: Connection, a: Event, b: Event, d: Event, e: Event)
    ensures After(c, [a, b, d, e]) == Apply(Apply(Apply(After(c, [a]), b), d), e)
    ensures After(c, [a, b, d]) == Apply(Apply(After(c, [a]), b), d)
  {
    hide After, Apply;
    AfterMore(c, [a], b);
    AfterMore(c, [a, b], d);
    AfterMore(c, [a, b, d], e);
    assert [a] + [b] == [a, b] && [a, b] + [d] == [a, b, d] && [a, b, d] + [e] == [a, b, d, e];
  }

  // An acknowledgement that takes the timeout off its count

  lemma BothBytesGo(capacity: nat, rto: nat, isn: U32, x: Byte, y: Byte)
    requires capacity >= 2
    ensures var s := Established(capacity, rto, isn, 10);
            Drained(T.Fill(s.(stream := S.Write(s.stream, [x, y])))) ==
            s.(stream := S.StreamState(capacity, [x, y], 2, false, false), next := 3,
               outstanding := [DataOut(1, isn, [x, y])], firsts := s.firsts + [DataOut(1, isn, [x, y])])
  {
    hide Wrap;
    var s0 := Established(capacity, rto, isn, 10);
    var s := s0.(stream := S.Write(s0.stream, [x, y]));
    assert s.stream == S.StreamState(capacity, [x, y], 0, false, false);
    assert S.Peek(s.stream, 10) == [x, y];
    assert T.NextSegment(s) == DataOut(1, isn, [x, y]).segment;
    var s1 := T.FillStep(s);
    assert S.Buffered(s1.stream) == [];
    FillOnce(s);
  }

  /**
   Two bytes go out in one segment and are retransmitted once; the peer then acknowledges the first byte only.
   The count of retransmissions is back to 0, but the timeout stays doubled.
   */
  lemma PartialAckDerails(sendCapacity: nat, recvCapacity: nat, rto: nat, isn: U32, x: Byte, y: Byte)
    requires sendCapacity >= 2 && 0 < rto
    ensures var events := [Connecting, Arriving(SynAck(Wrap(1, isn), 10)), Writing([x, y]), Ticking(rto)];
            var c := After(NewConnection(sendCapacity, recvCapacity, rto, isn), events);
            var partial := Arriving(Ack(Wrap(2, isn), 10));
            && Derails(c, partial) && P.ExactBackoff(c.sender) && c.sender.retransmissions == 1
            && Apply(c, partial).sender.retransmissions == 0 && Apply(c, partial).sender.timer.timeout == 2 * rto
            && !P.ExactBackoff(Apply(c, partial).sender)
  {
    hide Wrap, Unwrap, Inv, T.Fill, Write, Tick, SegmentReceived, Established;
    var c0, answer := NewConnection(sendCapacity, recvCapacity, rto, isn), Arriving(SynAck(Wrap(1, isn), 10));
    Handshake(sendCapacity, recvCapacity, rto, isn, 10);
    var c2, s2 := After(c0, [Connecting, answer]), Established(sendCapacity, rto, isn, 10);
    EstablishedNumbers(sendCapacity, rto, isn, 10);
    WriteRuns(c2, s2, [x, y]);
    BothBytesGo(sendCapacity, rto, isn, x, y);
    var c3 := Write(c2, [x, y]);
    TickRuns(c3, c3.sender, rto);
    var c4 := Tick(c3, rto);
    AfterThree(c0, Connecting, answer, Writing([x, y]), Ticking(rto));
    AfterMore(c0, [Connecting], answer);
    assert [Connecting] + [answer] == [Connecting, answer];
    ApplyKeeps(c2, Writing([x, y]));
    ApplyKeeps(c3, Ticking(rto));
    Derailed(c4, rto, isn, x, y);
  }

  lemma Derailed(c: Connection, rto: nat, isn: U32, x: Byte, y: Byte)
    requires Inv(c) && 0 < rto
    requires var s := c.sender;
             && s.isn == isn && s.rto == rto && s.acked == 1 && s.next == 3 && s.outstanding == [DataOut(1, isn, [x, y])]
             && s.retransmissions == 1 && s.timer.timeout == 2 * rto && Running(c, s)
    ensures var partial := Arriving(Ack(Wrap(2, isn), 10));
            && Derails(c, partial) && P.ExactBackoff(c.sender)
            && Apply(c, partial).sender.retransmissions == 0 && Apply(c, partial).sender.timer.timeout == 2 * rto
            && !P.ExactBackoff(Apply(c, partial).sender)
  {
    hide Wrap, Unwrap, Inv, T.Fill, SegmentReceived;
    var ack := Ack(Wrap(2, isn), 10);
    var s := c.sender;
    SenderInv(c);
    UnwrapInvertsWrap(2, isn, 1);
    assert P.Backoff(rto, 1) == 2 * P.Backoff(rto, 0) && P.Backoff(rto, 0) == rto;
    AckRuns(c, s, ack);
    SteadyTimer(c);
    P.FillKeepsTimer(T.Acknowledge(s.(window := 10), 2));
  }

  lemma SteadyTimer(c: Connection)
    requires Inv(c) && 0 < c.sender.rto && c.sender.acked == 1 && c.sender.next == 3 && |c.sender.outstanding| == 1
    requires T.DropAcked(c.sender.outstanding, 2) == c.sender.outstanding
    ensures P.TimerInv(T.Acknowledge(c.sender.(window := 10), 2))
  {
    hide P.Inv, P.BackedOff;
    P.AcknowledgeKeepsTimer(c.sender.(window := 10), 2);
  }
}
